/** Keyset pagination of file lists (pkg/repositories/filesquery/builder.go, pkg/services/file.go). */
module Paging {
  import opened Streams
  import opened Decimal

  datatype Row = Row(id: nat, name: string, size: Option<int>, updated: nat)

  datatype Sort = ByName | BySize | ById | ByTime

  /** uuid.String and uuid.Parse, and time in RFC 3339 form: only that they are inverse is known, and
      that an identifier is printed without a colon. */
  datatype Formats = Formats(printId: nat -> string, parseId: string -> Option<nat>,
                             printTime: nat -> string, parseTime: string -> Option<nat>)
  {
    ghost predicate Lawful() {
      && (forall n: nat :: printId(n) != "" && ':' !in printId(n) && parseId(printId(n)) == Some(n))
      && (forall n: nat :: printTime(n) != "" && parseTime(printTime(n)) == Some(n))
    }
  }

  function Unary(n: nat): string {
    seq(n + 1, _ => '|')
  }

  function FromUnary(s: string): Option<nat> {
    if s == "" then None else Some(|s| - 1)
  }

  type LawfulFormats = f: Formats | f.Lawful() witness Formats(Unary, FromUnary, Unary, FromUnary)

  /** The collation of names. */
  type Collation = (string, string) -> bool

  ghost predicate StrictTotal(lt: Collation) {
    && (forall a, b :: lt(a, b) ==> !lt(b, a) && a != b)
    && (forall a, b :: a == b || lt(a, b) || lt(b, a))
    && (forall a, b, c {:trigger lt(a, b), lt(b, c)} :: lt(a, b) && lt(b, c) ==> lt(a, c))
  }

  /** A row as the table holds it: its size, if there is one, has 64 bits. */
  predicate Listed(row: Row) {
    row.size.Some? ==> MIN_INT64 <= row.size.value <= MAX_INT64
  }

  /** The sort field of this row is NULL, as the size of a folder is before a refresh. */
  predicate Null(sort: Sort, row: Row) {
    sort == BySize && row.size.None?
  }

  /** The sort field of this row is empty, so that its cursor is refused. */
  predicate Blank(sort: Sort, row: Row) {
    sort == ByName && row.name == ""
  }

  function Value(f: LawfulFormats, sort: Sort, row: Row): string
    requires sort == BySize ==> row.size.Some?
  {
    match sort
    case ByName => row.name
    case BySize => Format(row.size.value)
    case ById => f.printId(row.id)
    case ByTime => f.printTime(row.updated)
  }

  function Encode(f: LawfulFormats, sort: Sort, row: Row): string
    requires sort == BySize ==> row.size.Some?
  {
    Value(f, sort, row) + ":" + f.printId(row.id)
  }

  /** strings.LastIndex for one character. */
  function LastIndex(s: string, c: char): (i: int)
    ensures -1 <= i < |s|
    ensures i >= 0 ==> s[i] == c && c !in s[i + 1..]
    ensures i < 0 ==> c !in s
  {
    if s == "" then -1
    else if s[|s| - 1] == c then |s| - 1
    else
      assert s == s[..|s| - 1] + [s[|s| - 1]];
      var i := LastIndex(s[..|s| - 1], c);
      assert i >= 0 ==> s[i + 1..] == s[..|s| - 1][i + 1..] + [s[|s| - 1]];
      i
  }

  lemma {:induction false} LastIndexIs(s: string, c: char, k: nat)
    requires k < |s| && s[k] == c && c !in s[k + 1..]
    ensures LastIndex(s, c) == k
  {
    if k < |s| - 1 {
      var front := s[..|s| - 1];
      assert s[|s| - 1] == s[k + 1..][|s| - k - 2];
      assert s[k + 1..] == front[k + 1..] + [s[|s| - 1]];
      LastIndexIs(front, c, k);
    }
  }

  datatype Cursor = Start | At(value: string, id: nat) | BadCursor

  function Decode(f: LawfulFormats, cursor: string): Cursor {
    if cursor == "" then Start
    else
      var splitAt := LastIndex(cursor, ':');
      if splitAt <= 0 || splitAt >= |cursor| - 1 then BadCursor
      else
        match f.parseId(cursor[splitAt + 1..])
        case None => BadCursor
        case Some(id) => At(cursor[..splitAt], id)
  }

  /** A cursor survives exactly when the value in front of its last colon is not empty. */
  lemma CursorRoundTrip(f: LawfulFormats, sort: Sort, row: Row)
    requires sort == BySize ==> row.size.Some?
    ensures Decode(f, Encode(f, sort, row)) ==
            if Value(f, sort, row) != "" then At(Value(f, sort, row), row.id) else BadCursor
  {
    var v, id := Value(f, sort, row), f.printId(row.id);
    var s := v + ":" + id;
    assert s[|v|] == ':' && s[|v| + 1..] == id && s[..|v|] == v;
    LastIndexIs(s, ':', |v|);
  }

  datatype Bound =
    | NameBound(name: string, id: nat)
    | SizeBound(size: int, id: nat)
    | IdBound(id: nat)
    | TimeBound(time: nat, id: nat)

  function BuildCondition(f: LawfulFormats, sort: Sort, value: string, id: nat): Option<Bound> {
    match sort
    case ByName => Some(NameBound(value, id))
    case BySize => (match ParseInt(value) case None => None case Some(n) => Some(SizeBound(n, id)))
    case ById => Some(IdBound(id))
    case ByTime => (match f.parseTime(value) case None => None case Some(n) => Some(TimeBound(n, id)))
  }

  /** The WHERE clause of a cursor. Comparing a missing size selects nothing. */
  predicate Selects(lt: Collation, asc: bool, b: Bound, row: Row) {
    match b
    case NameBound(name, id) =>
      if asc then lt(name, row.name) || (row.name == name && row.id > id)
      else lt(row.name, name) || (row.name == name && row.id < id)
    case SizeBound(size, id) =>
      row.size.Some? &&
      (if asc then row.size.value > size || (row.size.value == size && row.id > id)
       else row.size.value < size || (row.size.value == size && row.id < id))
    case IdBound(id) => if asc then row.id > id else row.id < id
    case TimeBound(time, id) =>
      if asc then row.updated > time || (row.updated == time && row.id > id)
      else row.updated < time || (row.updated == time && row.id < id)
  }

  /** ORDER BY the field, then the identifier, both in the same direction. NULL counts as larger than all
      values, so that it comes last in ascending and first in descending order. */
  predicate Before(lt: Collation, sort: Sort, asc: bool, a: Row, b: Row) {
    var (x, y) := if asc then (a, b) else (b, a);
    match sort
    case ByName => lt(x.name, y.name) || (x.name == y.name && x.id < y.id)
    case BySize => Smaller(x.size, y.size) || (x.size == y.size && x.id < y.id)
    case ById => x.id < y.id
    case ByTime => x.updated < y.updated || (x.updated == y.updated && x.id < y.id)
  }

  predicate Smaller(x: Option<int>, y: Option<int>) {
    x.Some? && (y.Some? ==> x.value < y.value)
  }

  /** What the cursor of a row stands for. */
  function BoundOf(sort: Sort, row: Row): Bound
    requires !Null(sort, row)
  {
    match sort
    case ByName => NameBound(row.name, row.id)
    case BySize => SizeBound(row.size.value, row.id)
    case ById => IdBound(row.id)
    case ByTime => TimeBound(row.updated, row.id)
  }

  lemma CursorParses(f: LawfulFormats, sort: Sort, row: Row)
    requires Listed(row) && !Null(sort, row) && !Blank(sort, row)
    ensures Value(f, sort, row) != ""
    ensures BuildCondition(f, sort, Value(f, sort, row), row.id) == Some(BoundOf(sort, row))
  {
    if sort == BySize {
      var n := row.size.value;
      FormatParses(n);
      FormatNatParses(if n < 0 then -n else n);
    }
  }

  /** The cursor of a row selects exactly the rows that come after it and are not NULL. */
  lemma CursorSelectsLater(f: LawfulFormats, lt: Collation, sort: Sort, asc: bool, last: Row) returns (b: Bound)
    requires Listed(last) && !Null(sort, last) && !Blank(sort, last)
    ensures Decode(f, Encode(f, sort, last)) == At(Value(f, sort, last), last.id)
    ensures BuildCondition(f, sort, Value(f, sort, last), last.id) == Some(b)
    ensures forall row :: Selects(lt, asc, b, row) <==> !Null(sort, row) && Before(lt, sort, asc, last, row)
  {
    hide Decode, Encode, Value, BuildCondition;
    CursorRoundTrip(f, sort, last);
    CursorParses(f, sort, last);
    b := BoundOf(sort, last);
  }

  /** The matching rows of a table, in the order of the query. */
  ghost predicate Ordered(lt: Collation, sort: Sort, asc: bool, rows: seq<Row>) {
    && (forall i :: 0 <= i < |rows| ==> Listed(rows[i]))
    && (forall i, j :: 0 <= i < j < |rows| ==> Before(lt, sort, asc, rows[i], rows[j]))
  }

  /** What an ordered listing looks like: names, sizes or times go up in ascending order and down in descending
      order, identifiers decide between equal ones in the same direction, and missing sizes come last in
      ascending order and first in descending order. */
  lemma OrderedMeans(lt: Collation, sort: Sort, asc: bool, rows: seq<Row>, i: nat, j: nat)
    requires StrictTotal(lt) && Ordered(lt, sort, asc, rows) && i < j < |rows|
    ensures var (low, high) := if asc then (rows[i], rows[j]) else (rows[j], rows[i]);
            match sort
            case ByName => !lt(high.name, low.name) && (low.name == high.name ==> low.id < high.id)
            case BySize =>
              && (high.size.Some? ==> low.size.Some? && low.size.value <= high.size.value)
              && (low.size == high.size ==> low.id < high.id)
            case ById => low.id < high.id
            case ByTime => low.updated <= high.updated && (low.updated == high.updated ==> low.id < high.id)
  {
    assert Before(lt, sort, asc, rows[i], rows[j]);
  }

  /** Identifiers are unique, so any two rows are comparable: there is only one order to list them in. */
  lemma BeforeIsStrictTotal(lt: Collation, sort: Sort, asc: bool, a: Row, b: Row, c: Row)
    requires StrictTotal(lt)
    ensures a.id != b.id ==> Before(lt, sort, asc, a, b) || Before(lt, sort, asc, b, a)
    ensures Before(lt, sort, asc, a, b) ==> !Before(lt, sort, asc, b, a)
    ensures Before(lt, sort, asc, a, b) && Before(lt, sort, asc, b, c) ==> Before(lt, sort, asc, a, c)
  {
    if sort == ByName {
      assert lt(a.name, b.name) && lt(b.name, c.name) ==> lt(a.name, c.name);
      assert lt(c.name, b.name) && lt(b.name, a.name) ==> lt(c.name, a.name);
    }
  }

  function Matching(lt: Collation, asc: bool, rows: seq<Row>, bound: Option<Bound>): seq<Row> {
    if bound.None? then rows
    else if rows == [] then []
    else
      var rest := Matching(lt, asc, rows[1..], bound);
      if Selects(lt, asc, bound.value, rows[0]) then [rows[0]] + rest else rest
  }

  /** A bound that selects the rows from k to m leaves those. */
  lemma {:induction false} MatchingIsSlice(lt: Collation, asc: bool, rows: seq<Row>, k: nat, m: nat, b: Bound)
    requires k <= m <= |rows| && forall i :: 0 <= i < |rows| ==> (Selects(lt, asc, b, rows[i]) <==> k <= i < m)
    ensures Matching(lt, asc, rows, Some(b)) == rows[k..m]
    decreases |rows|
  {
    if rows != [] {
      var rest := rows[1..];
      var j, n := if k == 0 then 0 else k - 1, if m == 0 then 0 else m - 1;
      forall i | 0 <= i < |rest| ensures Selects(lt, asc, b, rest[i]) <==> j <= i < n {
        assert rest[i] == rows[i + 1];
      }
      MatchingIsSlice(lt, asc, rest, j, n, b);
      assert Selects(lt, asc, b, rows[0]) <==> k == 0 && m > 0;
      assert rest[j..n] == if m == 0 then [] else rows[j + 1..m];
    }
  }

  datatype Listing = Page(items: seq<Row>, nextCursor: Option<string>) | Failure | Crash

  function NormalizeLimit(limit: int): (n: nat)
    ensures 1 <= n <= 100 && (1 <= limit <= 100 <==> n == limit)
  {
    if limit <= 0 || limit > 100 then 100 else limit
  }

  /** What a query with this cursor selects from the rows, or None if the cursor is refused. */
  function Selected(f: LawfulFormats, lt: Collation, sort: Sort, asc: bool, rows: seq<Row>,
                    cursor: string): Option<seq<Row>> {
    match Decode(f, cursor)
    case Start => Some(rows)
    case BadCursor => None
    case At(value, id) =>
      match BuildCondition(f, sort, value, id)
      case None => None
      case Some(b) => Some(Matching(lt, asc, rows, Some(b)))
  }

  /** FilesList's answer for a page of rows. */
  function Answer(f: LawfulFormats, sort: Sort, items: seq<Row>, limit: int): Listing {
    if items == [] || |items| != limit then Page(items, None)
    else
      var last := items[|items| - 1];
      if sort == BySize && last.size.None? then Crash else Page(items, Some(Encode(f, sort, last)))
  }

  /** The database keeps the table's matching rows in order; FilesList returns a page of them, and a
      cursor for the next page when this one is as long as was asked for. */
  method FilesList(f: LawfulFormats, lt: Collation, sort: Sort, asc: bool, rows: seq<Row>, cursor: string, limit: int)
    returns (r: Listing)
    ensures r == match Selected(f, lt, sort, asc, rows, cursor)
                 case None => Failure
                 case Some(found) => Answer(f, sort, Clip(found, 0, NormalizeLimit(limit)), limit)
  {
    var bound: Option<Bound> := None;
    var c := Decode(f, cursor);
    if c == BadCursor {
      return Failure;
    }
    if c.At? {
      bound := BuildCondition(f, sort, c.value, c.id);
      if bound.None? {
        return Failure;
      }
    }
    var res := Clip(Matching(lt, asc, rows, bound), 0, NormalizeLimit(limit));
    var nextCursor: Option<string> := None;
    if |res| > 0 && |res| == limit {
      var last := res[|res| - 1];
      if sort == BySize && last.size.None? {
        return Crash;
      }
      nextCursor := Some(Encode(f, sort, last));
    }
    r := Page(res, nextCursor);
  }

  /** The number of rows in front of the first NULL. */
  function FirstNull(sort: Sort, rows: seq<Row>): (n: nat)
    ensures n <= |rows| && (n < |rows| ==> Null(sort, rows[n]))
    ensures forall i :: 0 <= i < n ==> !Null(sort, rows[i])
  {
    if rows == [] || Null(sort, rows[0]) then 0 else 1 + FirstNull(sort, rows[1..])
  }

  /** How far cursors lead: comparing with NULL selects nothing, so that in ascending order they lead to
      the rows in front of the first NULL only. */
  function Reach(sort: Sort, asc: bool, rows: seq<Row>): (n: nat)
    ensures n <= |rows|
  {
    if asc then FirstNull(sort, rows) else |rows|
  }

  /** Behind a row that is not NULL, the rows that are not NULL are those within reach. */
  lemma NullsApart(lt: Collation, sort: Sort, asc: bool, rows: seq<Row>, k: nat)
    requires Ordered(lt, sort, asc, rows) && 0 < k <= |rows| && !Null(sort, rows[k - 1])
    ensures k <= Reach(sort, asc, rows)
    ensures forall i :: k <= i < |rows| ==> (Null(sort, rows[i]) <==> i >= Reach(sort, asc, rows))
  {
    var m := Reach(sort, asc, rows);
    forall i | k <= i < |rows| ensures Null(sort, rows[i]) <==> i >= m {
      assert Before(lt, sort, asc, rows[k - 1], rows[i]);
      assert m < i ==> Before(lt, sort, asc, rows[m], rows[i]);
    }
  }

  /** What the cursor of row k - 1 selects. */
  lemma NextSelected(f: LawfulFormats, lt: Collation, sort: Sort, asc: bool, rows: seq<Row>, k: nat)
    requires StrictTotal(lt) && Ordered(lt, sort, asc, rows) && 0 < k <= |rows| && !Null(sort, rows[k - 1])
    ensures k <= Reach(sort, asc, rows)
    ensures Selected(f, lt, sort, asc, rows, Encode(f, sort, rows[k - 1])) ==
            if Blank(sort, rows[k - 1]) then None else Some(rows[k..Reach(sort, asc, rows)])
  {
    var last, m := rows[k - 1], Reach(sort, asc, rows);
    NullsApart(lt, sort, asc, rows, k);
    if Blank(sort, last) {
      CursorRoundTrip(f, sort, last);
    } else {
      var b := CursorSelectsLater(f, lt, sort, asc, last);
      forall i | 0 <= i < |rows| ensures Selects(lt, asc, b, rows[i]) <==> k <= i < m {
        BeforeIsStrictTotal(lt, sort, asc, rows[i], last, last);
      }
      MatchingIsSlice(lt, asc, rows, k, m, b);
    }
  }

  /** A page of the rows from k to hi, fetched with a cursor that selects them: the next rows in order, and
      a cursor for those behind them that cursors lead to. */
  method NextPage(f: LawfulFormats, lt: Collation, sort: Sort, asc: bool, rows: seq<Row>, cursor: string, limit: int,
                  ghost k: nat, ghost hi: nat, ghost refused: bool)
    returns (r: Listing, ghost m: nat)
    requires StrictTotal(lt) && Ordered(lt, sort, asc, rows) && k <= hi <= |rows|
    requires Selected(f, lt, sort, asc, rows, cursor) == if refused then None else Some(rows[k..hi])
    ensures m == Min(k + NormalizeLimit(limit), hi) && (r.Failure? <==> refused)
    ensures r.Crash? <==> !refused && k < m == k + limit && Null(sort, rows[m - 1])
    ensures r.Page? ==> r.items == rows[k..m] && (r.nextCursor.Some? <==> k < m == k + limit)
    ensures r.Page? && r.nextCursor.Some? ==>
              m <= Reach(sort, asc, rows) &&
              Selected(f, lt, sort, asc, rows, r.nextCursor.value) ==
              if Blank(sort, rows[m - 1]) then None else Some(rows[m..Reach(sort, asc, rows)])
  {
    hide Selected, Ordered, Before, Encode, Reach;
    m := Min(k + NormalizeLimit(limit), hi);
    PageIs(rows, k, hi, NormalizeLimit(limit), m);
    r := FilesList(f, lt, sort, asc, rows, cursor, limit);
    assert !refused ==> r == Answer(f, sort, rows[k..m], limit);
    if m > k {
      assert rows[k..m][m - k - 1] == rows[m - 1];
      if !Null(sort, rows[m - 1]) {
        NextSelected(f, lt, sort, asc, rows, m);
      }
    }
  }

  lemma PageIs(rows: seq<Row>, k: nat, hi: nat, n: nat, m: nat)
    requires k <= hi <= |rows| && m == Min(k + n, hi)
    ensures Clip(rows[k..hi], 0, n) == rows[k..m]
  {
  }

  /** What a client gets that follows the cursors: rows, or the crash of a request, or the refusal of one. */
  datatype Walk = Rows(items: seq<Row>) | Crashed | Refused

  /** Where the j-th full page ends. */
  function PageEnd(limit: nat, j: nat): nat {
    if j == 0 then 0 else PageEnd(limit, j - 1) + limit
  }

  lemma {:induction false} PageEndGrows(limit: nat, i: nat, j: nat)
    requires i <= j
    ensures PageEnd(limit, i) <= PageEnd(limit, j)
    decreases j
  {
    if i < j {
      PageEndGrows(limit, i, j - 1);
    }
  }

  /** Among the full pages within the first k rows, one ends with a row whose cursor is refused. */
  ghost predicate BlankEnd(sort: Sort, rows: seq<Row>, limit: nat, k: nat)
    requires limit > 0 && k <= |rows|
  {
    exists j: nat :: j > 0 && PageEnd(limit, j) <= k && Blank(sort, rows[PageEnd(limit, j) - 1])
  }

  /** From the end of one page to the end of the next. */
  lemma NextBlankEnd(sort: Sort, rows: seq<Row>, limit: nat, j: nat, k: nat, m: nat)
    requires limit > 0 && k <= m <= |rows| && k == PageEnd(limit, j) && m <= k + limit
    ensures BlankEnd(sort, rows, limit, m) <==>
            BlankEnd(sort, rows, limit, k) || (m == k + limit && Blank(sort, rows[m - 1]))
  {
    var h := j + 1;
    assert PageEnd(limit, h) == k + limit;
    forall i: nat | i > 0 && PageEnd(limit, i) <= m ensures PageEnd(limit, i) <= k || i == h {
      if i > h {
        PageEndGrows(limit, h + 1, i);
      } else if i < h {
        PageEndGrows(limit, i, j);
      }
    }
  }

  lemma AllWithinReach(sort: Sort, asc: bool, rows: seq<Row>)
    requires sort != BySize
    ensures Reach(sort, asc, rows) == |rows|
  {
  }

  /** A client that follows the cursors until there is none gets every matching row exactly once, in order,
      and stops, with these exceptions: it gets only the first hundred, if it asks for more than a hundred
      at a time or for no limit, because the query caps the page and then the page is never as long as was
      asked for; a request crashes if the first page is full and ends with NULL; NULLs that do not fit on
      the first page are left out in ascending order; a cursor is refused if a full page ends with an
      empty name. */
  method ListAll(f: LawfulFormats, lt: Collation, sort: Sort, asc: bool, rows: seq<Row>, limit: int)
    returns (r: Walk)
    requires StrictTotal(lt) && Ordered(lt, sort, asc, rows)
    ensures !(1 <= limit <= 100) ==> r == Rows(Clip(rows, 0, 100))
    ensures r.Crashed? <==> 1 <= limit <= 100 && NullEnd(sort, rows, limit)
    ensures r.Refused? <==> 1 <= limit <= 100 && BlankEnd(sort, rows, limit, |rows|)
    ensures 1 <= limit <= 100 && r.Rows? ==>
              r.items == if |rows| < limit then rows else rows[..Reach(sort, asc, rows)]
  {
    hide Selected, Ordered, Reach, BlankEnd, NullEnd;
    var items: seq<Row>, cursor := [], "";
    ghost var j: nat, k: nat, hi: nat, refused := 0, 0, |rows|, false;
    FirstSelected(f, lt, sort, asc, rows);
    while true
      invariant k <= hi <= |rows| && items == rows[..k]
      invariant Selected(f, lt, sort, asc, rows, cursor) == if refused then None else Some(rows[k..hi])
      invariant if k == 0 then !refused && hi == |rows| && j == 0
                else MidWalk(sort, asc, rows, limit, j, k, refused) && hi == Reach(sort, asc, rows)
      decreases |rows| - k, !refused
    {
      ghost var m;
      var page;
      page, m := NextPage(f, lt, sort, asc, rows, cursor, limit, k, hi, refused);
      WalkOn(lt, sort, asc, rows, limit, j, k, hi, m, refused);
      match page {
        case Failure => return Refused;
        case Crash => return Crashed;
        case Page(found, next) =>
          assert rows[..k] + rows[k..m] == rows[..m];
          items := items + found;
          if next.None? {
            return Rows(items);
          }
          cursor := next.value;
          j, k, hi, refused := j + 1, m, Reach(sort, asc, rows), Blank(sort, rows[m - 1]);
      }
    }
  }

  /** The first page is full and ends with NULL. */
  predicate NullEnd(sort: Sort, rows: seq<Row>, limit: int) {
    0 < limit <= |rows| && Null(sort, rows[limit - 1])
  }

  /** A client has k rows from full pages, and a cursor that may be refused. */
  ghost predicate MidWalk(sort: Sort, asc: bool, rows: seq<Row>, limit: int, j: nat, k: nat, refused: bool)
    requires 0 < k <= |rows|
  {
    && 1 <= limit <= 100 && limit <= |rows| && k == PageEnd(limit, j)
    && !Null(sort, rows[k - 1]) && !NullEnd(sort, rows, limit)
    && (refused <==> BlankEnd(sort, rows, limit, k)) && (refused <==> Blank(sort, rows[k - 1]))
  }

  lemma FirstSelected(f: LawfulFormats, lt: Collation, sort: Sort, asc: bool, rows: seq<Row>)
    ensures Selected(f, lt, sort, asc, rows, "") == Some(rows[0..|rows|])
  {
    assert rows[0..|rows|] == rows;
  }

  /** What becomes of a client that has k rows, and for which the next page ends with row m. */
  lemma WalkOn(lt: Collation, sort: Sort, asc: bool, rows: seq<Row>, limit: int, j: nat, k: nat,
               hi: nat, m: nat, refused: bool)
    requires StrictTotal(lt) && Ordered(lt, sort, asc, rows) && k <= hi <= |rows|
    requires m == Min(k + NormalizeLimit(limit), hi)
    requires if k == 0 then !refused && hi == |rows| && j == 0
             else MidWalk(sort, asc, rows, limit, j, k, refused) && hi == Reach(sort, asc, rows)
    ensures refused ==> 1 <= limit <= 100 && BlankEnd(sort, rows, limit, |rows|) && !NullEnd(sort, rows, limit)
    ensures !refused && k < m == k + limit && Null(sort, rows[m - 1]) ==>
              1 <= limit <= 100 && NullEnd(sort, rows, limit) && !BlankEnd(sort, rows, limit, |rows|)
    ensures !refused && k < m == k + limit && !Null(sort, rows[m - 1]) ==>
              MidWalk(sort, asc, rows, limit, j + 1, m, Blank(sort, rows[m - 1]))
    ensures !refused && !(k < m == k + limit) && 1 <= limit <= 100 ==>
              !NullEnd(sort, rows, limit) && !BlankEnd(sort, rows, limit, |rows|)
              && m == if |rows| < limit then |rows| else Reach(sort, asc, rows)
    ensures !(1 <= limit <= 100) ==> k == 0 && m == Min(100, |rows|)
  {
    if 1 <= limit <= 100 {
      NextBlankEnd(sort, rows, limit, j, k, m);
      if sort != BySize {
        AllWithinReach(sort, asc, rows);
      } else {
        NoBlanks(rows, limit);
      }
      if k > 0 {
        NullsApart(lt, sort, asc, rows, k);
      }
    }
  }

  lemma NoBlanks(rows: seq<Row>, limit: int)
    requires limit > 0
    ensures forall k: nat {:trigger BlankEnd(BySize, rows, limit, k)} ::
              k <= |rows| ==> !BlankEnd(BySize, rows, limit, k)
  {
  }
}
