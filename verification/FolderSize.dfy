/** The folder-size refresh query of pkg/repositories/file_repo.go. */
module FolderSize {
  import opened Streams

  type Id = nat

  datatype Node = Node(user: int, folder: bool, active: bool, parent: Option<Id>, size: Option<int>)

  /** The files table: every row has at most one parent, which need not exist, and cycles are possible. */
  type Table = map<Id, Node>

  type Path = p: seq<Id> | p != [] witness [0]

  function Last(p: Path): Id {
    p[|p| - 1]
  }

  predicate OwnFolder(t: Table, user: int, id: Id) {
    id in t && t[id].user == user && t[id].folder && t[id].active
  }

  /** A chain of the user's active folders that starts at a row without a parent. */
  predicate IsPath(t: Table, user: int, p: Path) {
    && (forall i :: 0 <= i < |p| ==> OwnFolder(t, user, p[i]))
    && t[p[0]].parent == None
    && (forall i, j :: 0 <= i && j == i + 1 < |p| ==> t[p[j]].parent == Some(p[i]))
  }

  lemma PathPrefix(t: Table, user: int, p: Path, n: nat)
    requires IsPath(t, user, p) && 0 < n <= |p|
    ensures IsPath(t, user, p[..n])
  {
  }

  lemma PathSnoc(t: Table, user: int, p: Path, id: Id)
    requires IsPath(t, user, p)
    ensures IsPath(t, user, p + [id]) <==> OwnFolder(t, user, id) && t[id].parent == Some(Last(p))
  {
    var q := p + [id];
    if IsPath(t, user, q) {
      assert q[|p|] == id && q[|p| - 1] == Last(p);
    }
  }

  lemma ParentOnPath(t: Table, user: int, p: Path, i: nat)
    requires IsPath(t, user, p) && i < |p|
    ensures t[p[i]].parent == if i == 0 then None else Some(p[i - 1])
  {
  }

  /** Two paths with a node in common agree up to it. */
  lemma {:induction false} SameAncestors(t: Table, user: int, p: Path, q: Path, i: nat, j: nat)
    requires IsPath(t, user, p) && IsPath(t, user, q) && i < |p| && j < |q| && p[i] == q[j]
    ensures i == j && p[..i + 1] == q[..j + 1]
    decreases i
  {
    ParentOnPath(t, user, p, i);
    ParentOnPath(t, user, q, j);
    if i > 0 {
      if j > 0 {
        SameAncestors(t, user, p, q, i - 1, j - 1);
        assert p[..i + 1] == p[..i] + [p[i]] && q[..j + 1] == q[..j] + [q[j]];
      }
    }
  }

  /** A path visits no folder twice, so it is no longer than the table, cycles elsewhere or not. */
  lemma PathLength(t: Table, user: int, p: Path)
    requires IsPath(t, user, p)
    ensures |p| <= |t|
  {
    forall i, j | 0 <= i < j < |p| ensures p[i] != p[j] {
      if p[i] == p[j] {
        SameAncestors(t, user, p, p, i, j);
      }
    }
    assert |t| == |t.Keys|;
    DistinctFit(p, t.Keys);
  }

  function Roots(t: Table, user: int): set<Path> {
    set id | id in t && OwnFolder(t, user, id) && t[id].parent == None :: [id]
  }

  lemma RootLevel(t: Table, user: int)
    ensures forall p: Path :: p in Roots(t, user) <==> IsPath(t, user, p) && |p| == 1
  {
    forall p: Path ensures p in Roots(t, user) <==> IsPath(t, user, p) && |p| == 1 {
      if IsPath(t, user, p) && |p| == 1 {
        assert OwnFolder(t, user, p[0]) && p == [p[0]];
      }
    }
  }

  /** A step of the recursive query: the paths of the working table, one folder longer. */
  function Extend(t: Table, user: int, level: set<Path>): set<Path> {
    set p, id | p in level && id in t && OwnFolder(t, user, id) && t[id].parent == Some(Last(p)) :: p + [id]
  }

  ghost predicate IsHierarchy(t: Table, user: int, h: set<Path>) {
    forall p: Path :: p in h <==> IsPath(t, user, p)
  }

  /** The recursive query ends on every table, and finds exactly the paths from the roots. */
  method FolderHierarchy(t: Table, user: int) returns (h: set<Path>)
    ensures IsHierarchy(t, user, h)
  {
    h := {};
    var level := Roots(t, user);
    RootLevel(t, user);
    ghost var n := 1; // the length of the paths in level
    while level != {}
      invariant forall p: Path :: p in level <==> IsPath(t, user, p) && |p| == n
      invariant forall p: Path :: p in h <==> IsPath(t, user, p) && |p| < n
      decreases |t| + 1 - n
    {
      var q: Path :| q in level;
      PathLength(t, user, q);
      LevelStep(t, user, level, n);
      h := h + level;
      level := Extend(t, user, level);
      n := n + 1;
    }
    forall p: Path | IsPath(t, user, p) ensures |p| < n {
      var k := Min(n, |p|);
      PathPrefix(t, user, p, k);
      assert p[..k] in level <==> k == n;
    }
  }

  lemma LevelStep(t: Table, user: int, level: set<Path>, n: nat)
    requires n > 0 && forall p: Path :: p in level <==> IsPath(t, user, p) && |p| == n
    ensures forall p: Path :: p in Extend(t, user, level) <==> IsPath(t, user, p) && |p| == n + 1
  {
    forall p: Path ensures p in Extend(t, user, level) <==> IsPath(t, user, p) && |p| == n + 1 {
      if p in Extend(t, user, level) {
        var q: Path, id :|
          q in level && id in t && OwnFolder(t, user, id) && t[id].parent == Some(Last(q)) && p == q + [id];
        PathSnoc(t, user, q, id);
      }
      if IsPath(t, user, p) && |p| == n + 1 {
        var q: Path, id := p[..n], p[n];
        PathPrefix(t, user, p, n);
        assert p == q + [id];
        PathSnoc(t, user, q, id);
      }
    }
  }

  ghost function Sum<T(!new)>(s: set<T>, f: T -> int): int {
    if s == {} then 0
    else
      var x :| x in s;
      f(x) + Sum(s - {x}, f)
  }

  /** The order of summation does not matter. */
  lemma {:induction false} SumTakes<T(!new)>(s: set<T>, x: T, f: T -> int)
    requires x in s
    ensures Sum(s, f) == f(x) + Sum(s - {x}, f)
    decreases s
  {
    var y :| y in s && Sum(s, f) == f(y) + Sum(s - {y}, f);
    if y != x {
      SumTakes(s - {y}, x, f);
      SumTakes(s - {x}, y, f);
      assert s - {y} - {x} == s - {x} - {y};
    }
  }

  lemma {:induction false} SumUnion<T(!new)>(a: set<T>, b: set<T>, f: T -> int)
    requires a !! b
    ensures Sum(a + b, f) == Sum(a, f) + Sum(b, f)
    decreases a
  {
    if a == {} {
      assert a + b == b;
    } else {
      var x :| x in a;
      SumTakes(a, x, f);
      SumTakes(a + b, x, f);
      SumUnion(a - {x}, b, f);
      assert a + b - {x} == (a - {x}) + b;
    }
  }

  lemma {:induction false} SumSame<T(!new)>(s: set<T>, f: T -> int, g: T -> int)
    requires forall x :: x in s ==> f(x) == g(x)
    ensures Sum(s, f) == Sum(s, g)
    decreases s
  {
    if s != {} {
      var x :| x in s;
      SumTakes(s, x, f);
      SumTakes(s, x, g);
      SumSame(s - {x}, f, g);
    }
  }

  function FilesIn(t: Table, user: int, id: Id): set<Id> {
    set c | c in t && t[c].parent == Some(id) && t[c].user == user && !t[c].folder && t[c].active
  }

  function SubFolders(t: Table, user: int, id: Id): set<Id> {
    set c | c in t && t[c].parent == Some(id) && OwnFolder(t, user, c)
  }

  function SizeIn(t: Table): Id -> int {
    (c: Id) => if c in t then t[c].size.GetOr(0) else 0
  }

  /** A folder's own active files. */
  ghost function DirectSize(t: Table, user: int, id: Id): int {
    Sum(FilesIn(t, user, id), SizeIn(t))
  }

  ghost function Direct(t: Table, user: int): Path -> int {
    (p: Path) => DirectSize(t, user, Last(p))
  }

  /** The array operator q @> p. */
  predicate Contains(q: Path, p: Path) {
    forall i :: 0 <= i < |p| ==> p[i] in q
  }

  ghost function Below(h: set<Path>, p: Path): set<Path> {
    set q | q in h && Contains(q, p)
  }

  /** The query's total for the folder that p leads to. */
  ghost function TotalSize(t: Table, user: int, h: set<Path>, p: Path): int {
    Sum(Below(h, p), Direct(t, user))
  }

  /** Among paths, containment is extension. */
  lemma ContainsIsPrefix(t: Table, user: int, q: Path, p: Path)
    requires IsPath(t, user, q) && IsPath(t, user, p)
    ensures Contains(q, p) <==> p <= q
  {
    if Contains(q, p) {
      assert p[|p| - 1] in q;
      var j :| 0 <= j < |q| && q[j] == p[|p| - 1];
      SameAncestors(t, user, p, q, |p| - 1, j);
      assert p[..|p| - 1 + 1] == p;
    }
  }

  /** The paths that go on from p into one of the folders in gs. */
  ghost function Through(h: set<Path>, p: Path, gs: set<Id>): set<Path> {
    set q | q in h && p < q && q[|p|] in gs
  }

  /** What lies below p is p itself and what lies below its subfolders. */
  lemma BelowSplits(t: Table, user: int, h: set<Path>, p: Path)
    requires IsHierarchy(t, user, h) && p in h
    ensures Below(h, p) == {p} + Through(h, p, SubFolders(t, user, Last(p)))
            && p !in Through(h, p, SubFolders(t, user, Last(p)))
  {
    forall q | q in h ensures q in Below(h, p) <==> q == p || q in Through(h, p, SubFolders(t, user, Last(p))) {
      ContainsIsPrefix(t, user, q, p);
      if p < q {
        assert OwnFolder(t, user, q[|p|]) && t[q[|p|]].parent == Some(q[|p| - 1]);
      }
    }
  }

  lemma ThroughSplits(t: Table, user: int, h: set<Path>, p: Path, gs: set<Id>, g: Id, rest: set<Id>, child: Path)
    requires IsHierarchy(t, user, h) && p in h && g in gs && rest == gs - {g} && child == p + [g] && child in h
    ensures Through(h, p, gs) == Below(h, child) + Through(h, p, rest) && Below(h, child) !! Through(h, p, rest)
  {
    forall q | q in h ensures q in Below(h, child) <==> p < q && q[|p|] == g {
      ContainsIsPrefix(t, user, q, child);
    }
  }

  lemma {:induction false} SumThrough(t: Table, user: int, h: set<Path>, p: Path, gs: set<Id>, total: Id -> int)
    requires IsHierarchy(t, user, h) && p in h && gs <= SubFolders(t, user, Last(p))
    requires forall g :: g in gs ==> p + [g] in h && total(g) == TotalSize(t, user, h, p + [g])
    ensures Sum(Through(h, p, gs), Direct(t, user)) == Sum(gs, total)
    decreases gs
  {
    if gs != {} {
      var g :| g in gs;
      var rest := gs - {g};
      SumThrough(t, user, h, p, rest, total);
      SumTakes(gs, g, total);
      ThroughSplits(t, user, h, p, gs, g, rest, p + [g]);
      SumUnion(Below(h, p + [g]), Through(h, p, rest), Direct(t, user));
    }
  }

  /** The path-containment join computes the recursive sum: a folder's total is its own files plus its
      subfolders' totals. */
  lemma TotalIsRecursive(t: Table, user: int, h: set<Path>, p: Path, total: Id -> int)
    requires IsHierarchy(t, user, h) && p in h
    requires forall g :: g in SubFolders(t, user, Last(p)) ==>
               p + [g] in h ==> total(g) == TotalSize(t, user, h, p + [g])
    ensures forall g :: g in SubFolders(t, user, Last(p)) ==> p + [g] in h
    ensures TotalSize(t, user, h, p) == DirectSize(t, user, Last(p)) + Sum(SubFolders(t, user, Last(p)), total)
  {
    var gs := SubFolders(t, user, Last(p));
    forall g | g in gs ensures p + [g] in h {
      PathSnoc(t, user, p, g);
    }
    BelowSplits(t, user, h, p);
    SumThrough(t, user, h, p, gs, total);
    SumUnion({p}, Through(h, p, gs), Direct(t, user));
    SumTakes({p}, p, Direct(t, user));
    assert {p} - {p} == {};
  }

  /** The equation has no other solution. */
  lemma {:induction false} TotalIsUnique(t: Table, user: int, h: set<Path>, size: Id -> int, p: Path)
    requires IsHierarchy(t, user, h) && p in h
    requires forall q :: q in h ==>
               size(Last(q)) == DirectSize(t, user, Last(q)) + Sum(SubFolders(t, user, Last(q)), size)
    ensures size(Last(p)) == TotalSize(t, user, h, p)
    decreases |t| - |p|
  {
    PathLength(t, user, p);
    forall g | g in SubFolders(t, user, Last(p)) ensures p + [g] in h ==> size(g) == TotalSize(t, user, h, p + [g]) {
      PathSnoc(t, user, p, g);
      PathLength(t, user, p + [g]);
      assert Last(p + [g]) == g;
      TotalIsUnique(t, user, h, size, p + [g]);
    }
    TotalIsRecursive(t, user, h, p, size);
  }

  /** The folders that the query reaches. */
  ghost predicate Reached(h: set<Path>, id: Id) {
    exists p :: p in h && Last(p) == id
  }

  ghost function PathTo(h: set<Path>, id: Id): (p: Path)
    requires Reached(h, id)
    ensures p in h && Last(p) == id
  {
    var p :| p in h && Last(p) == id;
    p
  }

  /** The UPDATE: every reached folder gets its total. */
  ghost function Refreshed(t: Table, user: int, h: set<Path>): Table {
    map id | id in t ::
      if Reached(h, id) then t[id].(size := Some(TotalSize(t, user, h, PathTo(h, id)))) else t[id]
  }

  lemma PathToIsOnly(t: Table, user: int, h: set<Path>, p: Path)
    requires IsHierarchy(t, user, h) && p in h
    ensures Last(p) in t && Reached(h, Last(p)) && PathTo(h, Last(p)) == p
  {
    var q := PathTo(h, Last(p));
    SameAncestors(t, user, p, q, |p| - 1, |q| - 1);
    assert p[..|p| - 1 + 1] == p && q[..|q| - 1 + 1] == q;
  }

  /** Rows that differ in nothing but their size. */
  ghost predicate SameTree(t: Table, t': Table) {
    t'.Keys == t.Keys && forall id :: id in t ==> t'[id].(size := t[id].size) == t[id]
  }

  lemma SameTreeSets(t: Table, t': Table, user: int, id: Id)
    requires SameTree(t, t')
    ensures SubFolders(t', user, id) == SubFolders(t, user, id) && FilesIn(t', user, id) == FilesIn(t, user, id)
  {
    forall c | c in t ensures t'[c].parent == t[c].parent && t'[c].user == t[c].user && t'[c].folder == t[c].folder
                              && t'[c].active == t[c].active {
      assert t'[c].(size := t[c].size) == t[c];
    }
  }

  lemma DirectStays(t: Table, t': Table, user: int, id: Id)
    requires SameTree(t, t') && forall c :: c in FilesIn(t, user, id) ==> t'[c] == t[c]
    ensures DirectSize(t', user, id) == DirectSize(t, user, id)
  {
    SameTreeSets(t, t', user, id);
    SumSame(FilesIn(t, user, id), SizeIn(t), SizeIn(t'));
  }

  /** What the update does to one row. */
  ghost predicate RowRefreshed(t: Table, user: int, h: set<Path>, id: Id, row: Node)
    requires id in t
  {
    if Reached(h, id) then OwnFolder(t, user, id) && row.size == Some(TotalSize(t, user, h, PathTo(h, id)))
    else row == t[id]
  }

  lemma RefreshedRow(t: Table, user: int, h: set<Path>, id: Id)
    requires IsHierarchy(t, user, h) && id in t
    ensures RowRefreshed(t, user, h, id, Refreshed(t, user, h)[id])
  {
    if Reached(h, id) {
      var p := PathTo(h, id);
      assert OwnFolder(t, user, p[|p| - 1]);
    }
  }

  /** Every row is updated as the query says. */
  ghost predicate Updated(t: Table, user: int, h: set<Path>, t': Table) {
    && SameTree(t, t')
    && forall c {:trigger RowRefreshed(t, user, h, c, t'[c])} :: c in t ==> RowRefreshed(t, user, h, c, t'[c])
  }

  lemma SubfolderUpdated(t: Table, user: int, h: set<Path>, t': Table, p: Path, g: Id)
    requires IsHierarchy(t, user, h) && Updated(t, user, h, t') && p in h && p + [g] in h
    ensures SizeIn(t')(g) == TotalSize(t, user, h, p + [g])
  {
    assert Last(p + [g]) == g;
    PathToIsOnly(t, user, h, p + [g]);
    assert RowRefreshed(t, user, h, g, t'[g]);
  }

  lemma FileUpdated(t: Table, user: int, h: set<Path>, t': Table, id: Id, c: Id)
    requires Updated(t, user, h, t') && c in FilesIn(t, user, id)
    ensures t'[c] == t[c]
  {
    assert RowRefreshed(t, user, h, c, t'[c]);
  }

  lemma UpdatedTotal(t: Table, user: int, h: set<Path>, t': Table, p: Path)
    requires IsHierarchy(t, user, h) && Updated(t, user, h, t') && p in h
    ensures TotalSize(t, user, h, p) == DirectSize(t, user, Last(p)) + Sum(SubFolders(t, user, Last(p)), SizeIn(t'))
  {
    forall g | g in SubFolders(t, user, Last(p))
      ensures p + [g] in h ==> SizeIn(t')(g) == TotalSize(t, user, h, p + [g])
    {
      if p + [g] in h {
        SubfolderUpdated(t, user, h, t', p, g);
      }
    }
    TotalIsRecursive(t, user, h, p, SizeIn(t'));
  }

  lemma UpdatedSum(t: Table, user: int, h: set<Path>, t': Table, id: Id)
    requires IsHierarchy(t, user, h) && Updated(t, user, h, t') && id in t && Reached(h, id)
    ensures t'[id].size == Some(DirectSize(t', user, id) + Sum(SubFolders(t', user, id), SizeIn(t')))
  {
    UpdatedTotal(t, user, h, t', PathTo(h, id));
    SameTreeSets(t, t', user, id);
    forall c | c in FilesIn(t, user, id) ensures t'[c] == t[c] {
      FileUpdated(t, user, h, t', id, c);
    }
    DirectStays(t, t', user, id);
    assert RowRefreshed(t, user, h, id, t'[id]);
  }

  /** The sums of an update, with what they run over written out. */
  lemma WrittenOut(t: Table, t': Table, user: int, id: Id, files: set<Id>, folders: set<Id>, size: Id -> int)
    requires SameTree(t, t')
    requires forall c: Id :: c in files <==>
               c in t && t[c].parent == Some(id) && t[c].user == user && !t[c].folder && t[c].active
    requires forall c: Id :: c in folders <==>
               c in t && t[c].parent == Some(id) && t[c].user == user && t[c].folder && t[c].active
    requires forall c: Id :: size(c) == if c in t' && t'[c].size.Some? then t'[c].size.value else 0
    ensures files == FilesIn(t, user, id) && folders == SubFolders(t, user, id)
    ensures DirectSize(t', user, id) == Sum(files, size)
    ensures Sum(SubFolders(t', user, id), SizeIn(t')) == Sum(folders, size)
  {
    SameTreeSets(t, t', user, id);
    assert files == FilesIn(t, user, id) && folders == SubFolders(t, user, id);
    SumSame(files, SizeIn(t'), size);
    SumSame(folders, SizeIn(t'), size);
  }

  /** After the refresh every active folder below a root has exactly the sum of the sizes of its active files
      (nothing where one is missing) and of its active subfolders; every other row is as it was. */
  lemma RefreshIsRecursiveSum(t: Table, user: int, h: set<Path>, t': Table, id: Id)
    requires IsHierarchy(t, user, h) && Updated(t, user, h, t') && id in t
    ensures var size: Id -> int := (c: Id) => if c in t' && t'[c].size.Some? then t'[c].size.value else 0;
            var files: set<Id> :=
              set c | c in t && t[c].parent == Some(id) && t[c].user == user && !t[c].folder && t[c].active;
            var folders: set<Id> :=
              set c | c in t && t[c].parent == Some(id) && t[c].user == user && t[c].folder && t[c].active;
            if Reached(h, id) then
              && t[id].user == user && t[id].folder && t[id].active
              && t'[id] == t[id].(size := Some(Sum(files, size) + Sum(folders, size)))
              && (forall c :: c in files ==> t'[c] == t[c])
            else t'[id] == t[id]
  {
    hide RowRefreshed, Sum, DirectSize, IsHierarchy;
    var size: Id -> int := (c: Id) => if c in t' && t'[c].size.Some? then t'[c].size.value else 0;
    var files: set<Id> :=
      set c | c in t && t[c].parent == Some(id) && t[c].user == user && !t[c].folder && t[c].active;
    var folders: set<Id> :=
      set c | c in t && t[c].parent == Some(id) && t[c].user == user && t[c].folder && t[c].active;
    RowKept(t, user, h, t', id);
    WrittenOut(t, t', user, id, files, folders, size);
    if Reached(h, id) {
      UpdatedSum(t, user, h, t', id);
      forall c | c in files ensures t'[c] == t[c] {
        FileUpdated(t, user, h, t', id, c);
      }
    }
  }

  lemma RowKept(t: Table, user: int, h: set<Path>, t': Table, id: Id)
    requires Updated(t, user, h, t') && id in t
    ensures if Reached(h, id) then OwnFolder(t, user, id) && t'[id].(size := t[id].size) == t[id]
            else t'[id] == t[id]
  {
    assert RowRefreshed(t, user, h, id, t'[id]);
  }

  /** There is such an update for every table, and only one. */
  lemma UpdateIsDefined(t: Table, user: int, h: set<Path>, t': Table)
    requires IsHierarchy(t, user, h)
    ensures Updated(t, user, h, t') <==> t' == Refreshed(t, user, h)
  {
    var r := Refreshed(t, user, h);
    forall c | c in t ensures RowRefreshed(t, user, h, c, r[c]) {
      RefreshedRow(t, user, h, c);
    }
    if Updated(t, user, h, t') {
      forall c | c in t ensures t'[c] == r[c] {
        assert RowRefreshed(t, user, h, c, t'[c]) && t'[c].(size := t[c].size) == t[c];
      }
    }
  }

  /** The refresh reaches exactly the folders whose chain of parents ends at a root. */
  lemma ReachedExactly(t: Table, user: int, h: set<Path>, id: Id)
    requires IsHierarchy(t, user, h)
    ensures Reached(h, id) <==> id in t && t[id].user == user && t[id].folder && t[id].active &&
                                match t[id].parent
                                case None => true
                                case Some(parent) => Reached(h, parent)
  {
    if Reached(h, id) {
      var p := PathTo(h, id);
      assert OwnFolder(t, user, p[|p| - 1]);
      if |p| > 1 {
        PathPrefix(t, user, p, |p| - 1);
        assert t[p[|p| - 1]].parent == Some(p[|p| - 2]);
        assert Last(p[..|p| - 1]) == p[|p| - 2] && p[..|p| - 1] in h;
      }
    }
    if OwnFolder(t, user, id) {
      match t[id].parent {
        case None =>
          var p: Path := [id];
          assert p in h && Last(p) == id;
        case Some(parent) =>
          if Reached(h, parent) {
            PathSnoc(t, user, PathTo(h, parent), id);
            assert Last(PathTo(h, parent) + [id]) == id;
          }
      }
    }
  }

  /** Rows of other users and rows that are not active. */
  predicate Irrelevant(t: Table, user: int, id: Id)
    requires id in t
  {
    t[id].user != user || !t[id].active
  }

  /** The table t without some rows of other users, or inactive ones. */
  predicate Pruned(t: Table, user: int, t2: Table) {
    && (forall id :: id in t2 ==> id in t && t2[id] == t[id])
    && (forall id :: id in t && id !in t2 ==> Irrelevant(t, user, id))
  }

  lemma PrunedDirect(t: Table, user: int, t2: Table, id: Id)
    requires Pruned(t, user, t2)
    ensures DirectSize(t2, user, id) == DirectSize(t, user, id)
  {
    assert FilesIn(t2, user, id) == FilesIn(t, user, id);
    SumSame(FilesIn(t, user, id), SizeIn(t), SizeIn(t2));
  }

  lemma PrunedPaths(t: Table, user: int, t2: Table, p: Path)
    requires Pruned(t, user, t2)
    ensures IsPath(t2, user, p) <==> IsPath(t, user, p)
  {
    forall i | 0 <= i < |p| ensures OwnFolder(t2, user, p[i]) <==> OwnFolder(t, user, p[i]) {
    }
  }

  /** What belongs to other users or is not active has no influence on any size. */
  lemma OnlyActiveRowsCount(t: Table, user: int, h: set<Path>, t': Table, t2: Table, h2: set<Path>, t2': Table,
                            id: Id)
    requires Pruned(t, user, t2) && IsHierarchy(t, user, h) && IsHierarchy(t2, user, h2)
    requires Updated(t, user, h, t') && Updated(t2, user, h2, t2') && id in t2
    ensures t2'[id] == t'[id]
  {
    SamePaths(t, user, t2, h, h2);
    forall p | p in h ensures Direct(t2, user)(p) == Direct(t, user)(p) {
      PrunedDirect(t, user, t2, Last(p));
    }
    assert RowRefreshed(t, user, h, id, t'[id]) && RowRefreshed(t2, user, h, id, t2'[id]);
    assert t'[id].(size := t[id].size) == t[id] && t2'[id].(size := t2[id].size) == t2[id];
    if Reached(h, id) {
      SumSame(Below(h, PathTo(h, id)), Direct(t, user), Direct(t2, user));
    }
  }

  lemma SamePaths(t: Table, user: int, t2: Table, h: set<Path>, h2: set<Path>)
    requires Pruned(t, user, t2) && IsHierarchy(t, user, h) && IsHierarchy(t2, user, h2)
    ensures h2 == h
  {
    forall p: Path ensures p in h2 <==> p in h {
      PrunedPaths(t, user, t2, p);
    }
  }

  /** One more term. */
  lemma {:induction false} SumPlus<T(!new)>(s: set<T>, x: T, v: int, f: T -> int, g: T -> int)
    requires forall y :: y in s ==> g(y) == f(y) + (if y == x then v else 0)
    ensures Sum(s, g) == Sum(s, f) + (if x in s then v else 0)
    decreases s
  {
    if x in s {
      SumTakes(s, x, f);
      SumTakes(s, x, g);
      SumSame(s - {x}, f, g);
    } else {
      SumSame(s, f, g);
    }
  }

  lemma NewFileDirect(t: Table, user: int, file: Id, folder: Id, s: int, id: Id)
    requires file !in t
    ensures var t2 := t[file := Node(user, false, true, Some(folder), Some(s))];
            DirectSize(t2, user, id) == DirectSize(t, user, id) + (if id == folder then s else 0)
  {
    var t2 := t[file := Node(user, false, true, Some(folder), Some(s))];
    var was, now := FilesIn(t, user, id), FilesIn(t2, user, id);
    SumSame(was, SizeIn(t), SizeIn(t2));
    if id == folder {
      assert now - {file} == was && file in now;
      SumTakes(now, file, SizeIn(t2));
    } else {
      assert now == was;
    }
  }

  lemma NewFilePaths(t: Table, user: int, file: Id, folder: Id, s: int, h: set<Path>, h2: set<Path>)
    requires file !in t && IsHierarchy(t, user, h)
    requires IsHierarchy(t[file := Node(user, false, true, Some(folder), Some(s))], user, h2)
    ensures h2 == h
  {
    var t2 := t[file := Node(user, false, true, Some(folder), Some(s))];
    forall p: Path ensures IsPath(t2, user, p) <==> IsPath(t, user, p) {
      assert forall i :: 0 <= i < |p| ==> (OwnFolder(t2, user, p[i]) <==> OwnFolder(t, user, p[i]));
    }
  }

  /** A new active file of s bytes adds s to its folder and to every folder above it, and to no other. */
  lemma NewFileAdds(t: Table, user: int, h: set<Path>, t': Table, file: Id, folder: Id, s: int, h2: set<Path>,
                    t2': Table, id: Id)
    requires IsHierarchy(t, user, h) && Updated(t, user, h, t') && file !in t && id in t
    requires var t2 := t[file := Node(user, false, true, Some(folder), Some(s))];
             IsHierarchy(t2, user, h2) && Updated(t2, user, h2, t2')
    ensures if Reached(h, id) then
              t'[id].size.Some? && t2'[id].size ==
              Some(t'[id].size.value + if Reached(h, folder) && id in PathTo(h, folder) then s else 0)
            else t2'[id] == t'[id]
  {
    var t2 := t[file := Node(user, false, true, Some(folder), Some(s))];
    NewFilePaths(t, user, file, folder, s, h, h2);
    assert RowRefreshed(t, user, h, id, t'[id]) && RowRefreshed(t2, user, h, id, t2'[id]);
    if Reached(h, id) {
      NewFileTotal(t, user, h, file, folder, s, id);
    }
  }

  lemma NewFileTotal(t: Table, user: int, h: set<Path>, file: Id, folder: Id, s: int, id: Id)
    requires IsHierarchy(t, user, h) && file !in t && Reached(h, id)
    ensures var t2 := t[file := Node(user, false, true, Some(folder), Some(s))];
            TotalSize(t2, user, h, PathTo(h, id)) == TotalSize(t, user, h, PathTo(h, id)) +
            if Reached(h, folder) && id in PathTo(h, folder) then s else 0
  {
    var t2 := t[file := Node(user, false, true, Some(folder), Some(s))];
    var p := PathTo(h, id);
    forall q | q in h ensures Direct(t2, user)(q) == Direct(t, user)(q) + (if Last(q) == folder then s else 0) {
      NewFileDirect(t, user, file, folder, s, Last(q));
    }
    if Reached(h, folder) {
      var x := PathTo(h, folder);
      forall q | q in h ensures Last(q) == folder <==> q == x {
        PathToIsOnly(t, user, h, q);
      }
      SumPlus(Below(h, p), x, s, Direct(t, user), Direct(t2, user));
      OnPath(t, user, h, p, x);
    } else {
      SumSame(Below(h, p), Direct(t, user), Direct(t2, user));
    }
  }

  /** A path leads on from p if and only if it passes through the folder that p leads to. */
  lemma OnPath(t: Table, user: int, h: set<Path>, p: Path, x: Path)
    requires IsHierarchy(t, user, h) && p in h && x in h
    ensures x in Below(h, p) <==> Last(p) in x
  {
    ContainsIsPrefix(t, user, x, p);
    if Last(p) in x {
      var j :| 0 <= j < |x| && x[j] == Last(p);
      SameAncestors(t, user, p, x, |p| - 1, j);
      assert p[..|p| - 1 + 1] == p;
    }
  }
}
