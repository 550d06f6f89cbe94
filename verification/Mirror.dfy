/** Pruning the destination of a mirror run (pkg/services/imports_jobs.go). Paths are lists of names. */
module Mirror {
  import opened Streams
  import opened FileTree
  import opened Paths
  import Decimal

  type Rel = seq<string>

  /** What strings.TrimSpace removes. */
  predicate IsSpace(c: char) {
    c in {'\t', '\n', '\U{000B}', '\U{000C}', '\r', ' ', '\U{0085}', '\U{00A0}', '\U{1680}', '\U{2028}', '\U{2029}',
    '\U{202F}',
          '\U{205F}', '\U{3000}'} || '\U{2000}' <= c <= '\U{200A}'
  }

  function TrimLeftSpace(s: string): string {
    if s != "" && IsSpace(s[0]) then TrimLeftSpace(s[1..]) else s
  }

  function TrimRightSpace(s: string): string {
    if s != "" && IsSpace(s[|s| - 1]) then TrimRightSpace(s[..|s| - 1]) else s
  }

  /** The characters of Unicode's White_Space property, by code point. */
  lemma SpacesAre(c: char)
    ensures IsSpace(c) <==>
            var n := c as int;
            n in {9, 10, 11, 12, 13, 32, 133, 160, 5760, 8232, 8233, 8239, 8287, 12288} || 8192 <= n <= 8202
  {
  }

  /** All space at the start, and no more, is cut off; and so at the end. */
  lemma {:induction false} TrimLeftCuts(s: string)
    ensures var r := TrimLeftSpace(s);
            && |r| <= |s| && s[|s| - |r|..] == r && (forall i :: 0 <= i < |s| - |r| ==> IsSpace(s[i]))
            && (r != "" ==> !IsSpace(r[0]))
  {
    if s != "" && IsSpace(s[0]) {
      TrimLeftCuts(s[1..]);
      var r := TrimLeftSpace(s);
      assert s[|s| - |r|..] == s[1..][|s| - 1 - |r|..];
      assert forall i :: 1 <= i < |s| ==> s[i] == s[1..][i - 1];
    }
  }

  lemma {:induction false} TrimRightCuts(s: string)
    ensures var r := TrimRightSpace(s);
            r <= s && (forall i :: |r| <= i < |s| ==> IsSpace(s[i])) && (r != "" ==> !IsSpace(r[|r| - 1]))
    decreases |s|
  {
    if s != "" && IsSpace(s[|s| - 1]) {
      TrimRightCuts(s[..|s| - 1]);
    }
  }

  /** A name that stays one path segment when the path around it is cleaned. */
  predicate PlainName(name: string) {
    '/' !in name && TrimRightSpace(TrimLeftSpace(name)) !in {"", ".", ".."}
  }

  /** A name that cleaning leaves alone altogether. */
  predicate Clean(name: string) {
    PlainName(name) && TrimLeftSpace(name) == name && TrimRightSpace(name) == name
  }

  predicate PlainNames(names: Rel) {
    forall i :: 0 <= i < |names| ==> PlainName(names[i])
  }

  predicate CleanNames(names: Rel) {
    forall i :: 0 <= i < |names| ==> Clean(names[i])
  }

  /** cleanPath(path.Join(current, name)), which trims space off the end. */
  function Child(current: Rel, name: string): Rel {
    current + [TrimRightSpace(name)]
  }

  /** cleanPath of a source file's directory, which trims both ends. */
  function CleanDir(dir: Rel): (r: Rel)
    ensures |r| == |dir|
  {
    if dir == [] then []
    else
      var d := [TrimLeftSpace(dir[0])] + dir[1..];
      d[..|d| - 1] + [TrimRightSpace(d[|d| - 1])]
  }

  lemma CleanDirOfClean(dir: Rel)
    requires CleanNames(dir)
    ensures CleanDir(dir) == dir
  {
    if dir != [] {
      assert [TrimLeftSpace(dir[0])] + dir[1..] == dir;
      assert dir[..|dir| - 1] + [dir[|dir| - 1]] == dir;
    }
  }

  /** A directory path loses space at its two ends only. */
  lemma CleanDirEnds(dir: Rel, i: nat)
    requires i < |dir|
    ensures CleanDir(dir)[i] ==
            if |dir| == 1 then TrimRightSpace(TrimLeftSpace(dir[i]))
            else if i == 0 then TrimLeftSpace(dir[i])
            else if i == |dir| - 1 then TrimRightSpace(dir[i])
            else dir[i]
  {
  }

  /** The names that ResolvePathID makes of a path. */
  function PartsOf(path: Rel): (parts: seq<string>)
    ensures parts != []
  {
    if path != [] && StartsWithRoot(path[0]) then path else ["root"] + path
  }

  /** They are those that it makes of the path's text. */
  lemma PartsOfText(path: Rel)
    requires Proper(path)
    ensures PartsOf(path) == PathParts(if path == [] then "/" else "/" + Decimal.Join(path, '/'))
  {
    PrintedParts(path);
  }

  /** d is one of the directories above a source file. */
  predicate ImpliedBy(d: Rel, file: Rel) {
    file != [] && d != [] && d <= CleanDir(file[..|file| - 1])
  }

  /** The directories above some of the files. */
  ghost function Implied(files: seq<Rel>): iset<Rel> {
    iset d: Rel | IsImplied(d, files)
  }

  ghost predicate IsImplied(d: Rel, files: seq<Rel>) {
    exists i :: 0 <= i < |files| && ImpliedBy(d, files[i])
  }

  lemma ImpliedSnoc(files: seq<Rel>, file: Rel, before: set<Rel>, dirs: set<Rel>)
    requires (iset d | d in before) == Implied(files) && forall d :: d in dirs <==> d in before || ImpliedBy(d, file)
    ensures (iset d | d in dirs) == Implied(files + [file])
  {
    var all := files + [file];
    forall d ensures d in dirs <==> d in Implied(all) {
      assert d in before <==> d in Implied(files);
      if d in Implied(files) {
        var i :| 0 <= i < |files| && ImpliedBy(d, files[i]);
        assert ImpliedBy(d, all[i]);
      }
      if ImpliedBy(d, file) {
        assert ImpliedBy(d, all[|files|]);
      }
      if d in Implied(all) {
        var i :| 0 <= i < |all| && ImpliedBy(d, all[i]);
        assert i < |files| ==> ImpliedBy(d, files[i]);
      }
    }
  }

  method ImpliedSourceDirs(files: seq<Rel>) returns (dirs: set<Rel>)
    requires forall i :: 0 <= i < |files| ==> files[i] != [] && PlainNames(files[i])
    ensures (iset d | d in dirs) == Implied(files)
  {
    dirs := {};
    for i := 0 to |files|
      invariant (iset d | d in dirs) == Implied(files[..i])
    {
      ghost var before := dirs;
      dirs := AddPrefixes(dirs, files[i]);
      ImpliedSnoc(files[..i], files[i], before, dirs);
      assert files[..i + 1] == files[..i] + [files[i]];
    }
    assert files[..|files|] == files;
  }

  /** Walks up from a file's directory to the top. */
  method AddPrefixes(before: set<Rel>, file: Rel) returns (dirs: set<Rel>)
    requires file != []
    ensures forall d :: d in dirs <==> d in before || ImpliedBy(d, file)
  {
    dirs := before;
    var whole := CleanDir(file[..|file| - 1]);
    var cleanDir := whole;
    while cleanDir != []
      invariant cleanDir <= whole
      invariant forall d :: d in dirs <==> d in before || (d <= whole && |d| > |cleanDir|)
      decreases |cleanDir|
    {
      assert forall d :: d <= whole && |d| == |cleanDir| ==> d == cleanDir;
      dirs := dirs + {cleanDir};
      cleanDir := cleanDir[..|cleanDir| - 1];
    }
  }

  /** An entry that the source does not have. */
  datatype Extra = Extra(id: Id, rel: Rel, folder: bool) {
    function Depth(): int {
      |rel| - 1
    }
  }

  predicate IsChild(t: Table, id: Id, parent: Option<Id>) {
    id in t && parent.Some? && t[id].parent == parent
  }

  const PAGE: nat := 100

  /** At most a page of a folder's entries, active or not: the query is asked for a thousand, so the page
      is never as long as was asked for, and there is no next one. */
  method ListFolder(t: Table, path: Rel) returns (items: seq<Id>)
    requires Unique(t)
    ensures |items| <= PAGE
    ensures forall i :: 0 <= i < |items| ==>
              Walk(t, PartsOf(path)).Some? && IsChild(t, items[i], Walk(t, PartsOf(path)).value)
    ensures Walk(t, PartsOf(path)).Some? && Small(t, Walk(t, PartsOf(path)).value) ==>
              forall id :: IsChild(t, id, Walk(t, PartsOf(path)).value) ==> id in items
  {
    items := [];
    var parent := Walk(t, PartsOf(path));
    if parent.None? {
      return;
    }
    var left := Children(t, parent.value);
    while left != {} && |items| < PAGE
      invariant |items| <= PAGE && left <= Children(t, parent.value)
      invariant forall i :: 0 <= i < |items| ==> items[i] in Children(t, parent.value)
      invariant forall id :: id in Children(t, parent.value) ==> id in left || id in items
      invariant |items| + |left| == |Children(t, parent.value)|
      decreases left
    {
      var id :| id in left;
      left := left - {id};
      items := items + [id];
    }
  }

  function Children(t: Table, parent: Option<Id>): set<Id> {
    set id | id in t && IsChild(t, id, parent)
  }

  predicate Small(t: Table, parent: Option<Id>) {
    |Children(t, parent)| <= PAGE
  }

  /** The paths and entries of the source. */
  datatype Source = Source(files: set<Rel>, dirs: set<Rel>) {
    predicate Has(rel: Rel, folder: bool) {
      if folder then rel in dirs else rel in files
    }
  }

  /** A folder in the root whose name comes out as "root", so that its path is taken for the root's. */
  ghost predicate InnerRoot(t: Table)
    requires Unique(t)
  {
    Walk(t, ["root"]).Some? &&
    exists id :: IsChild(t, id, Walk(t, ["root"]).value) && t[id].folder && TrimRightSpace(t[id].name) == "root"
  }

  /** What is known of the paths that the walk visits. */
  ghost predicate Walked(t: Table, dest: Rel, current: Rel)
    requires Unique(t)
  {
    && dest <= current && (forall i :: |dest| <= i < |current| ==> TrimRightSpace(current[i]) == current[i])
    && (dest == [] && current != [] && current[0] == "root" ==> InnerRoot(t))
  }

  /** The entries that the walk can come across have plain names. */
  ghost predicate PlainBelow(t: Table, dest: Rel)
    requires Unique(t)
  {
    forall current, id ::
      (Walked(t, dest, current) && Walk(t, PartsOf(current)).Some?
       && IsChild(t, id, Walk(t, PartsOf(current)).value)) ==>
        PlainName(t[id].name)
  }

  lemma {:induction false} TrimTwice(s: string)
    ensures TrimRightSpace(TrimRightSpace(s)) == TrimRightSpace(s)
    decreases |s|
  {
    if s != "" && IsSpace(s[|s| - 1]) {
      TrimTwice(s[..|s| - 1]);
    }
  }

  /** A folder found by the walk is visited next. */
  lemma WalkedOn(t: Table, dest: Rel, current: Rel, id: Id)
    requires Unique(t) && Walked(t, dest, current) && Walk(t, PartsOf(current)).Some?
    requires IsChild(t, id, Walk(t, PartsOf(current)).value) && t[id].folder
    ensures Walked(t, dest, Child(current, t[id].name))
  {
    TrimTwice(t[id].name);
    var full := Child(current, t[id].name);
    if dest == [] && full[0] == "root" && current == [] {
      assert PartsOf(current) == ["root"] + [] == ["root"];
    }
  }

  /** An entry marked while `current` was listed. */
  ghost predicate MarkedAt(t: Table, dest: Rel, source: Source, current: Rel, e: Extra)
    requires Unique(t)
  {
    && Walked(t, dest, current) && Walk(t, PartsOf(current)).Some? && IsChild(t, e.id, Walk(t, PartsOf(current)).value)
    && e.folder == t[e.id].folder && e.rel == Child(current, t[e.id].name)[|dest|..] && !source.Has(e.rel, e.folder)
  }

  ghost predicate Marked(t: Table, dest: Rel, source: Source, e: Extra)
    requires Unique(t)
  {
    exists current :: MarkedAt(t, dest, source, current, e)
  }

  /** Everything in the folder at `current` has been looked at. */
  ghost predicate Seen(t: Table, dest: Rel, source: Source, current: Rel, entries: seq<Extra>, paths: seq<Rel>)
    requires Unique(t)
  {
    dest <= current && Walk(t, PartsOf(current)).Some? && Small(t, Walk(t, PartsOf(current)).value) ==>
      forall id :: IsChild(t, id, Walk(t, PartsOf(current)).value) ==>
        SeenChild(t, dest, source, current, id, entries, paths)
  }

  ghost predicate SeenChild(t: Table, dest: Rel, source: Source, current: Rel, id: Id, entries: seq<Extra>,
                            paths: seq<Rel>)
    requires id in t && dest <= current
  {
    var full := Child(current, t[id].name);
    && (t[id].folder ==> full in paths)
    && (!source.Has(full[|dest|..], t[id].folder) ==> Extra(id, full[|dest|..], t[id].folder) in entries)
  }

  /** Lists one folder: what to delete from it, and which folders to visit next. */
  method VisitFolder(t: Table, dest: Rel, source: Source, current: Rel) returns (entries: seq<Extra>, folders: seq<Rel>)
    requires Unique(t) && Walked(t, dest, current)
    ensures forall i :: 0 <= i < |entries| ==> MarkedAt(t, dest, source, current, entries[i])
    ensures |folders| <= PAGE && (Walk(t, PartsOf(current)).None? ==> folders == [])
    ensures forall i :: 0 <= i < |folders| ==> Walked(t, dest, folders[i]) && |folders[i]| == |current| + 1
    ensures Seen(t, dest, source, current, entries, folders)
  {
    var items := ListFolder(t, current);
    entries, folders := [], [];
    for k := 0 to |items|
      invariant forall i :: 0 <= i < |entries| ==> MarkedAt(t, dest, source, current, entries[i])
      invariant |folders| <= k
      invariant forall i :: 0 <= i < |folders| ==> Walked(t, dest, folders[i]) && |folders[i]| == |current| + 1
      invariant forall i :: 0 <= i < k ==> SeenChild(t, dest, source, current, items[i], entries, folders)
    {
      ghost var was, before := entries, folders;
      entries, folders := VisitItem(t, dest, source, current, items[k], entries, folders);
      SeenGrows(t, dest, source, current, items[..k], was, entries, before, folders);
      assert forall i :: 0 <= i < k ==> items[..k][i] == items[i];
    }
    assert Walk(t, PartsOf(current)).None? ==> items == [] by {
      if items != [] {
        assert IsChild(t, items[0], Walk(t, PartsOf(current)).value);
      }
    }
  }

  /** The loop over the listed entries. */
  method VisitItem(t: Table, dest: Rel, source: Source, current: Rel, id: Id, was: seq<Extra>, before: seq<Rel>)
    returns (entries: seq<Extra>, folders: seq<Rel>)
    requires Unique(t) && Walked(t, dest, current)
    requires Walk(t, PartsOf(current)).Some? && IsChild(t, id, Walk(t, PartsOf(current)).value)
    ensures entries == was || (exists e :: entries == was + [e] && MarkedAt(t, dest, source, current, e))
    ensures folders == before || (exists f :: folders == before + [f] && Walked(t, dest, f) && |f| == |current| + 1)
    ensures SeenChild(t, dest, source, current, id, entries, folders)
  {
    entries, folders := was, before;
    var full := Child(current, t[id].name);
    var rel := full[|dest|..];
    if t[id].folder {
      WalkedOn(t, dest, current, id);
      folders := folders + [full];
      assert Walked(t, dest, full) && folders[|folders| - 1] == full;
    }
    if !source.Has(rel, t[id].folder) {
      entries := entries + [Extra(id, rel, t[id].folder)];
      assert MarkedAt(t, dest, source, current, Extra(id, rel, t[id].folder)) && entries[|entries| - 1].id == id;
    }
  }

  lemma SeenGrows(t: Table, dest: Rel, source: Source, current: Rel, ids: seq<Id>, was: seq<Extra>, entries: seq<Extra>,
                  before: seq<Rel>, folders: seq<Rel>)
    requires dest <= current && was <= entries && before <= folders
    requires forall i :: 0 <= i < |ids| ==>
               ids[i] in t && SeenChild(t, dest, source, current, ids[i], was, before)
    ensures forall i :: 0 <= i < |ids| ==> SeenChild(t, dest, source, current, ids[i], entries, folders)
  {
  }

  /** An upper bound for the work below a path that may still grow k times. */
  function Weight(k: nat): (w: nat)
    ensures w >= 1
  {
    if k == 0 then 1 else 1 + PAGE * Weight(k - 1)
  }

  function Room(t: Table, path: Rel): nat {
    if |path| <= |t| then |t| + 1 - |path| else 0
  }

  function Load(t: Table, queue: seq<Rel>): nat {
    if queue == [] then 0 else Weight(Room(t, queue[0])) + Load(t, queue[1..])
  }

  lemma {:induction false} LoadAppend(t: Table, a: seq<Rel>, b: seq<Rel>)
    ensures Load(t, a + b) == Load(t, a) + Load(t, b)
  {
    if a == [] {
      assert a + b == b;
    } else {
      assert (a + b)[1..] == a[1..] + b;
      LoadAppend(t, a[1..], b);
    }
  }

  lemma {:induction false} LoadOfEqual(t: Table, folders: seq<Rel>, k: nat)
    requires forall i :: 0 <= i < |folders| ==> Room(t, folders[i]) == k
    ensures Load(t, folders) == |folders| * Weight(k)
  {
    if folders != [] {
      LoadOfEqual(t, folders[1..], k);
      assert (|folders| - 1) * Weight(k) + Weight(k) == |folders| * Weight(k);
    }
  }

  /** No path that leads anywhere is longer than the table. */
  lemma PathFits(t: Table, path: Rel)
    requires Unique(t) && Walk(t, PartsOf(path)).Some?
    ensures |path| <= |t|
  {
    var ids := WalkChains(t, PartsOf(path));
    RowsFit(t, ids);
  }

  lemma ChainPart(t: Table, ids: seq<Id>, n: nat)
    requires Chain(t, ids) && 0 < n <= |ids|
    ensures Chain(t, ids[..n]) && Names(t, ids[..n]) == Names(t, ids)[..n]
  {
  }

  /** Replacing a folder in the queue by its subfolders leaves less to do. */
  lemma LoadShrinks(t: Table, current: Rel, rest: seq<Rel>, folders: seq<Rel>)
    requires Unique(t) && |folders| <= PAGE && (Walk(t, PartsOf(current)).None? ==> folders == [])
    requires forall i :: 0 <= i < |folders| ==> |folders[i]| == |current| + 1
    ensures Load(t, rest + folders) < Load(t, [current] + rest)
  {
    LoadAppend(t, rest, folders);
    assert ([current] + rest)[1..] == rest;
    if folders != [] {
      PathFits(t, current);
      var k := Room(t, current) - 1;
      LoadOfEqual(t, folders, k);
      FewTimes(|folders|, Weight(k));
    }
  }

  lemma FewTimes(n: nat, w: nat)
    requires n <= PAGE
    ensures n * w <= PAGE * w
  {
  }

  ghost predicate AllMarked(t: Table, dest: Rel, source: Source, entries: seq<Extra>)
    requires Unique(t)
  {
    forall i :: 0 <= i < |entries| ==> Marked(t, dest, source, entries[i])
  }

  ghost predicate AllSeen(t: Table, dest: Rel, source: Source, visited: seq<Rel>, entries: seq<Extra>, paths: seq<Rel>)
    requires Unique(t)
  {
    forall i :: 0 <= i < |visited| ==> Seen(t, dest, source, visited[i], entries, paths)
  }

  lemma SeenStays(t: Table, dest: Rel, source: Source, current: Rel, was: seq<Extra>, entries: seq<Extra>,
                  before: seq<Rel>, paths: seq<Rel>)
    requires Unique(t) && Seen(t, dest, source, current, was, before)
    requires (forall e :: e in was ==> e in entries) && (forall p :: p in before ==> p in paths)
    ensures Seen(t, dest, source, current, entries, paths)
  {
    if dest <= current && Walk(t, PartsOf(current)).Some? && Small(t, Walk(t, PartsOf(current)).value) {
      forall id | IsChild(t, id, Walk(t, PartsOf(current)).value)
        ensures SeenChild(t, dest, source, current, id, entries, paths)
      {
        assert SeenChild(t, dest, source, current, id, was, before);
      }
    }
  }

  /** Walks the destination breadth first. It ends, marks only entries it has found missing in the
      source, and overlooks none in a folder of at most a page. */
  method ExtraDestinationEntries(t: Table, dest: Rel, source: Source)
    returns (entries: seq<Extra>, ghost visited: seq<Rel>)
    requires Unique(t) && PlainBelow(t, dest)
    ensures AllMarked(t, dest, source, entries)
    ensures dest in visited && AllSeen(t, dest, source, visited, entries, visited)
  {
    entries := [];
    visited := [];
    var queue := [dest];
    while queue != []
      invariant forall i :: 0 <= i < |queue| ==> Walked(t, dest, queue[i])
      invariant AllMarked(t, dest, source, entries)
      invariant dest in visited + queue && AllSeen(t, dest, source, visited, entries, visited + queue)
      decreases Load(t, queue)
    {
      var current := queue[0];
      ghost var was, before, done := entries, visited + queue, visited;
      var found, folders := VisitFolder(t, dest, source, current);
      var rest := queue[1..];
      assert queue == [current] + rest;
      LoadShrinks(t, current, rest, folders);
      MarkMore(t, dest, source, current, entries, found);
      entries := entries + found;
      visited := visited + [current];
      queue := rest + folders;
      SeeMore(t, dest, source, done, current, was, found, before, folders, visited + queue);
    }
    assert visited + queue == visited;
  }

  lemma MarkMore(t: Table, dest: Rel, source: Source, current: Rel, was: seq<Extra>, found: seq<Extra>)
    requires Unique(t) && AllMarked(t, dest, source, was)
    requires forall i :: 0 <= i < |found| ==> MarkedAt(t, dest, source, current, found[i])
    ensures AllMarked(t, dest, source, was + found)
  {
    var all := was + found;
    forall i | 0 <= i < |all| ensures Marked(t, dest, source, all[i]) {
      if i < |was| {
        assert all[i] == was[i];
      } else {
        assert MarkedAt(t, dest, source, current, found[i - |was|]);
      }
    }
  }

  lemma SeeMore(t: Table, dest: Rel, source: Source, done: seq<Rel>, current: Rel, was: seq<Extra>, found: seq<Extra>,
                before: seq<Rel>, folders: seq<Rel>, paths: seq<Rel>)
    requires Unique(t) && AllSeen(t, dest, source, done, was, before) && Seen(t, dest, source, current, found, folders)
    requires (forall p :: p in before ==> p in paths) && (forall p :: p in folders ==> p in paths)
    ensures AllSeen(t, dest, source, done + [current], was + found, paths)
  {
    var all := done + [current];
    forall i | 0 <= i < |all| ensures Seen(t, dest, source, all[i], was + found, paths) {
      if i < |done| {
        SeenStays(t, dest, source, done[i], was, was + found, before, paths);
      } else {
        SeenStays(t, dest, source, current, found, was + found, folders, paths);
      }
    }
  }

  /** id is x or lies below it; fuel bounds the climb. */
  predicate IsBelow(t: Table, id: Id, x: Id, fuel: nat)
    decreases fuel
  {
    id == x || (fuel > 0 && id in t && t[id].parent.Some? && IsBelow(t, t[id].parent.value, x, fuel - 1))
  }

  /** DeleteBulkReturning for one id: the entry and its whole subtree leave the active state. */
  function Cascade(t: Table, x: Id): Table {
    map id | id in t :: if IsBelow(t, id, x, |t|) then t[id].(active := false) else t[id]
  }

  /** A chain of rows from one without a parent down, active or not. */
  predicate Rows(t: Table, ids: seq<Id>) {
    && ids != [] && (forall i :: 0 <= i < |ids| ==> ids[i] in t)
    && t[ids[0]].parent == None
    && (forall i, j :: 0 <= i && j == i + 1 < |ids| ==> t[ids[j]].parent == Some(ids[i]))
  }

  /** Climbing from the end of a chain meets exactly the entries of the chain. */
  lemma {:induction false} BelowIsOnChain(t: Table, ids: seq<Id>, x: Id, fuel: nat)
    requires Rows(t, ids) && fuel + 1 >= |ids|
    ensures IsBelow(t, ids[|ids| - 1], x, fuel) <==> x in ids
    decreases |ids|
  {
    var n := |ids| - 1;
    assert ids == ids[..n] + [ids[n]];
    if n > 0 {
      assert t[ids[n]].parent == Some(ids[n - 1]);
      BelowIsOnChain(t, ids[..n], x, fuel - 1);
    }
  }

  lemma {:induction false} RowsEqual(t: Table, ids: seq<Id>, i: nat, j: nat)
    requires Rows(t, ids) && i < j < |ids|
    ensures ids[i] != ids[j]
  {
    assert t[ids[j]].parent == Some(ids[j - 1]);
    if i > 0 {
      assert t[ids[i]].parent == Some(ids[i - 1]);
      RowsEqual(t, ids, i - 1, j - 1);
    }
  }

  lemma RowsFit(t: Table, ids: seq<Id>)
    requires Rows(t, ids)
    ensures |ids| <= |t|
  {
    forall i, j | 0 <= i < j < |ids| ensures ids[i] != ids[j] {
      RowsEqual(t, ids, i, j);
    }
    assert |t| == |t.Keys|;
    DistinctFit(ids, t.Keys);
  }

  /** A delete deactivates exactly the entries whose chain to the root passes through the deleted one. */
  lemma CascadeIsSubtree(t: Table, ids: seq<Id>, x: Id)
    requires Rows(t, ids)
    ensures var id := ids[|ids| - 1];
            id in Cascade(t, x) && Cascade(t, x)[id] == if x in ids then t[id].(active := false) else t[id]
  {
    RowsFit(t, ids);
    BelowIsOnChain(t, ids, x, |t|);
  }

  /** Deletes change nothing but the active flag, and only to false. */
  ghost predicate Deactivated(t: Table, t': Table) {
    t'.Keys == t.Keys && forall id :: id in t ==> t'[id] == t[id] || t'[id] == t[id].(active := false)
  }

  lemma CascadeDeactivates(t: Table, x: Id)
    ensures Deactivated(t, Cascade(t, x)) && (x in t ==> !Cascade(t, x)[x].active)
  {
  }

  /** A chain that does not pass through the deleted entry stays as it is. */
  lemma ChainSurvives(t: Table, ids: seq<Id>, x: Id)
    requires Chain(t, ids) && x !in ids
    ensures Chain(Cascade(t, x), ids) && Names(Cascade(t, x), ids) == Names(t, ids)
  {
    var t' := Cascade(t, x);
    forall i | 0 <= i < |ids| ensures ids[i] in t' && t'[ids[i]] == t[ids[i]] {
      var part := ids[..i + 1];
      assert Rows(t, part);
      assert x !in part;
      CascadeIsSubtree(t, part, x);
    }
  }

  /** An active entry below the destination, with its chain of folders. */
  ghost predicate Placed(t: Table, dest: Rel, ids: seq<Id>) {
    && Chain(t, ids) && (forall i :: 0 <= i < |ids| - 1 ==> t[ids[i]].folder)
    && PartsOf(dest) < Names(t, ids)
  }

  /** The paths that the walk has for the destination. */
  ghost predicate Route(t: Table, dest: Rel, base: Rel)
    requires Unique(t)
  {
    base == dest || (dest == [] && base == ["root"] && InnerRoot(t))
  }

  /** The walk comes to the folder above the k-th entry of a chain with these names, under the path that
      begins with base. It goes through no name with space at its end, and takes a path that begins with
      "root" for one from the top. */
  ghost predicate Reaches(t: Table, dest: Rel, names: seq<string>, base: Rel, k: nat)
    requires Unique(t)
  {
    var o := |PartsOf(dest)|;
    && o <= k < |names| && Route(t, dest, base)
    && (forall j :: o <= j < k ==> TrimRightSpace(names[j]) == names[j])
    && (base == [] && k > o ==> !StartsWithRoot(names[o]))
  }

  /** The path under which the k-th entry is then looked up in the source. */
  function LookedUp(dest: Rel, names: seq<string>, base: Rel, k: nat): (rel: Rel)
    requires |PartsOf(dest)| <= k < |names| && dest <= base
  {
    (base + names[|PartsOf(dest)|..k] + [TrimRightSpace(names[k])])[|dest|..]
  }

  ghost predicate HitAt(t: Table, dest: Rel, source: Source, ids: seq<Id>, base: Rel, k: nat)
    requires Unique(t) && Placed(t, dest, ids)
  {
    var names := Names(t, ids);
    Reaches(t, dest, names, base, k) && !source.Has(LookedUp(dest, names, base, k), t[ids[k]].folder)
  }

  /** The entry, or a folder above it, is looked up under a path that the source does not have. */
  ghost predicate Hit(t: Table, dest: Rel, source: Source, ids: seq<Id>)
    requires Unique(t) && Placed(t, dest, ids)
  {
    exists base, k: nat :: HitAt(t, dest, source, ids, base, k)
  }

  /** The path that leads to an entry's parent is the one on its chain. */
  lemma ParentIsBefore(t: Table, ids: seq<Id>, k: nat, parts: seq<string>)
    requires Unique(t) && Chain(t, ids) && k < |ids| && parts != [] && Walk(t, parts).Some?
    requires IsChild(t, ids[k], Walk(t, parts).value)
    ensures k == |parts| && parts == Names(t, ids)[..k]
  {
    if k > 0 {
      assert t[ids[k]].parent == Some(ids[k - 1]);
      var up := WalkChains(t, parts);
      ChainPart(t, ids, k);
      LineageIsUnique(t, up, ids[..k]);
    }
  }

  /** A path from the top into the destination. */
  lemma PathInDest(dest: Rel, current: Rel, names: seq<string>, o: nat, k: nat)
    requires dest != [] && dest <= current && o <= |names| && k <= |names|
    requires PartsOf(dest) == names[..o] && PartsOf(current) == names[..k]
    ensures o <= k && current == dest + names[o..k]
  {
    var d := o - |dest|;
    assert current[0] == dest[0] && PartsOf(current)[d..] == current;
    assert names[..k][d..][|dest|..] == names[o..k];
  }

  /** A path from the top in a mirror of the whole drive: with the root, or without it. */
  lemma PathInRoot(current: Rel, names: seq<string>, k: nat)
    requires names != [] && names[0] == "root" && k <= |names| && PartsOf(current) == names[..k]
    ensures k >= 1
    ensures if current != [] && StartsWithRoot(current[0]) then current == ["root"] + names[1..k]
            else current == names[1..k]
  {
    if !(current != [] && StartsWithRoot(current[0])) {
      assert PartsOf(current)[1..] == current && names[..k][1..] == names[1..k];
    }
  }

  lemma SegmentsTrimmed(current: Rel, base: Rel, names: seq<string>, o: nat, k: nat, skip: nat)
    requires o <= k <= |names| && current == base + names[o..k] && skip <= |base|
    requires forall i :: skip <= i < |current| ==> TrimRightSpace(current[i]) == current[i]
    ensures forall j :: o <= j < k ==> TrimRightSpace(names[j]) == names[j]
  {
    forall j | o <= j < k ensures TrimRightSpace(names[j]) == names[j] {
      assert names[j] == names[o..k][j - o] == current[|base| + (j - o)];
    }
  }

  /** A path that resolves to the folder above the k-th entry begins with one of the two bases. */
  lemma PathOnRoute(t: Table, dest: Rel, current: Rel, names: seq<string>, o: nat, k: nat) returns (base: Rel)
    requires Unique(t) && Walked(t, dest, current) && o <= |names| && PartsOf(dest) == names[..o] && k <= |names|
    requires PartsOf(current) == names[..k]
    ensures o <= k && Route(t, dest, base) && current == base + names[o..k]
    ensures forall j :: o <= j < k ==> TrimRightSpace(names[j]) == names[j]
    ensures base == [] && k > o ==> !StartsWithRoot(names[o])
  {
    hide InnerRoot, TrimRightSpace;
    if dest == [] {
      assert names[..o] == ["root"] && names[..o][0] == names[0];
      PathInRoot(current, names, k);
      base := if current != [] && StartsWithRoot(current[0]) then ["root"] else [];
      assert [] + names[1..k] == names[1..k];
      assert base == ["root"] ==> current[0] == "root";
    } else {
      base := dest;
      PathInDest(dest, current, names, o, k);
    }
    SegmentsTrimmed(current, base, names, o, k, |dest|);
  }

  /** The k-th entry of a chain was looked up where it was marked. */
  lemma MarkedOnRoute(t: Table, dest: Rel, source: Source, e: Extra, ids: seq<Id>, k: nat, current: Rel)
    returns (base: Rel)
    requires Unique(t) && MarkedAt(t, dest, source, current, e) && Placed(t, dest, ids) && k < |ids| && ids[k] == e.id
    ensures HitAt(t, dest, source, ids, base, k)
  {
    hide InnerRoot, Walk, TrimRightSpace;
    var names, o := Names(t, ids), |PartsOf(dest)|;
    ParentIsBefore(t, ids, k, PartsOf(current));
    assert PartsOf(dest) == names[..o];
    base := PathOnRoute(t, dest, current, names, o, k);
    assert e.rel == LookedUp(dest, names, base, k);
  }

  /** Whatever is marked on the chain of an entry makes it hit. */
  lemma MarkedIsHit(t: Table, dest: Rel, source: Source, e: Extra, ids: seq<Id>)
    requires Unique(t) && Marked(t, dest, source, e) && Placed(t, dest, ids) && e.id in ids
    ensures Hit(t, dest, source, ids)
  {
    hide MarkedAt, HitAt, Placed;
    var k: nat :| k < |ids| && ids[k] == e.id;
    var current :| MarkedAt(t, dest, source, current, e);
    var _ := MarkedOnRoute(t, dest, source, e, ids, k, current);
  }

  /** The path of a folder on the route resolves to that folder. */
  lemma RouteParts(t: Table, dest: Rel, names: seq<string>, base: Rel, o: nat, k: nat)
    requires Unique(t) && PartsOf(dest) <= names && o == |PartsOf(dest)| && Reaches(t, dest, names, base, k)
    ensures PartsOf(base + names[o..k]) == names[..k]
  {
    var rest := names[o..k];
    assert PartsOf(dest) == names[..o] && names[..k] == names[..o] + rest;
    if base == [] {
      assert base + rest == rest && (k > o ==> rest[0] == names[o]);
    } else if base == dest {
      assert (dest + rest)[0] == dest[0];
      assert ["root"] + (dest + rest) == (["root"] + dest) + rest;
    } else {
      assert (base + rest)[0] == "root" && names[..o] == ["root"];
    }
  }

  /** All folders above an entry fit on one page. */
  predicate SmallAbove(t: Table, ids: seq<Id>) {
    forall i :: 0 <= i < |ids| - 1 ==> Small(t, Some(ids[i]))
  }

  /** The folder above the k-th entry of a chain, as the walk finds it. */
  lemma RouteStep(t: Table, dest: Rel, ids: seq<Id>, names: seq<string>, base: Rel, o: nat, k: nat, current: Rel)
    requires Unique(t) && Placed(t, dest, ids) && SmallAbove(t, ids) && names == Names(t, ids) && o == |PartsOf(dest)|
    requires Reaches(t, dest, names, base, k) && current == base + names[o..k]
    ensures k > 0 && Walk(t, PartsOf(current)) == Some(Some(ids[k - 1])) && IsChild(t, ids[k], Some(ids[k - 1]))
    ensures Small(t, Some(ids[k - 1])) && dest <= current
  {
    RouteParts(t, dest, names, base, o, k);
    ChainPart(t, ids, k);
    ChainWalks(t, ids[..k]);
    assert t[ids[k]].parent == Some(ids[k - 1]);
  }

  lemma SeenAt(t: Table, dest: Rel, source: Source, current: Rel, up: Id, id: Id, full: Rel, rel: Rel,
               visited: seq<Rel>, entries: seq<Extra>)
    requires Unique(t) && AllSeen(t, dest, source, visited, entries, visited) && current in visited && dest <= current
    requires Walk(t, PartsOf(current)) == Some(Some(up)) && IsChild(t, id, Some(up)) && Small(t, Some(up))
    requires full == Child(current, t[id].name) && rel == full[|dest|..]
    ensures t[id].folder ==> full in visited
    ensures !source.Has(rel, t[id].folder) ==> Extra(id, rel, t[id].folder) in entries
  {
    var i :| 0 <= i < |visited| && visited[i] == current;
    assert Seen(t, dest, source, visited[i], entries, visited);
    assert SeenChild(t, dest, source, current, id, entries, visited);
  }

  /** The walk visits the destination under every path that it has for it. */
  lemma BaseVisited(t: Table, dest: Rel, source: Source, ids: seq<Id>, base: Rel, visited: seq<Rel>,
                    entries: seq<Extra>)
    requires Unique(t) && Placed(t, dest, ids) && SmallAbove(t, ids) && Route(t, dest, base)
    requires dest in visited && AllSeen(t, dest, source, visited, entries, visited)
    ensures base in visited
  {
    hide AllSeen, TrimRightSpace, Chain;
    if base != dest {
      RootIsFirst(t, ids);
      var id :| IsChild(t, id, Some(ids[0])) && t[id].folder && TrimRightSpace(t[id].name) == "root";
      assert Child(dest, t[id].name) == base;
      SeenAt(t, dest, source, dest, ids[0], id, base, base[|dest|..], visited, entries);
    }
  }

  lemma RootIsFirst(t: Table, ids: seq<Id>)
    requires Unique(t) && Placed(t, [], ids)
    ensures |ids| > 1 && Walk(t, ["root"]) == Some(Some(ids[0])) && PartsOf([]) == ["root"]
  {
    var names := Names(t, ids);
    assert PartsOf([]) == ["root"] && |names| > 1 && names[..1] == ["root"];
    ChainPart(t, ids, 1);
    ChainWalks(t, ids[..1]);
    assert ids[..1][0] == ids[0];
  }

  /** The route to a folder leads through the folder above it. */
  lemma RouteLess(t: Table, dest: Rel, names: seq<string>, base: Rel, o: nat, k: nat)
    requires Unique(t) && o == |PartsOf(dest)| && Reaches(t, dest, names, base, k)
    ensures o <= k < |names| && Route(t, dest, base) && dest <= base
    ensures k > o ==> Reaches(t, dest, names, base, k - 1) && TrimRightSpace(names[k - 1]) == names[k - 1]
  {
  }

  lemma PlacedAt(t: Table, dest: Rel, ids: seq<Id>, names: seq<string>, j: nat)
    requires Placed(t, dest, ids) && names == Names(t, ids) && j < |ids| - 1
    ensures ids[j] in t && t[ids[j]].folder && t[ids[j]].name == names[j]
  {
  }

  /** The walk visits every folder on the route. */
  lemma {:induction false} RouteVisited(t: Table, dest: Rel, source: Source, ids: seq<Id>, names: seq<string>,
                                        base: Rel, o: nat, visited: seq<Rel>, entries: seq<Extra>, k: nat, current: Rel)
    requires Unique(t) && Placed(t, dest, ids) && SmallAbove(t, ids) && names == Names(t, ids) && o == |PartsOf(dest)|
    requires Reaches(t, dest, names, base, k) && current == base + names[o..k]
    requires dest in visited && AllSeen(t, dest, source, visited, entries, visited)
    ensures current in visited
    decreases k
  {
    hide Reaches, Placed, AllSeen, SmallAbove, IsChild, Walk, TrimRightSpace, PartsOf, Names;
    RouteLess(t, dest, names, base, o, k);
    if k == o {
      BaseVisited(t, dest, source, ids, base, visited, entries);
      assert current == base;
    } else {
      var j := k - 1;
      var up := base + names[o..j];
      RouteVisited(t, dest, source, ids, names, base, o, visited, entries, j, up);
      RouteStep(t, dest, ids, names, base, o, j, up);
      PlacedAt(t, dest, ids, names, j);
      assert names[o..k] == names[o..j] + [names[j]];
      assert current == up + [names[j]] == Child(up, t[ids[j]].name);
      SeenAt(t, dest, source, up, ids[j - 1], ids[j], current, current[|dest|..], visited, entries);
    }
  }

  /** An entry that is hit is marked, or a folder above it is. */
  lemma HitIsMarked(t: Table, dest: Rel, source: Source, ids: seq<Id>, visited: seq<Rel>, entries: seq<Extra>)
    requires Unique(t) && Placed(t, dest, ids) && SmallAbove(t, ids) && Hit(t, dest, source, ids)
    requires dest in visited && AllSeen(t, dest, source, visited, entries, visited)
    ensures exists e :: e in entries && e.id in ids
  {
    var names, o := Names(t, ids), |PartsOf(dest)|;
    var base, k: nat :| HitAt(t, dest, source, ids, base, k);
    RouteLess(t, dest, names, base, o, k);
    hide Reaches, AllSeen, Route, Walk;
    var current := base + names[o..k];
    var full, rel := Child(current, names[k]), LookedUp(dest, names, base, k);
    RouteVisited(t, dest, source, ids, names, base, o, visited, entries, k, current);
    RouteStep(t, dest, ids, names, base, o, k, current);
    assert full[|dest|..] == rel;
    SeenAt(t, dest, source, current, ids[k - 1], ids[k], full, rel, visited, entries);
  }

  /** The source knows the directories of its files. */
  ghost predicate DirsKnown(source: Source) {
    forall rel, d :: rel in source.files && ImpliedBy(d, rel) ==> d in source.dirs
  }

  lemma ImpliedPrefix(rel: Rel, n: nat)
    requires 0 < n < |rel| && CleanNames(rel)
    ensures ImpliedBy(rel[..n], rel)
  {
    var dir := rel[..|rel| - 1];
    CleanDirOfClean(dir);
    assert dir[..n] == rel[..n];
  }

  /** The source has its files, and every directory above them. */
  lemma PrefixKnown(source: Source, rel: Rel, n: nat, prefix: Rel, folder: bool)
    requires rel in source.files && CleanNames(rel) && DirsKnown(source)
    requires 0 < n <= |rel| && prefix == rel[..n] && (folder <==> n < |rel|)
    ensures source.Has(prefix, folder)
  {
    if n < |rel| {
      ImpliedPrefix(rel, n);
    } else {
      assert prefix == rel;
    }
  }

  /** A file of the destination that the source has, under names that cleaning leaves alone. */
  ghost predicate CleanFile(t: Table, dest: Rel, source: Source, ids: seq<Id>) {
    && Placed(t, dest, ids) && !t[ids[|ids| - 1]].folder
    && CleanNames(Names(t, ids)[|PartsOf(dest)|..]) && Names(t, ids)[|PartsOf(dest)|..] in source.files
  }

  /** Such a file is safe, except in a mirror of the whole drive with a folder named "root" in the root,
      where it must be in the source's own folder "root", too. */
  lemma CleanFileIsHit(t: Table, dest: Rel, source: Source, files: seq<Rel>, ids: seq<Id>)
    requires Unique(t) && CleanFile(t, dest, source, ids) && SourceFor(source, files)
    ensures Hit(t, dest, source, ids) <==>
            dest == [] && InnerRoot(t) && ["root"] + Names(t, ids)[1..] !in source.files
  {
    SourceKnowsDirs(source, files);
    if dest == [] && InnerRoot(t) && ["root"] + Names(t, ids)[1..] !in source.files {
      CleanFileHitInRoot(t, source, ids);
    }
    if base, k: nat :| HitAt(t, dest, source, ids, base, k) {
      CleanFileHitAt(t, dest, source, ids, base, k);
    }
  }

  lemma CleanFileHitInRoot(t: Table, source: Source, ids: seq<Id>)
    requires Unique(t) && CleanFile(t, [], source, ids)
    requires InnerRoot(t) && ["root"] + Names(t, ids)[1..] !in source.files
    ensures HitAt(t, [], source, ids, ["root"], |ids| - 1)
  {
    hide InnerRoot, Walk, TrimRightSpace, TrimLeftSpace;
    var names := Names(t, ids);
    var rel, n := names[1..], |names| - 1;
    TrimmedNames(names, 1, n);
    CleanLookedUp([], names, ["root"], 1, n, rel);
    assert (["root"] + rel)[..|rel| + 1] == ["root"] + rel;
  }

  lemma CleanFileHitAt(t: Table, dest: Rel, source: Source, ids: seq<Id>, base: Rel, k: nat)
    requires Unique(t) && CleanFile(t, dest, source, ids) && DirsKnown(source) && HitAt(t, dest, source, ids, base, k)
    ensures dest == [] && InnerRoot(t) && ["root"] + Names(t, ids)[1..] !in source.files
  {
    hide InnerRoot, Walk, TrimRightSpace, TrimLeftSpace, DirsKnown;
    var names, o := Names(t, ids), |PartsOf(dest)|;
    var rel := names[o..];
    CleanLookedUp(dest, names, base, o, k, rel);
    if base == dest {
      PrefixKnown(source, rel, k + 1 - o, rel[..k + 1 - o], t[ids[k]].folder);
    } else if base + rel in source.files {
      RootIsClean();
      assert CleanNames(base + rel);
      PrefixKnown(source, base + rel, k + 2 - o, (base + rel)[..k + 2 - o], t[ids[k]].folder);
    }
  }

  lemma TrimmedNames(names: seq<string>, o: nat, n: nat)
    requires o <= n <= |names| && CleanNames(names[o..])
    ensures forall j :: o <= j < n ==> TrimRightSpace(names[j]) == names[j]
  {
    forall j | o <= j < n ensures TrimRightSpace(names[j]) == names[j] {
      assert Clean(names[o..][j - o]);
    }
  }

  lemma RootIsClean()
    ensures Clean("root")
  {
    assert TrimLeftSpace("root") == "root" && TrimRightSpace("root") == "root";
  }

  /** Clean names are looked up as they are. */
  lemma CleanLookedUp(dest: Rel, names: seq<string>, base: Rel, o: nat, k: nat, rel: Rel)
    requires o == |PartsOf(dest)| && o <= k < |names| && rel == names[o..] && CleanNames(rel)
    requires base == dest || dest == []
    ensures LookedUp(dest, names, base, k) ==
            if base == dest then rel[..k + 1 - o] else (base + rel)[..|base| + k + 1 - o]
  {
    assert Clean(rel[k - o]) && names[k] == rel[k - o];
    assert names[o..k] + [names[k]] == rel[..k + 1 - o];
    assert base + names[o..k] + [names[k]] == base + rel[..k + 1 - o];
  }

  /** An active entry that the source does not have, in a place that the walk can reach. */
  ghost predicate Stray(t: Table, dest: Rel, source: Source, ids: seq<Id>) {
    && Placed(t, dest, ids) && CleanNames(Names(t, ids)[|PartsOf(dest)|..])
    && (dest == [] && |ids| > 2 ==> !StartsWithRoot(Names(t, ids)[1]))
    && (if t[ids[|ids| - 1]].folder then Names(t, ids)[|PartsOf(dest)|..] !in source.dirs
        else Names(t, ids)[|PartsOf(dest)|..] !in source.files)
  }

  /** Every stray entry is hit. */
  lemma StrayIsHit(t: Table, dest: Rel, source: Source, ids: seq<Id>)
    requires Unique(t) && Stray(t, dest, source, ids)
    ensures Hit(t, dest, source, ids)
  {
    hide InnerRoot, Walk, TrimRightSpace, TrimLeftSpace, CleanNames, LookedUp;
    var names, o := Names(t, ids), |PartsOf(dest)|;
    LastLookedUp(dest, names, o, |names| - 1);
    assert !source.Has(names[o..], t[ids[|ids| - 1]].folder);
    assert Reaches(t, dest, names, dest, |names| - 1);
    hide Reaches, Placed;
    assert HitAt(t, dest, source, ids, dest, |names| - 1);
  }

  /** Clean names are looked up as they are, all the way down. */
  lemma LastLookedUp(dest: Rel, names: seq<string>, o: nat, n: nat)
    requires o == |PartsOf(dest)| && o <= n == |names| - 1 && CleanNames(names[o..])
    ensures LookedUp(dest, names, dest, n) == names[o..]
    ensures forall j :: o <= j < n ==> TrimRightSpace(names[j]) == names[j]
  {
    var rel := names[o..];
    TrimmedNames(names, o, n);
    CleanLookedUp(dest, names, dest, o, n, rel);
    assert rel[..|rel|] == rel;
  }

  /** A file directly in the destination is hit if and only if the source has no file of its name without
      space at the end; or, in a mirror of the whole drive, none in a folder "root". */
  lemma TopFileIsHit(t: Table, dest: Rel, source: Source, ids: seq<Id>)
    requires Unique(t) && Placed(t, dest, ids) && |ids| == |PartsOf(dest)| + 1 && !t[ids[|ids| - 1]].folder
    ensures var name := TrimRightSpace(t[ids[|ids| - 1]].name);
            Hit(t, dest, source, ids) <==>
            [name] !in source.files || (dest == [] && InnerRoot(t) && ["root", name] !in source.files)
  {
    var names, o := Names(t, ids), |PartsOf(dest)|;
    var name := TrimRightSpace(names[o]);
    assert names[o..o] == [] && LookedUp(dest, names, dest, o) == [name];
    assert HitAt(t, dest, source, ids, dest, o) <==> [name] !in source.files;
    if dest == [] {
      assert LookedUp(dest, names, ["root"], o) == ["root", name];
      assert HitAt(t, dest, source, ids, ["root"], o) <==> InnerRoot(t) && ["root", name] !in source.files;
    }
    if base, k: nat :| HitAt(t, dest, source, ids, base, k) {
      assert k == o;
    }
  }

  /** Deepest folders first. */
  predicate Descending(s: seq<Extra>) {
    forall i, j :: 0 <= i < j < |s| ==> s[i].Depth() >= s[j].Depth()
  }

  /** The same elements, the first n of them in the same places. */
  ghost predicate Rearranged(s: seq<Extra>, s': seq<Extra>, n: nat) {
    n <= |s| == |s'| && s'[..n] == s[..n] && multiset(s'[n..]) == multiset(s[n..])
  }

  lemma RearrangedTrans(a: seq<Extra>, b: seq<Extra>, c: seq<Extra>, n: nat)
    requires Rearranged(a, b, n) && Rearranged(b, c, n)
    ensures Rearranged(a, c, n)
  {
  }

  /** Elements that are bounded stay bounded when they are rearranged. */
  lemma RearrangedBound(a: seq<Extra>, b: seq<Extra>, n: nat, d: int)
    requires Rearranged(a, b, n) && forall q :: n <= q < |a| ==> a[q].Depth() <= d
    ensures forall q :: n <= q < |b| ==> b[q].Depth() <= d
  {
    forall q | n <= q < |b| ensures b[q].Depth() <= d {
      assert b[q] in multiset(b[n..]) by {
        assert b[n..][q - n] == b[q];
      }
      assert b[q] in a[n..];
    }
  }

  method Swap(a: array<Extra>, i: nat, j: nat)
    requires i < j < a.Length
    modifies a
    ensures a[..] == old(a[..])[i := old(a[j])][j := old(a[i])] && Rearranged(old(a[..]), a[..], i)
  {
    ghost var s := a[..];
    a[i], a[j] := a[j], a[i];
    ghost var s' := a[..];
    assert s' == s[i := s[j]][j := s[i]];
    assert s'[i..] == s[i..][0 := s[i..][j - i]][j - i := s[i..][0]];
  }

  /** The inner loop: place i gets a deepest of the entries from i on. */
  method Settle(a: array<Extra>, i: nat)
    requires i < a.Length
    modifies a
    ensures Rearranged(old(a[..]), a[..], i) && forall q :: i <= q < a.Length ==> a[i].Depth() >= a[q].Depth()
  {
    ghost var was := a[..];
    for j := i + 1 to a.Length
      invariant Rearranged(was, a[..], i)
      invariant forall q :: i <= q < j ==> a[i].Depth() >= a[q].Depth()
    {
      if a[j].Depth() > a[i].Depth() {
        ghost var before := a[..];
        Swap(a, i, j);
        RearrangedTrans(was, before, a[..], i);
      }
    }
  }

  /** The exchange sort of initializeSyncWorkflow. */
  method SortByDepth(a: array<Extra>)
    modifies a
    ensures multiset(a[..]) == multiset(old(a[..])) && Descending(a[..])
  {
    ghost var was := a[..];
    for i := 0 to a.Length
      invariant Rearranged(was, a[..], 0)
      invariant Descending(a[..i])
      invariant forall p :: 0 <= p < i ==> forall q :: i <= q < a.Length ==> a[q].Depth() <= a[p].Depth()
    {
      ghost var before := a[..];
      Settle(a, i);
      StillRearranged(was, before, a[..], i);
      SettledFurther(before, a[..], i);
    }
    assert a[..a.Length] == a[..] && a[..][0..] == a[..] && was[0..] == was;
  }

  lemma StillRearranged(a: seq<Extra>, b: seq<Extra>, c: seq<Extra>, n: nat)
    requires Rearranged(a, b, 0) && Rearranged(b, c, n)
    ensures Rearranged(a, c, 0)
  {
    assert b == b[..n] + b[n..] && c == c[..n] + c[n..];
    assert a[0..] == a && b[0..] == b && c[0..] == c;
  }

  lemma SettledFurther(b: seq<Extra>, c: seq<Extra>, i: nat)
    requires Rearranged(b, c, i) && i < |b| && Descending(b[..i])
    requires forall p :: 0 <= p < i ==> forall q :: i <= q < |b| ==> b[q].Depth() <= b[p].Depth()
    requires forall q :: i <= q < |c| ==> c[i].Depth() >= c[q].Depth()
    ensures Descending(c[..i + 1])
    ensures forall p :: 0 <= p < i + 1 ==> forall q :: i + 1 <= q < |c| ==> c[q].Depth() <= c[p].Depth()
  {
    forall p | 0 <= p < i ensures forall q :: i <= q < |c| ==> c[q].Depth() <= c[p].Depth() {
      RearrangedBound(b, c, i, b[p].Depth());
      assert c[..i][p] == b[..i][p];
    }
    var d := c[..i + 1];
    forall p, q | 0 <= p < q < |d| ensures d[p].Depth() >= d[q].Depth() {
      if q < i {
        assert c[..i][p] == b[..i][p] && c[..i][q] == b[..i][q];
      }
    }
  }

  /** In that order a folder is deleted after the folders below it. */
  lemma DescendantsFirst(s: seq<Extra>, i: nat, j: nat)
    requires Descending(s) && i < |s| && j < |s| && s[i].rel < s[j].rel
    ensures j < i
  {
  }

  /** What a run of deletes may do to the table: nothing to entries that are not hit. */
  ghost predicate Pruned(t0: Table, dest: Rel, source: Source, t: Table)
    requires Unique(t0)
  {
    && Deactivated(t0, t)
    && (forall ids :: Placed(t0, dest, ids) && !Hit(t0, dest, source, ids) ==>
          Chain(t, ids) && Names(t, ids) == Names(t0, ids))
  }

  /** These entries have been deleted, with all that is below them. */
  ghost predicate Gone(t0: Table, t: Table, entries: seq<Extra>) {
    forall j, id :: 0 <= j < |entries| && id in t0 && id in t && IsBelow(t0, id, entries[j].id, |t0|) ==> !t[id].active
  }

  lemma GoneOn(t0: Table, t: Table, t': Table, entries: seq<Extra>)
    requires Deactivated(t, t') && Gone(t0, t, entries)
    ensures Gone(t0, t', entries)
  {
  }

  /** Deleting does not change who is below whom. */
  lemma {:induction false} BelowStays(t0: Table, t: Table, id: Id, x: Id, fuel: nat)
    requires Deactivated(t0, t)
    ensures IsBelow(t, id, x, fuel) <==> IsBelow(t0, id, x, fuel)
    decreases fuel
  {
    if id != x && fuel > 0 && id in t && t[id].parent.Some? {
      BelowStays(t0, t, t[id].parent.value, x, fuel - 1);
    }
  }

  lemma GoneMore(t0: Table, t: Table, t': Table, entries: seq<Extra>, e: Extra)
    requires Deactivated(t0, t) && Gone(t0, t, entries) && t' == Cascade(t, e.id)
    ensures Gone(t0, t', entries + [e])
  {
    var all := entries + [e];
    assert |t| == |t.Keys| && |t0| == |t0.Keys|;
    forall j, id | 0 <= j < |all| && id in t0 && id in t' && IsBelow(t0, id, all[j].id, |t0|) ensures !t'[id].active {
      BelowStays(t0, t, id, all[j].id, |t0|);
      if j < |entries| {
        assert all[j] == entries[j];
      }
    }
  }

  /** An entry goes with any folder above it. */
  lemma GoneBelow(t0: Table, t: Table, entries: seq<Extra>, e: Extra, ids: seq<Id>)
    requires Gone(t0, t, entries) && e in entries && Rows(t0, ids) && e.id in ids && ids[|ids| - 1] in t
    ensures !t[ids[|ids| - 1]].active
  {
    RowsFit(t0, ids);
    BelowIsOnChain(t0, ids, e.id, |t0|);
    var j :| 0 <= j < |entries| && entries[j] == e;
  }

  class Drive {
    var table: Table

    constructor (table: Table)
      ensures this.table == table
    {
      this.table := table;
    }

    /** Deletes one entry with all that is below it; the database may fail. */
    method FilesDeleteById(id: Id, reliable: bool) returns (ok: bool)
      modifies this
      ensures table == old(table) || (id in old(table) && table == Cascade(old(table), id))
      ensures ok ==> id in table && table == Cascade(old(table), id)
      ensures reliable && id in old(table) ==> ok
    {
      var reachable: bool := *;
      if (!reachable && !reliable) || id !in table {
        return false;
      }
      table := Cascade(table, id);
      var answered: bool := *;
      ok := answered || reliable;
    }

    method DeleteMarked(e: Extra, reliable: bool, ghost t0: Table, ghost dest: Rel, ghost source: Source,
                        ghost gone: seq<Extra>)
      returns (ok: bool)
      requires Unique(t0) && Pruned(t0, dest, source, table) && Marked(t0, dest, source, e) && Gone(t0, table, gone)
      modifies this
      ensures Pruned(t0, dest, source, table) && Deactivated(old(table), table)
      ensures Gone(t0, table, gone) && (ok ==> Gone(t0, table, gone + [e])) && (reliable ==> ok)
    {
      ghost var was := table;
      ok := FilesDeleteById(e.id, reliable);
      PrunedFurther(t0, dest, source, was, table, e);
      GoneOn(t0, was, table, gone);
      if ok {
        GoneMore(t0, was, table, gone, e);
      }
    }

    method DeleteAll(entries: seq<Extra>, reliable: bool, ghost t0: Table, ghost dest: Rel, ghost source: Source)
      returns (ok: bool)
      requires Unique(t0) && Pruned(t0, dest, source, table) && AllMarked(t0, dest, source, entries)
      modifies this
      ensures Pruned(t0, dest, source, table) && Deactivated(old(table), table)
      ensures (ok ==> Gone(t0, table, entries)) && (reliable ==> ok)
    {
      hide Pruned, Gone, Deactivated, Marked;
      NothingDeleted(t0, table);
      ghost var was := table;
      for i := 0 to |entries|
        invariant Pruned(t0, dest, source, table) && Deactivated(was, table) && Gone(t0, table, entries[..i])
      {
        ghost var before := table;
        ok := DeleteMarked(entries[i], reliable, t0, dest, source, entries[..i]);
        DeactivatedOn(was, before, table);
        if !ok {
          return;
        }
        assert entries[..i + 1] == entries[..i] + [entries[i]];
      }
      assert entries[..|entries|] == entries;
      ok := true;
    }

    /** The pruning part of initializeSyncWorkflow. Wherever it fails, entries that are not hit stay as they
        are; if it does not fail, those that are hit are gone, as far as the folders above them fit on a
        page. */
    method Prune(dest: Rel, files: seq<Rel>, reliable: bool) returns (ok: bool, ghost source: Source)
      requires Unique(table) && PlainBelow(table, dest)
      requires forall i :: 0 <= i < |files| ==> files[i] != [] && PlainNames(files[i])
      modifies this
      ensures SourceFor(source, files) && Pruned(old(table), dest, source, table)
      ensures ok ==> HitGone(old(table), dest, source, table)
      ensures reliable ==> ok
    {
      hide HitGone, Pruned, Gone, AllMarked, AllSeen, Deactivated;
      var dirs := ImpliedSourceDirs(files);
      var src := Source(set i | 0 <= i < |files| :: files[i], dirs);
      source := src;
      ghost var t0 := table;
      ghost var visited;
      var entries;
      entries, visited := ExtraDestinationEntries(table, dest, src);
      var filesToDelete, dirsToDelete := Partition(entries);
      PartsMarked(t0, dest, source, entries, filesToDelete, dirsToDelete);
      NothingPruned(t0, dest, source);
      ok := DeleteAll(filesToDelete, reliable, t0, dest, source);
      if !ok {
        return;
      }
      ghost var middle := table;
      var sorted := SortedByDepth(dirsToDelete);
      PartsMarked(t0, dest, source, entries, filesToDelete, sorted);
      ok := DeleteAll(sorted, reliable, t0, dest, source);
      if ok {
        AllHitGone(t0, dest, source, visited, entries, filesToDelete, sorted, middle, table);
      }
    }
  }

  lemma NothingDeleted(t0: Table, t: Table)
    ensures Deactivated(t, t) && Gone(t0, t, [])
  {
  }

  lemma NothingPruned(t: Table, dest: Rel, source: Source)
    requires Unique(t)
    ensures Pruned(t, dest, source, t)
  {
  }

  /** The source's files, and the directories above them. */
  ghost predicate SourceFor(source: Source, files: seq<Rel>) {
    && source.files == (set i | 0 <= i < |files| :: files[i])
    && (iset d | d in source.dirs) == Implied(files)
  }

  /** Under names that cleaning leaves alone the directories of the source are the proper prefixes of its files. */
  lemma SourceDirsAre(source: Source, files: seq<Rel>, d: Rel)
    requires SourceFor(source, files) && forall i :: 0 <= i < |files| ==> CleanNames(files[i])
    ensures d in source.dirs <==> d != [] && exists i :: 0 <= i < |files| && d < files[i]
  {
    assert d in source.dirs <==> d in Implied(files);
    forall i | 0 <= i < |files| ensures ImpliedBy(d, files[i]) <==> d != [] && d < files[i] {
      if files[i] != [] {
        var dir := files[i][..|files[i]| - 1];
        CleanDirOfClean(dir);
        assert d <= dir <==> d < files[i];
      }
    }
  }

  lemma SourceKnowsDirs(source: Source, files: seq<Rel>)
    requires SourceFor(source, files)
    ensures DirsKnown(source)
  {
    forall rel, d | rel in source.files && ImpliedBy(d, rel) ensures d in source.dirs {
      var i :| 0 <= i < |files| && files[i] == rel;
      assert IsImplied(d, files);
      assert d in Implied(files);
    }
  }

  /** Splits the entries into files and folders. */
  method Partition(entries: seq<Extra>) returns (files: seq<Extra>, folders: seq<Extra>)
    ensures multiset(files) + multiset(folders) == multiset(entries)
    ensures (forall i :: 0 <= i < |files| ==> !files[i].folder)
            && (forall i :: 0 <= i < |folders| ==> folders[i].folder)
  {
    files, folders := [], [];
    for i := 0 to |entries|
      invariant multiset(files) + multiset(folders) == multiset(entries[..i])
      invariant (forall i :: 0 <= i < |files| ==> !files[i].folder)
                && (forall i :: 0 <= i < |folders| ==> folders[i].folder)
    {
      assert entries[..i + 1] == entries[..i] + [entries[i]];
      if entries[i].folder {
        folders := folders + [entries[i]];
      } else {
        files := files + [entries[i]];
      }
    }
    assert entries[..|entries|] == entries;
  }

  lemma PartsMarked(t: Table, dest: Rel, source: Source, entries: seq<Extra>, files: seq<Extra>, folders: seq<Extra>)
    requires Unique(t) && AllMarked(t, dest, source, entries)
             && multiset(files) + multiset(folders) == multiset(entries)
    ensures AllMarked(t, dest, source, files) && AllMarked(t, dest, source, folders)
  {
    forall e | e in files || e in folders ensures Marked(t, dest, source, e) {
      assert e in multiset(files) + multiset(folders);
      assert e in entries;
    }
  }

  method SortedByDepth(s: seq<Extra>) returns (sorted: seq<Extra>)
    ensures multiset(sorted) == multiset(s) && Descending(sorted)
  {
    var a := new Extra[|s|](i requires 0 <= i < |s| => s[i]);
    assert a[..] == s;
    SortByDepth(a);
    sorted := a[..];
  }

  lemma DeactivatedOn(t: Table, t': Table, t'': Table)
    requires Deactivated(t, t') && Deactivated(t', t'')
    ensures Deactivated(t, t'')
  {
  }

  lemma PrunedFurther(t0: Table, dest: Rel, source: Source, t: Table, t': Table, e: Extra)
    requires Unique(t0) && Pruned(t0, dest, source, t) && Marked(t0, dest, source, e)
    requires t' == t || t' == Cascade(t, e.id)
    ensures Pruned(t0, dest, source, t') && Deactivated(t, t') && e.id in t
  {
    if t' != t {
      CascadeDeactivates(t, e.id);
      forall ids | Placed(t0, dest, ids) && !Hit(t0, dest, source, ids)
        ensures Chain(t', ids) && Names(t', ids) == Names(t0, ids)
      {
        if e.id in ids {
          MarkedIsHit(t0, dest, source, e, ids);
        }
        ChainSurvives(t, ids, e.id);
      }
    }
  }

  /** No entry that is hit is active any more, if all folders above it fit on a page. */
  ghost predicate HitGone(t0: Table, dest: Rel, source: Source, t: Table)
    requires Unique(t0)
  {
    forall ids :: Placed(t0, dest, ids) && SmallAbove(t0, ids) && Hit(t0, dest, source, ids) ==>
      ids[|ids| - 1] in t && !t[ids[|ids| - 1]].active
  }

  lemma AllHitGone(t0: Table, dest: Rel, source: Source, visited: seq<Rel>, entries: seq<Extra>,
                   files: seq<Extra>, folders: seq<Extra>, middle: Table, t: Table)
    requires Unique(t0) && dest in visited && AllSeen(t0, dest, source, visited, entries, visited)
    requires multiset(files) + multiset(folders) == multiset(entries) && Deactivated(middle, t)
    requires Pruned(t0, dest, source, t) && Gone(t0, middle, files) && Gone(t0, t, folders)
    ensures HitGone(t0, dest, source, t)
  {
    GoneOn(t0, middle, t, files);
    forall ids | Placed(t0, dest, ids) && SmallAbove(t0, ids) && Hit(t0, dest, source, ids)
      ensures ids[|ids| - 1] in t && !t[ids[|ids| - 1]].active
    {
      HitIsMarked(t0, dest, source, ids, visited, entries);
      var e :| e in entries && e.id in ids;
      assert e in multiset(files) + multiset(folders);
      if e in files {
        GoneBelow(t0, t, files, e, ids);
      } else {
        GoneBelow(t0, t, folders, e, ids);
      }
    }
  }

  lemma RootWalk(t: Table, r: Id)
    requires Unique(t) && Sits(t, r, "root", None)
    ensures Walk(t, ["root"]) == Some(Some(r))
  {
    var names: seq<string> := ["root"];
    WalkSnoc(t, names, 0);
    assert names[..0] == [] && names[..1] == names;
  }

  /** A name that ends in a space is looked up without it: the file "a " of the source is deleted from the
      destination, on every run. */
  lemma TrailingSpaceIsHit(t: Table, source: Source)
    requires t == map[1 := Entry("root", None, true, true), 2 := Entry("a ", Some(1), false, true)]
    requires source.files == {["a "]}
    ensures Unique(t) && Placed(t, [], [1, 2]) && Hit(t, [], source, [1, 2])
  {
    assert Names(t, [1, 2]) == ["root", "a "] && PartsOf([]) == ["root"];
    assert "a "[..1] == "a" && TrimRightSpace("a") == "a" && TrimRightSpace("a ") == "a";
    assert ["a"][0] != ["a "][0] by {
      assert |"a"| != |"a "|;
    }
    TopFileIsHit(t, [], source, [1, 2]);
  }

  /** A source directory that begins with a space is known without it: the folder " a" of the destination is
      deleted, and the source's file " a/b" with it. */
  lemma LeadingSpaceIsHit(t: Table, source: Source)
    requires t == map[1 := Entry("root", None, true, true), 2 := Entry(" a", Some(1), true, true),
                      3 := Entry("b", Some(2), false, true)]
    requires SourceFor(source, [[" a", "b"]])
    ensures Unique(t) && Placed(t, [], [1, 2, 3]) && Names(t, [1, 2, 3])[1..] in source.files
    ensures Hit(t, [], source, [1, 2, 3])
  {
    var ids, names: seq<string> := [1, 2, 3], ["root", " a", "b"];
    assert Names(t, ids) == names && PartsOf([]) == ["root"] && names[1..] == [" a", "b"];
    assert [[" a", "b"]][0] == [" a", "b"];
    var rel: Rel := [" a"];
    assert TrimRightSpace(" a") == " a";
    hide TrimRightSpace;
    assert names[1..1] == [] && LookedUp([], names, [], 1) == rel;
    NotImplied(source);
    assert HitAt(t, [], source, ids, [], 1);
  }

  lemma NotImplied(source: Source)
    requires SourceFor(source, [[" a", "b"]])
    ensures [" a"] !in source.dirs
  {
    OnlyDir();
    var files: seq<Rel> := [[" a", "b"]];
    assert forall i :: 0 <= i < |files| ==> files[i] == [" a", "b"];
    assert [" a"] in source.dirs <==> [" a"] in Implied(files);
  }

  lemma OnlyDir()
    ensures !ImpliedBy([" a"], [" a", "b"])
  {
    var dir: Rel := [" a", "b"][..1];
    assert dir == [" a"] && " a"[1..] == "a" && TrimLeftSpace(" a") == "a" && TrimRightSpace("a") == "a";
    assert CleanDir(dir) == ["a"];
    assert |" a"| != |"a"|;
  }

  /** A mirror of the whole drive that contains a folder named "root" takes that folder for the drive's root:
      what is in the root is looked up once more, under a path that it does not have, and deleted. */
  method LostToInnerRoot(drive: Drive, reliable: bool) returns (ok: bool)
    requires drive.table == map[1 := Entry("root", None, true, true), 2 := Entry("root", Some(1), true, true),
                                3 := Entry("c", Some(1), false, true)]
    modifies drive
    ensures ok ==> 3 in drive.table && !drive.table[3].active
    ensures reliable ==> ok
  {
    ghost var t, ids := drive.table, [1, 3];
    assert Unique(t);
    InnerRootThere(t);
    var files: seq<Rel> := [["c"]];
    ghost var source;
    ok, source := drive.Prune([], files, reliable);
    InnerRootHit(t, source);
    assert Placed(t, [], ids) && SmallAbove(t, ids);
    assert ids[|ids| - 1] == 3;
  }

  lemma InnerRootThere(t: Table)
    requires t == map[1 := Entry("root", None, true, true), 2 := Entry("root", Some(1), true, true),
                      3 := Entry("c", Some(1), false, true)]
    ensures Unique(t) && PlainBelow(t, []) && PlainNames(["c"]) && InnerRoot(t) && Small(t, Some(1))
    ensures Placed(t, [], [1, 3]) && Names(t, [1, 3]) == ["root", "c"]
  {
    PlainC();
    InnerRootPlaced(t);
    assert PlainBelow(t, []);
    hide PlainBelow, PlainName, Walk, TrimRightSpace, Placed;
    RootWalk(t, 1);
    assert IsChild(t, 2, Some(1));
    assert Children(t, Some(1)) == {2, 3};
  }

  lemma InnerRootPlaced(t: Table)
    requires t == map[1 := Entry("root", None, true, true), 2 := Entry("root", Some(1), true, true),
                      3 := Entry("c", Some(1), false, true)]
    ensures Placed(t, [], [1, 3]) && Names(t, [1, 3]) == ["root", "c"]
  {
    assert PartsOf([]) == ["root"] && Names(t, [1, 3]) == ["root", "c"];
  }

  lemma PlainC()
    ensures PlainName("c") && PlainName("root") && TrimRightSpace("root") == "root"
  {
    RootIsClean();
    assert TrimLeftSpace("c") == "c" && TrimRightSpace("c") == "c";
  }

  lemma InnerRootHit(t: Table, source: Source)
    requires t == map[1 := Entry("root", None, true, true), 2 := Entry("root", Some(1), true, true),
                      3 := Entry("c", Some(1), false, true)]
    requires SourceFor(source, [["c"]])
    ensures Unique(t) && Placed(t, [], [1, 3]) && Hit(t, [], source, [1, 3])
  {
    InnerRootThere(t);
    assert TrimRightSpace("c") == "c";
    assert |["root", "c"]| != |["c"]|;
    TopFileIsHit(t, [], source, [1, 3]);
  }
}
