/** Full paths and their resolution (pkg/repositories/file_repo.go). */
module Paths {
  import opened Streams
  import opened Decimal
  import opened FileTree

  /** A chain of active entries from a root down; every entry's parent is the one before it. */
  predicate Chain(t: Table, ids: seq<Id>) {
    && ids != [] && (forall i :: 0 <= i < |ids| ==> ids[i] in t && t[ids[i]].active)
    && t[ids[0]].parent == None
    && (forall i, j :: 0 <= i && j == i + 1 < |ids| ==> t[ids[j]].parent == Some(ids[i]))
  }

  /** A chain of entries, active or not, from one without a parent in the table down. */
  predicate Lineage(t: Table, ids: seq<Id>) {
    && ids != [] && (forall i :: 0 <= i < |ids| ==> ids[i] in t)
    && (t[ids[0]].parent.Some? ==> t[ids[0]].parent.value !in t)
    && (forall i, j :: 0 <= i && j == i + 1 < |ids| ==> t[ids[j]].parent == Some(ids[i]))
  }

  function Names(t: Table, ids: seq<Id>): (names: seq<string>)
    requires forall i :: 0 <= i < |ids| ==> ids[i] in t
    ensures |names| == |ids| && forall i :: 0 <= i < |ids| ==> names[i] == t[ids[i]].name
  {
    seq(|ids|, i requires 0 <= i < |ids| => t[ids[i]].name)
  }

  /** The segments that GetFullPath keeps. */
  function Kept(names: seq<string>): (kept: seq<string>)
    ensures |kept| <= |names|
  {
    if names == [] then []
    else if names[0] == "root" then Kept(names[1..])
    else [names[0]] + Kept(names[1..])
  }

  function PathOf(names: seq<string>): string {
    if Kept(names) == [] then "/" else "/" + Join(Kept(names), '/')
  }

  lemma ParentInLineage(t: Table, ids: seq<Id>, k: nat)
    requires Lineage(t, ids) && k < |ids|
    ensures if k == 0 then t[ids[k]].parent.Some? ==> t[ids[k]].parent.value !in t
            else t[ids[k]].parent == Some(ids[k - 1]) && ids[k - 1] in t
  {
  }

  /** Walks up from an entry as far as there are parents, then prints the names from the top down. */
  method GetFullPath(t: Table, id: Id, ghost ids: seq<Id>) returns (path: Option<string>)
    requires id in t ==> Lineage(t, ids) && ids[|ids| - 1] == id
    ensures path == if id in t then Some(PathOf(Names(t, ids))) else None
  {
    if id !in t {
      return None;
    }
    var segments: seq<string> := [t[id].name]; // by descending depth
    var current := id;
    ghost var k := |ids| - 1;
    ParentInLineage(t, ids, k);
    while t[current].parent.Some? && t[current].parent.value in t
      invariant 0 <= k < |ids| && current == ids[k] && segments == Names(t, ids[k..])
      invariant (t[current].parent.Some? && t[current].parent.value in t) <==> k > 0
      decreases k
    {
      assert t[ids[k]].parent == Some(ids[k - 1]);
      current := t[current].parent.value;
      k := k - 1;
      ParentInLineage(t, ids, k);
      segments := [t[current].name] + segments;
    }
    assert ids[0..] == ids && segments == Names(t, ids);
    var parts := WithoutRoots(segments);
    path := Some(if |parts| == 0 then "/" else "/" + Join(parts, '/'));
  }

  /** The loop that leaves out segments named "root". */
  method WithoutRoots(segments: seq<string>) returns (parts: seq<string>)
    ensures parts == Kept(segments)
  {
    parts := [];
    assert segments[0..] == segments;
    for i := 0 to |segments|
      invariant parts + Kept(segments[i..]) == Kept(segments)
    {
      assert segments[i..][1..] == segments[i + 1..];
      if segments[i] != "root" {
        parts := parts + [segments[i]];
      }
    }
    assert segments[|segments|..] == [];
  }

  lemma {:induction false} ChainWalks(t: Table, ids: seq<Id>)
    requires Unique(t) && Chain(t, ids)
    ensures Walk(t, Names(t, ids)) == Some(Some(ids[|ids| - 1]))
  {
    var n := |ids| - 1;
    var names := Names(t, ids);
    assert Sits(t, ids[n], names[n], t[ids[n]].parent);
    if n > 0 {
      ChainWalks(t, ids[..n]);
      assert names[..n] == Names(t, ids[..n]);
      assert t[ids[n]].parent == Some(ids[n - 1]);
    } else {
      assert names[..n] == [];
    }
  }

  /** What a path leads to hangs from a chain that carries the path's names. */
  lemma {:induction false} WalkChains(t: Table, names: seq<string>) returns (ids: seq<Id>)
    requires Unique(t) && names != [] && Walk(t, names).Some?
    ensures Chain(t, ids) && Names(t, ids) == names && Walk(t, names) == Some(Some(ids[|ids| - 1]))
  {
    var n := |names| - 1;
    var front := names[..n];
    var id := Lookup(t, names[n], Walk(t, front).value).value;
    if n == 0 {
      ids := [id];
    } else {
      var up := WalkChains(t, front);
      ids := up + [id];
    }
    assert names == front + [names[n]];
  }

  /** An entry has one chain of ancestors, active or not. */
  lemma {:induction false} LineageIsUnique(t: Table, a: seq<Id>, b: seq<Id>)
    requires Lineage(t, a) && Lineage(t, b) && a[|a| - 1] == b[|b| - 1]
    ensures a == b
    decreases |a|
  {
    var m, n := |a| - 1, |b| - 1;
    if m > 0 {
      assert t[a[m]].parent == Some(a[m - 1]);
    }
    if n > 0 {
      assert t[b[n]].parent == Some(b[n - 1]);
    }
    if m > 0 && n > 0 {
      LineageIsUnique(t, a[..m], b[..n]);
      assert a == a[..m] + [a[m]] && b == b[..n] + [b[n]];
    }
  }

  /** The names a user can give an entry. */
  predicate Proper(names: seq<string>) {
    forall i :: 0 <= i < |names| ==> names[i] != "" && '/' !in names[i]
  }

  predicate StartsWithRoot(name: string) {
    "root" <= name
  }

  /** When the names below the root survive being printed and resolved again. */
  predicate Faithful(lower: seq<string>) {
    "root" !in lower && (lower != [] ==> !StartsWithRoot(lower[0]))
  }

  lemma TrimClean(s: string)
    requires s != "" && s[0] != '/' && s[|s| - 1] != '/'
    ensures Trim(s) == s && Trim("/" + s) == s
  {
    assert ("/" + s)[1..] == s;
  }

  lemma {:induction false} JoinEnds(parts: seq<string>)
    requires parts != [] && Proper(parts)
    ensures var s := Join(parts, '/'); s != "" && s[0] == parts[0][0] && s[|s| - 1] != '/'
    ensures "root" <= Join(parts, '/') <==> StartsWithRoot(parts[0])
  {
    var s, first := Join(parts, '/'), parts[0];
    if |parts| > 1 {
      JoinEnds(parts[1..]);
      assert s == first + (['/'] + Join(parts[1..], '/'));
    }
    assert first <= s;
    if |first| < 4 {
      if |parts| > 1 {
        assert s[|first|] == '/' && "root"[|first|] != '/';
      }
    } else {
      assert s[..4] == first[..4];
    }
  }

  lemma PrefixRoot(s: string)
    ensures "/root" <= "/" + s <==> "root" <= s
  {
    var path := "/" + s;
    assert "/root"[1..] == "root" && path[1..] == s;
    if "root" <= s {
      assert path[..5] == "/" + s[..4];
    }
    if "/root" <= path {
      assert path[..5][1..] == s[..4];
    }
  }

  lemma RootParts()
    ensures PathParts("/") == ["root"]
  {
    assert !("/root" <= "/");
    assert Trim("/") == "" by {
      assert "/"[1..] == "";
    }
    assert "/root/" + "" == "/root/";
    assert Trim("/root/") == "root" by {
      assert "/root/"[1..] == "root/" && "root/"[..4] == "root";
    }
    SplitJoin(["root"], '/');
  }

  lemma RootedParts(kept: seq<string>, s: string)
    requires Proper(kept) && kept != [] && s == Join(kept, '/') && s != "" && s[|s| - 1] != '/'
    ensures Split(Trim("/root/" + s), '/') == ["root"] + kept
  {
    var rooted := ["root"] + kept;
    var r := Join(rooted, '/');
    assert rooted[1..] == kept && r == "root" + ['/'] + s;
    assert "/root/" + s == "/" + r;
    TrimClean(r);
    SplitJoin(rooted, '/');
  }

  /** The names that ResolvePathID makes of a printed path. */
  lemma PrintedParts(kept: seq<string>)
    requires Proper(kept)
    ensures var path := if kept == [] then "/" else "/" + Join(kept, '/');
            PathParts(path) == if kept != [] && StartsWithRoot(kept[0]) then kept else ["root"] + kept
  {
    if kept == [] {
      RootParts();
    } else {
      var s := Join(kept, '/');
      JoinEnds(kept);
      TrimClean(s);
      PrefixRoot(s);
      if StartsWithRoot(kept[0]) {
        SplitJoin(kept, '/');
      } else {
        RootedParts(kept, s);
      }
    }
  }

  predicate Slashes(s: string) {
    forall i :: 0 <= i < |s| ==> s[i] == '/'
  }

  lemma {:induction false} TrimSlashes(a: string, s: string, b: string)
    requires Slashes(a) && Slashes(b) && s != "" && s[0] != '/' && s[|s| - 1] != '/'
    ensures Trim(a + s + b) == s
  {
    if a != "" {
      assert (a + s + b)[1..] == a[1..] + s + b;
      TrimSlashes(a[1..], s, b);
    } else {
      assert a + s + b == s + b && (s + b)[0] == s[0];
      TrimRightSlashes(s, b);
    }
  }

  lemma {:induction false} TrimRightSlashes(s: string, b: string)
    requires Slashes(b) && s != "" && s[|s| - 1] != '/'
    ensures TrimRight(s + b) == s
    decreases |b|
  {
    if b != "" {
      assert (s + b)[..|s + b| - 1] == s + b[..|b| - 1];
      TrimRightSlashes(s, b[..|b| - 1]);
    } else {
      assert s + b == s;
    }
  }

  /** Slashes around a path do not matter, except that one slash in front lets it begin with the root's name;
      any other path begins below the root. */
  lemma AnyPathParts(a: string, names: seq<string>, b: string)
    requires Slashes(a) && Slashes(b) && names != [] && Proper(names)
    ensures PathParts(a + Join(names, '/') + b) ==
            if |a| == 1 && "root" <= names[0] then names else ["root"] + names
  {
    var s := Join(names, '/');
    var path := a + s + b;
    JoinEnds(names);
    TrimSlashes(a, s, b);
    SplitJoin(names, '/');
    if |a| == 1 {
      assert a == "/" && path == "/" + (s + b);
      PrefixRoot(s + b);
      RootInFront(names[0], s, b);
    } else {
      NotRooted(a, s, b);
    }
    if !("/root" <= path) {
      RootedParts(names, s);
    }
  }

  lemma NotRooted(a: string, s: string, b: string)
    requires Slashes(a) && |a| != 1 && s != "" && s[0] != '/'
    ensures !("/root" <= a + s + b)
  {
    var path := a + s + b;
    assert |a| > 1 ==> path[1] == '/';
    assert |a| == 0 ==> path[0] == s[0];
  }

  lemma RootInFront(name: string, s: string, b: string)
    requires Slashes(b) && ("root" <= s <==> "root" <= name) && s != ""
    ensures "root" <= s + b <==> "root" <= name
  {
    if |s| < 4 {
      assert b != "" ==> (s + b)[|s|] == '/';
    } else {
      assert (s + b)[..4] == s[..4];
    }
  }

  lemma {:induction false} KeptFacts(names: seq<string>)
    ensures "root" !in Kept(names)
    ensures Kept(names) == names <==> "root" !in names
    ensures |Kept(names)| == |names| ==> Kept(names) == names
    ensures Proper(names) ==> Proper(Kept(names))
  {
    if names != [] {
      KeptFacts(names[1..]);
      assert names == [names[0]] + names[1..];
    }
  }

  /** What a printed path is taken apart into leads to the entry only if it is the entry's own names. */
  lemma WalksBack(t: Table, ids: seq<Id>, parts: seq<string>)
    requires Unique(t) && Chain(t, ids) && parts != []
    ensures Walk(t, parts) == Some(Some(ids[|ids| - 1])) <==> parts == Names(t, ids)
  {
    ChainWalks(t, ids);
    if Walk(t, parts) == Some(Some(ids[|ids| - 1])) {
      var found := WalkChains(t, parts);
      LineageIsUnique(t, found, ids);
    }
  }

  lemma FaithfulNames(names: seq<string>, lower: seq<string>)
    requires names == ["root"] + lower && Proper(names)
    ensures PathParts(PathOf(names)) == names <==> Faithful(lower)
  {
    var kept := Kept(lower);
    assert names[1..] == lower && Kept(names) == kept;
    KeptFacts(lower);
    assert Proper(lower) && (kept != [] ==> kept[0] in kept && kept[0] != "root");
    PrintedParts(kept);
    var parts := PathParts(PathOf(names));
    if kept != [] && StartsWithRoot(kept[0]) {
      assert parts == kept && names[0] == "root";
    } else {
      assert parts == ["root"] + kept && parts[1..] == kept;
    }
  }

  /** An entry's printed path resolves to the entry if and only if no name below the root is "root" and
      the first one does not start with it. */
  lemma PathRoundTrip(t: Table, ids: seq<Id>)
    requires Unique(t) && Chain(t, ids) && t[ids[0]].name == "root" && Proper(Names(t, ids))
    ensures var names := Names(t, ids);
            Walk(t, PathParts(PathOf(names))) == Some(Some(ids[|ids| - 1])) <==>
            "root" !in names[1..] && (|names| > 1 ==> !("root" <= names[1]))
  {
    var names := Names(t, ids);
    assert names == ["root"] + names[1..];
    WalksBack(t, ids, PathParts(PathOf(names)));
    FaithfulNames(names, names[1..]);
  }

  /** For instance, the path of the entry b in the folder a. */
  lemma PrintExample()
    ensures PathOf(["root", "a", "b"]) == "/a/b" && PathParts("/a/b") == ["root", "a", "b"]
  {
    assert ["root", "a", "b"][1..] == ["a", "b"] && ["a", "b"][1..] == ["b"] && ["b"][1..] == [];
    assert Kept([]) == [] && Kept(["b"]) == ["b"] && Kept(["a", "b"]) == ["a", "b"];
    assert Join(["a", "b"], '/') == "a" + ['/'] + "b" == "a/b";
    PrintedParts(["a", "b"]);
  }

  /** A folder named "root" inside the root is printed as the root itself. */
  lemma RootInRoot(t: Table)
    requires t == map[1 := Entry("root", None, true, true), 2 := Entry("root", Some(1), true, true)]
    ensures Unique(t) && Chain(t, [1, 2]) && PathOf(Names(t, [1, 2])) == "/"
    ensures Walk(t, PathParts("/")) == Some(Some(1))
  {
    assert Names(t, [1, 2]) == ["root", "root"];
    assert ["root", "root"][1..] == ["root"] && ["root"][1..] == [];
    assert Kept([]) == [];
    PrintedParts([]);
    assert Names(t, [1]) == ["root"];
    ChainWalks(t, [1]);
    assert ["root"] + [] == ["root"];
  }
}
