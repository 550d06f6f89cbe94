/** A user's file tree, and paths in it (pkg/repositories/file_repo.go). */
module FileTree {
  import opened Streams
  import opened Decimal

  type Id = nat

  datatype Entry = Entry(name: string, parent: Option<Id>, folder: bool, active: bool)

  /** The rows of one user. */
  type Table = map<Id, Entry>

  predicate Sits(t: Table, id: Id, name: string, parent: Option<Id>) {
    id in t && t[id].active && t[id].name == name && t[id].parent == parent
  }

  /** The unique index on active entries; a missing parent counts as a value. */
  ghost predicate Unique(t: Table) {
    forall a, b ::
      a in t && b in t && t[a].active && t[b].active && t[a].name == t[b].name && t[a].parent == t[b].parent ==> a == b
  }

  /** GetActiveByNameAndParent. */
  function Lookup(t: Table, name: string, parent: Option<Id>): (r: Option<Id>)
    requires Unique(t)
    ensures r.Some? ==> Sits(t, r.value, name, parent)
    ensures r.None? ==> forall id :: !Sits(t, id, name, parent)
  {
    if exists id :: id in t && Sits(t, id, name, parent) then
      var id :| id in t && Sits(t, id, name, parent);
      Some(id)
    else None
  }

  /** An entry is found if and only if it is active and has that name and parent. */
  lemma LookupFinds(t: Table, name: string, parent: Option<Id>, id: Id)
    requires Unique(t)
    ensures Lookup(t, name, parent) == Some(id) <==>
            id in t && t[id].active && t[id].name == name && t[id].parent == parent
  {
    assert Sits(t, id, name, parent) <==> id in t && t[id].active && t[id].name == name && t[id].parent == parent;
  }

  /** What a sequence of names leads to, from the top: None if a name is missing. */
  function Walk(t: Table, names: seq<string>): Option<Option<Id>>
    requires Unique(t)
  {
    if names == [] then Some(None)
    else
      match Walk(t, names[..|names| - 1])
      case None => None
      case Some(parent) =>
        match Lookup(t, names[|names| - 1], parent)
        case None => None
        case Some(id) => Some(Some(id))
  }

  ghost predicate Grows(t: Table, t': Table) {
    forall id :: id in t ==> id in t' && t'[id] == t[id]
  }

  /** Only active folders are added. */
  ghost predicate FoldersAdded(t: Table, t': Table) {
    Grows(t, t') && forall x :: x in t' && x !in t ==> t'[x].folder && t'[x].active
  }

  lemma FoldersAddedOn(t: Table, t': Table, t'': Table)
    requires FoldersAdded(t, t') && FoldersAdded(t', t'')
    ensures FoldersAdded(t, t'')
  {
    forall x | x in t'' && x !in t ensures t''[x].folder && t''[x].active {
      if x in t' {
        assert t''[x] == t'[x];
      }
    }
  }

  /** Rows are only added, so what a path leads to stays what it is. */
  lemma {:induction false} WalkGrows(t: Table, t': Table, names: seq<string>)
    requires Unique(t) && Unique(t') && Grows(t, t') && Walk(t, names).Some?
    ensures Walk(t', names) == Walk(t, names)
  {
    if names != [] {
      var front := names[..|names| - 1];
      WalkGrows(t, t', front);
      LookupGrows(t, t', names[|names| - 1], Walk(t, front).value);
    }
  }

  lemma LookupGrows(t: Table, t': Table, name: string, parent: Option<Id>)
    requires Unique(t) && Unique(t') && Grows(t, t') && Lookup(t, name, parent).Some?
    ensures Lookup(t', name, parent) == Lookup(t, name, parent)
  {
    assert Sits(t', Lookup(t, name, parent).value, name, parent);
  }

  lemma WalkSnoc(t: Table, names: seq<string>, n: nat)
    requires Unique(t) && n < |names|
    ensures Walk(t, names[..n + 1]) ==
            match Walk(t, names[..n])
            case None => None
            case Some(parent) => match Lookup(t, names[n], parent) case None => None case Some(id) => Some(Some(id))
  {
    assert names[..n + 1][..n] == names[..n];
  }

  function TrimLeft(s: string): string {
    if s != "" && s[0] == '/' then TrimLeft(s[1..]) else s
  }

  function TrimRight(s: string): string {
    if s != "" && s[|s| - 1] == '/' then TrimRight(s[..|s| - 1]) else s
  }

  /** strings.Trim(s, "/") */
  function Trim(s: string): string {
    TrimRight(TrimLeft(s))
  }

  /** The names that CreateDirectories and ResolvePathID make of a path. */
  function PathParts(path: string): (parts: seq<string>)
    ensures parts != []
  {
    var rooted := if "/root" <= path then path else "/root/" + Trim(path);
    Split(Trim(rooted), '/')
  }

  /** How many names of a path are there already. */
  function Resolved(t: Table, names: seq<string>): (n: nat)
    requires Unique(t)
    ensures n <= |names| && Walk(t, names[..n]).Some?
  {
    if Walk(t, names).Some? then assert names[..|names|] == names; |names|
    else
      assert names[..|names| - 1] <= names;
      var front := names[..|names| - 1];
      var n := Resolved(t, front);
      assert front[..n] == names[..n];
      n
  }

  /** A path that leads somewhere leads somewhere at every name. */
  lemma {:induction false} WalkPrefix(t: Table, names: seq<string>, n: nat)
    requires Unique(t) && Walk(t, names).Some? && n <= |names|
    ensures Walk(t, names[..n]).Some?
  {
    if n < |names| {
      var front := names[..|names| - 1];
      WalkPrefix(t, front, n);
      assert front[..n] == names[..n];
    } else {
      assert names[..n] == names;
    }
  }

  /** The first names that are there end where the first missing one begins. */
  lemma {:induction false} ResolvedEnds(t: Table, names: seq<string>, i: nat)
    requires Unique(t) && i < |names|
    ensures Walk(t, names[..i + 1]).Some? <==> i < Resolved(t, names)
  {
    if Walk(t, names).Some? {
      WalkPrefix(t, names, i + 1);
    } else {
      var front := names[..|names| - 1];
      if i < |front| {
        ResolvedEnds(t, front, i);
        assert front[..i + 1] == names[..i + 1];
      } else {
        assert names[..i + 1] == names;
      }
    }
  }

  /** Up to the first n names nothing has to be created; from there on every name adds a row. */
  ghost predicate Progress(was: Table, t: Table, names: seq<string>, i: nat, j: nat, n: nat)
    requires Unique(t) && j == i + 1
  {
    if i < n then t == was else |t| == |was| + i - n && (i < |names| ==> Walk(t, names[..j]).None?)
  }

  lemma ProgressStep(was: Table, t: Table, t': Table, names: seq<string>, i: nat, j: nat, k: nat, n: nat)
    requires Unique(was) && Unique(t) && Unique(t') && i < |names| && j == i + 1 && k == j + 1
             && n == Resolved(was, names)
    requires Progress(was, t, names, i, j, n)
    requires if Walk(t, names[..j]).Some? then t' == t
             else |t'| == |t| + 1 && (j < |names| ==> Walk(t', names[..k]).None?)
    ensures Progress(was, t', names, j, k, n)
  {
    ResolvedEnds(was, names, i);
    if j < |names| {
      ResolvedEnds(was, names, j);
    }
  }

  class Files {
    var table: Table

    constructor (table: Table)
      ensures this.table == table
    {
      this.table := table;
    }

    method ResolvePathID(path: string) returns (id: Option<Id>)
      requires Unique(table)
      ensures id == match Walk(table, PathParts(path)) case None => None case Some(parent) => parent
      ensures id.None? <==> Walk(table, PathParts(path)).None?
    {
      var parts := PathParts(path);
      var parentId: Option<Id> := None;
      for i := 0 to |parts|
        invariant Walk(table, parts[..i]) == Some(parentId) && (i > 0 ==> parentId.Some?)
      {
        WalkSnoc(table, parts, i);
        var item := Lookup(table, parts[i], parentId);
        if item.None? {
          if Walk(table, parts).Some? {
            WalkPrefix(table, parts, i + 1);
          }
          return None;
        }
        parentId := item;
      }
      assert parts[..|parts|] == parts;
      id := parentId;
    }

    /** One name of CreateDirectories' loop. */
    method GetOrCreate(name: string, parentId: Option<Id>, ghost names: seq<string>, ghost i: nat, ghost j: nat)
      returns (id: Id)
      requires Unique(table) && i < |names| && j == i + 1 && name == names[i]
               && Walk(table, names[..i]) == Some(parentId)
      modifies this
      ensures Unique(table) && FoldersAdded(old(table), table) && Walk(table, names[..j]) == Some(Some(id))
      ensures if Walk(old(table), names[..j]).Some? then table == old(table)
              else |table| == |old(table)| + 1 && (j < |names| ==> Walk(table, names[..j + 1]).None?)
    {
      WalkSnoc(table, names, i);
      var item := Lookup(table, name, parentId);
      if item.Some? {
        return item.value;
      }
      id := FreshId(table);
      FolderAdded(table, names, i, parentId, id);
      table := table[id := Entry(name, parentId, true, true)];
    }

    /** One caller alone: creates the folders that are missing and no others. */
    method CreateDirectories(path: string) returns (id: Id)
      requires Unique(table)
      modifies this
      ensures Unique(table) && FoldersAdded(old(table), table) && Walk(table, PathParts(path)) == Some(Some(id))
      ensures |table| == |old(table)| + |PathParts(path)| - Resolved(old(table), PathParts(path))
    {
      hide Walk, Resolved, Progress, FoldersAdded, PathParts, Unique, Lookup;
      var parts := PathParts(path);
      var parentId: Option<Id> := None;
      ghost var was, n := table, Resolved(table, parts);
      NothingDone(table, parts, n);
      for i := 0 to |parts|
        invariant Unique(was) && Unique(table) && FoldersAdded(was, table) && Progress(was, table, parts, i, i + 1, n)
        invariant Walk(table, parts[..i]) == Some(parentId) && (i > 0 ==> parentId.Some?)
      {
        ghost var before, j := table, i + 1;
        var next := GetOrCreate(parts[i], parentId, parts, i, j);
        ProgressStep(was, before, table, parts, i, j, j + 1, n);
        FoldersAddedOn(was, before, table);
        parentId := Some(next);
      }
      AllDone(was, table, parts, n);
      assert parts[..|parts|] == parts;
      id := parentId.value;
    }
  }

  lemma NothingDone(t: Table, names: seq<string>, n: nat)
    requires Unique(t) && names != [] && n == Resolved(t, names)
    ensures FoldersAdded(t, t) && Walk(t, names[..0]) == Some(None) && Progress(t, t, names, 0, 1, n)
  {
    ResolvedEnds(t, names, 0);
  }

  lemma AllDone(was: Table, t: Table, names: seq<string>, n: nat)
    requires Unique(was) && Unique(t) && n == Resolved(was, names) && Progress(was, t, names, |names|, |names| + 1, n)
    ensures |t| == |was| + |names| - n
  {
  }

  /** A new folder is found under its name, and is empty. */
  lemma FolderAdded(t: Table, names: seq<string>, i: nat, parent: Option<Id>, id: Id)
    requires Unique(t) && i < |names| && Walk(t, names[..i]) == Some(parent) && Lookup(t, names[i], parent).None?
             && Unused(t, id)
    ensures var t' := t[id := Entry(names[i], parent, true, true)];
            && Unique(t') && Grows(t, t') && Walk(t', names[..i + 1]) == Some(Some(id))
            && (i + 1 < |names| ==> Walk(t', names[..i + 2]).None?)
  {
    var t' := t[id := Entry(names[i], parent, true, true)];
    forall x | x in t ensures !(t[x].active && t[x].name == names[i] && t[x].parent == parent) {
      assert !Sits(t, x, names[i], parent);
    }
    WalkGrows(t, t', names[..i]);
    WalkSnoc(t', names, i);
    assert Sits(t', id, names[i], parent);
    if i + 1 < |names| {
      WalkSnoc(t', names, i + 1);
    }
  }

  /** uuid.New never repeats an identifier, nor one that some row refers to. */
  predicate Unused(t: Table, id: Id) {
    id !in t && forall x :: x in t ==> t[x].parent != Some(id)
  }

  lemma UnusedId(t: Table) returns (id: Id)
    ensures Unused(t, id)
  {
    id := 0;
    var ids := t.Keys;
    while ids != {}
      invariant forall x :: x in t.Keys && x !in ids ==> x < id && t[x].parent != Some(id) && t[x].parent.GetOr(0) <= id
      decreases ids
    {
      var x :| x in ids;
      ids := ids - {x};
      id := Max(id, Max(x, t[x].parent.GetOr(0)) + 1);
    }
  }

  method FreshId(t: Table) returns (id: Id)
    ensures Unused(t, id)
  {
    ghost var some := UnusedId(t);
    assert Unused(t, some);
    id :| Unused(t, id);
  }
}
