/** Any number of concurrent CreateDirectories calls (pkg/repositories/file_repo.go), as interleaved
    queries against the unique index. */
module DirectoryRace {
  import opened Streams
  import opened FileTree

  /** Where a call stands: about to look a name up, to insert it, to read it again after a conflict. */
  datatype Phase = Get | Insert | Reread | Done | Missing | Aborted

  datatype Caller = Caller(names: seq<string>, done: nat, parent: Option<Id>, phase: Phase)

  datatype State = State(table: Table, callers: seq<Caller>)

  function Advance(c: Caller, id: Id): Caller {
    var k := c.done + 1;
    c.(done := k, parent := Some(id), phase := if k == |c.names| then Done else Get)
  }

  /** One query of one call. The index rejects an insert that would repeat an active entry; unless the query is
      reliable, the database may also fail, before or after an insert took effect. */
  ghost predicate CallerStep(t: Table, c: Caller, t': Table, c': Caller, reliable: bool)
    requires Unique(t)
  {
    && c.done < |c.names|
    && var name := c.names[c.done];
       match c.phase
       case Get =>
         && t' == t
         && ((!reliable && c' == c.(phase := Aborted))
             || c' == match Lookup(t, name, c.parent) case Some(id) => Advance(c, id) case None => c.(phase := Insert))
       case Insert =>
         || (!reliable && t' == t && c' == c.(phase := Aborted))
         || (if Lookup(t, name, c.parent).Some? then t' == t && c' == c.(phase := Reread)
             else exists id :: Inserted(t, c, t', c', id, reliable))
       case Reread =>
         && t' == t
         && ((!reliable && c' == c.(phase := Aborted))
             || c' == match Lookup(t, name, c.parent) case Some(id) => Advance(c, id) case None => c.(phase := Missing))
       case _ => false
  }

  ghost predicate Inserted(t: Table, c: Caller, t': Table, c': Caller, id: Id, reliable: bool) {
    && c.done < |c.names| && Unused(t, id) && t' == t[id := Entry(c.names[c.done], c.parent, true, true)]
    && (c' == Advance(c, id) || (!reliable && c' == c.(phase := Aborted)))
  }

  /** Whose turn it is: a call's, whose query may be one that cannot fail, or the rest of the program's. */
  datatype Turn = Call(i: nat, reliable: bool) | Rest

  /** The rest of the program may add entries too, but deletes none. */
  ghost predicate Step(s: State, turn: Turn, s': State)
    requires Unique(s.table)
  {
    match turn
    case Rest => Grows(s.table, s'.table) && Unique(s'.table) && s'.callers == s.callers
    case Call(i, reliable) =>
      && i < |s.callers| && i < |s'.callers| && s'.callers == s.callers[i := s'.callers[i]]
      && CallerStep(s.table, s.callers[i], s'.table, s'.callers[i], reliable)
  }

  ghost predicate CallerOk(t: Table, c: Caller)
    requires Unique(t)
  {
    && c.names != [] && c.done <= |c.names| && c.phase != Missing
    && Walk(t, c.names[..c.done]) == Some(c.parent)
    && (c.phase == Done ==> c.done == |c.names|)
    && (c.phase in {Get, Insert, Reread} ==> c.done < |c.names|)
    && (c.phase == Reread ==> Lookup(t, c.names[c.done], c.parent).Some?)
  }

  ghost predicate Inv(s: State) {
    Unique(s.table) && forall i :: 0 <= i < |s.callers| ==> CallerOk(s.table, s.callers[i])
  }

  ghost predicate Init(s: State) {
    && Unique(s.table)
    && forall i :: 0 <= i < |s.callers| ==>
         s.callers[i].names != [] && s.callers[i] == Caller(s.callers[i].names, 0, None, Get)
  }

  lemma CallerGrows(t: Table, t': Table, c: Caller)
    requires Unique(t) && Unique(t') && Grows(t, t') && CallerOk(t, c)
    ensures CallerOk(t', c)
  {
    WalkGrows(t, t', c.names[..c.done]);
    if c.phase == Reread {
      LookupGrows(t, t', c.names[c.done], c.parent);
    }
  }

  lemma AdvanceOk(t: Table, c: Caller, id: Id)
    requires Unique(t) && CallerOk(t, c) && c.done < |c.names| && Lookup(t, c.names[c.done], c.parent) == Some(id)
    ensures CallerOk(t, Advance(c, id))
  {
    WalkSnoc(t, c.names, c.done);
    assert c.names[..c.done + 1] == c.names[..Advance(c, id).done];
  }

  lemma InsertedOk(t: Table, c: Caller, t': Table, c': Caller, id: Id)
    requires Unique(t) && CallerOk(t, c) && Inserted(t, c, t', c', id, false)
    requires Lookup(t, c.names[c.done], c.parent).None?
    ensures Unique(t') && Grows(t, t') && CallerOk(t', c')
  {
    FolderAdded(t, c.names, c.done, c.parent, id);
    CallerGrows(t, t', c.(phase := Aborted));
    assert Sits(t', id, c.names[c.done], c.parent);
    assert Lookup(t', c.names[c.done], c.parent) == Some(id);
    AdvanceOk(t', c.(phase := Aborted), id);
  }

  /** A call's step keeps the table unique and the call on its path. */
  lemma CallerStepOk(t: Table, c: Caller, t': Table, c': Caller, reliable: bool)
    requires Unique(t) && CallerOk(t, c) && CallerStep(t, c, t', c', reliable)
    ensures Unique(t') && Grows(t, t') && CallerOk(t', c') && c'.names == c.names
    ensures reliable ==> c'.phase != Aborted
    ensures forall x :: x in t' && x !in t ==> t'[x] == Entry(c.names[c.done], c.parent, true, true)
    ensures Lookup(t, c.names[c.done], c.parent).Some? ==> t' == t
  {
    var found := Lookup(t, c.names[c.done], c.parent);
    if found.Some? {
      AdvanceOk(t, c, found.value);
    } else if c.phase == Insert && !(t' == t && c' == c.(phase := Aborted)) {
      var id :| Inserted(t, c, t', c', id, reliable);
      InsertedOk(t, c, t', c', id);
    }
  }

  /** How many more queries a call may need: three for each name, less those made for the current one. */
  function Left(c: Caller): int {
    match c.phase
    case Get => 3 * (|c.names| - c.done)
    case Insert => 3 * (|c.names| - c.done) - 1
    case Reread => 3 * (|c.names| - c.done) - 2
    case _ => 0
  }

  /** A call that has not ended can always go on without failing, and then needs fewer queries. */
  lemma CallerGoesOn(t: Table, c: Caller) returns (t': Table, c': Caller)
    requires Unique(t) && CallerOk(t, c) && c.phase in {Get, Insert, Reread}
    ensures CallerStep(t, c, t', c', true)
  {
    t', c' := t, c;
    var found := Lookup(t, c.names[c.done], c.parent);
    if c.phase == Insert {
      if found.Some? {
        c' := c.(phase := Reread);
      } else {
        var id := UnusedId(t);
        t', c' := t[id := Entry(c.names[c.done], c.parent, true, true)], Advance(c, id);
        assert Inserted(t, c, t', c', id, true);
      }
    } else {
      c' := match found case Some(id) => Advance(c, id) case None => c.(phase := Insert);
    }
  }

  lemma CallerComesCloser(t: Table, c: Caller, t': Table, c': Caller, reliable: bool)
    requires Unique(t) && CallerOk(t, c) && CallerStep(t, c, t', c', reliable)
    ensures 0 <= Left(c') < Left(c)
  {
  }

  lemma StepKeepsInv(s: State, turn: Turn, s': State)
    requires Inv(s) && Step(s, turn, s')
    ensures Inv(s') && Grows(s.table, s'.table) && |s'.callers| == |s.callers|
    ensures forall i :: 0 <= i < |s.callers| ==> s'.callers[i].names == s.callers[i].names
  {
    if turn.Call? {
      CallerStepOk(s.table, s.callers[turn.i], s'.table, s'.callers[turn.i], turn.reliable);
    }
    forall j | 0 <= j < |s.callers| && s'.callers[j] == s.callers[j] ensures CallerOk(s'.table, s'.callers[j]) {
      CallerGrows(s.table, s'.table, s.callers[j]);
    }
  }

  /** An interleaving of the calls' queries. */
  ghost predicate Run(states: seq<State>, turns: seq<Turn>) {
    && |states| == |turns| + 1 && Init(states[0])
    && forall k {:trigger turns[k]} :: 0 <= k < |turns| ==>
         Unique(states[k].table) ==> Step(states[k], turns[k], states[k + 1])
  }

  lemma {:induction false} RunKeepsInv(states: seq<State>, turns: seq<Turn>, k: nat)
    requires Run(states, turns) && k < |states|
    ensures Inv(states[k]) && Grows(states[0].table, states[k].table)
    ensures |states[k].callers| == |states[0].callers|
    ensures forall i :: 0 <= i < |states[k].callers| ==> states[k].callers[i].names == states[0].callers[i].names
  {
    var s := states[k];
    if k == 0 {
      forall i | 0 <= i < |s.callers| ensures CallerOk(s.table, s.callers[i]) {
        assert s.callers[i].names[..0] == [];
      }
    } else {
      RunKeepsInv(states, turns, k - 1);
      assert Step(states[k - 1], turns[k - 1], s);
      StepKeepsInv(states[k - 1], turns[k - 1], s);
    }
  }

  /** However the queries interleave, no call ends up without its folder: whenever two calls for the same
      path are done they hold the same id, ResolvePathID finds that id, and it is the only active entry
      under its name, as are the entries for all shorter prefixes. */
  lemma CallersAgree(states: seq<State>, turns: seq<Turn>, k: nat, i: nat, j: nat)
    requires Run(states, turns) && k < |states| && i < |states[k].callers| && j < |states[k].callers|
    ensures Unique(states[k].table)
    ensures states[k].callers[i].phase != Missing
    ensures var t, c, d := states[k].table, states[k].callers[i], states[k].callers[j];
            c.phase == Done ==>
              && c.parent.Some? && Walk(t, c.names) == Some(c.parent)
              && (forall n: nat :: n <= |c.names| ==> Walk(t, c.names[..n]).Some?)
              && (d.phase == Done && d.names == c.names ==> d.parent == c.parent)
  {
    RunKeepsInv(states, turns, k);
    var t, c := states[k].table, states[k].callers[i];
    assert CallerOk(t, c) && CallerOk(t, states[k].callers[j]);
    if c.phase == Done {
      assert c.names[..|c.names|] == c.names;
      forall n: nat | n <= |c.names| ensures Walk(t, c.names[..n]).Some? {
        WalkPrefix(t, c.names, n);
      }
    }
  }

  /** No query of call i fails for a reason of the database's own. */
  predicate Reliable(turns: seq<Turn>, i: nat) {
    forall k :: 0 <= k < |turns| && turns[k].Call? && turns[k].i == i ==> turns[k].reliable
  }

  /** How many of the first k queries are call i's. */
  function Own(turns: seq<Turn>, i: nat, k: nat): nat
    requires k <= |turns|
  {
    if k == 0 then 0
    else Own(turns, i, k - 1) + (if turns[k - 1].Call? && turns[k - 1].i == i then 1 else 0)
  }

  /** A call that the database does not fail never fails, whatever the other calls do, and needs at most three
      queries for each name of its path: each one brings it closer to its end. */
  lemma {:induction false} CallEnds(states: seq<State>, turns: seq<Turn>, k: nat, i: nat)
    requires Run(states, turns) && k < |states| && i < |states[0].callers| && Reliable(turns, i)
    ensures i < |states[k].callers|
    ensures var c := states[k].callers[i];
            && c.phase in {Get, Insert, Reread, Done}
            && 0 <= Left(c) && Own(turns, i, k) + Left(c) <= 3 * |states[0].callers[i].names|
            && (Own(turns, i, k) == 3 * |c.names| ==> c.phase == Done)
  {
    RunKeepsInv(states, turns, k);
    if k > 0 {
      CallEnds(states, turns, k - 1, i);
      RunKeepsInv(states, turns, k - 1);
      var s, turn, s' := states[k - 1], turns[k - 1], states[k];
      assert Step(s, turn, s');
      if turn.Call? && turn.i == i {
        CallerStepOk(s.table, s.callers[i], s'.table, s'.callers[i], turn.reliable);
        CallerComesCloser(s.table, s.callers[i], s'.table, s'.callers[i], turn.reliable);
      }
    }
    assert CallerOk(states[k].table, states[k].callers[i]);
  }

  /** How many queries all calls together may still need. */
  ghost function AllLeft(callers: seq<Caller>): int {
    if callers == [] then 0 else AllLeft(callers[..|callers| - 1]) + Left(callers[|callers| - 1])
  }

  lemma {:induction false} AllLeftUpdate(callers: seq<Caller>, i: nat, c: Caller)
    requires i < |callers|
    ensures AllLeft(callers[i := c]) == AllLeft(callers) - Left(callers[i]) + Left(c)
  {
    var n := |callers| - 1;
    if i < n {
      AllLeftUpdate(callers[..n], i, c);
      assert callers[i := c][..n] == callers[..n][i := c];
    } else {
      assert callers[i := c][..n] == callers[..n];
    }
  }

  lemma {:induction false} AllLeftIsNat(s: State, n: nat)
    requires Inv(s) && n <= |s.callers|
    ensures AllLeft(s.callers[..n]) >= 0
  {
    if n > 0 {
      AllLeftIsNat(s, n - 1);
      assert s.callers[..n][..n - 1] == s.callers[..n - 1];
      assert CallerOk(s.table, s.callers[n - 1]);
    }
  }

  /** The call has returned its folder, or an error of the database. */
  predicate Ended(c: Caller) {
    c.phase == Done || c.phase == Aborted
  }

  /** One more query, of a call that has not ended. */
  lemma OneGoesOn(states: seq<State>, turns: seq<Turn>, i: nat) returns (turn: Turn, next: State)
    requires Run(states, turns) && i < |states[|turns|].callers| && !Ended(states[|turns|].callers[i])
    ensures Run(states + [next], turns + [turn]) && turn == Call(i, true)
    ensures 0 <= AllLeft(next.callers) < AllLeft(states[|turns|].callers)
  {
    var s := states[|turns|];
    RunKeepsInv(states, turns, |turns|);
    assert CallerOk(s.table, s.callers[i]);
    var t', c' := CallerGoesOn(s.table, s.callers[i]);
    CallerComesCloser(s.table, s.callers[i], t', c', true);
    next, turn := State(t', s.callers[i := c']), Call(i, true);
    AllLeftUpdate(s.callers, i, c');
    StepKeepsInv(s, turn, next);
    AllLeftIsNat(next, |next.callers|);
    assert next.callers[..|next.callers|] == next.callers;
    RunSnoc(states, turns, turn, next);
  }

  /** The last turns of a run are queries that cannot fail. */
  predicate ReliableFrom(turns: seq<Turn>, from: nat) {
    forall k :: from <= k < |turns| ==> turns[k].Call? && turns[k].reliable
  }

  /** Wherever a run stands, the calls can all be brought to their ends without a further failure: no call
      ever waits for another one. */
  lemma {:induction false} AllCanEnd(states: seq<State>, turns: seq<Turn>, left: nat)
    returns (states': seq<State>, turns': seq<Turn>)
    requires Run(states, turns) && |states| == |turns| + 1 && AllLeft(states[|turns|].callers) <= left
    ensures Run(states', turns') && states <= states' && turns <= turns' && ReliableFrom(turns', |turns|)
    ensures |states'| == |turns'| + 1 && forall c :: c in states'[|turns'|].callers ==> Ended(c)
    decreases left
  {
    hide Run, AllLeft, Ended;
    var s := states[|turns|];
    if i: nat :| i < |s.callers| && !Ended(s.callers[i]) {
      var turn, next := OneGoesOn(states, turns, i);
      var more := turns + [turn];
      assert (states + [next])[|more|] == next;
      states', turns' := AllCanEnd(states + [next], more, left - 1);
      assert turns'[|turns|] == more[|turns|] == turn;
    } else {
      states', turns' := states, turns;
    }
  }

  lemma RunSnoc(states: seq<State>, turns: seq<Turn>, turn: Turn, next: State)
    requires Run(states, turns)
    requires Unique(states[|turns|].table) ==> Step(states[|turns|], turn, next)
    ensures Run(states + [next], turns + [turn])
  {
    var all, more := states + [next], turns + [turn];
    forall k | 0 <= k < |more| && Unique(all[k].table) ensures Step(all[k], more[k], all[k + 1]) {
      if k < |turns| {
        assert turns[k] == more[k];
      }
    }
  }

  /** A result stays valid: later steps of anybody leave it where ResolvePathID finds it. */
  lemma {:induction false} ResultStays(states: seq<State>, turns: seq<Turn>, k: nat, m: nat, i: nat)
    requires Run(states, turns) && k <= m < |states| && i < |states[k].callers| && states[k].callers[i].phase == Done
    ensures Unique(states[m].table)
    ensures Walk(states[m].table, states[k].callers[i].names) == Some(states[k].callers[i].parent)
    decreases m - k
  {
    RunKeepsInv(states, turns, m);
    if k == m {
      CallersAgree(states, turns, k, i, i);
    } else {
      ResultStays(states, turns, k, m - 1, i);
      RunKeepsInv(states, turns, m - 1);
      assert Step(states[m - 1], turns[m - 1], states[m]);
      StepKeepsInv(states[m - 1], turns[m - 1], states[m]);
      WalkGrows(states[m - 1].table, states[m].table, states[k].callers[i].names);
    }
  }

  /** All entries of this name are folders. */
  predicate FoldersNamed(t: Table, name: string) {
    forall x :: x in t && t[x].name == name ==> t[x].folder
  }

  /** Only the rest of the program, or the table that the run starts from, can have a file of that name. */
  ghost predicate NoFileNamed(states: seq<State>, turns: seq<Turn>, name: string) {
    && |states| == |turns| + 1 && FoldersNamed(states[0].table, name)
    && forall k :: 0 <= k < |turns| && turns[k] == Rest && FoldersNamed(states[k].table, name) ==>
         FoldersNamed(states[k + 1].table, name)
  }

  lemma {:induction false} StaysWithoutFile(states: seq<State>, turns: seq<Turn>, k: nat, name: string)
    requires Run(states, turns) && k < |states| && NoFileNamed(states, turns, name)
    ensures FoldersNamed(states[k].table, name)
  {
    if k > 0 {
      StaysWithoutFile(states, turns, k - 1, name);
      RunKeepsInv(states, turns, k - 1);
      var s, turn, s' := states[k - 1], turns[k - 1], states[k];
      assert Step(s, turn, s');
      if turn.Call? {
        assert CallerOk(s.table, s.callers[turn.i]);
        CallerStepOk(s.table, s.callers[turn.i], s'.table, s'.callers[turn.i], turn.reliable);
      }
    }
  }

  /** Each prefix of a finished call's path is one active entry, and a folder unless somebody else made a file
      of that name. */
  lemma OneFolderPerPrefix(states: seq<State>, turns: seq<Turn>, k: nat, i: nat, n: nat) returns (id: Id)
    requires Run(states, turns) && k < |states| && i < |states[k].callers| && states[k].callers[i].phase == Done
    requires 0 < n <= |states[k].callers[i].names|
    ensures var t, names := states[k].table, states[k].callers[i].names;
            && Unique(t) && Walk(t, names[..n]) == Some(Some(id))
            && id in t && t[id].active && t[id].name == names[n - 1]
            && Walk(t, names[..n - 1]) == Some(t[id].parent)
            && (forall x :: Sits(t, x, t[id].name, t[id].parent) ==> x == id)
            && (NoFileNamed(states, turns, names[n - 1]) ==> t[id].folder)
  {
    CallersAgree(states, turns, k, i, i);
    var t, names := states[k].table, states[k].callers[i].names;
    WalkSnoc(t, names, n - 1);
    WalkPrefix(t, names, n);
    WalkPrefix(t, names, n - 1);
    id := Lookup(t, names[n - 1], Walk(t, names[..n - 1]).value).value;
    if NoFileNamed(states, turns, names[n - 1]) {
      StaysWithoutFile(states, turns, k, names[n - 1]);
    }
  }
}
