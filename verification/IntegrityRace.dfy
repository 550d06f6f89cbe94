/** The integrity check beside running transfers (cmd/check.go): it reads the files first, then the channel,
    and the unfinished uploads last. */
module IntegrityRace {
  import opened Streams
  import opened IntegrityCheck

  /** What the database and the channel hold, and the messages whose file has been replaced. */
  datatype World = World(files: seq<CheckFile>, uploads: set<int>, messages: seq<Message>, dropped: set<int>)

  /** What a transfer does: it sends the message of a part, inserts its row, and in the end turns the rows
      of all its parts into a file. That may replace an active file of the same name, also one of this channel
      by one of another channel. */
  datatype Step =
    | Send(id: nat, size: nat)
    | Stage(id: nat)
    | Commit(file: CheckFile, over: Option<nat>)
    | CommitElsewhere(n: nat)

  ghost predicate Sent(w: World, id: int) {
    exists k :: 0 <= k < |w.messages| && w.messages[k].id == id
  }

  ghost predicate OwnedIn(files: seq<CheckFile>, id: nat) {
    exists k :: 0 <= k < |files| && id in files[k].parts
  }

  ghost predicate Owned(w: World, id: nat) {
    OwnedIn(w.files, id)
  }

  /** The message belongs, or has belonged, to an upload or to a file. */
  ghost predicate Held(w: World, id: nat) {
    id in w.uploads || Owned(w, id) || id in w.dropped
  }

  function PartIds(f: CheckFile): set<int> {
    set p | p in f.parts :: p as int
  }

  /** Which file a step replaces. */
  function Over(s: Step): Option<nat> {
    match s
    case Commit(_, over) => over
    case CommitElsewhere(n) => Some(n)
    case _ => None
  }

  /** The step replaces the file that message p belongs to. */
  predicate Drops(w: World, s: Step, p: nat) {
    Over(s).Some? && Over(s).value < |w.files| && p in w.files[Over(s).value].parts
  }

  /** Telegram never gives a number twice, and a message has one row at most. */
  ghost predicate Enabled(w: World, s: Step) {
    && (Over(s).Some? ==> Over(s).value < |w.files|)
    && match s
       case Send(id, _) => id > 0 && !Sent(w, id)
       case Stage(id) => Sent(w, id) && !Held(w, id)
       case Commit(f, _) => forall p :: p in f.parts ==> p in w.uploads
       case CommitElsewhere(_) => true
  }

  function Without(files: seq<CheckFile>, n: nat): seq<CheckFile>
    requires n < |files|
  {
    files[..n] + files[n + 1..]
  }

  /** The world without the file that a step replaces. */
  function Replaced(w: World, s: Step): World
    requires Over(s).Some? ==> Over(s).value < |w.files|
  {
    match Over(s)
    case None => w
    case Some(n) => w.(files := Without(w.files, n), dropped := w.dropped + PartIds(w.files[n]))
  }

  function Next(w: World, s: Step): World
    requires Over(s).Some? ==> Over(s).value < |w.files|
  {
    var rest := Replaced(w, s);
    match s
    case Send(id, size) => w.(messages := w.messages + [Message(id, Some(size))])
    case Stage(id) => w.(uploads := w.uploads + {id as int})
    case Commit(f, _) => rest.(files := rest.files + [f], uploads := w.uploads - PartIds(f))
    case CommitElsewhere(_) => rest
  }

  /** A run of transfers into an empty channel. */
  ghost predicate Run(ws: seq<World>, steps: seq<Step>) {
    && |ws| == |steps| + 1 && ws[0] == World([], {}, [], {})
    && (forall i {:trigger steps[i]} :: 0 <= i < |steps| ==>
          Enabled(ws[i], steps[i]) && ws[i + 1] == Next(ws[i], steps[i]))
  }

  /** No two files share a message. */
  ghost predicate Apart(files: seq<CheckFile>) {
    forall i, j, p: nat :: 0 <= i < j < |files| && p in files[i].parts ==> p !in files[j].parts
  }

  /** Every message with a row, of a file or of a replaced file has been sent, and is only one of the three. */
  ghost predicate Consistent(w: World) {
    && (forall p: nat :: Sent(w, p) ==> p > 0)
    && (forall p: nat :: Held(w, p) ==> Sent(w, p) && !(p in w.uploads && Owned(w, p)))
    && (forall p: nat :: p in w.dropped ==> p !in w.uploads && !Owned(w, p))
    && Apart(w.files)
  }

  lemma WithoutFacts(files: seq<CheckFile>, n: nat)
    requires n < |files| && Apart(files)
    ensures Apart(Without(files, n))
    ensures forall p: nat :: OwnedIn(Without(files, n), p) <==> OwnedIn(files, p) && p !in files[n].parts
  {
    var rest := Without(files, n);
    assert forall k :: 0 <= k < |rest| ==> rest[k] == files[if k < n then k else k + 1];
    forall p: nat ensures OwnedIn(rest, p) <==> OwnedIn(files, p) && p !in files[n].parts {
      if OwnedIn(files, p) && p !in files[n].parts {
        var k :| 0 <= k < |files| && p in files[k].parts;
        assert rest[if k < n then k else k - 1] == files[k];
      }
    }
  }

  lemma AppendFacts(files: seq<CheckFile>, f: CheckFile)
    requires Apart(files) && forall p :: p in f.parts ==> !OwnedIn(files, p)
    ensures Apart(files + [f])
    ensures forall p: nat :: OwnedIn(files + [f], p) <==> OwnedIn(files, p) || p in f.parts
  {
    var all := files + [f];
    forall p: nat ensures OwnedIn(all, p) <==> OwnedIn(files, p) || p in f.parts {
      if OwnedIn(files, p) {
        var k :| 0 <= k < |files| && p in files[k].parts;
        assert all[k] == files[k];
      }
      if p in f.parts {
        assert all[|files|] == f;
      }
    }
  }

  /** What a step does to the files. */
  lemma FilesNext(w: World, s: Step)
    requires Enabled(w, s) && Consistent(w)
    ensures Apart(Next(w, s).files)
    ensures forall p: nat :: Owned(Next(w, s), p) <==>
                             (Owned(w, p) && !Drops(w, s, p)) || (s.Commit? && p in s.file.parts)
  {
    if Over(s).Some? {
      WithoutFacts(w.files, Over(s).value);
    }
    if s.Commit? {
      AppendFacts(Replaced(w, s).files, s.file);
    }
  }

  lemma StepFacts(w: World, s: Step, p: nat)
    requires Enabled(w, s) && Consistent(w)
    ensures var w' := Next(w, s);
            && (Sent(w', p) <==> Sent(w, p) || (s.Send? && s.id == p))
            && (Owned(w', p) <==> (Owned(w, p) && !Drops(w, s, p)) || (s.Commit? && p in s.file.parts))
            && (p in w'.dropped <==> p in w.dropped || Drops(w, s, p))
            && (Held(w', p) <==> Held(w, p) || (s.Stage? && s.id == p))
  {
    var w' := Next(w, s);
    if Sent(w, p) {
      var k :| 0 <= k < |w.messages| && w.messages[k].id == p;
      assert w'.messages[k].id == p;
    }
    if s.Send? && s.id == p {
      assert w'.messages[|w.messages|].id == p;
    }
    FilesNext(w, s);
  }

  lemma StepKeeps(w: World, s: Step)
    requires Enabled(w, s) && Consistent(w)
    ensures Consistent(Next(w, s))
  {
    var w' := Next(w, s);
    FilesNext(w, s);
    forall p: nat | Sent(w', p) ensures p > 0 {
      StepKeepsAt(w, s, p);
    }
    forall p: nat | Held(w', p) ensures Sent(w', p) && !(p in w'.uploads && Owned(w', p)) {
      StepKeepsAt(w, s, p);
    }
    forall p: nat | p in w'.dropped ensures p !in w'.uploads && !Owned(w', p) {
      StepKeepsAt(w, s, p);
    }
  }

  lemma StepKeepsAt(w: World, s: Step, p: nat)
    requires Enabled(w, s) && Consistent(w)
    ensures var w' := Next(w, s);
            && (Sent(w', p) ==> p > 0)
            && (Held(w', p) ==> Sent(w', p) && !(p in w'.uploads && Owned(w', p)))
            && (p in w'.dropped ==> p !in w'.uploads && !Owned(w', p))
  {
    hide Apart, Sent, OwnedIn;
    StepFacts(w, s, p);
    if Drops(w, s, p) {
      DropsOwned(w, s, p);
    }
  }

  lemma DropsOwned(w: World, s: Step, p: nat)
    requires Drops(w, s, p)
    ensures Owned(w, p)
  {
  }

  /** A transfer can always go through: its message is sent, gets a row, and becomes part of a file, which may
      replace another one. */
  lemma TransferGoesThrough(w: World, id: nat, size: nat, f: CheckFile, over: Option<nat>)
    requires Consistent(w) && id > 0 && !Sent(w, id) && f.parts == [id] && (over.Some? ==> over.value < |w.files|)
    ensures var w1 := w.(messages := w.messages + [Message(id, Some(size))]);
            var w2 := w1.(uploads := w1.uploads + {id as int});
            var kept := if over.Some? then w.files[..over.value] + w.files[over.value + 1..] else w.files;
            && Enabled(w, Send(id, size)) && Next(w, Send(id, size)) == w1
            && Enabled(w1, Stage(id)) && Next(w1, Stage(id)) == w2
            && Enabled(w2, Commit(f, over)) && Next(w2, Commit(f, over)).files == kept + [f]
            && Next(w2, Commit(f, over)).uploads == w.uploads && Next(w2, Commit(f, over)).messages == w1.messages
  {
    var w1 := Next(w, Send(id, size));
    assert Enabled(w, Send(id, size));
    StepFacts(w, Send(id, size), id);
    assert !Held(w, id) && Held(w1, id) == Held(w, id);
    assert id in f.parts && forall p :: p in f.parts ==> p == id;
    assert PartIds(f) == {id as int};
    assert id !in w.uploads;
    assert w.uploads + {id as int} - {id as int} == w.uploads;
  }

  lemma {:induction false} RunKeeps(ws: seq<World>, steps: seq<Step>, i: nat)
    requires Run(ws, steps) && i <= |steps|
    ensures Consistent(ws[i])
  {
    if i > 0 {
      RunKeeps(ws, steps, i - 1);
      assert steps[i - 1] == steps[i - 1];
      StepKeeps(ws[i - 1], steps[i - 1]);
    }
  }

  /** What has been sent, held or dropped stays so, and what a file owns is owned until it is dropped. */
  lemma {:induction false} Lasts(ws: seq<World>, steps: seq<Step>, i: nat, j: nat, p: nat)
    requires Run(ws, steps) && i <= j <= |steps|
    ensures Sent(ws[i], p) ==> Sent(ws[j], p)
    ensures Owned(ws[i], p) ==> Owned(ws[j], p) || p in ws[j].dropped
    ensures p in ws[i].dropped ==> p in ws[j].dropped
    ensures Held(ws[i], p) ==> Held(ws[j], p)
    decreases j
  {
    if i < j {
      Lasts(ws, steps, i, j - 1, p);
      RunKeeps(ws, steps, j - 1);
      assert steps[j - 1] == steps[j - 1];
      StepFacts(ws[j - 1], steps[j - 1], p);
    }
  }

  /** When message p was sent, got its row, and became part of file f. */
  ghost predicate Life(steps: seq<Step>, p: nat, s: nat, r: nat, k: nat, f: CheckFile) {
    && s < |steps| && r < |steps| && k < |steps|
    && steps[s].Send? && steps[s].id == p && steps[r] == Stage(p)
    && steps[k].Commit? && steps[k].file == f && p in f.parts
  }

  /** At every moment: sent since s, with a row between r and k, in a file since k until that is replaced. */
  lemma LifeAt(ws: seq<World>, steps: seq<Step>, p: nat, s: nat, r: nat, k: nat, f: CheckFile, i: nat)
    requires Run(ws, steps) && Life(steps, p, s, r, k, f) && i <= |steps|
    ensures Sent(ws[i], p) <==> s < i
    ensures p in ws[i].uploads <==> r < i <= k
    ensures Owned(ws[i], p) <==> k < i && p !in ws[i].dropped
  {
    hide Enabled, Consistent, Sent, OwnedIn, Next;
    SentAt(ws, steps, p, s, i);
    RowAt(ws, steps, p, r, k, i);
  }

  lemma SentAt(ws: seq<World>, steps: seq<Step>, p: nat, s: nat, i: nat)
    requires Run(ws, steps) && s < |steps| && steps[s].Send? && steps[s].id == p && i <= |steps|
    ensures Sent(ws[i], p) <==> s < i
  {
    RunKeeps(ws, steps, s);
    StepFacts(ws[s], steps[s], p);
    if s < i {
      Lasts(ws, steps, s + 1, i, p);
    } else {
      Lasts(ws, steps, i, s, p);
    }
  }

  lemma RowAt(ws: seq<World>, steps: seq<Step>, p: nat, r: nat, k: nat, i: nat)
    requires Run(ws, steps) && r < |steps| && k < |steps| && steps[r] == Stage(p) && i <= |steps|
    requires steps[k].Commit? && p in steps[k].file.parts
    ensures p in ws[i].uploads <==> r < i <= k
    ensures Owned(ws[i], p) <==> k < i && p !in ws[i].dropped
  {
    RunKeeps(ws, steps, r);
    RunKeeps(ws, steps, k);
    RunKeeps(ws, steps, i);
    StepFacts(ws[r], steps[r], p);
    StepFacts(ws[k], steps[k], p);
    if r < i {
      Lasts(ws, steps, r + 1, i, p);
    } else {
      Lasts(ws, steps, i, r, p);
    }
    if k < i {
      Lasts(ws, steps, k + 1, i, p);
    } else {
      Lasts(ws, steps, i, k, p);
    }
  }

  /** A file stays as long as one of its messages has not been dropped. */
  lemma {:induction false} FileIsThere(ws: seq<World>, steps: seq<Step>, k: nat, f: CheckFile, p: nat, i: nat)
    requires Run(ws, steps) && k < i <= |steps| && steps[k].Commit? && steps[k].file == f && p in f.parts
    requires p !in ws[i].dropped
    ensures f in ws[i].files
    decreases i
  {
    assert steps[i - 1] == steps[i - 1];
    RunKeeps(ws, steps, i - 1);
    StepFacts(ws[i - 1], steps[i - 1], p);
    if k < i - 1 {
      FileIsThere(ws, steps, k, f, p, i - 1);
      StaysListed(ws[i - 1], steps[i - 1], f, p);
    } else {
      assert ws[i].files[|Replaced(ws[k], steps[k]).files|] == f;
    }
  }

  lemma StaysListed(w: World, s: Step, f: CheckFile, p: nat)
    requires Enabled(w, s) && f in w.files && p in f.parts && !Drops(w, s, p)
    ensures f in Next(w, s).files
  {
    var k :| 0 <= k < |w.files| && w.files[k] == f;
    if Over(s).Some? {
      var n := Over(s).value;
      assert Without(w.files, n)[if k < n then k else k - 1] == f;
    }
  }

  /** All parts of a file that was there when the files were read are looked at. */
  lemma KnownFileClaims(ws: seq<World>, steps: seq<Step>, a: nat, b: nat, c: nat, sizes: Sizes, k: nat,
                        f: CheckFile, p: nat)
    requires Run(ws, steps) && a <= b <= c <= |steps| && IsSizes(sizes, ws[b].messages, ws[c].uploads)
    requires k < a && steps[k].Commit? && steps[k].file == f && p in f.parts && p !in ws[a].dropped
    ensures Claimed(ws[a].files, sizes, p)
  {
    forall i | 0 <= i < |f.parts| ensures f.parts[i] in sizes {
      var q := f.parts[i];
      RunKeeps(ws, steps, k);
      assert Held(ws[k], q);
      StepFacts(ws[k], steps[k], q);
      Lasts(ws, steps, k, b, q);
      Lasts(ws, steps, k + 1, c, q);
      RunKeeps(ws, steps, c);
    }
    FileIsThere(ws, steps, k, f, p, a);
    var n :| 0 <= n < |ws[a].files| && ws[a].files[n] == f;
    var j :| 0 <= j < |f.parts| && f.parts[j] == p;
    assert LookedAt(sizes, ws[a].files[n], p);
  }

  lemma ClaimedIsOwned(w: World, sizes: Sizes, p: nat)
    ensures Claimed(w.files, sizes, p) ==> Owned(w, p)
  {
    if k :| 0 <= k < |w.files| && LookedAt(sizes, w.files[k], p) {
      assert p in w.files[k].parts;
    }
  }

  /** The check beside a running transfer. A message of a file is taken for an orphan if and only if it was
      sent before the channel was read, its file was not there when the files were read, not yet or not any more,
      and the uploads were read before its row was there or after the commit had deleted it. */
  lemma OrphanBesideTransfer(ws: seq<World>, steps: seq<Step>, a: nat, b: nat, c: nat, sizes: Sizes,
                             missing: seq<CheckFile>, orphans: seq<nat>, p: nat, s: nat, r: nat, k: nat, f: CheckFile)
    requires Run(ws, steps) && a <= b <= c <= |steps|
    requires IsSizes(sizes, ws[b].messages, ws[c].uploads) && Classified(ws[a].files, sizes, missing, orphans)
    requires Life(steps, p, s, r, k, f)
    ensures p in orphans <==> p != 1 && s < b && (a <= k || p in ws[a].dropped) && (c <= r || k < c)
  {
    LifeAt(ws, steps, p, s, r, k, f, a);
    LifeAt(ws, steps, p, s, r, k, f, b);
    LifeAt(ws, steps, p, s, r, k, f, c);
    if k < a && p !in ws[a].dropped {
      KnownFileClaims(ws, steps, a, b, c, sizes, k, f, p);
    }
    ClaimedIsOwned(ws[a], sizes, p);
  }

  /** The messages of a file that was replaced before the check are orphans, all of them but message 1. */
  lemma ReplacedAreOrphans(ws: seq<World>, steps: seq<Step>, a: nat, b: nat, c: nat, sizes: Sizes,
                           missing: seq<CheckFile>, orphans: seq<nat>, d: nat, n: nat, p: nat)
    requires Run(ws, steps) && a <= b <= c <= |steps|
    requires IsSizes(sizes, ws[b].messages, ws[c].uploads) && Classified(ws[a].files, sizes, missing, orphans)
    requires d < a && Over(steps[d]) == Some(n) && n < |ws[d].files| && p in ws[d].files[n].parts && p != 1
    ensures p in orphans
  {
    RunKeeps(ws, steps, d);
    StepFacts(ws[d], steps[d], p);
    Lasts(ws, steps, d + 1, a, p);
    Lasts(ws, steps, a, b, p);
    Lasts(ws, steps, a, c, p);
    RunKeeps(ws, steps, a);
    RunKeeps(ws, steps, c);
    ClaimedIsOwned(ws[a], sizes, p);
  }
}
