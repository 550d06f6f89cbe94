/** Comparing a channel's messages with the files that claim them (cmd/check.go). */
module IntegrityCheck {
  import opened Streams
  import opened CipherFormat

  /** A message of the channel; a message without a document counts as empty. */
  datatype Message = Message(id: int, document: Option<nat>)

  datatype CheckFile = CheckFile(id: nat, parts: seq<nat>, size: int, encrypted: bool)

  type Sizes = map<nat, nat> // by message

  /** The size a part adds to its file; a stored size that cannot be decrypted adds nothing. */
  function PlainPart(encrypted: bool, stored: nat): nat {
    if encrypted then (match DecryptedSize(stored) case Size(n) => n case BadSize(_) => 0) else stored
  }

  function PlainTotal(sizes: Sizes, encrypted: bool, parts: seq<nat>): int
    requires forall i :: 0 <= i < |parts| ==> parts[i] in sizes
  {
    if parts == [] then 0
    else PlainTotal(sizes, encrypted, parts[..|parts| - 1]) + PlainPart(encrypted, sizes[parts[|parts| - 1]])
  }

  /** All messages of the file are there, and their plain sizes add up to its size. */
  predicate Healthy(sizes: Sizes, f: CheckFile) {
    && (forall i :: 0 <= i < |f.parts| ==> f.parts[i] in sizes)
    && PlainTotal(sizes, f.encrypted, f.parts) == f.size
  }

  /** p is one of the parts that the check looks at: those up to the first missing one. */
  predicate LookedAt(sizes: Sizes, f: CheckFile, p: nat) {
    exists k :: 0 <= k < |f.parts| && f.parts[k] == p && (forall i :: 0 <= i < k ==> f.parts[i] in sizes)
  }

  /** The messages that are compared: not those of unfinished uploads. */
  ghost predicate IsSizes(sizes: Sizes, msgs: seq<Message>, uploads: set<int>) {
    && (forall id: nat :: id in sizes <==> id > 0 && id !in uploads && exists k :: 0 <= k < |msgs| && msgs[k].id == id)
    && (forall id :: id in sizes ==>
          exists k :: 0 <= k < |msgs| && IsLast(msgs, k, id) && sizes[id] == msgs[k].document.GetOr(0))
  }

  predicate IsLast(msgs: seq<Message>, k: nat, id: int) {
    k < |msgs| && msgs[k].id == id && forall j :: k < j < |msgs| ==> msgs[j].id != id
  }

  method MessageSizes(msgs: seq<Message>, uploads: set<int>) returns (sizes: Sizes)
    ensures IsSizes(sizes, msgs, uploads)
  {
    sizes := map[];
    for n := 0 to |msgs|
      invariant IsSizes(sizes, msgs[..n], uploads)
    {
      var m := msgs[n];
      ghost var before := sizes;
      if !(m.id <= 0 || m.id in uploads) {
        match m.document {
          case None => sizes := sizes[m.id := 0];
          case Some(size) => sizes := sizes[m.id := size];
        }
      }
      SizesSnoc(before, sizes, msgs[..n], m, uploads);
      assert msgs[..n + 1] == msgs[..n] + [m];
    }
    assert msgs[..|msgs|] == msgs;
  }

  /** What the last message of a number counts for: its document's size, or nothing without a document. */
  lemma SizeOf(sizes: Sizes, msgs: seq<Message>, uploads: set<int>, k: nat)
    requires IsSizes(sizes, msgs, uploads) && k < |msgs| && forall j :: k < j < |msgs| ==> msgs[j].id != msgs[k].id
    ensures msgs[k].id <= 0 || msgs[k].id in uploads ==> msgs[k].id !in sizes
    ensures msgs[k].id > 0 && msgs[k].id !in uploads ==>
              msgs[k].id in sizes && sizes[msgs[k].id] == match msgs[k].document case Some(n) => n case None => 0
  {
    var id := msgs[k].id;
    if id > 0 && id !in uploads {
      assert id in sizes;
      var i :| 0 <= i < |msgs| && IsLast(msgs, i, id) && sizes[id] == msgs[i].document.GetOr(0);
      assert i == k;
    }
  }

  lemma SizesSnoc(before: Sizes, sizes: Sizes, msgs: seq<Message>, m: Message, uploads: set<int>)
    requires IsSizes(before, msgs, uploads)
    requires sizes == if m.id <= 0 || m.id in uploads then before else before[m.id := m.document.GetOr(0)]
    ensures IsSizes(sizes, msgs + [m], uploads)
  {
    var all := msgs + [m];
    forall id: nat ensures id in sizes <==> id > 0 && id !in uploads && exists k :: 0 <= k < |all| && all[k].id == id {
      if k :| 0 <= k < |msgs| && msgs[k].id == id {
        assert all[k].id == id;
      }
      if m.id == id {
        assert all[|msgs|].id == id;
      }
    }
    forall id | id in sizes
      ensures exists k :: 0 <= k < |all| && IsLast(all, k, id) && sizes[id] == all[k].document.GetOr(0)
    {
      if m.id == id {
        assert IsLast(all, |msgs|, id);
      } else {
        var k :| 0 <= k < |msgs| && IsLast(msgs, k, id) && before[id] == msgs[k].document.GetOr(0);
        assert IsLast(all, k, id);
      }
    }
  }

  function NonZero(parts: seq<nat>): set<nat> {
    set p | p in parts && p != 0
  }

  /** All of these parts are there, but for the last one if something is missing. */
  predicate Scanned(sizes: Sizes, parts: seq<nat>, missing: bool) {
    && (forall j :: 0 <= j < |parts| - 1 ==> parts[j] in sizes)
    && (missing ==> parts != [] && parts[|parts| - 1] !in sizes)
    && (!missing ==> forall j :: 0 <= j < |parts| ==> parts[j] in sizes)
  }

  lemma ScannedIs(sizes: Sizes, f: CheckFile, i: nat, missing: bool)
    requires i <= |f.parts| && Scanned(sizes, f.parts[..i], missing) && (missing || i == |f.parts|)
    ensures missing <==> exists k :: 0 <= k < |f.parts| && f.parts[k] !in sizes
    ensures !missing ==> f.parts[..i] == f.parts
    ensures forall p :: p in NonZero(f.parts[..i]) <==> p != 0 && LookedAt(sizes, f, p)
  {
    var done := f.parts[..i];
    if missing {
      assert done[i - 1] == f.parts[i - 1];
    }
    forall p ensures p in done <==> LookedAt(sizes, f, p) {
      if p in done {
        var k :| 0 <= k < i && done[k] == p;
        assert f.parts[k] == p && forall j :: 0 <= j < k ==> f.parts[j] == done[j];
      }
      if LookedAt(sizes, f, p) {
        var k :| 0 <= k < |f.parts| && f.parts[k] == p && (forall j :: 0 <= j < k ==> f.parts[j] in sizes);
        assert k < i ==> done[k] == p;
      }
    }
  }

  method CountMessages(sizes: Sizes) returns (n: nat)
    ensures n == |sizes.Keys - {1}|
  {
    n := |sizes.Keys|;
    if 1 in sizes {
      n := n - 1;
    } else {
      assert sizes.Keys - {1} == sizes.Keys;
    }
  }

  class ChannelProcessor {
    const files: seq<CheckFile>
    var allPartIDs: set<nat>
    var missingFiles: seq<CheckFile>
    var orphanMessages: seq<nat>
    var totalPartsDB: int
    var totalMessagesTG: int

    constructor (files: seq<CheckFile>)
      ensures this.files == files && allPartIDs == {} && missingFiles == [] && orphanMessages == []
      ensures totalPartsDB == totalMessagesTG == 0
    {
      this.files, allPartIDs, missingFiles, orphanMessages, totalPartsDB, totalMessagesTG := files, {}, [], [], 0, 0;
    }

    /** The loop over one file's parts. */
    method CheckOne(f: CheckFile, sizes: Sizes) returns (healthy: bool)
      requires 0 !in sizes
      modifies this`allPartIDs
      ensures healthy <==> Healthy(sizes, f)
      ensures forall p :: p in allPartIDs <==> p in old(allPartIDs) || (p != 0 && LookedAt(sizes, f, p))
    {
      var size, missing := 0, false;
      ghost var was := allPartIDs;
      var i := 0;
      while i < |f.parts| && !missing
        invariant 0 <= i <= |f.parts| && Scanned(sizes, f.parts[..i], missing)
        invariant !missing ==> size == PlainTotal(sizes, f.encrypted, f.parts[..i])
        invariant allPartIDs == was + NonZero(f.parts[..i])
        decreases |f.parts| - i
      {
        var p := f.parts[i];
        ghost var done := f.parts[..i];
        assert f.parts[..i + 1] == done + [p] && (done + [p])[..|done|] == done;
        if p != 0 {
          allPartIDs := allPartIDs + {p};
        }
        if p !in sizes {
          missing := true;
        } else {
          size := size + PlainPart(f.encrypted, sizes[p]);
        }
        i := i + 1;
      }
      healthy := !(missing || size != f.size);
      ScannedIs(sizes, f, i, missing);
    }

    /** Everything in `process` up to the report. It gives up on a channel whose messages did not all
        arrive, and looks at nothing in a channel without messages. */
    method Process(msgs: seq<Message>, total: int, uploads: set<int>) returns (ok: bool, ghost sizes: Sizes)
      requires allPartIDs == {} && missingFiles == [] && orphanMessages == []
      modifies this
      ensures ok <==> (total == 0 && msgs == []) || |msgs| >= total
      ensures IsSizes(sizes, msgs, uploads)
      ensures !ok || (total == 0 && msgs == []) ==> missingFiles == [] && orphanMessages == []
      ensures ok && !(total == 0 && msgs == []) ==> Classified(files, sizes, missingFiles, orphanMessages)
      ensures ok && !(total == 0 && msgs == []) ==>
                && totalMessagesTG == old(totalMessagesTG) + |sizes.Keys - {1}|
                && totalPartsDB == old(totalPartsDB) + |allPartIDs|
    {
      var msgMap := MessageSizes(msgs, uploads);
      sizes := msgMap;
      if total == 0 && |msgs| == 0 {
        return true, msgMap;
      }
      if |msgs| < total {
        return false, msgMap;
      }
      FindMissing(msgMap);
      FindOrphans(msgMap);
      totalPartsDB := totalPartsDB + |allPartIDs|;
      var msgCount := CountMessages(msgMap);
      totalMessagesTG := totalMessagesTG + msgCount;
      ok := true;
    }

    method FindMissing(sizes: Sizes)
      requires allPartIDs == {} && missingFiles == [] && 0 !in sizes
      modifies this`allPartIDs, this`missingFiles
      ensures missingFiles == Unhealthy(sizes, files)
      ensures forall p :: p in allPartIDs <==> p != 0 && Claimed(files, sizes, p)
    {
      for n := 0 to |files|
        invariant missingFiles == Unhealthy(sizes, files[..n])
        invariant forall p :: p in allPartIDs <==> p != 0 && Claimed(files[..n], sizes, p)
      {
        var healthy := CheckOne(files[n], sizes);
        assert files[..n + 1] == files[..n] + [files[n]] && files[..n + 1][..n] == files[..n];
        ClaimedSnoc(files[..n], files[n], sizes);
        if !healthy {
          missingFiles := missingFiles + [files[n]];
        }
      }
      assert files[..|files|] == files;
    }

    /** The loop over the messages, in any order. */
    method FindOrphans(sizes: Sizes)
      requires orphanMessages == []
      modifies this`orphanMessages
      ensures forall id :: id in orphanMessages <==> id in sizes && id != 1 && id !in allPartIDs
      ensures forall i, j :: 0 <= i < j < |orphanMessages| ==> orphanMessages[i] != orphanMessages[j]
    {
      var todo := sizes.Keys;
      while todo != {}
        invariant todo <= sizes.Keys
        invariant forall id :: id in orphanMessages <==> id in sizes && id !in todo && id != 1 && id !in allPartIDs
        invariant forall i, j :: 0 <= i < j < |orphanMessages| ==> orphanMessages[i] != orphanMessages[j]
        decreases todo
      {
        var msgID :| msgID in todo;
        todo := todo - {msgID};
        if msgID == 1 {
          continue;
        }
        if msgID !in allPartIDs {
          orphanMessages := orphanMessages + [msgID];
        }
      }
    }
  }

  function Unhealthy(sizes: Sizes, files: seq<CheckFile>): seq<CheckFile> {
    if files == [] then []
    else
      var n := |files| - 1;
      Unhealthy(sizes, files[..n]) + (if Healthy(sizes, files[n]) then [] else [files[n]])
  }

  /** Some file claims p, as far as the check looks. */
  ghost predicate Claimed(files: seq<CheckFile>, sizes: Sizes, p: nat) {
    exists k :: 0 <= k < |files| && LookedAt(sizes, files[k], p)
  }

  lemma ClaimedSnoc(files: seq<CheckFile>, f: CheckFile, sizes: Sizes)
    ensures forall p :: Claimed(files + [f], sizes, p) <==> Claimed(files, sizes, p) || LookedAt(sizes, f, p)
  {
    var all := files + [f];
    forall p ensures Claimed(all, sizes, p) <==> Claimed(files, sizes, p) || LookedAt(sizes, f, p) {
      if k :| 0 <= k < |files| && LookedAt(sizes, files[k], p) {
        assert LookedAt(sizes, all[k], p);
      }
      if LookedAt(sizes, f, p) {
        assert LookedAt(sizes, all[|files|], p);
      }
    }
  }

  /** What the check reports about a channel. */
  ghost predicate Classified(files: seq<CheckFile>, sizes: Sizes, missing: seq<CheckFile>, orphans: seq<nat>) {
    && missing == Unhealthy(sizes, files)
    && (forall id :: id in orphans <==> id in sizes && id != 1 && !Claimed(files, sizes, id))
    && (forall i, j :: 0 <= i < j < |orphans| ==> orphans[i] != orphans[j])
  }

  lemma {:induction false} UnhealthyAre(sizes: Sizes, files: seq<CheckFile>, f: CheckFile)
    ensures f in Unhealthy(sizes, files) <==> f in files && !Healthy(sizes, f)
  {
    if files != [] {
      var n := |files| - 1;
      UnhealthyAre(sizes, files[..n], f);
      assert files == files[..n] + [files[n]];
    }
  }

  /** A file is reported if and only if it is broken; a file that is not reported has all its messages,
      of the right total size, and none of them is reported as an orphan, so cleaning up the orphans does
      not touch it. */
  lemma UnreportedFileIsSafe(files: seq<CheckFile>, sizes: Sizes, missing: seq<CheckFile>, orphans: seq<nat>,
                             f: CheckFile)
    requires Classified(files, sizes, missing, orphans) && f in files
    ensures f in missing <==> !Healthy(sizes, f)
    ensures f !in missing ==>
              && (forall i :: 0 <= i < |f.parts| ==> f.parts[i] in sizes && f.parts[i] !in orphans)
              && PlainTotal(sizes, f.encrypted, f.parts) == f.size
  {
    UnhealthyAre(sizes, files, f);
    if f !in missing {
      var k :| 0 <= k < |files| && files[k] == f;
      forall i | 0 <= i < |f.parts| ensures f.parts[i] !in orphans {
        assert LookedAt(sizes, files[k], f.parts[i]);
      }
    }
  }

  function Total(plain: seq<nat>): nat {
    if plain == [] then 0 else plain[0] + Total(plain[1..])
  }

  lemma {:induction false} TotalSnoc(plain: seq<nat>, n: nat)
    ensures Total(plain + [n]) == Total(plain) + n
  {
    if plain != [] {
      TotalSnoc(plain[1..], n);
      assert (plain + [n])[1..] == plain[1..] + [n];
    } else {
      assert [n][1..] == [];
    }
  }

  /** These are the plain sizes of the parts: an encrypted part's message has the encrypted size. */
  ghost predicate StoredSizes(sizes: Sizes, encrypted: bool, parts: seq<nat>, plain: seq<nat>) {
    && |plain| == |parts|
    && (forall i :: 0 <= i < |parts| ==>
          parts[i] in sizes && sizes[parts[i]] == if encrypted then EncryptedSize(plain[i]) else plain[i])
  }

  lemma {:induction false} PlainTotalIs(sizes: Sizes, encrypted: bool, parts: seq<nat>, plain: seq<nat>)
    requires StoredSizes(sizes, encrypted, parts, plain)
    ensures PlainTotal(sizes, encrypted, parts) == Total(plain)
  {
    if parts != [] {
      var n := |parts| - 1;
      PlainTotalIs(sizes, encrypted, parts[..n], plain[..n]);
      SizeRoundTrip(plain[n]);
      TotalSnoc(plain[..n], plain[n]);
      assert plain[..n] + [plain[n]] == plain;
    }
  }

  /** A file whose messages are all there is reported if and only if what was put into them does not add up
      to its size. */
  lemma StoredFileIsReported(files: seq<CheckFile>, sizes: Sizes, missing: seq<CheckFile>, orphans: seq<nat>,
                             f: CheckFile, plain: seq<nat>)
    requires Classified(files, sizes, missing, orphans) && f in files
    requires StoredSizes(sizes, f.encrypted, f.parts, plain)
    ensures f in missing <==> Total(plain) != f.size
  {
    PlainTotalIs(sizes, f.encrypted, f.parts, plain);
    UnhealthyAre(sizes, files, f);
  }

  /** A file that misses a message is reported, and the messages behind the first missing one are orphans, if
      no other file has them. */
  lemma BrokenFileIsReported(files: seq<CheckFile>, sizes: Sizes, missing: seq<CheckFile>, orphans: seq<nat>,
                             f: CheckFile, i: nat, j: nat)
    requires Classified(files, sizes, missing, orphans) && f in files && i < |f.parts| && f.parts[i] !in sizes
    ensures f in missing
    ensures i < j < |f.parts| && f.parts[j] in sizes && f.parts[j] != 1
            && (forall g :: g in files && f.parts[j] in g.parts ==> g == f)
            && (forall k :: 0 <= k < |f.parts| && f.parts[k] == f.parts[j] ==> k > i)
            ==> f.parts[j] in orphans
  {
    UnhealthyAre(sizes, files, f);
  }

  /** What a part whose size cannot be that of an encrypted one adds. */
  lemma UnreadableAddsNothing(stored: nat)
    requires forall n: nat :: EncryptedSize(n) != stored
    ensures PlainPart(true, stored) == 0
  {
    SizesAreInverse(0, stored);
  }

  function ClaimedMessages(files: seq<CheckFile>, sizes: Sizes): set<nat> {
    set id | id in sizes && id != 1 && exists k :: 0 <= k < |files| && LookedAt(sizes, files[k], id)
  }

  /** Orphans and claimed messages split the scanned messages, message 1 apart. */
  lemma OrphansPartition(files: seq<CheckFile>, sizes: Sizes, missing: seq<CheckFile>, orphans: seq<nat>)
    requires Classified(files, sizes, missing, orphans)
    ensures ClaimedMessages(files, sizes) !! Elements(orphans)
    ensures ClaimedMessages(files, sizes) + Elements(orphans) == sizes.Keys - {1}
    ensures |ClaimedMessages(files, sizes)| + |orphans| == |sizes.Keys - {1}|
  {
    DistinctCount(orphans);
    forall id: nat
      ensures id in ClaimedMessages(files, sizes) <==> id in sizes && id != 1 && Claimed(files, sizes, id)
    {
    }
    DisjointCount(ClaimedMessages(files, sizes), Elements(orphans), sizes.Keys - {1});
  }

  lemma DisjointCount(a: set<nat>, b: set<nat>, c: set<nat>)
    requires a !! b && forall x :: x in c <==> x in a || x in b
    ensures a + b == c && |a| + |b| == |c|
  {
    assert a + b == c;
  }

  function Elements(s: seq<nat>): (all: set<nat>)
    ensures forall x :: x in all <==> x in s
  {
    if s == [] then {}
    else
      assert s == s[..|s| - 1] + [s[|s| - 1]];
      Elements(s[..|s| - 1]) + {s[|s| - 1]}
  }

  lemma {:induction false} DistinctCount(s: seq<nat>)
    requires forall i, j :: 0 <= i < j < |s| ==> s[i] != s[j]
    ensures |Elements(s)| == |s|
  {
    if s != [] {
      DistinctCount(s[..|s| - 1]);
    }
  }
}
