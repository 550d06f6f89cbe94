/** Upload, commit and ranged download composed (pkg/services/imports_jobs.go, raw.go). */
module EndToEnd {
  import opened Streams
  import opened Transfer
  import opened PartSize
  import opened BlockHash
  import opened HttpRange
  import CipherFormat
  import Decimal
  import FileReader
  import IntegrityCheck

  datatype Response =
    | Full(body: seq<byte>)
    | Partial(start: nat, end: nat, body: seq<byte>)
    | NotSatisfiable
    | BadRequest
    | Crash              // an index panic while the header is parsed
    | Mismatch           // a part of the file is not in its channel
    | Failed(error: Status)

  /** What the header asks for, when it is well formed. */
  function Wanted(rawRange: string, size: int): seq<Range>
    requires '=' in rawRange && Dashed(Elements(rawRange))
  {
    Collect(Elements(rawRange), size)
  }

  /** What streamFile may answer about a file that holds `source`. */
  ghost predicate Answers(rawRange: string, source: seq<byte>, r: Response) {
    if r.Failed? then IoFailure(r.error)
    else if rawRange == "" then r == Full(source)
    else if '=' !in rawRange then r == BadRequest
    else if !Dashed(Elements(rawRange)) then r == Crash
    else if |Wanted(rawRange, |source|)| != 1 then r == NotSatisfiable
    else
      var w := Wanted(rawRange, |source|)[0];
      0 <= w.start <= w.end < |source| && r == Partial(w.start, w.end, source[w.start..w.end + 1])
  }

  /** Every part of a file has some message in the file's channel. */
  predicate AllThere(messages: Messages, file: FileRow) {
    forall p :: p in file.parts ==> Place(file.channel, p.id) in messages
  }

  lemma HoldsThere(store: Store, file: FileRow, source: seq<byte>, partSize: nat, encrypted: bool)
    requires Holds(store.keys, store.hash, store.messages, file, source, partSize, encrypted)
    ensures AllThere(store.messages, file)
  {
    var parts := StoredParts(store.keys, store.messages, file.channel, file.parts);
    forall p | p in file.parts ensures Place(file.channel, p.id) in store.messages {
      var k: nat :| k < |file.parts| && file.parts[k] == p;
      FileReader.PartBytes(encrypted, parts, source, partSize, k, FileReader.Offset(k, partSize),
                           Min(FileReader.Offset(k, partSize) + partSize, |source|));
    }
  }

  /** Answers a request. `reliable` says that Telegram serves every allowed request meanwhile. */
  method StreamFile(store: Store, file: FileRow, rawRange: string, concurrency: Positive, buffers: nat,
                    reliable: bool, sizes: nat -> nat,
                    ghost source: seq<byte>, ghost partSize: nat, ghost encrypted: bool)
    returns (r: Response)
    requires source != [] && file.size == |source| && (forall i :: sizes(i) > 0)
    requires AllThere(store.messages, file) ==>
               Holds(store.keys, store.hash, store.messages, file, source, partSize, encrypted)
    ensures AllThere(store.messages, file) ==> Answers(rawRange, source, r)
    ensures !AllThere(store.messages, file) ==> !r.Full? && !r.Partial?
    ensures reliable ==> !r.Failed?
  {
    hide AllThere, FileReader.StoredFile, Elements, Collect, Dashed;
    if file.size == 0 {
      return Full([]);
    }
    var start, end := 0, file.size - 1;
    if rawRange != "" {
      var parsed := Parse(rawRange, file.size);
      match parsed {
        case Invalid => return BadRequest;
        case NoOverlap => return NotSatisfiable;
        case Panic => return Crash;
        case Ranges(ranges) =>
          if |ranges| > 1 {
            return NotSatisfiable;
          }
          start, end := ranges[0].start, ranges[0].end;
      }
    }
    if !AllThere(store.messages, file) {
      return Mismatch;
    }
    var parts := StoredParts(store.keys, store.messages, file.channel, file.parts);
    var body, e := FileReader.ServeRange(file.encrypted, parts, start, end, concurrency, buffers, reliable, sizes,
                                         source, partSize, |parts| * partSize);
    if IoFailure(e) {
      return Failed(e);
    }
    r := if rawRange == "" then Full(body) else Partial(start, end, body);
    assert source[0..|source|] == source;
  }

  /** However often the transfer had to be retried, whatever the part size, encryption, reader concurrency
      and buffer sizes: once it has succeeded, and all its attempts uploaded and committed to the same
      channel, every range request is answered with the source's own bytes, unless the network fails. A
      file with a part that is not in its channel at all is never answered with bytes. (Where another message
      has the number of a part, nothing is asked.) The transfer does succeed if nothing fails in one of
      its attempts, and the request is answered if nothing fails while it is served. */
  method TransferAndStream(store: Store, source: seq<byte>, requested: int, encrypted: bool, attempts: nat,
                           staging: nat -> Channel, current: nat -> Channel, home: Channel, steady: nat -> bool,
                           rawRange: string, concurrency: Positive, buffers: nat, reliable: bool, sizes: nat -> nat)
    returns (ok: bool, r: Option<Response>)
    requires store.Valid() && store.uploads == [] && 0 < |source| <= FileReader.MAX_POSITION
    requires forall i :: sizes(i) > 0
    modifies store
    ensures (exists i: nat :: i < attempts && steady(i)) ==> ok
    ensures ok ==> store.file.Some?
    ensures ok && AtHome(staging, current, attempts, home) ==>
              r.Some? && Answers(rawRange, source, r.value) && (reliable ==> !r.value.Failed?)
    ensures ok && (exists p :: p in store.file.value.parts && Place(store.file.value.channel, p.id) !in store.messages)
            ==> r.Some? && !r.value.Full? && !r.value.Partial?
  {
    ghost var partSize: nat := NormalizeSyncPartSize(requested);
    r := None;
    ok := RetryTransfer(store, source, requested, encrypted, attempts, staging, current, steady, partSize, home);
    if ok {
      var file := store.file.value;
      var home := AtHome(staging, current, attempts, home);
      if home {
        HoldsThere(store, file, source, partSize, encrypted);
      }
      if home || !AllThere(store.messages, file) {
        var answer := StreamFile(store, file, rawRange, concurrency, buffers, reliable, sizes,
                                 source, partSize, encrypted);
        r := Some(answer);
      }
    }
  }

  /** A request for the bytes a to b, in decimal, is answered with the source's bytes a to b, as far as there
      are any. */
  lemma RangeAnswer(first: string, last: string, source: seq<byte>, r: Response)
    requires Digits(first) && Digits(last) && !r.Failed? && |source| <= Decimal.MAX_INT64
    requires Answers(Header(first, last), source, r) && Decimal.DigitSum(first) <= Decimal.MAX_INT64
    ensures var a, b := Decimal.DigitSum(first), Decimal.DigitSum(last);
            if a <= b && a < |source| then r == Partial(a, Min(b, |source| - 1), source[a..Min(b, |source| - 1) + 1])
            else r == NotSatisfiable
  {
    hide Header, Elements, Collect, Dashed;
    IntRange(first, last, |source|);
    assert Header(first, last) != "";
  }

  /** How the integrity check sees a committed file. */
  function AsChecked(id: nat, file: FileRow): IntegrityCheck.CheckFile {
    IntegrityCheck.CheckFile(id, PartIds(file.parts), file.size, file.encrypted)
  }

  function PartIds(parts: seq<FilePart>): (ids: seq<nat>)
    ensures |ids| == |parts| && forall k :: 0 <= k < |parts| ==> ids[k] == parts[k].id
  {
    seq(|parts|, k requires 0 <= k < |parts| => parts[k].id)
  }

  /** The check has seen all messages of the file's channel that the file names, with their sizes. */
  ghost predicate ScannedFor(sizes: IntegrityCheck.Sizes, messages: Messages, file: FileRow) {
    forall p :: p in file.parts ==>
      && p.id in sizes && Place(file.channel, p.id) in messages
      && sizes[p.id] == |messages[Place(file.channel, p.id)]|
  }

  /** The plain sizes of the first k parts add up to the bytes of the source that they cover. */
  lemma {:induction false} PiecesAddUp(plain: seq<nat>, source: seq<byte>, partSize: nat, k: nat, off: nat)
    requires partSize > 0 && |plain| == k && off == k * partSize
    requires forall i: nat :: i < k ==>
               plain[i] == |Clip(source, FileReader.Offset(i, partSize), FileReader.Offset(i, partSize) + partSize)|
    ensures IntegrityCheck.Total(plain) == Min(off, |source|)
  {
    if k > 0 {
      var j, before := k - 1, FileReader.Offset(k - 1, partSize);
      PiecesAddUp(plain[..j], source, partSize, j, before);
      IntegrityCheck.TotalSnoc(plain[..j], plain[j]);
      assert plain[..j] + [plain[j]] == plain && off == before + partSize;
    }
  }

  /** What was put into each part of a file that stands for its source. */
  lemma PartsAsStored(keys: KeyRing, h: Hash, messages: Messages, file: FileRow, source: seq<byte>, partSize: nat,
                      encrypted: bool, sizes: IntegrityCheck.Sizes) returns (plain: seq<nat>)
    requires Holds(keys, h, messages, file, source, partSize, encrypted) && ScannedFor(sizes, messages, file)
    ensures IntegrityCheck.StoredSizes(sizes, encrypted, PartIds(file.parts), plain)
    ensures IntegrityCheck.Total(plain) == |source|
  {
    var parts, ids := StoredParts(keys, messages, file.channel, file.parts), PartIds(file.parts);
    plain := seq(|parts|, k requires 0 <= k < |parts| => |Clip(source, FileReader.Offset(k, partSize),
                                                               FileReader.Offset(k, partSize) + partSize)|);
    forall k: nat | k < |parts|
      ensures ids[k] in sizes
      ensures sizes[ids[k]] == if encrypted then CipherFormat.EncryptedSize(plain[k]) else plain[k]
    {
      PartAsStored(encrypted, parts[k], source, partSize, k, FileReader.Offset(k, partSize));
    }
    PiecesAddUp(plain, source, partSize, |parts|, FileReader.Offset(|parts|, partSize));
  }

  lemma PartAsStored(encrypted: bool, part: FileReader.Part, source: seq<byte>, partSize: nat, k: nat, off: nat)
    requires FileReader.StoredPart(encrypted, part, source, partSize, k, off)
    ensures var n := |Clip(source, off, off + partSize)|;
            |part.content| == if encrypted then CipherFormat.EncryptedSize(n) else n
  {
    FileReader.WholePartLength(encrypted, part);
    if encrypted {
      CipherFormat.StoredSizeRoundTrip(|part.content|);
    }
  }

  /** The integrity check does not report a committed file that stands for its source, and takes none of its
      messages for an orphan. */
  lemma TransferredFileIsSafe(keys: KeyRing, h: Hash, messages: Messages, file: FileRow, source: seq<byte>,
                              partSize: nat, encrypted: bool, id: nat, sizes: IntegrityCheck.Sizes,
                              files: seq<IntegrityCheck.CheckFile>, missing: seq<IntegrityCheck.CheckFile>,
                              orphans: seq<nat>)
    requires Holds(keys, h, messages, file, source, partSize, encrypted) && ScannedFor(sizes, messages, file)
    requires IntegrityCheck.Classified(files, sizes, missing, orphans) && AsChecked(id, file) in files
    ensures AsChecked(id, file) !in missing && forall p :: p in file.parts ==> p.id !in orphans
  {
    var f := AsChecked(id, file);
    var plain := PartsAsStored(keys, h, messages, file, source, partSize, encrypted, sizes);
    IntegrityCheck.StoredFileIsReported(files, sizes, missing, orphans, f, plain);
    IntegrityCheck.UnreportedFileIsSafe(files, sizes, missing, orphans, f);
    forall p | p in file.parts ensures p.id !in orphans {
      var k :| 0 <= k < |file.parts| && file.parts[k] == p;
      assert f.parts[k] == p.id;
    }
  }
}
