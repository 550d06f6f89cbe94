/** Resumable upload of a file in parts, and its commit (pkg/services/imports_jobs.go, upload_staging.go,
    file.go). */
module Transfer {
  import opened Streams
  import opened CipherFormat
  import opened EncryptStream
  import opened BlockHash
  import opened PartSize
  import DecryptStream
  import FileReader
  import Nonce

  type Channel = nat

  /** Where a message is: every channel numbers its own messages. */
  datatype Place = Place(channel: Channel, id: nat)

  /** A row of the uploads table, for one upload ID. */
  datatype Row = Row(partNo: int, partId: nat, channel: Channel, size: nat, encrypted: bool, salt: string,
                     blockHashes: seq<byte>, createdAt: nat)
  {
    function At(): Place {
      Place(channel, partId)
    }
  }

  datatype FilePart = FilePart(id: nat, salt: string)

  /** The columns of a file that the commit fills in. All parts are looked up in the one channel. */
  datatype FileRow = FileRow(channel: Channel, parts: seq<FilePart>, size: nat, encrypted: bool,
                             hash: Option<seq<byte>>)

  /** The box that NewCipher derives from the configured key and a salt. */
  type KeyRing = string -> SecretBox

  type Messages = map<Place, seq<byte>>

  function PartOf(keys: KeyRing, messages: Messages, at: Place, salt: string): FileReader.Part {
    FileReader.Part(if at in messages then messages[at] else [], keys(salt))
  }

  /** What is stored at a place decodes to `piece`. */
  ghost predicate Decodes(keys: KeyRing, messages: Messages, at: Place, salt: string, piece: seq<byte>,
                          encrypted: bool)
  {
    var part := PartOf(keys, messages, at, salt);
    FileReader.Whole(encrypted, part) && FileReader.Plain(encrypted, part).bytes == piece
  }

  /** The row's message decodes to `piece`, and the row describes it truthfully. */
  ghost predicate Staged(keys: KeyRing, h: Hash, messages: Messages, row: Row, piece: seq<byte>, encrypted: bool) {
    && row.At() in messages && row.encrypted == encrypted && row.size == |messages[row.At()]|
    && row.blockHashes == BlockHashes(h, piece)
    && Decodes(keys, messages, row.At(), row.salt, piece, encrypted)
  }

  ghost predicate PlannedRow(keys: KeyRing, h: Hash, messages: Messages, row: Row, source: seq<byte>, partSize: nat,
                             encrypted: bool, k: nat, off: nat) {
    && off == k * partSize < |source| && row.partNo == k + 1
    && Staged(keys, h, messages, row, Clip(source, off, off + partSize), encrypted)
  }

  /** What the plan says about the row at position k. */
  type Plan = (Row, nat) -> bool

  ghost function PlanOf(keys: KeyRing, h: Hash, messages: Messages, source: seq<byte>, partSize: nat,
                        encrypted: bool): Plan {
    (row: Row, k: nat) =>
      PlannedRow(keys, h, messages, row, source, partSize, encrypted, k, FileReader.Offset(k, partSize))
  }

  ghost predicate Prefix(plan: Plan, rows: seq<Row>) {
    forall k: nat {:trigger rows[k]} :: k < |rows| ==> plan(rows[k], k)
  }

  lemma PrefixSnoc(plan: Plan, rows: seq<Row>, row: Row)
    requires Prefix(plan, rows) && plan(row, |rows|)
    ensures Prefix(plan, rows + [row])
  {
  }

  /** The rows are a gap-free prefix of the planned parts of the source. */
  ghost predicate Planned(keys: KeyRing, h: Hash, messages: Messages, rows: seq<Row>, source: seq<byte>, partSize: nat,
                          encrypted: bool) {
    Prefix(PlanOf(keys, h, messages, source, partSize, encrypted), rows)
  }

  ghost predicate Grows(before: Messages, after: Messages) {
    forall at :: at in before ==> at in after && after[at] == before[at]
  }

  lemma PlannedRowGrows(keys: KeyRing, h: Hash, before: Messages, after: Messages, row: Row, source: seq<byte>,
                        partSize: nat,
                        encrypted: bool, k: nat, off: nat)
    requires PlannedRow(keys, h, before, row, source, partSize, encrypted, k, off) && Grows(before, after)
    ensures PlannedRow(keys, h, after, row, source, partSize, encrypted, k, off)
  {
  }

  lemma PlannedGrows(keys: KeyRing, h: Hash, before: Messages, after: Messages, rows: seq<Row>, source: seq<byte>,
                     partSize: nat,
                     encrypted: bool)
    requires Planned(keys, h, before, rows, source, partSize, encrypted) && Grows(before, after)
    ensures Planned(keys, h, after, rows, source, partSize, encrypted)
  {
    var was := PlanOf(keys, h, before, source, partSize, encrypted);
    var now := PlanOf(keys, h, after, source, partSize, encrypted);
    forall k: nat {:trigger rows[k]} | k < |rows| ensures now(rows[k], k) {
      assert was(rows[k], k);
      PlannedRowGrows(keys, h, before, after, rows[k], source, partSize, encrypted, k, FileReader.Offset(k, partSize));
    }
  }

  /** One more row continues the prefix. */
  lemma PlannedSnoc(keys: KeyRing, h: Hash, messages: Messages, rows: seq<Row>, row: Row, source: seq<byte>,
                    partSize: nat,
                    encrypted: bool, k: nat, off: nat)
    requires Planned(keys, h, messages, rows, source, partSize, encrypted) && k == |rows|
    requires PlannedRow(keys, h, messages, row, source, partSize, encrypted, k, off)
    ensures Planned(keys, h, messages, rows + [row], source, partSize, encrypted)
  {
    var plan := PlanOf(keys, h, messages, source, partSize, encrypted);
    assert plan(row, k);
    PrefixSnoc(plan, rows, row);
  }

  /** What the query returns for the rows of an upload: the rows in the order of their part numbers. */
  function ByPartNo(rows: seq<Row>): (sorted: seq<Row>)
    ensures |sorted| == |rows|
  {
    if rows == [] then [] else InsertRow(ByPartNo(rows[..|rows| - 1]), rows[|rows| - 1])
  }

  function InsertRow(rows: seq<Row>, row: Row): (sorted: seq<Row>)
    ensures |sorted| == |rows| + 1
  {
    if rows == [] || rows[|rows| - 1].partNo <= row.partNo then rows + [row]
    else InsertRow(rows[..|rows| - 1], row) + [rows[|rows| - 1]]
  }

  lemma {:induction false} SortedStays(rows: seq<Row>)
    requires forall k :: 0 <= k < |rows| ==> rows[k].partNo == k + 1
    ensures ByPartNo(rows) == rows
  {
    if rows != [] {
      var front, last := rows[..|rows| - 1], rows[|rows| - 1];
      forall k | 0 <= k < |front| ensures front[k].partNo == k + 1 {
        assert front[k] == rows[k];
      }
      SortedStays(front);
      InsertAtEnd(front, last);
      assert rows == front + [last];
    }
  }

  lemma InsertAtEnd(rows: seq<Row>, row: Row)
    requires rows == [] || rows[|rows| - 1].partNo <= row.partNo
    ensures InsertRow(rows, row) == rows + [row]
  {
  }

  function ExpectedSyncPartSize(totalSize: nat, partSize: nat, partNo: int): int {
    if partNo <= 0 then 0
    else
      var start := (partNo - 1) * partSize;
      if start >= totalSize then 0 else Min(partSize, totalSize - start)
  }

  /** The latest row of every part number. */
  function ByPart(rows: seq<Row>): map<int, Row> {
    if rows == [] then map[]
    else
      var m, row := ByPart(rows[..|rows| - 1]), rows[|rows| - 1];
      if row.partNo in m && m[row.partNo].createdAt > row.createdAt then m else m[row.partNo := row]
  }

  /** Part p was stored by an earlier attempt, and can be kept. */
  predicate Fits(byPart: map<int, Row>, totalSize: nat, partSize: nat, encrypted: bool, p: int) {
    p in byPart && RowFits(byPart[p], totalSize, partSize, encrypted, p)
  }

  /** A row looks like part p of this transfer. */
  predicate RowFits(row: Row, totalSize: nat, partSize: nat, encrypted: bool, p: int) {
    var expected := ExpectedSyncPartSize(totalSize, partSize, p);
    expected > 0 && row.encrypted == encrypted
    && row.size == if encrypted then EncryptedSize(expected) else expected
  }

  /** The kept parts are 1 to completed, and no more of them could be kept without a gap. */
  predicate Resumed(byPart: map<int, Row>, totalSize: nat, partSize: nat, encrypted: bool, completed: nat) {
    && (forall p :: 1 <= p <= completed ==> Fits(byPart, totalSize, partSize, encrypted, p))
    && !Fits(byPart, totalSize, partSize, encrypted, completed + 1)
  }

  method SyncTransferResumeState(uploads: seq<Row>, totalSize: nat, partSize: nat, encrypted: bool)
    returns (completedParts: nat, doneBytes: nat, byPart: map<int, Row>)
    requires partSize > 0
    ensures byPart == ByPart(uploads) && Resumed(byPart, totalSize, partSize, encrypted, completedParts)
    ensures doneBytes == Min(completedParts * partSize, totalSize)
  {
    byPart := map[];
    for i := 0 to |uploads|
      invariant byPart == ByPart(uploads[..i])
    {
      var upload := uploads[i];
      assert uploads[..i + 1][..i] == uploads[..i];
      if upload.partNo in byPart && byPart[upload.partNo].createdAt > upload.createdAt {
        continue;
      }
      byPart := byPart[upload.partNo := upload];
    }
    assert uploads[..|uploads|] == uploads;
    completedParts, doneBytes := 0, 0;
    ghost var off := 0;
    while true
      invariant forall p :: 1 <= p <= completedParts ==> Fits(byPart, totalSize, partSize, encrypted, p)
      invariant off == completedParts * partSize && doneBytes == Min(off, totalSize)
      decreases totalSize - doneBytes
    {
      var partNo := completedParts + 1;
      if partNo !in byPart {
        break;
      }
      var expectedPlain := ExpectedSyncPartSize(totalSize, partSize, partNo);
      assert expectedPlain == if off >= totalSize then 0 else Min(partSize, totalSize - off);
      if expectedPlain <= 0 || byPart[partNo].encrypted != encrypted {
        break;
      }
      var expectedStored := if encrypted then EncryptedSize(expectedPlain) else expectedPlain;
      if byPart[partNo].size != expectedStored {
        break;
      }
      assert off + partSize == (completedParts + 1) * partSize;
      completedParts := completedParts + 1;
      doneBytes := doneBytes + expectedPlain;
      off := off + partSize;
    }
  }

  /** The stored size of a healthy part is the one that its plain size demands. */
  lemma StagedSize(keys: KeyRing, h: Hash, messages: Messages, row: Row, piece: seq<byte>, encrypted: bool)
    requires Staged(keys, h, messages, row, piece, encrypted)
    ensures row.size == if encrypted then EncryptedSize(|piece|) else |piece|
  {
    FileReader.WholePartLength(encrypted, PartOf(keys, messages, row.At(), row.salt));
    if encrypted {
      StoredSizeRoundTrip(row.size);
    }
  }

  lemma PlannedNumbers(keys: KeyRing, h: Hash, messages: Messages, rows: seq<Row>, source: seq<byte>, partSize: nat,
                       encrypted: bool)
    requires Planned(keys, h, messages, rows, source, partSize, encrypted)
    ensures forall k :: 0 <= k < |rows| ==> rows[k].partNo == k + 1
  {
    forall k: nat | k < |rows| ensures rows[k].partNo == k + 1 {
      assert PlanOf(keys, h, messages, source, partSize, encrypted)(rows[k], k);
    }
  }

  lemma ExpectedIs(totalSize: nat, partSize: nat, k: nat, p: nat, off: nat)
    requires p == k + 1 && off == k * partSize < totalSize
    ensures ExpectedSyncPartSize(totalSize, partSize, p) == Min(partSize, totalSize - off)
  {
  }

  /** A row is taken over for part k + 1 if and only if there is such a part, it is encrypted as asked for, and
      its stored size is that of the source's piece. */
  lemma RowFitsPiece(row: Row, source: seq<byte>, partSize: nat, encrypted: bool, k: nat, off: nat)
    requires off == k * partSize && partSize > 0
    ensures var n := |Clip(source, off, off + partSize)|;
            RowFits(row, |source|, partSize, encrypted, k + 1) <==>
            off < |source| && row.encrypted == encrypted && row.size == if encrypted then EncryptedSize(n) else n
  {
    if off < |source| {
      ExpectedIs(|source|, partSize, k, k + 1, off);
    }
  }

  lemma PlannedRowFits(keys: KeyRing, h: Hash, messages: Messages, row: Row, source: seq<byte>, partSize: nat,
                       encrypted: bool,
                       byPart: map<int, Row>, k: nat, p: nat, off: nat)
    requires PlannedRow(keys, h, messages, row, source, partSize, encrypted, k, off) && partSize > 0
    requires p == k + 1 && p in byPart && byPart[p] == row
    ensures Fits(byPart, |source|, partSize, encrypted, p)
  {
    var piece := Clip(source, off, off + partSize);
    StagedSize(keys, h, messages, row, piece, encrypted);
    ExpectedIs(|source|, partSize, k, p, off);
    assert |piece| == Min(partSize, |source| - off);
  }

  /** byPart holds the rows under the part numbers 1 to |rows|, and nothing else. */
  ghost predicate Numbered(byPart: map<int, Row>, rows: seq<Row>) {
    forall p :: if p in byPart then 1 <= p <= |rows| && byPart[p] == rows[p - 1] else !(1 <= p <= |rows|)
  }

  lemma {:induction false} ByPartNumbered(rows: seq<Row>)
    requires forall k :: 0 <= k < |rows| ==> rows[k].partNo == k + 1
    ensures Numbered(ByPart(rows), rows)
  {
    if rows != [] {
      var front := rows[..|rows| - 1];
      ByPartNumbered(front);
      var m := ByPart(front);
      assert |rows| !in m && ByPart(rows) == m[|rows| := rows[|rows| - 1]];
    }
  }

  /** A retry skips exactly the parts that are stored. */
  lemma PlannedFits(keys: KeyRing, h: Hash, messages: Messages, rows: seq<Row>, source: seq<byte>, partSize: nat,
                    encrypted: bool,
                    byPart: map<int, Row>, p: nat)
    requires Planned(keys, h, messages, rows, source, partSize, encrypted) && partSize > 0 && 1 <= p <= |rows| + 1
    requires Numbered(byPart, rows)
    ensures Fits(byPart, |source|, partSize, encrypted, p) <==> p <= |rows|
  {
    if p <= |rows| {
      var k: nat := p - 1;
      assert PlanOf(keys, h, messages, source, partSize, encrypted)(rows[k], k);
      PlannedRowFits(keys, h, messages, rows[k], source, partSize, encrypted, byPart, k, p,
                     FileReader.Offset(k, partSize));
    } else {
      assert p !in byPart;
    }
  }

  lemma ResumesAfterRows(keys: KeyRing, h: Hash, messages: Messages, rows: seq<Row>, source: seq<byte>, partSize: nat,
                         encrypted: bool, byPart: map<int, Row>, completed: nat)
    requires Planned(keys, h, messages, rows, source, partSize, encrypted) && partSize > 0 && Numbered(byPart, rows)
    requires Resumed(byPart, |source|, partSize, encrypted, completed)
    ensures completed == |rows|
  {
    hide Planned, Fits, Numbered;
    if completed < |rows| {
      PlannedFits(keys, h, messages, rows, source, partSize, encrypted, byPart, completed + 1);
    } else {
      var p := |rows| + 1;
      assert p <= completed ==> Fits(byPart, |source|, partSize, encrypted, p);
      PlannedFits(keys, h, messages, rows, source, partSize, encrypted, byPart, p);
    }
  }

  lemma StagedPlain(keys: KeyRing, h: Hash, messages: Messages, row: Row, piece: seq<byte>)
    requires row.At() in messages && messages[row.At()] == piece
    requires !row.encrypted && row.size == |piece| && row.blockHashes == BlockHashes(h, piece)
    ensures Staged(keys, h, messages, row, piece, false)
  {
  }

  lemma StagedSealed(keys: KeyRing, h: Hash, messages: Messages, row: Row, piece: seq<byte>, n: Nonce.NonceBytes)
    requires row.At() in messages && messages[row.At()] == Encrypted(keys(row.salt), n, piece)
    requires row.encrypted && row.size == |messages[row.At()]| && row.blockHashes == BlockHashes(h, piece)
    ensures Staged(keys, h, messages, row, piece, true)
  {
    DecryptedEncrypted(keys(row.salt), n, piece);
    SizeRoundTrip(|piece|);
    SealedIsSound(keys(row.salt), n, piece);
  }

  /** What the encrypter wrote has its header, and none of its blocks opens when cut short. */
  lemma SealedIsSound(box: SecretBox, n: Nonce.NonceBytes, piece: seq<byte>)
    ensures DecryptStream.GoodHeader(Encrypted(box, n, piece)) && DecryptStream.Sound(box, Encrypted(box, n, piece))
  {
    var c := Encrypted(box, n, piece);
    assert c[..|MAGIC|] == MAGIC && c[|MAGIC|..HEADER_SIZE] == n;
    assert c[HEADER_SIZE..] == Seals(box, Nonce.CounterFrom(n), 0, piece);
    UntornSeals(box, Nonce.CounterFrom(n), 0, piece);
  }

  /** An upload whose stored size is the announced one holds exactly the announced bytes. */
  lemma StagedContent(keys: KeyRing, h: Hash, messages: Messages, row: Row, plain: seq<byte>, size: nat,
                      n: Nonce.NonceBytes)
    requires row.At() in messages && row.size == |messages[row.At()]|
    requires row.blockHashes == BlockHashes(h, plain)
    requires !row.encrypted ==> messages[row.At()] == plain && row.size == size
    requires row.encrypted ==>
               messages[row.At()] == Encrypted(keys(row.salt), n, plain) && row.size == EncryptedSize(size)
    ensures |plain| == size && Staged(keys, h, messages, row, plain, row.encrypted)
  {
    if row.encrypted {
      StagedSealed(keys, h, messages, row, plain, n);
      DecryptedEncrypted(keys(row.salt), n, plain);
      SizeRoundTrip(|plain|);
      SizeRoundTrip(size);
    } else {
      StagedPlain(keys, h, messages, row, plain);
    }
  }

  class Store {
    const keys: KeyRing
    const hash: Hash
    var messages: Messages          // of all channels, whoever sent them
    var nextIds: map<Channel, nat>  // Telegram numbers the messages of a channel upwards
    var uploads: seq<Row>           // in the order of insertion
    var file: Option<FileRow>
    ghost var taken: seq<Row>       // the rows that the last commit took
    var clock: nat

    ghost predicate Valid()
      reads this`messages, this`nextIds
    {
      forall at :: at in messages ==> 0 < at.id < NextId(at.channel)
    }

    function NextId(channel: Channel): nat
      reads this`nextIds
    {
      if channel in nextIds then nextIds[channel] else 1
    }

    ghost predicate Resumable(source: seq<byte>, partSize: nat, encrypted: bool)
      reads this`messages, this`nextIds, this`uploads
    {
      Valid() && Planned(keys, hash, messages, uploads, source, partSize, encrypted)
    }

    /** Nothing has been committed since the file was `file`. */
    ghost predicate Uncommitted(file: Option<FileRow>, taken: seq<Row>)
      reads this`file, this`taken
    {
      this.file == file && this.taken == taken
    }

    /** Among the rows is a first part that a run with these settings does not take for its own. */
    ghost predicate Mixed(source: seq<byte>, partSize: nat, encrypted: bool)
      reads this`uploads
    {
      exists r :: r in uploads && r.partNo == 1 && !RowFits(r, |source|, partSize, encrypted, 1)
    }

    constructor (keys: KeyRing, hash: Hash)
      ensures Valid() && messages == map[] && uploads == [] && file == None
    {
      this.keys, this.hash, messages, nextIds, uploads, file, clock := keys, hash, map[], map[], [], None, 0;
      taken := [];
    }

    /** A channel gets a message, with a number that it has not used before. */
    method Send(channel: Channel, content: seq<byte>) returns (id: nat)
      requires Valid()
      modifies this`messages, this`nextIds
      ensures Valid() && Grows(old(messages), messages)
      ensures id != 0 && Place(channel, id) in messages && messages[Place(channel, id)] == content
    {
      var skipped: nat :| skipped >= 0;
      id := Max(NextId(channel), 1) + skipped;
      messages, nextIds := messages[Place(channel, id) := content], nextIds[channel := id + 1];
    }

    /** What others send meanwhile, to any channels. */
    method Meanwhile()
      requires Valid()
      modifies this`messages, this`nextIds
      ensures Valid() && Grows(old(messages), messages)
    {
      var count: nat :| count >= 0;
      for i := 0 to count
        invariant Valid() && Grows(old(messages), messages)
      {
        var channel: Channel, content: seq<byte> := *, *;
        var _ := Send(channel, content);
      }
    }

    /** Telegram stores a message, or fails with or without having stored it. */
    method UploadPart(channel: Channel, content: seq<byte>, reliable: bool) returns (id: nat, size: nat, ok: bool)
      requires Valid()
      modifies this`messages, this`nextIds
      ensures Valid() && Grows(old(messages), messages)
      ensures ok && id != 0 ==> && Place(channel, id) in messages && messages[Place(channel, id)] == content
                                && size == |content|
      ensures reliable ==> ok && id != 0
    {
      Meanwhile();
      var arrives: bool, answered: bool := *, *;
      id, size, ok := 0, 0, answered || reliable;
      if arrives || reliable {
        id := Send(channel, content);
        size := |content|;
      }
    }

    /** The uploads repository's Create; the answer may be lost after the row is in. */
    method Create(row: Row, reliable: bool) returns (ok: bool)
      modifies this`uploads, this`clock
      ensures uploads == old(uploads) || exists at: nat :: uploads == old(uploads) + [row.(createdAt := at)]
      ensures ok ==> uploads != old(uploads)
      ensures reliable ==> ok
    {
      var arrives: bool, answered: bool := *, *;
      ok := false;
      clock := clock + 1;
      if arrives || reliable {
        uploads := uploads + [row.(createdAt := clock)];
        ok := answered || reliable;
        assert |uploads| != |old(uploads)|;
      }
    }
  }

  ghost predicate NoZeroIds(rows: seq<Row>) {
    forall r :: r in rows ==> r.partId != 0
  }

  /** Rows that were not there before lie in the given channel. */
  ghost predicate AddedIn(rows: seq<Row>, before: seq<Row>, channel: Channel) {
    forall r :: r in rows ==> r in before || r.channel == channel
  }

  /** io.TeeReader over io.LimitReader, read to its end: the next `size` bytes of the source, which the
      hasher sees too, in pieces of any sizes. */
  method Tee(reader: ByteStream, hasher: BlockHasher, size: nat) returns (plain: seq<byte>)
    requires reader.last != Nil && hasher.Valid() && hasher.base == hasher.since == []
    modifies reader, hasher
    ensures hasher.Valid() && hasher.base == [] && hasher.since == plain
    ensures |plain| == Min(size, |old(reader.rest)|) && old(reader.rest) == plain + reader.rest
  {
    plain := [];
    var e := Nil;
    while |plain| < size && e == Nil
      invariant hasher.Valid() && hasher.base == [] && hasher.since == plain
      invariant |plain| <= size && old(reader.rest) == plain + reader.rest && (e != Nil ==> reader.rest == [])
      decreases size - |plain|, e == Nil
    {
      var want: nat :| 0 < want <= size - |plain|;
      ghost var done := plain;
      var piece;
      piece, e := Pull(reader, want);
      var _ := hasher.Write(piece);
      plain := plain + piece;
      assert done + (piece + reader.rest) == plain + reader.rest;
    }
  }

  /** One Read with a buffer of the given size. */
  method Pull(reader: ByteStream, want: nat) returns (piece: seq<byte>, e: Status)
    requires reader.last != Nil && want > 0
    modifies reader
    ensures old(reader.rest) == piece + reader.rest && |piece| <= want
    ensures piece == [] ==> e != Nil
    ensures e != Nil ==> reader.rest == []
  {
    var p := new byte[want];
    var n;
    n, e := reader.Read(p, 0, want);
    piece := p[0..n];
  }

  /** prepareEncryption and the stream it wraps: what Telegram is sent for a part, and the size announced
      for it. Salt and nonce are random. */
  method PrepareEncryption(keys: KeyRing, encrypted: bool, plain: seq<byte>, fileSize: nat)
    returns (stream: seq<byte>, encryptedSize: nat, salt: string, ghost nonce: Nonce.NonceBytes)
    ensures !encrypted ==> stream == plain && encryptedSize == fileSize && salt == ""
    ensures encrypted ==> stream == Encrypted(keys(salt), nonce, plain) && encryptedSize == EncryptedSize(fileSize)
  {
    stream, encryptedSize, salt, nonce := plain, fileSize, "", Zeros(Nonce.NONCE_SIZE);
    if encrypted {
      salt := *;
      var n: Nonce.NonceBytes, chunk: nat := *, *;
      var source := new ByteStream(plain, EOF);
      var end;
      stream, end := EncryptAll(keys(salt), source, n, _ => chunk + 1);
      encryptedSize, nonce := EncryptedSize(fileSize), n;
    }
  }

  /** A source that does not break off fills the announced size. */
  lemma StreamSize(keys: KeyRing, encrypted: bool, plain: seq<byte>, stream: seq<byte>, announced: nat, salt: string,
                   n: Nonce.NonceBytes)
    requires !encrypted ==> stream == plain && announced == |plain|
    requires encrypted ==> stream == Encrypted(keys(salt), n, plain) && announced == EncryptedSize(|plain|)
    ensures |stream| == announced
  {
    if encrypted {
      DecryptedEncrypted(keys(salt), n, plain);
    }
  }

  /** The time at which the database sets the row down makes no difference. */
  lemma StagedAt(keys: KeyRing, h: Hash, messages: Messages, row: Row, at: nat, piece: seq<byte>, encrypted: bool)
    requires Staged(keys, h, messages, row, piece, encrypted)
    ensures Staged(keys, h, messages, row.(createdAt := at), piece, encrypted)
  {
    assert row.(createdAt := at).At() == row.At();
  }

  /** Uploads the next `size` bytes of the reader to the attempt's channel as one part, and inserts its row. */
  method StagePart(store: Store, reader: ByteStream, channel: Channel, partNo: nat, size: nat, encrypted: bool,
                   reliable: bool)
    returns (ok: bool)
    requires store.Valid() && reader.last != Nil
    modifies store, reader
    ensures store.Valid() && Grows(old(store.messages), store.messages)
    ensures store.Uncommitted(old(store.file), old(store.taken))
    ensures ok ==> |old(reader.rest)| >= size && reader.rest == old(reader.rest)[size..]
                   && store.uploads != old(store.uploads)
    ensures reliable && |old(reader.rest)| >= size ==> ok
    ensures store.uploads == old(store.uploads) ||
            (|old(reader.rest)| >= size && exists row: Row ::
               && row.partNo == partNo && row.channel == channel && store.uploads == old(store.uploads) + [row]
               && Staged(store.keys, store.hash, store.messages, row, old(reader.rest)[..size], encrypted))
  {
    hide Staged, BlockHashes, Encrypted, EncryptedSize, Grows, Store.Valid, BlockHasher.Valid;
    var hasher := new BlockHasher(store.hash);
    ghost var rest := reader.rest;
    var plain := Tee(reader, hasher, size);
    var stream, encryptedSize, salt, nonce := PrepareEncryption(store.keys, encrypted, plain, size);
    var messageId, telegramFileSize, sent := store.UploadPart(channel, stream, reliable);
    if |plain| == size {
      StreamSize(store.keys, encrypted, plain, stream, encryptedSize, salt, nonce);
    }
    if !sent || messageId == 0 || telegramFileSize != encryptedSize {
      return false;
    }
    var blockHashes := hasher.Sum();
    var row := Row(partNo, messageId, channel, encryptedSize, encrypted, salt, blockHashes, 0);
    StagedContent(store.keys, store.hash, store.messages, row, plain, size, nonce);
    assert plain == rest[..size] && reader.rest == rest[size..];
    ok := store.Create(row, reliable);
    if store.uploads != old(store.uploads) {
      ghost var at: nat :| store.uploads == old(store.uploads) + [row.(createdAt := at)];
      StagedAt(store.keys, store.hash, store.messages, row, at, plain, encrypted);
    }
  }

  /** io.CopyN to io.Discard. */
  method Skip(reader: ByteStream, n: nat) returns (ok: bool)
    requires reader.last != Nil
    modifies reader
    ensures ok <==> n <= |old(reader.rest)|
    ensures ok ==> reader.rest == old(reader.rest)[n..]
  {
    var left := n;
    var e := Nil;
    while left > 0 && e == Nil
      invariant 0 <= left <= n && n - left <= |old(reader.rest)| && reader.rest == old(reader.rest)[n - left..]
      invariant |reader.rest| == |old(reader.rest)| - (n - left) && (e != Nil ==> reader.rest == [])
      decreases left, e == Nil
    {
      var want: nat :| 0 < want <= left;
      var piece;
      piece, e := Pull(reader, want);
      left := left - |piece|;
    }
    ok := left == 0;
  }

  /** How many parts a file has. */
  lemma PartCount(size: nat, partSize: nat, total: nat, i: nat, off: nat)
    requires partSize > 0 && total == (size + partSize - 1) / partSize && off == i * partSize
    ensures i < total <==> off < size
  {
    var x := size + partSize - 1;
    FileReader.DivBounds(x, partSize, total);
    if i < total {
      FileReader.Apart(partSize, i, total);
    } else {
      Nonce.MulMono(partSize, total, i);
    }
  }

  /** One turn of the upload loop: part i, of the bytes from off on. The source may break off. */
  method StageNext(store: Store, reader: ByteStream, channel: Channel, i: nat, size: nat, uploaded: nat, partSize: nat,
                   encrypted: bool, reliable: bool, ghost source: seq<byte>, ghost off: nat, ghost next: nat)
    returns (ok: bool)
    requires reader.last != Nil && store.Valid() && partSize > 0
    requires off == i * partSize && off == uploaded < size == |source| && next == Min(off + partSize, size)
    requires reader.rest <= source[uploaded..]
    modifies store, reader
    ensures store.Valid() && Grows(old(store.messages), store.messages)
    ensures store.Uncommitted(old(store.file), old(store.taken))
    ensures old(store.uploads) <= store.uploads && |store.uploads| <= |old(store.uploads)| + 1
    ensures AddedIn(store.uploads, old(store.uploads), channel)
    ensures old(NoZeroIds(store.uploads)) ==> NoZeroIds(store.uploads)
    ensures old(store.Resumable(source, partSize, encrypted)) && |old(store.uploads)| == i ==>
              store.Resumable(source, partSize, encrypted)
    ensures ok ==> |store.uploads| == |old(store.uploads)| + 1 && reader.rest <= source[next..]
    ensures reliable && old(reader.rest) == source[uploaded..] ==> ok && reader.rest == source[next..]
  {
    var chunkSize := Min(partSize, size - uploaded);
    ghost var rest, was, rows := reader.rest, store.messages, store.uploads;
    NextPiece(source, rest, off, partSize, chunkSize, next);
    ok := StagePart(store, reader, channel, i + 1, chunkSize, encrypted, reliable);
    if store.uploads != rows {
      ghost var row: Row :| row.partNo == i + 1 && row.channel == channel && store.uploads == rows + [row]
                            && Staged(store.keys, store.hash, store.messages, row, rest[..chunkSize], encrypted);
      assert forall r :: r in store.uploads <==> r in rows || r == row;
    }
    ghost var plan := PlanOf(store.keys, store.hash, was, source, partSize, encrypted);
    if Prefix(plan, rows) {
      PlannedGrows(store.keys, store.hash, was, store.messages, rows, source, partSize, encrypted);
      if store.uploads != rows && |rows| == i {
        ghost var row: Row :| row.partNo == i + 1 && store.uploads == rows + [row]
                              && Staged(store.keys, store.hash, store.messages, row, rest[..chunkSize], encrypted);
        PlannedSnoc(store.keys, store.hash, store.messages, rows, row, source, partSize, encrypted, i, off);
      }
    }
  }

  /** The next piece of the source, as far as the reader still has it. */
  lemma NextPiece(source: seq<byte>, rest: seq<byte>, off: nat, partSize: nat, n: nat, next: nat)
    requires off < |source| && rest <= source[off..] && partSize > 0
    requires n == Min(partSize, |source| - off) && next == Min(off + partSize, |source|)
    ensures |rest| >= n ==> rest[..n] == Clip(source, off, off + partSize) && rest[n..] <= source[next..]
    ensures rest == source[off..] ==> |rest| >= n && rest[n..] == source[next..]
  {
    if |rest| >= n {
      assert source[off..][n..] == source[next..];
      assert rest[n..] == source[off..][..|rest|][n..];
      assert source[off..][..|rest|][n..] == source[off..][n..][..|rest| - n];
      assert rest[..n] == source[off..][..|rest|][..n];
      assert source[off..][..n] == Clip(source, off, off + partSize);
    }
  }

  /** Reads the rows, which may fail, and skips what they cover. */
  method Resume(store: Store, reader: ByteStream, size: nat, partSize: nat, encrypted: bool, reliable: bool,
                ghost source: seq<byte>)
    returns (ok: bool, completed: nat, uploaded: nat)
    requires reader.last != Nil && reader.rest <= source && size == |source| && partSize > 0
    modifies reader
    ensures ok ==> Resumed(ByPart(ByPartNo(store.uploads)), size, partSize, encrypted, completed)
    ensures ok ==> uploaded == Min(completed * partSize, size) && reader.rest <= source[uploaded..]
    ensures reliable && old(reader.rest) == source ==> ok && reader.rest == source[uploaded..]
  {
    var reachable: bool := *;
    if !reachable && !reliable {
      return false, 0, 0;
    }
    var rows := ByPartNo(store.uploads);
    var byPart;
    completed, uploaded, byPart := SyncTransferResumeState(rows, size, partSize, encrypted);
    ok := Skip(reader, uploaded);
  }

  /** With rows that are a prefix of the plan, a run resumes right behind them. */
  lemma ResumesBehind(keys: KeyRing, h: Hash, messages: Messages, rows: seq<Row>, source: seq<byte>, partSize: nat,
                      encrypted: bool, completed: nat)
    requires Planned(keys, h, messages, rows, source, partSize, encrypted) && partSize > 0
    requires Resumed(ByPart(ByPartNo(rows)), |source|, partSize, encrypted, completed)
    ensures completed == |rows|
  {
    PlannedNumbers(keys, h, messages, rows, source, partSize, encrypted);
    SortedStays(rows);
    ByPartNumbered(rows);
    ResumesAfterRows(keys, h, messages, rows, source, partSize, encrypted, ByPart(rows), completed);
  }

  lemma {:induction false} RowSet(rows: seq<Row>)
    ensures |set r | r in rows| <= |rows|
  {
    if rows != [] {
      var front, last := rows[..|rows| - 1], rows[|rows| - 1];
      RowSet(front);
      assert rows == front + [last];
      assert (set r | r in rows) == (set r | r in front) + {last};
    }
  }

  /** The row that a run takes over for part p. */
  lemma TakenRow(rows: seq<Row>, totalSize: nat, partSize: nat, encrypted: bool, completed: nat, p: int)
    requires Resumed(ByPart(rows), totalSize, partSize, encrypted, completed) && 1 <= p <= completed
    ensures p in ByPart(rows) && ByPart(rows)[p] in rows && ByPart(rows)[p].partNo == p
    ensures RowFits(ByPart(rows)[p], totalSize, partSize, encrypted, p)
  {
    assert Fits(ByPart(rows), totalSize, partSize, encrypted, p);
    ByPartIsARow(rows, p);
  }

  /** The rows that a run takes over for its first `completed` parts are as many different rows. */
  lemma {:induction false} TakenRows(rows: seq<Row>, totalSize: nat, partSize: nat, encrypted: bool, completed: nat,
                                     n: nat) returns (taken: seq<Row>)
    requires Resumed(ByPart(rows), totalSize, partSize, encrypted, completed) && n <= completed
    ensures |taken| == n
    ensures forall i :: 0 <= i < n ==> taken[i].partNo == i + 1 && taken[i] in rows
    ensures n > 0 ==> RowFits(taken[0], totalSize, partSize, encrypted, 1)
  {
    taken := [];
    if n > 0 {
      var front := TakenRows(rows, totalSize, partSize, encrypted, completed, n - 1);
      TakenRow(rows, totalSize, partSize, encrypted, completed, n);
      taken := front + [ByPart(rows)[n]];
    }
  }

  /** Rows of different parts are different, and a first part is different from all but another one. */
  lemma AllDifferent(taken: seq<Row>, r: Row)
    requires forall i :: 0 <= i < |taken| ==> taken[i].partNo == i + 1
    requires r.partNo == 1 && (taken != [] ==> r != taken[0])
    ensures forall i, j :: 0 <= i < j <= |taken| ==> (taken + [r])[i] != (taken + [r])[j]
  {
    var all := taken + [r];
    forall i, j | 0 <= i < j <= |taken| ensures all[i] != all[j] {
      assert all[i] == taken[i] && all[i].partNo == i + 1;
      assert j < |taken| ==> all[j] == taken[j] && all[j].partNo == j + 1;
    }
  }

  /** If a first part is among the rows that a run does not take over, there are more rows than parts
      taken over. */
  lemma MoreRowsThanParts(rows: seq<Row>, r: Row, totalSize: nat, partSize: nat, encrypted: bool, completed: nat)
    requires Resumed(ByPart(ByPartNo(rows)), totalSize, partSize, encrypted, completed)
    requires r in rows && r.partNo == 1 && !RowFits(r, totalSize, partSize, encrypted, 1)
    ensures |rows| > completed
  {
    hide RowFits, ByPart, ByPartNo, Ordered, Resumed;
    var sorted := ByPartNo(rows);
    ByPartNoSorts(rows);
    var taken := TakenRows(sorted, totalSize, partSize, encrypted, completed, completed);
    var all := taken + [r];
    AllDifferent(taken, r);
    DistinctFit(all, set x | x in sorted);
    RowSet(sorted);
  }

  /** Uploads the parts that are not stored yet. It may fail at any step; what is stored stays a prefix
      of the plan, if it was one. */
  method UploadSyncTransferParts(store: Store, reader: ByteStream, channel: Channel, size: nat, requested: int,
                                 encrypted: bool, reliable: bool, ghost source: seq<byte>, ghost step: nat)
    returns (ok: bool)
    requires reader.last != Nil && reader.rest <= source && size == |source| && step == NormalizeSyncPartSize(requested)
    requires store.Valid()
    modifies store, reader
    ensures store.Valid() && Grows(old(store.messages), store.messages)
    ensures store.Uncommitted(old(store.file), old(store.taken))
    ensures old(store.uploads) <= store.uploads && AddedIn(store.uploads, old(store.uploads), channel)
    ensures old(NoZeroIds(store.uploads)) ==> NoZeroIds(store.uploads)
    ensures old(store.Resumable(source, step, encrypted)) ==>
              store.Resumable(source, step, encrypted) && (ok ==> Covered(|store.uploads|, step) >= size)
    ensures ok && old(store.Mixed(source, step, encrypted)) ==> Covered(|store.uploads| - 1, step) >= size
    ensures reliable && old(reader.rest) == source ==> ok
  {
    hide PlanOf, RowFits, ByPart, ByPartNo, Resumed, Covered;
    AlignedPartSize(requested);
    var partSize: nat := NormalizeSyncPartSize(requested);
    hide NormalizeSyncPartSize;
    var totalParts := (size + partSize - 1) / partSize;
    ghost var rows := store.uploads;
    var completed, uploaded;
    ok, completed, uploaded := Resume(store, reader, size, partSize, encrypted, reliable, source);
    if ok {
      RowsTakenOver(store, rows, source, partSize, encrypted, completed);
      ghost var done;
      ok, done := UploadFrom(store, reader, channel, completed, totalParts, size, uploaded, partSize, encrypted,
                             reliable, source);
      if ok {
        EnoughParts(|rows|, completed, done, |store.uploads|, partSize, size);
      }
    }
  }

  /** How many rows there are besides those that a run takes over. */
  lemma RowsTakenOver(store: Store, rows: seq<Row>, source: seq<byte>, partSize: nat, encrypted: bool, completed: nat)
    requires rows == store.uploads && partSize > 0
    requires Resumed(ByPart(ByPartNo(rows)), |source|, partSize, encrypted, completed)
    ensures store.Resumable(source, partSize, encrypted) ==> |rows| == completed
    ensures store.Mixed(source, partSize, encrypted) ==> |rows| > completed
  {
    if store.Resumable(source, partSize, encrypted) {
      ResumesBehind(store.keys, store.hash, store.messages, rows, source, partSize, encrypted, completed);
    }
    if store.Mixed(source, partSize, encrypted) {
      var r :| r in rows && r.partNo == 1 && !RowFits(r, |source|, partSize, encrypted, 1);
      MoreRowsThanParts(rows, r, |source|, partSize, encrypted, completed);
    }
  }

  /** How many bytes there is room for in k parts. */
  function Covered(k: int, partSize: nat): int {
    k * partSize
  }

  lemma EnoughParts(before: nat, completed: nat, done: nat, after: nat, partSize: nat, size: nat)
    requires done * partSize >= size && after == before + (done - completed) && done >= completed
    ensures before == completed ==> Covered(after, partSize) >= size
    ensures before > completed ==> Covered(after - 1, partSize) >= size
  {
    if before > completed {
      Nonce.MulMono(partSize, done, after - 1);
    }
  }

  method UploadFrom(store: Store, reader: ByteStream, channel: Channel, first: nat, totalParts: nat, size: nat,
                    done: nat, partSize: nat, encrypted: bool, reliable: bool, ghost source: seq<byte>)
    returns (ok: bool, ghost last: nat)
    requires reader.last != Nil && size == |source| && partSize > 0 && totalParts == (size + partSize - 1) / partSize
    requires store.Valid() && done == Min(first * partSize, size) && reader.rest <= source[done..]
    modifies store, reader
    ensures store.Valid() && Grows(old(store.messages), store.messages)
    ensures store.Uncommitted(old(store.file), old(store.taken))
    ensures old(store.uploads) <= store.uploads && AddedIn(store.uploads, old(store.uploads), channel)
    ensures old(NoZeroIds(store.uploads)) ==> NoZeroIds(store.uploads)
    ensures old(store.Resumable(source, partSize, encrypted)) && |old(store.uploads)| == first ==>
              store.Resumable(source, partSize, encrypted)
    ensures ok ==> last >= first && |store.uploads| == |old(store.uploads)| + (last - first) && last * partSize >= size
    ensures reliable && old(reader.rest) == source[done..] ==> ok
  {
    var i, uploaded := first, done;
    ghost var off := first * partSize;
    PartCount(size, partSize, totalParts, i, off);
    while i < totalParts
      invariant store.Valid() && Grows(old(store.messages), store.messages)
      invariant store.Uncommitted(old(store.file), old(store.taken))
      invariant old(store.uploads) <= store.uploads && i >= first
      invariant AddedIn(store.uploads, old(store.uploads), channel)
      invariant |store.uploads| == |old(store.uploads)| + (i - first)
      invariant old(NoZeroIds(store.uploads)) ==> NoZeroIds(store.uploads)
      invariant old(store.Resumable(source, partSize, encrypted)) && |old(store.uploads)| == first ==>
                  store.Resumable(source, partSize, encrypted)
      invariant off == i * partSize && (i < totalParts <==> off < size)
      invariant uploaded == Min(off, size) && reader.rest <= source[uploaded..]
      invariant reliable && old(reader.rest) == source[done..] ==> reader.rest == source[uploaded..]
    {
      ghost var next := Min(off + partSize, size);
      ok := StageNext(store, reader, channel, i, size, uploaded, partSize, encrypted, reliable, source, off, next);
      last := i;
      if !ok {
        return;
      }
      uploaded := uploaded + Min(partSize, size - uploaded);
      assert off + partSize == (i + 1) * partSize;
      i, off := i + 1, off + partSize;
      PartCount(size, partSize, totalParts, i, off);
    }
    ok, last := true, i;
  }

  /** The block hashes of the rows, one after the other. */
  function RowHashes(rows: seq<Row>): seq<byte> {
    if rows == [] then [] else RowHashes(rows[..|rows| - 1]) + rows[|rows| - 1].blockHashes
  }

  method UploadTreeHash(h: Hash, uploads: seq<Row>) returns (treeHash: Option<seq<byte>>)
    ensures treeHash == if RowHashes(uploads) == [] then None else Some(h(RowHashes(uploads)))
  {
    var allBlockHashes: seq<byte> := [];
    for i := 0 to |uploads|
      invariant allBlockHashes == RowHashes(uploads[..i])
    {
      assert uploads[..i + 1][..i] == uploads[..i];
      allBlockHashes := allBlockHashes + uploads[i].blockHashes;
    }
    assert uploads[..|uploads|] == uploads;
    if |allBlockHashes| == 0 {
      return None;
    }
    treeHash := Some(h(allBlockHashes));
  }

  lemma AlignedOffset(partSize: nat, k: nat, off: nat)
    requires partSize % HASH_BLOCK == 0 && off == k * partSize
    ensures off % HASH_BLOCK == 0
  {
    var m := partSize / HASH_BLOCK;
    assert off == HASH_BLOCK * (k * m) by {
      assert k * (HASH_BLOCK * m) == HASH_BLOCK * (k * m);
    }
  }

  lemma NextOffset(partSize: nat, k: nat, n: nat, off: nat, end: nat)
    requires n == k + 1 && off == k * partSize && end == n * partSize
    ensures end == off + partSize
  {
  }

  lemma HashesNext(h: Hash, source: seq<byte>, partSize: nat, k: nat, off: nat, end: nat)
    requires partSize % HASH_BLOCK == 0 && off == k * partSize <= |source| && end == off + partSize
    ensures BlockHashes(h, source[..Min(end, |source|)]) ==
            BlockHashes(h, source[..off]) + BlockHashes(h, Clip(source, off, end))
  {
    AlignedOffset(partSize, k, off);
    var front, piece := source[..off], Clip(source, off, end);
    HashesAppend(h, front, piece);
    assert front + piece == source[..Min(end, |source|)];
  }

  /** The rows' hashes are those of the bytes they cover, wherever the parts were cut. */
  lemma {:induction false} RowHashesCover(keys: KeyRing, h: Hash, messages: Messages, rows: seq<Row>, source: seq<byte>,
                                          partSize: nat, encrypted: bool, end: nat)
    requires Planned(keys, h, messages, rows, source, partSize, encrypted)
    requires partSize % HASH_BLOCK == 0 && end == |rows| * partSize
    ensures RowHashes(rows) == BlockHashes(h, source[..Min(end, |source|)])
    decreases |rows|
  {
    if rows != [] {
      var k, n := |rows| - 1, |rows|;
      var front, off := rows[..k], FileReader.Offset(k, partSize);
      assert PlanOf(keys, h, messages, source, partSize, encrypted)(rows[k], k);
      RowHashesCover(keys, h, messages, front, source, partSize, encrypted, off);
      NextOffset(partSize, k, n, off, end);
      HashesNext(h, source, partSize, k, off, end);
      assert rows[k].blockHashes == BlockHashes(h, Clip(source, off, end));
    }
  }

  function FileParts(rows: seq<Row>): (parts: seq<FilePart>)
    ensures |parts| == |rows| && forall k :: 0 <= k < |rows| ==> parts[k] == FilePart(rows[k].partId, rows[k].salt)
  {
    if rows == [] then []
    else FileParts(rows[..|rows| - 1]) + [FilePart(rows[|rows| - 1].partId, rows[|rows| - 1].salt)]
  }

  /** The parts of a committed file, as a reader finds them: all of them in the file's channel. */
  function StoredParts(keys: KeyRing, messages: Messages, channel: Channel, parts: seq<FilePart>)
    : (stored: seq<FileReader.Part>)
    ensures |stored| == |parts|
    ensures forall k :: 0 <= k < |parts| ==>
              stored[k] == PartOf(keys, messages, Place(channel, parts[k].id), parts[k].salt)
  {
    seq(|parts|, k requires 0 <= k < |parts| => PartOf(keys, messages, Place(channel, parts[k].id), parts[k].salt))
  }

  /** A file row that stands for exactly the source. */
  ghost predicate Holds(keys: KeyRing, h: Hash, messages: Messages, file: FileRow, source: seq<byte>, partSize: nat,
                        encrypted: bool)
  {
    && FileReader.StoredFile(encrypted, StoredParts(keys, messages, file.channel, file.parts), source, partSize)
    && |file.parts| * partSize >= |source| && file.size == |source| && file.encrypted == encrypted
    && file.hash == Some(h(BlockHashes(h, source)))
  }

  /** Another message that has the row's number in the given channel, and decodes to the same piece. */
  ghost predicate Twin(keys: KeyRing, messages: Messages, channel: Channel, row: Row, piece: seq<byte>,
                       encrypted: bool)
  {
    row.channel != channel && Decodes(keys, messages, Place(channel, row.partId), row.salt, piece, encrypted)
  }

  ghost predicate RowInReach(keys: KeyRing, messages: Messages, channel: Channel, row: Row, source: seq<byte>,
                             partSize: nat, encrypted: bool, off: nat)
  {
    row.channel == channel || Twin(keys, messages, channel, row, Clip(source, off, off + partSize), encrypted)
  }

  /** Every row's part is in the given channel, or has a twin there. */
  ghost predicate InReach(keys: KeyRing, messages: Messages, channel: Channel, rows: seq<Row>, source: seq<byte>,
                          partSize: nat, encrypted: bool)
  {
    forall k: nat {:trigger rows[k]} :: k < |rows| ==>
      RowInReach(keys, messages, channel, rows[k], source, partSize, encrypted, FileReader.Offset(k, partSize))
  }

  ghost predicate InChannel(rows: seq<Row>, channel: Channel) {
    forall r :: r in rows ==> r.channel == channel
  }

  lemma InChannelInReach(keys: KeyRing, messages: Messages, channel: Channel, rows: seq<Row>, source: seq<byte>,
                         partSize: nat, encrypted: bool)
    requires InChannel(rows, channel)
    ensures InReach(keys, messages, channel, rows, source, partSize, encrypted)
  {
  }

  /** A planned row's part is found in a channel if and only if it is in reach there. */
  lemma PlannedPart(keys: KeyRing, h: Hash, messages: Messages, channel: Channel, row: Row, source: seq<byte>,
                    partSize: nat, encrypted: bool, k: nat, off: nat)
    requires PlannedRow(keys, h, messages, row, source, partSize, encrypted, k, off)
    ensures FileReader.StoredPart(encrypted, PartOf(keys, messages, Place(channel, row.partId), row.salt),
                                  source, partSize, k, off)
            <==> RowInReach(keys, messages, channel, row, source, partSize, encrypted, off)
  {
  }

  lemma PlannedStored(keys: KeyRing, h: Hash, messages: Messages, channel: Channel, rows: seq<Row>, source: seq<byte>,
                      partSize: nat, encrypted: bool)
    requires Planned(keys, h, messages, rows, source, partSize, encrypted) && rows != []
    requires 0 < |source| <= FileReader.MAX_POSITION && 0 < partSize
    ensures FileReader.StoredFile(encrypted, StoredParts(keys, messages, channel, FileParts(rows)), source, partSize)
            <==> InReach(keys, messages, channel, rows, source, partSize, encrypted)
  {
    hide FileReader.StoredPart, RowInReach, PlannedRow;
    var parts := StoredParts(keys, messages, channel, FileParts(rows));
    var plan := PlanOf(keys, h, messages, source, partSize, encrypted);
    forall k: nat {:trigger parts[k]} {:trigger rows[k]} | k < |parts|
      ensures FileReader.StoredPart(encrypted, parts[k], source, partSize, k, FileReader.Offset(k, partSize)) <==>
              RowInReach(keys, messages, channel, rows[k], source, partSize, encrypted, FileReader.Offset(k, partSize))
    {
      assert plan(rows[k], k);
      PlannedPart(keys, h, messages, channel, rows[k], source, partSize, encrypted, k, FileReader.Offset(k, partSize));
    }
  }

  /** The file row that a commit makes of all planned rows. */
  function FileOf(h: Hash, channel: Channel, rows: seq<Row>, size: nat, encrypted: bool): (file: FileRow)
    ensures file.channel == channel && |file.parts| == |rows| && file.size == size
  {
    FileRow(channel, FileParts(rows), size, encrypted, HashOf(h, rows, size))
  }

  /** All planned rows together stand for the source if and only if they are in reach in the file's channel. */
  lemma PlannedHolds(keys: KeyRing, h: Hash, messages: Messages, channel: Channel, rows: seq<Row>, source: seq<byte>,
                     partSize: nat, encrypted: bool, end: nat)
    requires Planned(keys, h, messages, rows, source, partSize, encrypted) && 0 < |source| <= FileReader.MAX_POSITION
    requires 0 < partSize && partSize % HASH_BLOCK == 0 && end == |rows| * partSize && end >= |source|
    ensures Holds(keys, h, messages, FileOf(h, channel, rows, |source|, encrypted), source, partSize, encrypted)
            <==> InReach(keys, messages, channel, rows, source, partSize, encrypted)
  {
    RowHashesCover(keys, h, messages, rows, source, partSize, encrypted, end);
    assert source[..Min(end, |source|)] == source;
    PlannedStored(keys, h, messages, channel, rows, source, partSize, encrypted);
    HashesLength(h, source);
  }

  /** The parts of a file with these rows, unless one of them has no message. */
  method CollectParts(uploads: seq<Row>) returns (ok: bool, parts: seq<FilePart>)
    ensures ok <==> NoZeroIds(uploads)
    ensures ok ==> parts == FileParts(uploads)
  {
    parts := [];
    for i := 0 to |uploads|
      invariant parts == FileParts(uploads[..i]) && NoZeroIds(uploads[..i])
    {
      assert uploads[..i + 1] == uploads[..i] + [uploads[i]];
      if uploads[i].partId == 0 {
        return false, parts;
      }
      assert uploads[..i + 1][..i] == uploads[..i];
      parts := parts + [FilePart(uploads[i].partId, uploads[i].salt)];
    }
    assert uploads[..|uploads|] == uploads;
    ok := true;
  }

  /** FilesCreate for an upload: collects the parts and the hash, then replaces the file's row and deletes
      the upload's rows in one transaction. `channel` is the user's current one. */
  method Commit(store: Store, channel: Channel, size: nat, encrypted: bool, reliable: bool) returns (ok: bool)
    modifies store`file, store`uploads, store`taken
    ensures reliable && old(NoZeroIds(store.uploads)) ==> ok
    ensures (store.uploads == old(store.uploads) && store.Uncommitted(old(store.file), old(store.taken)) && !ok)
            || (store.uploads == [] && store.taken == ByPartNo(old(store.uploads))
                && store.file == Some(FileOf(store.hash, channel, store.taken, size, encrypted)))
  {
    hide ByPartNo, FileParts, RowHashes, Ordered;
    var uploads := ByPartNo(store.uploads);
    ByPartNoSorts(store.uploads);
    var reachable: bool := *;
    if !reachable && !reliable {
      return false;
    }
    var sound, parts := CollectParts(uploads);
    if !sound {
      return false;
    }
    var treeHash := None;
    if |uploads| > 0 {
      treeHash := UploadTreeHash(store.hash, uploads);
    } else if size == 0 {
      treeHash := Some(store.hash([]));
    }
    var committed: bool := *;
    ok := false;
    if committed || reliable {
      store.file, store.uploads := Some(FileRow(channel, parts, size, encrypted, treeHash)), [];
      store.taken := uploads;
      var answered: bool := *;
      ok := answered || reliable;
    }
  }

  function HashOf(h: Hash, rows: seq<Row>, size: nat): Option<seq<byte>> {
    if |rows| > 0 then if RowHashes(rows) == [] then None else Some(h(RowHashes(rows)))
    else if size == 0 then Some(h([]))
    else None
  }

  /** The file was made of these rows, which are all planned parts of the source. */
  ghost predicate MadeOf(keys: KeyRing, h: Hash, messages: Messages, file: FileRow, rows: seq<Row>,
                         source: seq<byte>, partSize: nat, encrypted: bool)
  {
    && Covered(|rows|, partSize) >= |source| && file == FileOf(h, file.channel, rows, |source|, encrypted)
    && Planned(keys, h, messages, rows, source, partSize, encrypted)
  }

  /** The last commit took all planned parts of the source. */
  ghost predicate Committed(store: Store, source: seq<byte>, partSize: nat, encrypted: bool)
    reads store
  {
    store.file.Some? && MadeOf(store.keys, store.hash, store.messages, store.file.value, store.taken, source, partSize,
                               encrypted)
  }

  /** More messages do not change what a file was made of. */
  lemma MadeOfGrows(keys: KeyRing, h: Hash, before: Messages, after: Messages, file: FileRow, rows: seq<Row>,
                    source: seq<byte>, partSize: nat, encrypted: bool)
    requires MadeOf(keys, h, before, file, rows, source, partSize, encrypted) && Grows(before, after)
    ensures MadeOf(keys, h, after, file, rows, source, partSize, encrypted)
  {
    PlannedGrows(keys, h, before, after, rows, source, partSize, encrypted);
  }

  /** A reader of the file finds the parts that the last commit took. */
  ghost predicate FileInReach(store: Store, source: seq<byte>, partSize: nat, encrypted: bool)
    reads store
  {
    store.file.Some? &&
    InReach(store.keys, store.messages, store.file.value.channel, store.taken, source, partSize, encrypted)
  }

  /** The file stands for exactly the source. */
  ghost predicate FileHolds(store: Store, source: seq<byte>, partSize: nat, encrypted: bool)
    reads store
  {
    store.file.Some? && Holds(store.keys, store.hash, store.messages, store.file.value, source, partSize, encrypted)
  }

  lemma CommittedHolds(store: Store, source: seq<byte>, partSize: nat, encrypted: bool)
    requires Committed(store, source, partSize, encrypted) && 0 < |source| <= FileReader.MAX_POSITION
    requires 0 < partSize && partSize % HASH_BLOCK == 0
    ensures FileHolds(store, source, partSize, encrypted) <==> FileInReach(store, source, partSize, encrypted)
  {
    PlannedHolds(store.keys, store.hash, store.messages, store.file.value.channel, store.taken, source, partSize,
                 encrypted, FileReader.Offset(|store.taken|, partSize));
  }

  /** What a run leaves: rows it can resume from, and the file it found or one made of all parts. */
  ghost predicate Kept(store: Store, file: Option<FileRow>, taken: seq<Row>, ok: bool, source: seq<byte>,
                       partSize: nat, encrypted: bool)
    reads store
  {
    && store.Resumable(source, partSize, encrypted)
    && (store.Uncommitted(file, taken) || Committed(store, source, partSize, encrypted))
    && (ok ==> store.uploads == [] && Committed(store, source, partSize, encrypted))
  }

  /** What a run leaves that found a first part of another transfer: the rows, or a file with too many parts. */
  ghost predicate Spoilt(store: Store, before: Option<FileRow>, ok: bool, source: seq<byte>, partSize: nat,
                         encrypted: bool)
    reads store
  {
    if store.Mixed(source, partSize, encrypted) then store.file == before && !ok
    else store.uploads == [] && store.file.Some? && Covered(|store.file.value.parts| - 1, partSize) >= |source|
  }

  /** Where a run that uploaded to `staging` and committed to `current` left things. */
  ghost predicate Whereabouts(store: Store, uploads: seq<Row>, file: Option<FileRow>, taken: seq<Row>, ok: bool,
                              staging: Channel, current: Channel)
    reads store
  {
    && AddedIn(store.uploads, uploads, staging)
    && ((store.Uncommitted(file, taken) && !ok) ||
        (store.file.Some? && store.file.value.channel == current && AddedIn(store.taken, uploads, staging)))
  }

  /** One run of a transfer job, which uploads to the channel that is current when it starts, and commits to
      the one that is current when it ends. It may fail anywhere, the source included; unless it finds a
      first part of another transfer, the stored rows remain a prefix of the plan, or none once the file is
      committed, and a committed file has all parts. It stands for the source if and only if they are in
      reach in its channel. If nothing fails it commits. */
  method SyncTransfer(store: Store, source: seq<byte>, requested: int, encrypted: bool, staging: Channel,
                      current: Channel, reliable: bool, ghost partSize: nat)
    returns (ok: bool)
    requires |source| <= FileReader.MAX_POSITION && partSize == NormalizeSyncPartSize(requested) && store.Valid()
    modifies store
    ensures store.Valid() && Grows(old(store.messages), store.messages)
    ensures old(store.Resumable(source, partSize, encrypted)) ==>
              Kept(store, old(store.file), old(store.taken), ok, source, partSize, encrypted)
    ensures ok && old(store.Resumable(source, partSize, encrypted)) ==>
              (FileHolds(store, source, partSize, encrypted) <==> FileInReach(store, source, partSize, encrypted))
    ensures ok && old(store.Resumable(source, partSize, encrypted)) ==> old(store.uploads) <= store.taken
    ensures Whereabouts(store, old(store.uploads), old(store.file), old(store.taken), ok, staging, current)
    ensures old(store.Mixed(source, partSize, encrypted)) ==>
              Spoilt(store, old(store.file), ok, source, partSize, encrypted)
    ensures old(NoZeroIds(store.uploads)) ==> NoZeroIds(store.uploads) && (reliable && source != [] ==> ok)
  {
    var size := |source|;
    var reader := OpenSource(source, reliable);
    if size == 0 {
      return false;
    }
    ghost var planned, mixed := store.Resumable(source, partSize, encrypted), store.Mixed(source, partSize, encrypted);
    ok := UploadSyncTransferParts(store, reader, staging, size, requested, encrypted, reliable, source, partSize);
    if ok {
      AlignedPartSize(requested);
      ok := CommitAll(store, source, encrypted, current, reliable, partSize, planned, mixed);
      if ok && planned {
        CommittedHolds(store, source, partSize, encrypted);
      }
    }
  }

  /** openSourceFile: a stream of the source that may break off anywhere. */
  method OpenSource(source: seq<byte>, reliable: bool) returns (reader: ByteStream)
    ensures fresh(reader) && reader.last != Nil && reader.rest <= source && (reliable ==> reader.rest == source)
  {
    var delivered: nat, status: Status := *, *;
    var ends := if status == Nil then EOF else status;
    reader := new ByteStream(if reliable then source else source[..Min(delivered, |source|)], ends);
  }

  lemma AlignedPartSize(requested: int)
    ensures NormalizeSyncPartSize(requested) > 0 && NormalizeSyncPartSize(requested) % HASH_BLOCK == 0
  {
    PartSizeIsAligned(requested);
  }

  /** Once the file is made of all rows, nothing is left to resume from. */
  lemma KeptByCommit(store: Store, source: seq<byte>, partSize: nat, encrypted: bool)
    requires store.Valid() && store.uploads == [] && Committed(store, source, partSize, encrypted)
    ensures store.Resumable(source, partSize, encrypted)
  {
  }

  /** Commits an upload that has all its rows, and perhaps more. */
  method CommitAll(store: Store, source: seq<byte>, encrypted: bool, current: Channel, reliable: bool,
                   ghost partSize: nat, ghost planned: bool, ghost mixed: bool)
    returns (ok: bool)
    requires store.Valid() && 0 < |source| <= FileReader.MAX_POSITION && 0 < partSize && partSize % HASH_BLOCK == 0
    requires planned ==> store.Resumable(source, partSize, encrypted) && Covered(|store.uploads|, partSize) >= |source|
    requires mixed ==> store.Mixed(source, partSize, encrypted) && Covered(|store.uploads| - 1, partSize) >= |source|
    modifies store`file, store`uploads, store`taken
    ensures planned ==> Kept(store, old(store.file), old(store.taken), ok, source, partSize, encrypted)
    ensures planned && ok ==> store.taken == old(store.uploads)
    ensures mixed ==> Spoilt(store, old(store.file), ok, source, partSize, encrypted)
    ensures store.uploads == [] || store.uploads == old(store.uploads)
    ensures (store.Uncommitted(old(store.file), old(store.taken)) && !ok) ||
            (store.file.Some? && store.file.value.channel == current
             && forall r :: r in store.taken ==> r in old(store.uploads))
    ensures old(NoZeroIds(store.uploads)) ==> NoZeroIds(store.uploads) && (reliable ==> ok)
  {
    hide Planned, RowFits, FileOf, ByPartNo, Covered;
    ghost var rows := store.uploads;
    ByPartNoSorts(rows);
    if planned {
      PlannedNumbers(store.keys, store.hash, store.messages, rows, source, partSize, encrypted);
      SortedStays(rows);
    }
    ok := Commit(store, current, |source|, encrypted, reliable);
    if planned && store.taken == rows && store.uploads == [] && Committed(store, source, partSize, encrypted) {
      KeptByCommit(store, source, partSize, encrypted);
    }
  }

  /** All attempts upload and commit to the same channel. */
  predicate AtHome(staging: nat -> Channel, current: nat -> Channel, attempts: nat, home: Channel) {
    forall i: nat :: i < attempts ==> staging(i) == home && current(i) == home
  }

  /** Any number of runs of the same transfer, each with a channel to upload to and one to commit to;
      `reliable` says in which of them nothing fails. After a success the file stands for the source if and
      only if its parts are in reach in the channel it names, and so if all were sent and committed to `home`. */
  method RetryTransfer(store: Store, source: seq<byte>, requested: int, encrypted: bool, attempts: nat,
                       staging: nat -> Channel, current: nat -> Channel, reliable: nat -> bool,
                       ghost partSize: nat, ghost home: Channel)
    returns (ok: bool)
    requires |source| <= FileReader.MAX_POSITION && partSize == NormalizeSyncPartSize(requested)
    requires store.Resumable(source, partSize, encrypted)
    modifies store
    ensures Kept(store, old(store.file), old(store.taken), ok, source, partSize, encrypted)
    ensures source != [] && (exists i: nat :: i < attempts && reliable(i)) ==> ok
    ensures ok ==> (FileHolds(store, source, partSize, encrypted) <==> FileInReach(store, source, partSize, encrypted))
    ensures ok && old(InChannel(store.uploads, home)) && AtHome(staging, current, attempts, home) ==>
              FileHolds(store, source, partSize, encrypted)
  {
    hide MadeOf, FileHolds, InReach, Planned, NormalizeSyncPartSize;
    ok := false;
    var i := 0;
    PlannedIds(store, source, partSize, encrypted);
    while !ok && i < attempts
      invariant i <= attempts
      invariant Kept(store, old(store.file), old(store.taken), ok, source, partSize, encrypted)
      invariant NoZeroIds(store.uploads)
      invariant source != [] && !ok ==> forall j: nat :: j < i ==> !reliable(j)
      invariant ok ==> (FileHolds(store, source, partSize, encrypted) <==>
                        FileInReach(store, source, partSize, encrypted))
      invariant old(InChannel(store.uploads, home)) && AtHome(staging, current, attempts, home) ==>
                  InChannel(store.uploads, home) && (ok ==> FileInReach(store, source, partSize, encrypted))
    {
      ghost var file, messages, taken := store.file, store.messages, store.taken;
      ok := SyncTransfer(store, source, requested, encrypted, staging(i), current(i), reliable(i), partSize);
      if file.Some? && MadeOf(store.keys, store.hash, messages, file.value, taken, source, partSize, encrypted) {
        MadeOfGrows(store.keys, store.hash, messages, store.messages, file.value, taken, source, partSize, encrypted);
      }
      if ok && InChannel(store.taken, store.file.value.channel) {
        InChannelInReach(store.keys, store.messages, store.file.value.channel, store.taken, source, partSize,
                         encrypted);
      }
      i := i + 1;
    }
  }

  predicate Ordered(rows: seq<Row>) {
    forall i, j :: 0 <= i < j < |rows| ==> rows[i].partNo <= rows[j].partNo
  }

  lemma {:induction false} InsertKeeps(rows: seq<Row>, row: Row)
    requires Ordered(rows)
    ensures var s := InsertRow(rows, row);
            Ordered(s) && (forall r :: r in s <==> r in rows || r == row)
  {
    if rows != [] && rows[|rows| - 1].partNo > row.partNo {
      var front, last := rows[..|rows| - 1], rows[|rows| - 1];
      InsertKeeps(front, row);
      assert rows == front + [last];
      assert forall r :: r in front ==> r.partNo <= last.partNo;
    }
  }

  lemma {:induction false} InsertPermutes(rows: seq<Row>, row: Row)
    ensures multiset(InsertRow(rows, row)) == multiset(rows) + multiset{row}
  {
    if rows != [] && rows[|rows| - 1].partNo > row.partNo {
      var front, last := rows[..|rows| - 1], rows[|rows| - 1];
      InsertPermutes(front, row);
      assert rows == front + [last] && InsertRow(rows, row) == InsertRow(front, row) + [last];
    }
  }

  /** The query returns all rows, as often as they are there, in the order of their part numbers. */
  lemma {:induction false} ByPartNoSorts(rows: seq<Row>)
    ensures var s := ByPartNo(rows);
            Ordered(s) && multiset(s) == multiset(rows) && |s| == |rows| && (forall r :: r in s <==> r in rows)
  {
    if rows != [] {
      var front, last := rows[..|rows| - 1], rows[|rows| - 1];
      ByPartNoSorts(front);
      InsertKeeps(ByPartNo(front), last);
      InsertPermutes(ByPartNo(front), last);
      assert rows == front + [last];
    }
  }

  /** Of the rows of a part the one created last is kept, and of those created at once the last one. */
  lemma {:induction false} ByPartIsLatest(rows: seq<Row>, p: int)
    ensures p in ByPart(rows) <==> exists k :: 0 <= k < |rows| && rows[k].partNo == p
    ensures p in ByPart(rows) ==> exists k :: IsLatest(rows, p, k) && ByPart(rows)[p] == rows[k]
  {
    if rows != [] {
      var n := |rows| - 1;
      var front, last := rows[..n], rows[n];
      ByPartIsLatest(front, p);
      assert forall k :: 0 <= k < n ==> front[k] == rows[k];
      if last.partNo != p || (p in ByPart(front) && ByPart(front)[p].createdAt > last.createdAt) {
        if p in ByPart(front) {
          var k :| IsLatest(front, p, k) && ByPart(front)[p] == front[k];
          assert IsLatest(rows, p, k);
        }
      } else {
        assert IsLatest(rows, p, n);
      }
    }
  }

  predicate IsLatest(rows: seq<Row>, p: int, k: int) {
    && 0 <= k < |rows| && rows[k].partNo == p
    && (forall j :: 0 <= j < |rows| && rows[j].partNo == p ==>
          rows[j].createdAt < rows[k].createdAt || (rows[j].createdAt == rows[k].createdAt && j <= k))
  }

  lemma {:induction false} ByPartIsARow(rows: seq<Row>, p: int)
    requires p in ByPart(rows)
    ensures ByPart(rows)[p] in rows && ByPart(rows)[p].partNo == p
  {
    var front, last := rows[..|rows| - 1], rows[|rows| - 1];
    assert rows == front + [last];
    if ByPart(rows)[p] != last || last.partNo != p {
      ByPartIsARow(front, p);
    }
  }

  /** Two ways to cut and encrypt the same source come to the same first part. */
  predicate Compatible(size: nat, partSize: nat, encrypted: bool, otherSize: nat, otherEncrypted: bool) {
    encrypted == otherEncrypted && Min(partSize, size) == Min(otherSize, size)
  }

  /** Rows of another run are a prefix of this run's plan if the settings are compatible, and are not taken
      over by it if they are not. */
  lemma OtherSettings(keys: KeyRing, h: Hash, messages: Messages, rows: seq<Row>, source: seq<byte>,
                      partSize: nat, encrypted: bool, was: nat, wasEncrypted: bool)
    requires Planned(keys, h, messages, rows, source, was, wasEncrypted) && rows != [] && was > 0 && partSize > 0
    ensures Compatible(|source|, partSize, encrypted, was, wasEncrypted) ==>
              Planned(keys, h, messages, rows, source, partSize, encrypted)
    ensures !Compatible(|source|, partSize, encrypted, was, wasEncrypted) ==>
              rows[0].partNo == 1 && !RowFits(rows[0], |source|, partSize, encrypted, 1)
  {
    hide Staged, RowFits;
    var plan := PlanOf(keys, h, messages, source, was, wasEncrypted);
    assert plan(rows[0], 0);
    FirstRow(keys, h, messages, rows[0], source, partSize, encrypted, was, wasEncrypted);
    if Compatible(|source|, partSize, encrypted, was, wasEncrypted) && was != partSize {
      OneRow(keys, h, messages, rows, source, was, wasEncrypted);
    }
  }

  lemma OneRow(keys: KeyRing, h: Hash, messages: Messages, rows: seq<Row>, source: seq<byte>, partSize: nat,
               encrypted: bool)
    requires Planned(keys, h, messages, rows, source, partSize, encrypted) && rows != []
    ensures |rows| == 1 || partSize < |source|
  {
    if |rows| > 1 {
      assert PlanOf(keys, h, messages, source, partSize, encrypted)(rows[1], 1);
    }
  }

  /** The first row tells the two apart. */
  lemma FirstRow(keys: KeyRing, h: Hash, messages: Messages, row: Row, source: seq<byte>, partSize: nat,
                 encrypted: bool, was: nat, wasEncrypted: bool)
    requires PlannedRow(keys, h, messages, row, source, was, wasEncrypted, 0, 0) && was > 0 && partSize > 0
    ensures RowFits(row, |source|, partSize, encrypted, 1) <==>
            Compatible(|source|, partSize, encrypted, was, wasEncrypted)
    ensures Compatible(|source|, partSize, encrypted, was, wasEncrypted) ==>
              PlannedRow(keys, h, messages, row, source, partSize, encrypted, 0, 0)
  {
    var piece := Clip(source, 0, was);
    StagedSize(keys, h, messages, row, piece, wasEncrypted);
    ExpectedIs(|source|, partSize, 0, 1, 0);
    SizeRoundTrip(Min(partSize, |source|));
    SizeRoundTrip(|piece|);
    if Min(partSize, |source|) == Min(was, |source|) {
      assert Clip(source, 0, partSize) == piece;
    }
  }

  /** All rows of a prefix of the plan have messages. */
  lemma PlannedIds(store: Store, source: seq<byte>, partSize: nat, encrypted: bool)
    requires store.Resumable(source, partSize, encrypted)
    ensures NoZeroIds(store.uploads)
  {
    var plan := PlanOf(store.keys, store.hash, store.messages, source, partSize, encrypted);
    forall r | r in store.uploads ensures r.partId != 0 {
      var k: nat :| k < |store.uploads| && store.uploads[k] == r;
      assert plan(store.uploads[k], k);
    }
  }

  lemma LastPartStarts(encrypted: bool, parts: seq<FileReader.Part>, source: seq<byte>, partSize: nat, k: nat)
    requires k < |parts|
    ensures FileReader.StoredFile(encrypted, parts, source, partSize) ==> Covered(k, partSize) < |source|
  {
    assert FileReader.StoredFile(encrypted, parts, source, partSize) ==>
             FileReader.StoredPart(encrypted, parts[k], source, partSize, k, FileReader.Offset(k, partSize));
  }

  /** A file with too many parts does not stand for the source. */
  lemma TooManyParts(keys: KeyRing, h: Hash, messages: Messages, file: FileRow, source: seq<byte>, partSize: nat,
                     encrypted: bool)
    requires Covered(|file.parts| - 1, partSize) >= |source|
    ensures !Holds(keys, h, messages, file, source, partSize, encrypted)
  {
    var parts := StoredParts(keys, messages, file.channel, file.parts);
    if parts != [] {
      LastPartStarts(encrypted, parts, source, partSize, |parts| - 1);
    }
  }

  /** A run that finds the rows of runs with another part size or encryption, which share its upload ID. If
      it succeeds, the file stands for the source if and only if there were no such rows or both settings
      cut and encrypt the first part alike, and its parts are in reach in its channel. */
  method ResumeOtherSettings(store: Store, source: seq<byte>, requested: int, encrypted: bool, staging: Channel,
                             current: Channel, reliable: bool, ghost partSize: nat, ghost was: nat,
                             ghost wasEncrypted: bool)
    returns (ok: bool)
    requires |source| <= FileReader.MAX_POSITION && partSize == NormalizeSyncPartSize(requested) && was > 0
    requires store.Resumable(source, was, wasEncrypted)
    modifies store
    ensures reliable && source != [] ==> ok
    ensures ok ==> (FileHolds(store, source, partSize, encrypted) <==>
                    && (old(store.uploads) == [] || Compatible(|source|, partSize, encrypted, was, wasEncrypted))
                    && FileInReach(store, source, partSize, encrypted))
  {
    ghost var rows := store.uploads;
    AlignedPartSize(requested);
    PlannedIds(store, source, was, wasEncrypted);
    if rows != [] {
      OtherSettings(store.keys, store.hash, store.messages, rows, source, partSize, encrypted, was, wasEncrypted);
    }
    ok := SyncTransfer(store, source, requested, encrypted, staging, current, reliable, partSize);
    if ok && rows != [] && !Compatible(|source|, partSize, encrypted, was, wasEncrypted) {
      TooManyParts(store.keys, store.hash, store.messages, store.file.value, source, partSize, encrypted);
    }
  }

  /** A 100 MiB file whose first run stored its first 64 MiB, and is then resumed with parts of 128 MiB: the
      new part is uploaded next to the old one, and the committed file gets both. */
  method LeftoverExample(store: Store, source: seq<byte>, staging: Channel, current: Channel)
    returns (ok: bool)
    requires |source| == 0x640_0000 && |store.uploads| == 1 && store.Resumable(source, 0x400_0000, false)
    modifies store
    ensures ok && store.file.Some? && |store.file.value.parts| >= 2
    ensures !FileHolds(store, source, 0x800_0000, false)
  {
    ghost var rows := store.uploads;
    PlannedIds(store, source, 0x400_0000, false);
    OtherSettings(store.keys, store.hash, store.messages, rows, source, 0x800_0000, false, 0x400_0000, false);
    ok := SyncTransfer(store, source, 0x800_0000, false, staging, current, true, 0x800_0000);
    TooManyParts(store.keys, store.hash, store.messages, store.file.value, source, 0x800_0000, false);
  }

  /** A row's part is out of reach in a channel where another, longer or shorter message has its number. */
  lemma OutOfReach(keys: KeyRing, before: Messages, after: Messages, channel: Channel, row: Row, source: seq<byte>,
                   partSize: nat, off: nat)
    requires Grows(before, after) && off <= |source| && row.channel != channel
    requires Place(channel, row.partId) in before
    requires |before[Place(channel, row.partId)]| != |Clip(source, off, off + partSize)|
    ensures !RowInReach(keys, after, channel, row, source, partSize, false, off)
  {
  }

  /** A 100 MiB file whose first run stored its first 64 MiB in one channel. Then another channel becomes
      current, which has some other message of that number: the second run uploads the rest there and
      commits, but the first part of the committed file is not the source's. */
  method RolloverExample(store: Store, source: seq<byte>, next: Channel)
    returns (ok: bool)
    requires |source| == 0x640_0000 && |store.uploads| == 1 && store.Resumable(source, 0x400_0000, false)
    requires store.uploads[0].channel != next && Place(next, store.uploads[0].partId) in store.messages
    requires |store.messages[Place(next, store.uploads[0].partId)]| != 0x400_0000
    modifies store
    ensures ok && store.file.Some? && store.file.value.channel == next && !FileHolds(store, source, 0x400_0000, false)
  {
    ghost var row, messages := store.uploads[0], store.messages;
    PlannedIds(store, source, 0x400_0000, false);
    ok := SyncTransfer(store, source, 0x400_0000, false, next, next, true, 0x400_0000);
    OutOfReach(store.keys, messages, store.messages, next, row, source, 0x400_0000, 0);
    assert store.taken[0] == row;
  }
}
