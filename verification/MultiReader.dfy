/** The chunked, batched reader of one stored object (internal/reader/tg_reader.go, buffer.go) and
    the chunk size it asks for (internal/tgc/helpers.go). */
module ChunkReader {
  import opened Streams
  import Nonce

  const KIB: nat := 1024
  const MIB: nat := 1048576

  /** c is a power of two between 1 KiB and 1 MiB. */
  predicate ChunkLadder(c: nat) {
    c in {1024, 2048, 4096, 8192, 16384, 32768, 65536, 131072, 262144, 524288, 1048576}
  }

  /** The one chunk size for a range: the largest on the ladder that does not exceed end - start, or
      the smallest there is. */
  predicate ChunkSizeFor(start: int, end: int, c: nat) {
    && ChunkLadder(c)
    && (c > KIB ==> c <= end - start)
    && (c < MIB ==> end - start < 2 * c)
  }

  method CalculateChunkSize(start: int, end: int) returns (chunkSize: nat)
    ensures ChunkSizeFor(start, end, chunkSize)
  {
    chunkSize := MIB;
    while chunkSize > KIB && chunkSize > end - start
      invariant ChunkLadder(chunkSize)
      invariant chunkSize < MIB ==> end - start < 2 * chunkSize
    {
      chunkSize := chunkSize / 2;
    }
  }

  lemma ChunkSizeUnique(start: int, end: int, c: nat, d: nat)
    requires ChunkSizeFor(start, end, c) && ChunkSizeFor(start, end, d)
    ensures c == d
  {
  }

  /** What Telegram demands of a file request: whole KiB, a power-of-two size, one 1 MiB window. */
  predicate AllowedRequest(offset: nat, limit: nat) {
    && offset % KIB == 0 && ChunkLadder(limit)
    && offset / MIB == (offset + limit - 1) / MIB
  }

  /** A chunk of a power-of-two size at a multiple of it is allowed: it stays inside one MiB. */
  lemma AlignedIsAllowed(offset: nat, limit: nat)
    requires limit in {1024, 2048, 4096, 8192, 16384, 32768, 65536, 131072, 262144, 524288, 1048576}
    requires offset % limit == 0
    ensures AllowedRequest(offset, limit)
    ensures offset % 1024 == 0 && 1048576 % limit == 0 && offset / 1048576 == (offset + limit - 1) / 1048576
  {
    LadderFacts(limit);
    var j := offset / limit;
    WholeKib(offset, limit, j);
    InOneWindow(offset, limit, j, MIB / limit);
  }

  lemma InOneWindow(offset: nat, limit: nat, j: nat, m: nat)
    requires offset == limit * j && limit * m == MIB && m > 0 && limit > 0
    ensures offset / MIB == (offset + limit - 1) / MIB
  {
    var a, b := j / m, j % m;
    assert j == m * a + b;
    Regroup(limit, j, m, a, b);
    Fits(limit, m, b);
    var l := limit * b;
    SameWindow(offset, limit, a, l);
  }

  lemma WholeKib(offset: nat, limit: nat, j: nat)
    requires ChunkLadder(limit) && offset == limit * j
    ensures offset % KIB == 0
  {
    LadderFacts(limit);
    var k := limit / KIB;
    var kj := k * j;
    assert offset == KIB * kj by {
      assert limit * j == (KIB * k) * j;
    }
  }

  lemma Regroup(c: nat, q: nat, m: nat, a: nat, b: nat)
    requires q == m * a + b
    ensures c * q == (c * m) * a + c * b
  {
    var ma := m * a;
    assert c * (ma + b) == c * ma + c * b;
    assert c * ma == (c * m) * a;
  }

  lemma Fits(c: nat, m: nat, b: nat)
    requires b < m
    ensures c * b + c <= c * m
  {
    Nonce.MulMono(c, b + 1, m);
  }

  lemma SameWindow(offset: nat, limit: nat, a: nat, l: nat)
    requires offset == MIB * a + l && l + limit <= MIB && limit > 0
    ensures offset / MIB == (offset + limit - 1) / MIB
  {
  }

  lemma LadderFacts(c: nat)
    requires ChunkLadder(c)
    ensures c > 0 && MIB / c > 0 && c * (MIB / c) == MIB && c == KIB * (c / KIB)
  {
    if c == 1024 || c == 2048 || c == 4096 {
    } else if c == 8192 || c == 16384 || c == 32768 {
    } else if c == 65536 || c == 131072 || c == 262144 {
    }
  }

  /** fillBatch can cut part i out of its raw chunk without running off it, and gets `part`. */
  ghost predicate Trimmed(leftCut: nat, rightCut: nat, totalParts: nat, i: nat, raw: seq<byte>, part: seq<byte>) {
    if totalParts == 1 then leftCut <= rightCut <= |raw| && raw[leftCut..rightCut] == part
    else if i == 0 then leftCut <= |raw| && raw[leftCut..] == part
    else if i + 1 == totalParts then rightCut <= |raw| && raw[..rightCut] == part
    else raw == part
  }

  /** How a byte range is cut into chunks: part k covers the bytes from Mark(k) to Mark(k + 1). */
  datatype Cut = Cut(start: nat, end: nat, chunk: nat) {
    ghost predicate Valid() {
      start <= end && chunk > 0
    }

    function Base(): nat
      requires chunk > 0
    {
      start - start % chunk
    }

    function LeftCut(): nat
      requires chunk > 0
    {
      start - Base()
    }

    function RightCut(): nat
      requires chunk > 0
    {
      end % chunk + 1
    }

    function Total(): nat
      requires chunk > 0 && start <= end
    {
      (end - Base() + chunk) / chunk
    }

    function Mark(k: nat): nat
      requires chunk > 0
    {
      Min(end + 1, Max(start, Base() + k * chunk))
    }

    lemma Ends()
      requires Valid()
      ensures Total() >= 1 && Base() + (Total() - 1) * chunk == end - end % chunk
      ensures Total() * chunk == (Total() - 1) * chunk + chunk
      ensures Base() % chunk == 0 && Base() <= start < Base() + chunk
    {
      var b, q := start / chunk, end / chunk;
      DivMono(start, end, chunk);
      CountParts(chunk, b, q, start % chunk, end % chunk, start, end);
    }

    lemma FirstAndLastMark()
      requires Valid()
      ensures Mark(0) == start && Mark(Total()) == end + 1
    {
      Ends();
    }

    /** Where part i lies. `off` is where its chunk request starts. */
    lemma PartPlace(i: nat, off: nat)
      requires Valid() && i < Total() && off == Base() + i * chunk
      ensures if i == 0 then off == Base() else off > start
      ensures if i + 1 == Total() then off == end - end % chunk else off + chunk <= end
      ensures Mark(i) == Max(start, off) && Mark(i + 1) == Min(end + 1, off + chunk)
    {
      Ends();
      Next(i, chunk);
      Spread(i, Total(), chunk);
    }

    /** After trimming, part i is exactly the file's bytes between its two marks. */
    lemma TrimIsPart(file: seq<byte>, i: nat, off: nat)
      requires Valid() && end < |file| && i < Total() && off == Base() + i * chunk
      ensures Mark(i) < Mark(i + 1) <= end + 1
      ensures Trimmed(LeftCut(), RightCut(), Total(), i, Clip(file, off, off + chunk), file[Mark(i)..Mark(i + 1)])
    {
      PartPlace(i, off);
      Ends();
      var t, b, l, r := Total(), Base(), LeftCut(), RightCut();
      CutFits(file, off, chunk, start, end, b, end - r + 1, l, r, i == 0, i + 1 == t);
    }
  }

  /** Cutting a chunk at the ends of the range, on plain numbers. */
  lemma CutFits(file: seq<byte>, off: nat, c: nat, start: nat, end: nat, base: nat, top: nat,
                left: nat, right: nat, first: bool, last: bool)
    requires c > 0 && start <= end < |file| && base + left == start < base + c && top + right == end + 1 && right <= c
    requires if first then off == base else off > start
    requires if last then off == top else off + c <= end
    requires right > 0
    ensures var raw, part := Clip(file, off, off + c), file[Max(start, off)..Min(end + 1, off + c)];
            && part != []
            && (first && last ==> left <= right <= |raw| && raw[left..right] == part)
            && (first && !last ==> left <= |raw| && raw[left..] == part)
            && (!first && last ==> right <= |raw| && raw[..right] == part)
            && (!first && !last ==> raw == part)
  {
    var raw, most := Clip(file, off, off + c), Min(off + c, |file|);
    assert raw == file[off..most];
    if first {
      assert left <= |raw| && raw[left..] == file[start..most];
    }
    if last {
      assert right <= |raw| && raw[..right] == file[off..end + 1];
    }
    if first && last {
      assert raw[left..right] == raw[..right][left..];
    }
  }

  lemma Spread(i: nat, t: nat, c: nat)
    requires i < t && c > 0
    ensures i + 1 == t ==> i * c == (t - 1) * c
    ensures i + 1 < t ==> i * c + c <= (t - 1) * c
    ensures i > 0 ==> c <= i * c
  {
    if i + 1 < t {
      Nonce.MulMono(c, i + 1, t - 1);
    }
    if i > 0 {
      Nonce.MulMono(c, 1, i);
    }
  }

  lemma Next(i: nat, c: nat)
    ensures (i + 1) * c == i * c + c
  {
  }

  lemma CountParts(c: nat, b: nat, q: nat, r: nat, e: nat, start: nat, end: nat)
    requires c > 0 && b <= q && r < c && e < c && start == c * b + r && end == c * q + e
    ensures var base, t := start - r, (end - (start - r) + c) / c;
            && t == q - b + 1 && base + (t - 1) * c == end - e
            && t * c == (t - 1) * c + c && base % c == 0
  {
    var t := q - b + 1;
    var cb, cq := c * b, c * q;
    assert c * t == cq - cb + c;
    assert (t - 1) * c == cq - cb;
    QuotientIs(cq + e - cb + c, c, t, e);
    QuotientIs(cb, c, b, 0);
  }

  lemma DivMono(x: nat, y: nat, c: nat)
    requires x <= y && c > 0
    ensures x / c <= y / c
  {
    if x / c > y / c {
      Nonce.MulMono(c, y / c + 1, x / c);
    }
  }

  lemma QuotientIs(v: nat, c: nat, q: nat, r: nat)
    requires c > 0 && v == c * q + r && r < c
    ensures v / c == q && v % c == r
  {
    if v / c > q {
      Nonce.MulMono(c, q + 1, v / c);
    } else if v / c < q {
      Nonce.MulMono(c, v / c + 1, q);
    }
  }

  /** A buffer with something in it. */
  type Buffer = s: seq<byte> | s != [] witness [0]

  /** The bytes between two positions. */
  function Bytes(file: seq<byte>, from: nat, to: nat): seq<byte>
    decreases (to)
  {
    if from < to <= |file| then Bytes(file, from, to - 1) + [file[to - 1]] else []
  }

  lemma {:induction false} BytesAre(file: seq<byte>, from: nat, to: nat)
    requires from <= to <= |file|
    ensures Bytes(file, from, to) == file[from..to]
    decreases (to)
  {
    if from < to {
      BytesAre(file, from, to - 1);
      assert file[from..to] == file[from..to - 1] + [file[to - 1]];
    }
  }

  lemma SplitBytes(file: seq<byte>, from: nat, mid: nat, to: nat, head: seq<byte>, tail: seq<byte>)
    requires from <= to <= |file| && head + tail == Bytes(file, from, to) && mid == from + |head|
    ensures mid <= to && head == Bytes(file, from, mid) && tail == Bytes(file, mid, to)
  {
    BytesAre(file, from, to);
    var all := file[from..to];
    assert mid <= to;
    BytesAre(file, from, mid);
    BytesAre(file, mid, to);
    assert head == all[..|head|] && tail == all[|head|..];
  }

  lemma JoinBytes(file: seq<byte>, a: nat, b: nat, c: nat)
    requires a <= b <= c <= |file|
    ensures Bytes(file, a, b) + Bytes(file, b, c) == Bytes(file, a, c)
  {
    BytesAre(file, a, b);
    BytesAre(file, b, c);
    BytesAre(file, a, c);
  }

  /** Taking `taken` off the front of what is buffered from pos to sent. */
  lemma TakeBytes(file: seq<byte>, pos: nat, next: nat, sent: nat, front: seq<byte>, taken: seq<byte>, ahead: seq<byte>,
                  behind: seq<byte>)
    requires pos <= sent <= |file| && next == pos + |taken| && front == taken + ahead
    requires front + behind == Bytes(file, pos, sent)
    ensures next <= sent && taken == Bytes(file, pos, next) && ahead + behind == Bytes(file, next, sent)
  {
    Associate(taken, ahead, behind);
    SplitBytes(file, pos, next, sent, taken, ahead + behind);
  }

  /** The request for part k = cp + i of a reader whose batch starts at part cp: Telegram allows it, and
      the trimmed answer is the part. */
  lemma PartRequest(file: seq<byte>, cut: Cut, cp: nat, i: nat, offset: nat, off: nat, k: nat)
    requires cut.Valid() && cut.end < |file| && ChunkLadder(cut.chunk) && k == cp + i < cut.Total()
    requires offset == cut.Base() + cp * cut.chunk && off == offset + i * cut.chunk
    ensures AllowedRequest(off, cut.chunk)
    ensures off % 1024 == 0 && off / 1048576 == (off + cut.chunk - 1) / 1048576
    ensures cut.Mark(k) < cut.Mark(k + 1) <= cut.end + 1
    ensures Trimmed(cut.LeftCut(), cut.RightCut(), cut.Total(), k, Clip(file, off, off + cut.chunk),
                    file[cut.Mark(k)..cut.Mark(k + 1)])
  {
    Distribute(cp, i, k, cut.chunk);
    cut.Ends();
    Aligned(cut.Base(), k, cut.chunk, off);
    AlignedIsAllowed(off, cut.chunk);
    cut.TrimIsPart(file, k, off);
  }

  lemma Distribute(a: nat, b: nat, k: nat, c: nat)
    requires k == a + b
    ensures k * c == a * c + b * c
  {
  }

  lemma Aligned(base: nat, k: nat, c: nat, off: nat)
    requires c > 0 && base % c == 0 && off == base + k * c
    ensures off % c == 0
  {
    var b := base / c;
    Distribute(b, k, b + k, c);
    assert off == c * (b + k);
    QuotientIs(off, c, b + k, 0);
  }

  predicate IsPart(k: nat, totalParts: nat) {
    k < totalParts
  }

  /** The settings of one reader, fixed when it is made. */
  datatype Plan = Plan(start: nat, end: nat, chunkSize: nat, leftCut: nat, rightCut: nat, totalParts: nat) {

    /** `starts` are the positions of the parts' requests, `marks` those between the parts. */
    ghost predicate Good(file: seq<byte>, starts: seq<nat>, marks: seq<nat>) {
      && start <= end < |file| && totalParts >= 1
      && |starts| == totalParts && |marks| == totalParts + 1
      && marks[0] == start && marks[totalParts] == end + 1
      && (forall k :: 0 <= k <= totalParts ==> marks[k] <= end + 1)
      && (forall j, k {:trigger IsPart(j, totalParts), IsPart(k, totalParts)} ::
            IsPart(j, totalParts) && IsPart(k, totalParts) && j <= k ==> PartFacts(file, starts, marks, j, k))
    }

    /** Part k's request is aligned and allowed, lies (k - j) chunks after part j's, and trims to the
        file's bytes between marks k and k + 1. */
    ghost predicate PartFacts(file: seq<byte>, starts: seq<nat>, marks: seq<nat>, j: nat, k: nat)
      requires |starts| == totalParts && |marks| == totalParts + 1 && j <= k < totalParts
    {
      && starts[k] == starts[j] + (k - j) * chunkSize
      && AllowedRequest(starts[k], chunkSize)
      && marks[k] < marks[k + 1] <= |file|
      && Trimmed(leftCut, rightCut, totalParts, k, Clip(file, starts[k], starts[k] + chunkSize),
                 file[marks[k]..marks[k + 1]])
    }

    /** The position where part k starts, or the end of the range. */
    ghost function Reach(marks: seq<nat>, k: nat): nat
      requires |marks| > totalParts
    {
      if k < totalParts then marks[k] else end + 1
    }
  }

  ghost predicate FromCut(p: Plan, cut: Cut) {
    && cut.Valid() && p.start == cut.start && p.end == cut.end && p.chunkSize == cut.chunk && ChunkLadder(cut.chunk)
    && p.leftCut == cut.LeftCut() && p.rightCut == cut.RightCut() && p.totalParts == cut.Total()
  }

  lemma RequestDistance(base: nat, c: nat, j: nat, i: nat, k: nat, sj: nat, sk: nat)
    requires k == j + i && sj == base + j * c && sk == base + k * c
    ensures sk == sj + i * c
  {
    Distribute(j, i, k, c);
  }

  lemma PartOfPlan(p: Plan, cut: Cut, file: seq<byte>, starts: seq<nat>, marks: seq<nat>, j: nat, k: nat)
    requires FromCut(p, cut) && |starts| == p.totalParts && |marks| == p.totalParts + 1 && j <= k < p.totalParts
    requires starts[j] == cut.Base() + j * cut.chunk && starts[k] == cut.Base() + k * cut.chunk
    requires marks[k] == cut.Mark(k) && marks[k + 1] == cut.Mark(k + 1) && p.end < |file|
    ensures p.PartFacts(file, starts, marks, j, k)
  {
    var i: nat, sj, sk := k - j, starts[j], starts[k];
    RequestDistance(cut.Base(), cut.chunk, j, i, k, sj, sk);
    PartRequest(file, cut, j, i, sj, sk, k);
  }

  method MakePlan(file: seq<byte>, start: nat, end: nat)
    returns (plan: Plan, offset: nat, ghost starts: seq<nat>, ghost marks: seq<nat>)
    requires start <= end < |file|
    ensures plan.start == start && plan.end == end && plan.Good(file, starts, marks) && offset == starts[0]
  {
    var c := CalculateChunkSize(start, end);
    LadderFacts(c);
    var cut := Cut(start, end, c);
    plan := Plan(start, end, c, cut.LeftCut(), cut.RightCut(), cut.Total());
    offset := cut.Base();
    starts, marks := PlanIsGood(plan, cut, file);
  }

  lemma PlanIsGood(p: Plan, cut: Cut, file: seq<byte>) returns (starts: seq<nat>, marks: seq<nat>)
    requires FromCut(p, cut) && p.end < |file|
    ensures p.Good(file, starts, marks) && starts[0] == cut.Base()
  {
    starts := seq(p.totalParts, k requires 0 <= k < p.totalParts => cut.Base() + k * cut.chunk);
    marks := seq(p.totalParts + 1, k requires 0 <= k <= p.totalParts => cut.Mark(k));
    cut.Ends();
    cut.FirstAndLastMark();
    forall j, k | IsPart(j, p.totalParts) && IsPart(k, p.totalParts) && j <= k
      ensures p.PartFacts(file, starts, marks, j, k)
    {
      PartOfPlan(p, cut, file, starts, marks, j, k);
    }
  }

  /** Go's integer division rounds towards zero, and its remainder has the sign of the dividend. */
  function Quotient(a: int, b: nat): int
    requires b > 0
  {
    if a < 0 then -(-a / b) else a / b
  }

  function Remainder(a: int, b: nat): int
    requires b > 0
  {
    if a < 0 then -(-a % b) else a % b
  }

  /** What a new reader works out for a range, which may be empty, makes fillBatch cut a single part out of
      its chunk from behind to in front, which panics. */
  predicate CutPanics(start: nat, end: int, c: nat)
    requires c > 0
  {
    var offset := start - start % c;
    Quotient(end - offset + c, c) == 1 && start - offset > Remainder(end, c) + 1
  }

  /** A new reader panics if and only if the range ends before its start, by more than one byte and in the
      same KiB. */
  lemma CutPanicsExactly(start: nat, end: int, c: nat)
    requires ChunkSizeFor(start, end, c)
    ensures CutPanics(start, end, c) <==> start - start % KIB <= end < start - 1
  {
    LadderFacts(c);
    if start <= end {
      Cut(start, end, c).Ends();
    }
  }

  lemma OneMore(file: seq<byte>, got: seq<seq<byte>>, chunk: seq<byte>, from: nat, to: nat, next: nat)
    requires from <= to <= next <= |file| && Concat(got) == Bytes(file, from, to) && chunk == Bytes(file, to, next)
    ensures Concat(got + [chunk]) == Bytes(file, from, next)
  {
    ConcatSnoc(got, chunk);
    JoinBytes(file, from, to, next);
  }

  /** A buffer that continues what is queued. */
  lemma QueueMore(file: seq<byte>, front: seq<byte>, queue: seq<seq<byte>>, b: seq<byte>, pos: nat, sent: nat,
                  next: nat)
    requires pos <= sent <= next <= |file| && front + Concat(queue) == Bytes(file, pos, sent)
             && b == Bytes(file, sent, next)
    ensures front + Concat(queue + [b]) == Bytes(file, pos, next)
  {
    ConcatSnoc(queue, b);
    Associate(front, Concat(queue), b);
    JoinBytes(file, pos, sent, next);
  }

  /** The first buffer of a batch and the others. */
  lemma BatchSplits(file: seq<byte>, batch: seq<seq<byte>>, head: seq<byte>, tail: seq<seq<byte>>, sent: nat,
                    next: nat, upto: nat)
    requires batch != [] && head == batch[0] && tail == batch[1..] && next == sent + |head|
    requires sent <= upto <= |file| && Concat(batch) == Bytes(file, sent, upto)
    ensures next <= upto && head == Bytes(file, sent, next) && Concat(tail) == Bytes(file, next, upto)
    ensures tail == [] ==> next == upto
  {
    SplitBytes(file, sent, next, upto, head, Concat(tail));
  }

  /** A plan for a file, with the positions of its requests and parts. */
  datatype CutsOf = Cuts(file: seq<byte>, plan: Plan, starts: seq<nat>, marks: seq<nat>)

  ghost predicate AreGood(c: CutsOf) {
    c.plan.Good(c.file, c.starts, c.marks)
  }

  type GoodCuts = c: CutsOf | AreGood(c) witness Cuts([0], Plan(0, 0, 1024, 0, 1, 1), [0], [0, 1])

  class MultiReader {
    const file: seq<byte> // the stored object, as Telegram serves it
    const plan: Plan
    const concurrency: nat
    const capacity: nat   // of bufferChan
    const reliable: bool  // whether Telegram serves every allowed request
    var offset: nat
    var limit: int
    var currentPart: nat
    var cur: seq<byte>
    var curOffset: nat
    var bufferChan: seq<Buffer>
    var batch: seq<Buffer> // fetched, not yet sent
    var closed: bool       // bufferChan
    var cancelled: bool

    ghost var sent: nat     // position in file up to which bytes have been put on bufferChan
    ghost var nextPart: nat // the part after the batch
    ghost const cuts: GoodCuts

    ghost predicate Config()
      reads this`currentPart, this`offset
    {
      && cuts.file == file && cuts.plan == plan && concurrency >= 1
      && (currentPart < plan.totalParts ==> offset == cuts.starts[currentPart])
    }

    /** The consumer's side: what is delivered, buffered and queued is file[start..sent], in order. */
    ghost predicate Flow()
      reads this`limit, this`cur, this`curOffset, this`sent, this`bufferChan
    {
      && plan.start <= plan.end < |file| && 0 <= limit <= plan.end + 1 - plan.start && curOffset <= |cur|
      && plan.end + 1 - limit <= sent <= plan.end + 1
      && Bytes(cur, curOffset, |cur|) + Concat(bufferChan) == Bytes(file, plan.end + 1 - limit, sent)
    }

    /** The producer's side: the batch continues where the channel stops, and the next batch where it stops. */
    ghost predicate Feed()
      requires Config()
      reads this`currentPart, this`offset, this`closed, this`batch, this`cancelled, this`sent, this`nextPart
    {
      if closed then batch == [] && (cancelled || sent == plan.end + 1)
      else if batch == [] then sent == plan.Reach(cuts.marks, currentPart)
      else
        && currentPart < plan.totalParts && nextPart == currentPart + concurrency
        && sent <= plan.Reach(cuts.marks, nextPart) <= |file|
        && Concat(batch) == Bytes(file, sent, plan.Reach(cuts.marks, nextPart))
    }

    /** Nothing is lost, repeated or reordered between the file and the consumer, failure or not. */
    ghost predicate Valid()
      reads this
    {
      Config() && Flow() && Feed()
    }

    /** What is still owed to the consumer. */
    ghost function Rest(): seq<byte>
      requires Flow()
      reads this
    {
      Bytes(file, plan.end + 1 - limit, plan.end + 1)
    }

    /** How much the producer still has to do. */
    ghost function Work(): nat
      requires Flow()
      reads this
    {
      if closed then 0 else 1 + 2 * (plan.end + 1 - sent) + (if batch == [] then 1 else 0)
    }

    constructor (file: seq<byte>, start: nat, end: nat, concurrency: nat, capacity: nat, reliable: bool)
      requires start <= end < |file| && concurrency >= 1
      ensures Valid() && Rest() == file[start..end + 1] && !cancelled && this.reliable == reliable
    {
      var p, off, s, m := MakePlan(file, start, end);
      this.file, plan, this.concurrency, this.capacity, this.reliable := file, p, concurrency, capacity, reliable;
      offset, limit, currentPart := off, end - start + 1, 0;
      cur, curOffset, bufferChan, batch, closed, cancelled := [], 0, [], [], false, false;
      sent, nextPart, cuts := start, 0, Cuts(file, p, s, m);
      new;
      BytesAre(file, start, end + 1);
    }

    method Close()
      requires Valid()
      modifies this`cancelled
      ensures Valid() && cancelled && Rest() == old(Rest())
    {
      cancelled := true;
    }

    /** chunkSrc.Chunk: Telegram serves an allowed request, clipped at the end of the object, or fails. */
    method Chunk(off: nat, size: nat) returns (ok: bool, chunk: seq<byte>)
      requires AllowedRequest(off, size)
      ensures (reliable ==> ok) && (ok ==> chunk == Clip(file, off, off + size))
    {
      ok := *;
      ok := ok || reliable;
      chunk := if ok then Clip(file, off, off + size) else [];
    }

    ghost function PartBytes(k: nat): seq<byte>
      requires |cuts.marks| == plan.totalParts + 1
    {
      if k < plan.totalParts then Bytes(file, cuts.marks[k], cuts.marks[k + 1]) else []
    }

    /** One goroutine of a batch: fetches part k = currentPart + i and trims it. */
    method FetchPart(i: nat, ghost k: nat) returns (ok: bool, chunk: seq<byte>)
      requires Config() && k == currentPart + i && IsPart(k, plan.totalParts)
      ensures (reliable ==> ok) && (ok ==> chunk == PartBytes(k))
    {
      assert IsPart(currentPart, plan.totalParts);
      assert plan.PartFacts(file, cuts.starts, cuts.marks, currentPart, k);
      var off := offset + i * plan.chunkSize;
      assert off == cuts.starts[k] by {
        assert k - currentPart == i;
      }
      ok, chunk := Chunk(off, plan.chunkSize);
      if ok {
        BytesAre(file, cuts.marks[k], cuts.marks[k + 1]);
        if plan.totalParts == 1 {
          chunk := chunk[plan.leftCut..plan.rightCut];
        } else if currentPart + i == 0 {
          chunk := chunk[plan.leftCut..];
        } else if currentPart + i + 1 == plan.totalParts {
          chunk := chunk[..plan.rightCut];
        }
      }
    }

    /** Slot i of a batch belongs to part currentPart + i, if there is one. */
    ghost predicate Filled(slot: Option<seq<byte>>, k: nat)
      requires |cuts.marks| == plan.totalParts + 1
    {
      slot == if k < plan.totalParts then Some(PartBytes(k)) else None
    }

    /** The goroutines of a batch finish in any order; one failure fails the batch. */
    method FetchAll(buffers: array<Option<seq<byte>>>) returns (ok: bool)
      requires Config() && currentPart < plan.totalParts && buffers.Length == concurrency
      requires forall i :: 0 <= i < concurrency ==> buffers[i] == None
      modifies buffers
      ensures reliable ==> ok
      ensures ok ==> forall i, k :: 0 <= i < concurrency && k == currentPart + i ==> Filled(buffers[i], k)
    {
      var width := Min(concurrency, plan.totalParts - currentPart);
      var todo := set i: nat | i < width && IsPart(i, width);
      while todo != {}
        invariant forall i :: i in todo ==> 0 <= i < width
        invariant forall i, k :: 0 <= i < concurrency && k == currentPart + i && i !in todo ==> Filled(buffers[i], k)
        decreases todo
      {
        var i :| i in todo;
        var chunk;
        ok, chunk := FetchPart(i, currentPart + i);
        if !ok {
          return;
        }
        buffers[i] := Some(chunk);
        todo := todo - {i};
      }
      ok := true;
    }

    /** What part k of the plan is. */
    lemma PartIs(k: nat)
      requires Config() && IsPart(k, plan.totalParts)
      ensures cuts.marks[k] < cuts.marks[k + 1] <= |file|
              && PartBytes(k) == Bytes(file, cuts.marks[k], cuts.marks[k + 1])
    {
      assert plan.PartFacts(file, cuts.starts, cuts.marks, k, k);
    }

    /** The send loop takes a batch's buffers in order, up to the first missing one. */
    method Gather(buffers: array<Option<seq<byte>>>, ghost last: nat) returns (got: seq<Buffer>)
      requires Config() && currentPart < plan.totalParts && buffers.Length == concurrency
               && last == currentPart + concurrency
      requires forall i, k :: 0 <= i < concurrency && k == currentPart + i ==> Filled(buffers[i], k)
      ensures got != []
      ensures cuts.marks[currentPart] <= plan.Reach(cuts.marks, last) <= |file|
      ensures Concat(got) == Bytes(file, cuts.marks[currentPart], plan.Reach(cuts.marks, last))
    {
      got := [];
      var j := 0;
      ghost var from, k, to := cuts.marks[currentPart], currentPart, cuts.marks[currentPart];
      assert Concat([]) == Bytes(file, from, to);
      PartIs(currentPart);
      hide Concat, Bytes, Plan.PartFacts, Plan.Reach;
      while j < buffers.Length && buffers[j].Some?
        invariant 0 <= j <= concurrency && |got| == j && k == currentPart + j && k <= plan.totalParts
        invariant from <= to <= |file| && to == cuts.marks[k]
        invariant Concat(got) == Bytes(file, from, to)
      {
        assert Filled(buffers[j], k);
        ghost var next := TakeSlot(got, buffers[j], k, from, to);
        var chunk: Buffer := buffers[j].value;
        got := got + [chunk];
        j, k, to := j + 1, k + 1, next;
      }
      assert j < concurrency ==> Filled(buffers[j], k);
      GatheredUpTo(k, last);
    }

    /** One buffer more continues what has been gathered. */
    lemma TakeSlot(got: seq<Buffer>, slot: Option<seq<byte>>, k: nat, from: nat, to: nat) returns (next: nat)
      requires Config() && k <= plan.totalParts && Filled(slot, k) && slot.Some?
      requires from <= to <= |file| && to == cuts.marks[k] && Concat(got) == Bytes(file, from, to)
      ensures k < plan.totalParts && slot.value != []
      ensures next == cuts.marks[k + 1] && to <= next <= |file|
      ensures Concat(got + [slot.value]) == Bytes(file, from, next)
    {
      PartIs(k);
      next := cuts.marks[k + 1];
      OneMore(file, got, slot.value, from, to, next);
    }

    /** All parts of the batch have been gathered. */
    lemma GatheredUpTo(k: nat, last: nat)
      requires Config() && k <= plan.totalParts && k <= last && (k < last ==> k >= plan.totalParts)
      ensures plan.Reach(cuts.marks, last) == cuts.marks[k]
    {
    }

    /** fillBatch up to its send loop. */
    method FetchBatch()
      requires Valid() && !closed && batch == [] && currentPart < plan.totalParts
      modifies this`batch, this`cancelled, this`closed, this`nextPart
      ensures Valid() && (if closed then cancelled else batch != [] && cancelled == old(cancelled))
      ensures reliable ==> !closed
    {
      var buffers := new Option<seq<byte>>[concurrency](_ => None);
      var ok := FetchAll(buffers);
      if !ok {
        cancelled, closed := true, true;
        return;
      }
      nextPart := currentPart + concurrency;
      batch := Gather(buffers, nextPart);
    }

    method Enqueue(b: Buffer, ghost next: nat)
      requires Flow() && sent <= next <= plan.end + 1 && b == Bytes(file, sent, next)
      modifies this`bufferChan, this`sent
      ensures Flow() && sent == next && bufferChan == old(bufferChan) + [b]
    {
      QueueMore(file, Bytes(cur, curOffset, |cur|), bufferChan, b, plan.end + 1 - limit, sent, next);
      bufferChan := bufferChan + [b];
      sent := next;
    }

    method NextBatch()
      requires Config() && currentPart < plan.totalParts && nextPart == currentPart + concurrency
      modifies this`currentPart, this`offset
      ensures Config() && currentPart == nextPart
    {
      if nextPart < plan.totalParts {
        assert IsPart(currentPart, plan.totalParts) && IsPart(nextPart, plan.totalParts);
        assert plan.PartFacts(file, cuts.starts, cuts.marks, currentPart, nextPart);
      }
      currentPart := currentPart + concurrency;
      offset := offset + concurrency * plan.chunkSize;
    }

    /** One send of fillBatch's second loop; a cancelled context may win over a free slot. */
    method SendOne(waiting: bool)
      requires Valid() && batch != []
      requires |bufferChan| < capacity || (waiting && bufferChan == [])
      modifies this`batch, this`bufferChan, this`sent, this`closed, this`currentPart, this`offset
      ensures Valid() && (closed || sent > old(sent)) && (closed ==> cancelled) && old(bufferChan) <= bufferChan
    {
      var givesUp: bool := *;
      if cancelled && givesUp {
        batch, closed := [], true;
        return;
      }
      Send(plan.Reach(cuts.marks, nextPart));
      if batch == [] {
        NextBatch();
      }
    }

    /** Puts the first buffer of the batch on the channel. */
    method Send(ghost upto: nat)
      requires Flow() && batch != [] && sent <= upto <= plan.end + 1 && Concat(batch) == Bytes(file, sent, upto)
      modifies this`batch, this`bufferChan, this`sent
      ensures Flow() && old(sent) < sent <= upto && old(bufferChan) <= bufferChan
      ensures Concat(batch) == Bytes(file, sent, upto) && (batch == [] ==> sent == upto)
    {
      var head, tail := batch[0], batch[1..];
      ghost var next := sent + |head|;
      BatchSplits(file, batch, head, tail, sent, next, upto);
      Enqueue(head, next);
      batch := tail;
    }

    /** One step of the goroutine that runs fillBuffer; `waiting` says that the consumer is blocked in
        Read. It stands still only when the channel is closed or full. */
    method Produce(waiting: bool) returns (moved: bool)
      requires Valid()
      modifies this
      ensures Valid() && limit == old(limit) && cur == old(cur) && curOffset == old(curOffset)
      ensures (old(cancelled) ==> cancelled) && (reliable ==> cancelled == old(cancelled))
      ensures moved ==> Work() < old(Work())
      ensures !moved ==> closed || (|bufferChan| >= capacity && !(waiting && bufferChan == []))
      ensures old(bufferChan) <= bufferChan && (!moved ==> bufferChan == old(bufferChan))
    {
      moved := true;
      if closed {
        moved := false;
      } else if batch != [] {
        if |bufferChan| < capacity || (waiting && bufferChan == []) {
          SendOne(waiting);
        } else {
          moved := false;
        }
      } else if currentPart < plan.totalParts {
        FetchBatch();
      } else {
        closed := true;
      }
    }

    /** Blocks until the channel has a buffer, is closed or the context is cancelled; meanwhile only the
        producer runs. */
    method Await()
      requires Valid()
      modifies this
      ensures Valid() && limit == old(limit) && cur == old(cur) && curOffset == old(curOffset)
      ensures (old(cancelled) ==> cancelled) && (reliable ==> cancelled == old(cancelled))
      ensures bufferChan != [] || closed || cancelled
    {
      while bufferChan == [] && !closed && !cancelled
        invariant Valid() && limit == old(limit) && cur == old(cur) && curOffset == old(curOffset)
        invariant (old(cancelled) ==> cancelled) && (reliable ==> cancelled == old(cancelled))
        decreases Work()
      {
        var _ := Produce(true);
      }
    }

    /** Takes the next buffer off the channel. A reader that is owed bytes finds the channel closed and
        empty only after a failure or a Close. */
    method Receive() returns (e: Status)
      requires Valid() && limit > 0 && curOffset >= |cur|
      modifies this
      ensures Valid() && limit == old(limit) && (old(cancelled) ==> cancelled)
              && (reliable ==> cancelled == old(cancelled))
      ensures e == Nil ==> curOffset < |cur|
      ensures e != Nil ==> e == Abandoned && cancelled
    {
      Await();
      var doneFirst: bool := *;
      if (cancelled && doneFirst) || bufferChan == [] {
        return Abandoned;
      }
      Dequeue();
      e := Nil;
    }

    method Dequeue()
      requires Flow() && curOffset >= |cur| && bufferChan != []
      modifies this`cur, this`curOffset, this`bufferChan
      ensures Flow() && curOffset < |cur|
    {
      ghost var first, others := bufferChan[0], Concat(bufferChan[1..]);
      assert Bytes(cur, curOffset, |cur|) + Concat(bufferChan) == first + others;
      cur, curOffset, bufferChan := bufferChan[0], 0, bufferChan[1..];
      BytesAre(cur, 0, |cur|);
      assert cur[0..|cur|] == first;
    }

    /** Moves the cursor over n buffered bytes. */
    method Take(n: nat) returns (taken: seq<byte>)
      requires Flow() && curOffset + n <= |cur|
      modifies this`curOffset, this`limit
      ensures Flow() && |taken| == n && old(Rest()) == taken + Rest() && (limit <= 0 <==> Rest() == [])
    {
      taken := cur[curOffset..curOffset + n];
      ghost var pos, next := plan.end + 1 - limit, plan.end + 1 - (limit - n);
      ghost var mid, all: nat := curOffset + n, |cur|;
      ghost var ahead, behind := Bytes(cur, mid, all), Concat(bufferChan);
      BytesAre(cur, curOffset, mid);
      JoinBytes(cur, curOffset, mid, all);
      TakeBytes(file, pos, next, sent, Bytes(cur, curOffset, all), taken, ahead, behind);
      JoinBytes(file, pos, next, plan.end + 1);
      curOffset := curOffset + n;
      limit := limit - n;
    }

    /** Read into a buffer of `want` bytes: the bytes that are put there. */
    method Read(want: nat) returns (taken: seq<byte>, e: Status)
      requires Valid()
      modifies this
      ensures Valid() && |taken| <= want && (old(cancelled) ==> cancelled)
      ensures reliable && !old(cancelled) ==> !cancelled && e != Abandoned
      ensures e == Nil || e == EOF || e == Abandoned
      ensures e != Abandoned ==> ReadStep(old(Rest()), want, taken, e, Rest(), EOF)
      ensures e == Nil ==> Rest() != []
      ensures e == Abandoned ==> taken == [] && Rest() == old(Rest()) && Rest() != [] && cancelled
    {
      if limit <= 0 {
        assert Rest() == [];
        return [], EOF;
      }
      e := Ready();
      taken := [];
      if e == Nil {
        taken := Take(Min(want, |cur| - curOffset));
        e := if limit <= 0 then EOF else Nil;
      }
    }

    /** Makes sure that there is something to hand out. */
    method Ready() returns (e: Status)
      requires Valid() && limit > 0
      modifies this
      ensures Valid() && Rest() == old(Rest()) && Rest() != [] && (old(cancelled) ==> cancelled)
              && (reliable ==> cancelled == old(cancelled))
      ensures if e == Nil then curOffset < |cur| else e == Abandoned && cancelled
    {
      hide MultiReader.Feed, MultiReader.Config, Concat;
      e := Nil;
      if curOffset >= |cur| {
        e := Receive();
      }
    }
  }

  /** The producer runs ahead of the consumer as far as it likes. */
  method RunAhead(m: MultiReader)
    requires m.Valid()
    modifies m
    ensures m.Valid() && m.Rest() == old(m.Rest()) && (m.reliable ==> m.cancelled == old(m.cancelled))
  {
    var steps: nat := *;
    while steps > 0
      invariant m.Valid() && m.limit == old(m.limit) && (m.reliable ==> m.cancelled == old(m.cancelled))
    {
      var _ := m.Produce(false);
      steps := steps - 1;
    }
  }

  method ReadOnce(m: MultiReader, size: nat, ghost owed: seq<byte>)
    returns (chunk: seq<byte>, e: Status, ghost after: seq<byte>)
    requires m.Valid() && size > 0 && m.Rest() == owed
    modifies m
    ensures m.Valid() && m.Rest() == after && owed == chunk + after
    ensures e == Nil ==> chunk != []
    ensures e == Nil || (e == EOF && after == []) || (e == Abandoned && chunk == [])
    ensures m.reliable && !old(m.cancelled) ==> !m.cancelled && e != Abandoned
  {
    RunAhead(m);
    chunk, e := m.Read(size);
    after := m.Rest();
    if e == Abandoned {
      assert chunk == [] && [] + after == after;
    }
  }

  /** Reads a whole range with buffers of any sizes, the producer running at any pace, with any number of
      concurrent fetches finishing in any order: exactly the range comes out, and if no fetch fails all
      of it. */
  method Download(file: seq<byte>, start: nat, end: nat, concurrency: nat, capacity: nat, reliable: bool,
                  sizes: nat -> nat)
    returns (out: seq<byte>, e: Status)
    requires start <= end < |file| && concurrency >= 1 && forall i :: sizes(i) > 0
    ensures out <= file[start..end + 1] && (e == EOF || e == Abandoned)
    ensures e == EOF ==> out == file[start..end + 1]
    ensures reliable ==> e == EOF
  {
    var m := new MultiReader(file, start, end, concurrency, capacity, reliable);
    out, e := Drain(m, sizes, file[start..end + 1]);
  }

  /** Reads until the first error. */
  method Drain(m: MultiReader, sizes: nat -> nat, ghost all: seq<byte>) returns (out: seq<byte>, e: Status)
    requires m.Valid() && m.Rest() == all && !m.cancelled && forall i :: sizes(i) > 0
    modifies m
    ensures out <= all && (e == EOF || e == Abandoned)
    ensures e == EOF ==> out == all
    ensures m.reliable ==> e == EOF
  {
    out, e := [], Nil;
    ghost var left := all;
    var i := 0;
    while e == Nil
      invariant m.Valid() && m.Rest() == left && all == out + left
      invariant m.reliable ==> !m.cancelled && e != Abandoned
      invariant e == Nil || (e == EOF && left == []) || e == Abandoned
      decreases |left|, e == Nil
    {
      ghost var before, done, after := left, out, left;
      var chunk;
      chunk, e, after := ReadOnce(m, sizes(i), before);
      HandOut(all, done, before, chunk, after);
      out, left, i := out + chunk, after, i + 1;
    }
  }
}
