/** Reading a byte range of a file stored as several parts (internal/reader/reader.go). */
module FileReader {
  import opened Streams
  import opened CipherFormat
  import opened DecryptStream
  import opened ChunkReader
  import Nonce

  /** A stored part: what Telegram holds, and the box that its salt selects. */
  datatype Part = Part(content: seq<byte>, box: SecretBox)

  /** What a part decodes to. */
  function Plain(encrypted: bool, part: Part): Future {
    if encrypted then Decrypted(part.box, part.content) else Future(part.content, EOF)
  }

  /** The plain size that the reader takes from a part's stored size. */
  function PlainSize(encrypted: bool, part: Part): SizeResult {
    if encrypted then DecryptedSize(|part.content|) else Size(|part.content|)
  }

  /** A part that is stored whole; its blocks may still be damaged, but none of them opens when cut short. */
  ghost predicate Whole(encrypted: bool, part: Part) {
    encrypted ==> GoodHeader(part.content) && DecryptedSize(|part.content|).Size? && Sound(part.box, part.content)
  }

  lemma WholePartLength(encrypted: bool, part: Part)
    requires Whole(encrypted, part)
    ensures Plain(encrypted, part).last == EOF
    ensures PlainSize(encrypted, part) == Size(|Plain(encrypted, part).bytes|)
  {
    if encrypted {
      var c := part.content;
      var n := c[|MAGIC|..HEADER_SIZE];
      OpensLength(part.box, Nonce.CounterFrom(n), 0, c[HEADER_SIZE..]);
    }
  }

  datatype Range = Range(start: int, end: int, partNo: int)

  function PartRange(start: int, end: int, partSize: int, part: int): Range {
    Range(Max(start - part * partSize, 0), Min(partSize - 1, end - part * partSize), part)
  }

  /** The ranges of a byte range in parts of partSize bytes, from the part `first` to the part `last`. */
  ghost predicate Requested(ranges: seq<Range>, start: nat, end: nat, partSize: nat, first: nat, last: nat) {
    && 0 < partSize && first == start / partSize && last == end / partSize
    && |ranges| == Max(last - first + 1, 0)
    && (forall i {:trigger ranges[i]} :: 0 <= i < |ranges| ==> ranges[i] == PartRange(start, end, partSize, first + i))
  }

  method CalculatePartByteRanges(start: nat, end: nat, partSize: nat) returns (ranges: seq<Range>)
    requires partSize > 0
    ensures Requested(ranges, start, end, partSize, start / partSize, end / partSize)
  {
    ranges := [];
    var startPart, endPart := start / partSize, end / partSize;
    var part := startPart;
    while part <= endPart
      invariant startPart <= part && |ranges| == part - startPart && part <= Max(endPart + 1, startPart)
      invariant forall i :: 0 <= i < |ranges| ==> ranges[i] == PartRange(start, end, partSize, startPart + i)
    {
      var partStart := Max(start - part * partSize, 0);
      var partEnd := Min(partSize - 1, end - part * partSize);
      ranges := ranges + [Range(partStart, partEnd, part)];
      part := part + 1;
    }
  }

  const MAX_POSITION: int := 0x7FFF_FFFF_FFFF_FFFF // int64

  /** The part that a range points to exists, is whole and contains the range; or does not exist. */
  ghost predicate Served(encrypted: bool, parts: seq<Part>, r: Range) {
    && 0 <= r.partNo && 0 <= r.start <= r.end <= MAX_POSITION
    && (r.partNo < |parts| ==> Whole(encrypted, parts[r.partNo]) && r.end < |Plain(encrypted, parts[r.partNo]).bytes|)
  }

  /** What one range contributes: how many bytes it asks for, and the bytes, if its part is there. */
  datatype Slice = Slice(asked: nat, bytes: Option<seq<byte>>) {
    predicate Exact() {
      asked > 0 && (bytes.Some? ==> |bytes.value| == asked)
    }
  }

  ghost predicate AllExact(slices: seq<Slice>) {
    forall k :: 0 <= k < |slices| ==> slices[k].Exact()
  }

  function SliceOf(encrypted: bool, parts: seq<Part>, r: Range): (s: Slice)
    requires Served(encrypted, parts, r)
    ensures s.Exact()
  {
    Slice(r.end - r.start + 1,
          if r.partNo < |parts| then Some(Plain(encrypted, parts[r.partNo]).bytes[r.start..r.end + 1]) else None)
  }

  ghost predicate SlicesOf(encrypted: bool, parts: seq<Part>, ranges: seq<Range>, slices: seq<Slice>) {
    && |slices| == |ranges|
    && (forall k {:trigger ranges[k]} :: 0 <= k < |ranges| ==>
          Served(encrypted, parts, ranges[k]) && slices[k] == SliceOf(encrypted, parts, ranges[k]))
  }

  /** What the slices from i on deliver. A missing part ends the stream with an error. */
  function Serve(slices: seq<Slice>, i: nat): Future
    decreases |slices| - i
  {
    if i >= |slices| then Future([], EOF)
    else if slices[i].bytes.None? then Future([], OutOfRange)
    else
      var rest := Serve(slices, i + 1);
      Future(slices[i].bytes.value + rest.bytes, rest.last)
  }

  /** The number of bytes asked for by the slices from i on. */
  ghost function Asked(slices: seq<Slice>, i: nat): nat
    decreases |slices| - i
  {
    if i >= |slices| then 0 else slices[i].asked + Asked(slices, i + 1)
  }

  /** The ranges a reader goes through, and what they contribute. */
  datatype Slicing = Slicing(encrypted: bool, parts: seq<Part>, ranges: seq<Range>, slices: seq<Slice>)

  ghost predicate Laid(l: Slicing) {
    SlicesOf(l.encrypted, l.parts, l.ranges, l.slices) && AllExact(l.slices)
  }

  type Layout = l: Slicing | Laid(l) witness Slicing(false, [], [], [])

  /** One step of Serve and Asked. */
  lemma ServeStep(l: Layout, i: nat, j: nat) returns (rest: Future, asked: nat)
    requires j == i + 1 && Asked(l.slices, i) > 0
    ensures rest == Serve(l.slices, j) && asked == Asked(l.slices, j) && i < |l.slices|
    ensures match l.slices[i].bytes
            case Some(s) =>
              && Serve(l.slices, i) == Future(s + rest.bytes, rest.last)
              && Asked(l.slices, i) == |s| + asked && s != []
            case None => Serve(l.slices, i) == Future([], OutOfRange)
  {
    rest, asked := Serve(l.slices, j), Asked(l.slices, j);
    assert l.slices[i].Exact();
  }

  /** The range at `pos` can be served. */
  lemma RangeServed(l: Layout, i: nat)
    requires i < |l.ranges|
    ensures |l.slices| == |l.ranges| && Served(l.encrypted, l.parts, l.ranges[i])
    ensures l.slices[i] == SliceOf(l.encrypted, l.parts, l.ranges[i])
  {
  }

  /** A decrypter over an encrypted part, limited to the range; it reads from a chunked reader. */
  method OpenSealed(part: Part, r: Range, concurrency: Positive, buffers: nat, reliable: bool)
    returns (d: Decrypter?, e: Status)
    requires Whole(true, part) && 0 <= r.start <= r.end <= MAX_POSITION && r.end < |Plain(true, part).bytes|
    ensures d != null <==> e == Nil
    ensures (e == Nil || IoFailure(e)) && (reliable ==> e == Nil)
    ensures d != null ==> d.Valid() && d.Owned() && fresh(d) && fresh(d.Repr) && d.rc.chunked != null
    ensures d != null && reliable ==> d.Steady()
    ensures d != null ==> d.Bounded() && d.Owes() == Future(Plain(true, part).bytes[r.start..r.end + 1], EOF)
  {
    hide Decrypter.Valid, Decrypter.Steady;
    WholePartLength(true, part);
    var store := new StoredObject(part.content, concurrency, buffers, reliable);
    d, e := NewDecrypterSeek(part.box, store, r.start, r.end - r.start + 1);
  }

  class Reader {
    const encrypted: bool
    const parts: seq<Part>
    const ranges: seq<Range>
    const concurrency: Positive
    const buffers: nat
    const reliable: bool // whether Telegram serves every allowed request
    ghost const layout: Layout
    var pos: nat
    ghost var next: nat       // pos + 1
    ghost var body: seq<byte> // what the current part's reader still owes
    ghost var later: Future // what the parts after the current one will deliver
    ghost var due: nat      // how many bytes they are asked for
    var remaining: int
    var chunked: MultiReader? // the reader of a plain part
    var sealed: Decrypter?    // the reader of an encrypted part

    ghost var Repr: set<object> // the objects behind the current part's reader

    ghost predicate Settings() {
      encrypted == layout.encrypted && parts == layout.parts && ranges == layout.ranges
    }

    /** `later` and `due` describe the slices after the current one. */
    ghost predicate Ahead()
      reads this`pos, this`next, this`later, this`due
    {
      next == pos + 1 && later == Serve(layout.slices, next) && due == Asked(layout.slices, next)
    }

    /** The current part's reader owes exactly `body`. */
    ghost predicate HasBody()
      reads this`chunked, this`sealed, this`Repr, this`body, Repr
    {
      this !in Repr && (if encrypted then HasSealed() else HasChunked())
    }

    ghost predicate HasSealed()
      reads this`sealed, this`Repr, this`body, Repr
    {
      && sealed != null && sealed in Repr && sealed.Repr <= Repr && sealed.Owned()
      && sealed.Valid() && sealed.Bounded() && sealed.Owes() == Future(body, EOF) && (reliable ==> sealed.Steady())
    }

    ghost predicate HasChunked()
      reads this`chunked, this`Repr, this`body, Repr
    {
      && chunked != null && chunked in Repr && chunked.Valid() && chunked.Rest() == body
      && (reliable ==> chunked.reliable && !chunked.cancelled)
    }

    /** The reader's bookkeeping; the current part may just have been exhausted. */
    ghost predicate InStep()
      reads this, Repr
    {
      Settings() && HasBody() && remaining == |body| + due && Ahead()
    }

    ghost predicate Valid()
      reads this, Repr
    {
      InStep() && (body == [] ==> remaining == 0)
    }

    /** What this reader still owes. */
    ghost function Owes(): Future
      reads this`body, this`later
    {
      Future(body + later.bytes, later.last)
    }

    constructor (encrypted: bool, parts: seq<Part>, ranges: seq<Range>, ghost layout: Layout, ghost rest: Future,
                 ghost left: nat, remaining: int, concurrency: Positive, buffers: nat, reliable: bool)
      requires encrypted == layout.encrypted && parts == layout.parts && ranges == layout.ranges
      ensures Settings() && this.layout == layout && this.remaining == remaining && this.reliable == reliable
      ensures pos == 0 && next == 1 && later == rest && due == left && Repr == {}
    {
      this.layout := layout;
      this.encrypted, this.parts, this.ranges, this.remaining := encrypted, parts, ranges, remaining;
      this.concurrency, this.buffers, this.reliable := concurrency, buffers, reliable;
      pos, chunked, sealed, Repr := 0, null, null, {};
      next, body, later, due := 1, [], rest, left;
    }

    /** getPartReader and initializeReader: opens the part that range `pos` points to. */
    method InitializeReader() returns (e: Status)
      requires Settings()
      modifies this`chunked, this`sealed, this`Repr, this`body
      ensures fresh(Repr - old(Repr))
      ensures e == Nil <==> !IoFailure(e) && pos < |layout.slices| && layout.slices[pos].bytes.Some?
      ensures e == Nil ==> HasBody() && body == layout.slices[pos].bytes.value
      ensures (e == Nil || IoFailure(e) || e == OutOfRange) && (reliable ==> !IoFailure(e))
    {
      if pos >= |ranges| {
        return OutOfRange;
      }
      var r := ranges[pos];
      RangeServed(layout, pos);
      if r.partNo < 0 || r.partNo >= |parts| {
        return OutOfRange;
      }
      if encrypted {
        e := AttachSealed(parts[r.partNo], r);
      } else {
        AttachChunked(parts[r.partNo], r);
        e := Nil;
      }
    }

    /** The first initializeReader. */
    method Begin(ghost rest: Future, ghost left: nat) returns (e: Status)
      requires Settings() && pos == 0 && layout.slices != [] && layout.slices[0].Exact()
      requires Ahead() && rest == later && left == due
      requires layout.slices[0].bytes.Some? ==> remaining == |layout.slices[0].bytes.value| + left
      modifies this`chunked, this`sealed, this`Repr, this`body
      ensures fresh(Repr - old(Repr))
      ensures e == Nil <==> !IoFailure(e) && layout.slices[0].bytes.Some?
      ensures e == Nil ==> Valid() && Owes() == Future(layout.slices[0].bytes.value + rest.bytes, rest.last)
      ensures (e == Nil || IoFailure(e) || e == OutOfRange) && (reliable ==> !IoFailure(e))
    {
      hide Reader.HasSealed, Reader.HasChunked;
      e := InitializeReader();
      assert e == Nil ==> body != [];
    }

    method AttachSealed(part: Part, r: Range) returns (e: Status)
      requires encrypted && Whole(true, part) && 0 <= r.start <= r.end <= MAX_POSITION
               && r.end < |Plain(true, part).bytes|
      modifies this`sealed, this`Repr, this`body
      ensures fresh(Repr - old(Repr)) && (e == Nil || IoFailure(e)) && (reliable ==> e == Nil)
      ensures e == Nil ==> HasBody() && body == Plain(true, part).bytes[r.start..r.end + 1]
    {
      hide Decrypter.Valid, Decrypter.Steady, Decrypter.Owes, Decrypter.Bounded;
      var d;
      d, e := OpenSealed(part, r, concurrency, buffers, reliable);
      if d != null {
        sealed, Repr, body := d, {d} + d.Repr, d.Owes().bytes;
      }
    }

    method AttachChunked(part: Part, r: Range)
      requires !encrypted && 0 <= r.start <= r.end < |part.content|
      modifies this`chunked, this`Repr, this`body
      ensures fresh(Repr - old(Repr))
      ensures HasBody() && body == part.content[r.start..r.end + 1]
    {
      hide MultiReader.Valid, MultiReader.Rest;
      var m := new MultiReader(part.content, r.start, r.end, concurrency, buffers, reliable);
      chunked, Repr, body := m, {m}, m.Rest();
    }

    /** One Read of the current part's reader; its bytes are counted. */
    method ReadBody(p: array<byte>) returns (n: nat, e: Status)
      requires HasBody() && p !in Repr
      modifies this`body, this`remaining, Repr, p
      ensures n <= p.Length && p[n..] == old(p[n..]) && remaining == old(remaining) - n
      ensures BodyRead(old(body), p.Length, p[..n], e, body) && (e != Abandoned ==> HasBody())
      ensures reliable ==> e != Abandoned
    {
      if encrypted {
        n, e := ReadSealed(p);
      } else {
        n, e := ReadChunked(p);
      }
    }

    method ReadSealed(p: array<byte>) returns (n: nat, e: Status)
      requires encrypted && HasBody() && p !in Repr
      modifies this`body, this`remaining, Repr, p
      ensures n <= p.Length && p[n..] == old(p[n..]) && remaining == old(remaining) - n
      ensures BodyRead(old(body), p.Length, p[..n], e, body) && (e != Abandoned ==> HasBody())
      ensures reliable ==> e != Abandoned
    {
      hide Decrypter.Valid, Decrypter.Owes;
      n, e := sealed.Read(p);
      remaining := remaining - n;
      body := sealed.Owes().bytes;
    }

    method ReadChunked(p: array<byte>) returns (n: nat, e: Status)
      requires !encrypted && HasBody() && p !in Repr
      modifies this`body, this`remaining, Repr, p
      ensures n <= p.Length && p[n..] == old(p[n..]) && remaining == old(remaining) - n
      ensures BodyRead(old(body), p.Length, p[..n], e, body) && (e != Abandoned ==> HasBody())
      ensures reliable ==> e != Abandoned
    {
      hide MultiReader.Valid, MultiReader.Rest;
      var out;
      out, e := chunked.Read(p.Length);
      n := |out|;
      Copy(p, 0, out);
      assert p[..n] == p[0..n];
      remaining := remaining - n;
      body := chunked.Rest();
    }

    method CloseBody()
      requires HasBody()
      modifies Repr
    {
      if encrypted {
        sealed.Close();
      } else {
        chunked.Close();
      }
    }

    method MoveToNextPart(ghost i: nat, ghost j: nat, ghost tail: Future, ghost asked: nat) returns (e: Status)
      requires Settings() && HasBody() && i == pos + 1
      modifies this, Repr
      ensures fresh(Repr - old(Repr)) && pos == i && next == j && later == tail && due == asked
              && remaining == old(remaining)
      ensures i >= |layout.slices| ==> e == EOF
      ensures i < |layout.slices| ==> (e == Nil <==> !IoFailure(e) && layout.slices[i].bytes.Some?)
      ensures i < |layout.slices| && e != Nil ==> IoFailure(e) || e == OutOfRange
      ensures e == Nil ==> HasBody() && body == layout.slices[i].bytes.value
      ensures reliable ==> !IoFailure(e)
    {
      hide Reader.HasSealed, Reader.HasChunked;
      CloseBody();
      pos := pos + 1;
      next, later, due := j, tail, asked;
      if pos < |ranges| {
        e := InitializeReader();
      } else {
        e := EOF;
      }
    }

    /** Steps to the next part once the current one is exhausted. */
    method NextPart() returns (e: Status)
      requires InStep() && body == [] && remaining > 0
      modifies this, Repr
      ensures fresh(Repr - old(Repr))
      ensures e == Nil ==> Valid() && Owes() == old(Owes())
      ensures e != Nil && !IoFailure(e) ==> old(Owes()) == Future([], e)
      ensures reliable ==> !IoFailure(e)
    {
      hide Reader.HasSealed, Reader.HasChunked;
      ghost var i, j := next, next + 1;
      ghost var tail, asked := ServeStep(layout, i, j);
      assert [] + later.bytes == later.bytes;
      e := MoveToNextPart(i, j, tail, asked);
    }

    /** Reads from the current part and counts the bytes. */
    method ReadSome(p: array<byte>) returns (n: nat, e: Status)
      requires Valid() && p !in Repr && remaining > 0
      modifies this`remaining, this`body, Repr, p
      ensures n <= p.Length && p[n..] == old(p[n..]) && (e != Abandoned ==> InStep())
      ensures e == Nil || e == EOF || e == Abandoned
      ensures if e == Abandoned then n == 0 && !reliable else Handed(old(Owes()), p[..n], Owes())
      ensures e == EOF ==> body == []
      ensures e == Nil ==> Valid() && (p.Length > 0 ==> n > 0)
    {
      hide Reader.HasSealed, Reader.HasChunked;
      ghost var before := body;
      n, e := ReadBody(p);
      if e != Abandoned {
        HandedBody(before, p[..n], body, later);
      }
    }

    /** Reads from the current part, and steps to the next one when it is exhausted. The caller stops at
        the first error, as io.Copy does. */
    method Read(p: array<byte>) returns (n: nat, e: Status)
      requires Valid() && p !in Repr
      modifies this, Repr, p
      ensures fresh(Repr - old(Repr)) && n <= p.Length && p[n..] == old(p[n..])
      ensures e == Nil ==> Valid() && Handed(old(Owes()), p[..n], Owes()) && (p.Length > 0 ==> n > 0)
      ensures e != Nil && !IoFailure(e) ==> old(Owes()) == Future(p[..n], e)
      ensures IoFailure(e) ==> p[..n] <= old(Owes().bytes)
      ensures reliable ==> !IoFailure(e)
    {
      hide Reader.HasSealed, Reader.HasChunked;
      if remaining <= 0 {
        return 0, EOF;
      }
      n, e := ReadSome(p);
      if e == EOF && remaining > 0 {
        e := NextPart();
      }
    }
  }

  /** What a Read of one part's reader does to the bytes it owes. */
  ghost predicate BodyRead(before: seq<byte>, want: nat, out: seq<byte>, e: Status, after: seq<byte>) {
    && (e == Nil || e == EOF || e == Abandoned)
    && (if e == Abandoned then out == [] else before == out + after)
    && (e == Nil ==> after != [] && (want > 0 && before != [] ==> out != []))
    && (e == EOF ==> after == [])
  }

  /** A reader that owed `before` has handed out `out` and now owes `after`. */
  ghost predicate Handed(before: Future, out: seq<byte>, after: Future) {
    before == Future(out + after.bytes, after.last)
  }

  lemma HandedBody(before: seq<byte>, out: seq<byte>, left: seq<byte>, later: Future)
    requires before == out + left
    ensures Handed(Future(before + later.bytes, later.last), out, Future(left + later.bytes, later.last))
  {
    assert (out + left) + later.bytes == out + (left + later.bytes);
  }

  /** Where part k starts. */
  function Offset(k: nat, partSize: nat): nat {
    k * partSize
  }

  /** `parts` hold, in order, the first pieces of `source` cut every partSize bytes. */
  ghost predicate StoredFile(encrypted: bool, parts: seq<Part>, source: seq<byte>, partSize: nat) {
    && 0 < partSize && 0 < |source| <= MAX_POSITION + 1 && parts != []
    && (forall k: nat {:trigger parts[k]} :: k < |parts| ==>
          StoredPart(encrypted, parts[k], source, partSize, k, Offset(k, partSize)))
  }

  ghost predicate StoredPart(encrypted: bool, part: Part, source: seq<byte>, partSize: nat, k: nat, off: nat) {
    && off == k * partSize < |source| && Whole(encrypted, part)
    && Plain(encrypted, part).bytes == Clip(source, off, off + partSize)
  }

  lemma SecondPart(encrypted: bool, parts: seq<Part>, source: seq<byte>, partSize: nat)
    requires StoredFile(encrypted, parts, source, partSize)
    ensures |parts| > 1 ==> partSize < |source|
  {
    if |parts| > 1 {
      assert StoredPart(encrypted, parts[1], source, partSize, 1, Offset(1, partSize));
    }
  }

  /** The size of the first part, which the reader takes for the part size, is as good as the real one:
      `kept`, where the parts end by it, and `stored`, where they really end, bound the same bytes. */
  lemma FirstPartSize(encrypted: bool, parts: seq<Part>, source: seq<byte>, partSize: nat, stored: nat)
    returns (size: nat, kept: nat)
    requires StoredFile(encrypted, parts, source, partSize) && stored == |parts| * partSize
    ensures PlainSize(encrypted, parts[0]) == Size(size)
    ensures StoredFile(encrypted, parts, source, size) && kept == |parts| * size
    ensures kept == stored || (kept >= |source| && stored >= |source|)
  {
    size := Min(partSize, |source|);
    kept := |parts| * size;
    assert StoredPart(encrypted, parts[0], source, partSize, 0, Offset(0, partSize));
    WholePartLength(encrypted, parts[0]);
    SecondPart(encrypted, parts, source, partSize);
    if size < partSize {
      assert Clip(source, 0, partSize) == Clip(source, 0, size);
    }
  }

  lemma DivBounds(x: nat, m: nat, q: nat)
    requires m > 0 && q == x / m
    ensures q * m <= x < q * m + m
  {
  }

  lemma Apart(m: nat, a: nat, b: nat)
    requires a < b
    ensures a * m + m <= b * m
  {
    Nonce.MulMono(m, a + 1, b);
  }

  /** Where part p's share of a range lies; `off` is where the part starts. */
  lemma PartOfRange(start: nat, end: nat, partSize: nat, first: nat, last: nat, p: nat, off: nat)
    requires 0 < partSize && first == start / partSize && last == end / partSize
    requires first <= p <= last && off == p * partSize
    ensures off <= end
    ensures if p == first then off <= start < off + partSize else start < off
    ensures if p == last then end < off + partSize else off + partSize <= end
  {
    DivBounds(start, partSize, first);
    DivBounds(end, partSize, last);
    if p > first {
      Apart(partSize, first, p);
    }
    if p < last {
      Apart(partSize, p, last);
    }
  }

  lemma SliceOfSlice<T>(s: seq<T>, off: nat, hi: nat, a: nat, b: nat, t: seq<T>)
    requires off <= hi <= |s| && a <= b <= hi - off && t == s[off..hi]
    ensures t[a..b] == s[off + a..off + b]
  {
    var u, v := t[a..b], s[off + a..off + b];
    assert |u| == |v|;
    forall k | 0 <= k < |u| ensures u[k] == v[k] {
      assert u[k] == t[a + k] && t[a + k] == s[off + (a + k)];
      assert v[k] == s[(off + a) + k];
    }
  }

  lemma PartBytes(encrypted: bool, parts: seq<Part>, source: seq<byte>, partSize: nat, p: nat, off: nat, hi: nat)
    requires StoredFile(encrypted, parts, source, partSize) && p < |parts| && off == p * partSize
    requires hi == Min(off + partSize, |source|)
    ensures off < hi && Whole(encrypted, parts[p]) && Plain(encrypted, parts[p]).bytes == source[off..hi]
  {
    assert StoredPart(encrypted, parts[p], source, partSize, p, off);
  }

  lemma RangeAt(start: nat, end: nat, partSize: nat, p: nat, off: nat, r: Range)
    requires off == p * partSize && r == PartRange(start, end, partSize, p)
    ensures r == Range(Max(start - off, 0), Min(partSize - 1, end - off), p)
  {
  }

  /** Part p's share of the range is the source's bytes that lie in both. */
  lemma SliceIsSource(encrypted: bool, parts: seq<Part>, source: seq<byte>, partSize: nat, start: nat, end: nat,
                      first: nat, last: nat, p: nat, off: nat, r: Range)
    requires StoredFile(encrypted, parts, source, partSize) && start <= end < |source|
    requires first == start / partSize && last == end / partSize && first <= p <= last && off == p * partSize
    requires r == PartRange(start, end, partSize, p)
    ensures Served(encrypted, parts, r)
    ensures var lo, hi := Max(start, off), Min(end + 1, off + partSize);
            && lo < hi <= |source|
            && SliceOf(encrypted, parts, r) == Slice(hi - lo, if p < |parts| then Some(source[lo..hi]) else None)
  {
    PartOfRange(start, end, partSize, first, last, p, off);
    RangeAt(start, end, partSize, p, off, r);
    if p < |parts| {
      PartBytes(encrypted, parts, source, partSize, p, off, Min(off + partSize, |source|));
    }
    SliceOfPart(encrypted, parts, source, partSize, start, end, p, off, r);
  }

  lemma SliceOfPart(encrypted: bool, parts: seq<Part>, source: seq<byte>, partSize: nat, start: nat, end: nat,
                    p: nat, off: nat, r: Range)
    requires off <= end < |source| <= MAX_POSITION + 1 && start <= end && start < off + partSize && partSize > 0
    requires r == Range(Max(start - off, 0), Min(partSize - 1, end - off), p)
    requires p < |parts| ==>
               && Whole(encrypted, parts[p])
               && Plain(encrypted, parts[p]).bytes == source[off..Min(off + partSize, |source|)]
    ensures Served(encrypted, parts, r)
    ensures var lo, hi := Max(start, off), Min(end + 1, off + partSize);
            && lo < hi <= |source|
            && SliceOf(encrypted, parts, r) == Slice(hi - lo, if p < |parts| then Some(source[lo..hi]) else None)
  {
    if p < |parts| {
      SliceOfSlice(source, off, Min(off + partSize, |source|), r.start, r.end + 1, Plain(encrypted, parts[p]).bytes);
    }
  }

  /** The slices are consecutive pieces of the source; only the first `have` of them are there. */
  ghost predicate Tiled(slices: seq<Slice>, source: seq<byte>, cut: nat -> nat, have: nat) {
    (forall k: nat {:trigger slices[k]} :: k < |slices| ==> Tile(slices[k], source, cut(k), cut(k + 1), k < have))
  }

  ghost predicate Tile(s: Slice, source: seq<byte>, lo: nat, hi: nat, there: bool) {
    lo < hi <= |source| && s == Slice(hi - lo, if there then Some(source[lo..hi]) else None)
  }

  lemma TilesExact(slices: seq<Slice>, source: seq<byte>, cut: nat -> nat, have: nat)
    requires Tiled(slices, source, cut, have)
    ensures AllExact(slices)
  {
    forall k: nat | k < |slices| ensures slices[k].Exact() {
      assert Tile(slices[k], source, cut(k), cut(k + 1), k < have);
    }
  }

  /** Reading consecutive pieces one after the other reads the source between the outer cut, as far as
      the pieces are there. */
  lemma {:induction false} ServeTiled(slices: seq<Slice>, source: seq<byte>, cut: nat -> nat, have: nat, n: nat, i: nat)
    requires Tiled(slices, source, cut, have) && n == Min(have, |slices|) && i <= n
    ensures cut(i) <= cut(n) && (i < n ==> cut(n) <= |source|)
    ensures Serve(slices, i) ==
            Future(if i < n then source[cut(i)..cut(n)] else [], if n < |slices| then OutOfRange else EOF)
    decreases |slices| - i
  {
    if i < |slices| {
      assert Tile(slices[i], source, cut(i), cut(i + 1), i < have);
    }
    if i < n {
      var j := i + 1;
      ServeTiled(slices, source, cut, have, n, j);
      var lo, mid, hi := cut(i), cut(j), cut(n);
      assert source[lo..mid] + source[mid..hi] == source[lo..hi] || hi == mid;
      if j == n {
        assert source[lo..mid] + [] == source[lo..mid];
      }
    }
  }

  lemma {:induction false} AskedTiled(slices: seq<Slice>, source: seq<byte>, cut: nat -> nat, have: nat, i: nat)
    requires Tiled(slices, source, cut, have) && i <= |slices| && AllExact(slices)
    ensures cut(i) + Asked(slices, i) == cut(|slices|)
    decreases |slices| - i
  {
    if i < |slices| {
      assert Tile(slices[i], source, cut(i), cut(i + 1), i < have);
      var j := i + 1;
      AskedTiled(slices, source, cut, have, j);
    }
  }

  /** Where part p starts, pulled into the range. */
  function CutAt(start: nat, end: nat, partSize: nat, p: nat): nat
    requires start <= end
  {
    Min(end + 1, Max(start, p * partSize))
  }

  /** Where the k-th part of a range starts. */
  function CutsOf(start: nat, end: nat, partSize: nat, first: nat): nat -> nat
    requires start <= end
  {
    (k: nat) => CutAt(start, end, partSize, first + k)
  }

  lemma CutAtOff(start: nat, end: nat, partSize: nat, first: nat, k: nat, p: nat, off: nat)
    requires start <= end && p == first + k && off == p * partSize
    ensures CutsOf(start, end, partSize, first)(k) == Min(end + 1, Max(start, off))
    ensures CutsOf(start, end, partSize, first)(k + 1) == Min(end + 1, Max(start, off + partSize))
  {
    assert first + (k + 1) == p + 1;
    assert (p + 1) * partSize == off + partSize;
    var cut := CutsOf(start, end, partSize, first);
    assert cut(k) == CutAt(start, end, partSize, p) && cut(k + 1) == CutAt(start, end, partSize, p + 1);
  }

  lemma PartTile(encrypted: bool, parts: seq<Part>, source: seq<byte>, partSize: nat, start: nat, end: nat,
                 first: nat, last: nat, k: nat, p: nat, cut: nat -> nat, r: Range)
    requires StoredFile(encrypted, parts, source, partSize) && start <= end < |source|
    requires first == start / partSize && last == end / partSize && first <= p <= last && p == first + k
    requires r == PartRange(start, end, partSize, p) && cut == CutsOf(start, end, partSize, first)
    ensures Served(encrypted, parts, r)
    ensures Tile(SliceOf(encrypted, parts, r), source, cut(k), cut(k + 1), p < |parts|)
  {
    var off := p * partSize;
    SliceIsSource(encrypted, parts, source, partSize, start, end, first, last, p, off, r);
    CutAtOff(start, end, partSize, first, k, p, off);
  }

  /** The parts' shares of a range tile it. */
  lemma RangeTiled(encrypted: bool, parts: seq<Part>, source: seq<byte>, partSize: nat, start: nat, end: nat,
                   first: nat, last: nat, ranges: seq<Range>, cut: nat -> nat)
    returns (slices: seq<Slice>, have: nat)
    requires StoredFile(encrypted, parts, source, partSize) && start <= end < |source|
    requires Requested(ranges, start, end, partSize, first, last) && cut == CutsOf(start, end, partSize, first)
    ensures SlicesOf(encrypted, parts, ranges, slices) && Tiled(slices, source, cut, have)
    ensures have == Max(|parts| - first, 0)
  {
    have := Max(|parts| - first, 0);
    forall k: nat {:trigger ranges[k]} | k < |ranges|
      ensures Served(encrypted, parts, ranges[k])
      ensures Tile(SliceOf(encrypted, parts, ranges[k]), source, cut(k), cut(k + 1), k < have)
    {
      PartTile(encrypted, parts, source, partSize, start, end, first, last, k, first + k, cut, ranges[k]);
    }
    slices := seq(|ranges|, k requires 0 <= k < |ranges| => SliceOf(encrypted, parts, ranges[k]));
  }

  /** What a reader owes for a range of a file of which only `stored` leading bytes are there. */
  function Share(source: seq<byte>, start: nat, end: nat, stored: nat): Future
    requires start <= end < |source|
  {
    if end < stored then Future(source[start..end + 1], EOF)
    else Future(source[start..Min(Max(start, stored), |source|)], OutOfRange)
  }

  /** The first `parts` parts reach past a position if and only if they include the part it lies in. */
  lemma PartsReach(x: nat, m: nat, q: nat, parts: nat, stored: nat)
    requires m > 0 && q == x / m && stored == parts * m
    ensures x < stored <==> q < parts
  {
    DivBounds(x, m, q);
    if q < parts {
      Apart(m, q, parts);
    } else {
      Nonce.MulMono(m, parts, q);
    }
  }

  lemma PartOrder(start: nat, end: nat, m: nat, first: nat, last: nat)
    requires m > 0 && start <= end && first == start / m && last == end / m
    ensures first <= last
  {
    DivBounds(start, m, first);
    DivBounds(end, m, last);
    if last < first {
      Apart(m, last, first);
    }
  }

  lemma OuterCut(start: nat, end: nat, partSize: nat, first: nat, k: nat, p: nat, off: nat, cut: nat -> nat)
    requires start <= end && p == first + k && off == p * partSize && cut == CutsOf(start, end, partSize, first)
    ensures cut(k) == Min(end + 1, Max(start, off))
  {
    CutAtOff(start, end, partSize, first, k, p, off);
  }

  /** A range starts at its first cut, ends at its last, and breaks off where the stored parts end. */
  lemma OuterCuts(start: nat, end: nat, partSize: nat, first: nat, last: nat, parts: nat, stored: nat, cut: nat -> nat,
                  have: nat, count: nat, n: nat)
    requires 0 < partSize && start <= end && first == start / partSize && last == end / partSize
    requires stored == parts * partSize && have == Max(parts - first, 0) && count == last - first + 1
             && n == Min(have, count)
    requires cut == CutsOf(start, end, partSize, first)
    ensures cut(0) == start && cut(count) == end + 1
    ensures (end < stored <==> n == count) && (start < stored <==> 0 < n)
    ensures 0 < n < count ==> cut(n) == Max(start, stored)
  {
    PartOrder(start, end, partSize, first, last);
    PartsReach(start, partSize, first, parts, stored);
    PartsReach(end, partSize, last, parts, stored);
    var off, past := first * partSize, (last + 1) * partSize;
    PartsReach(start, partSize, first, first, off);
    PartsReach(end, partSize, last, last + 1, past);
    OuterCut(start, end, partSize, first, 0, first, off, cut);
    OuterCut(start, end, partSize, first, count, last + 1, past, cut);
    if 0 < n < count {
      OuterCut(start, end, partSize, first, n, parts, stored, cut);
    }
  }

  /** Serving a range's slices delivers the range of the source, as far as it is stored. */
  lemma RangeOwed(encrypted: bool, parts: seq<Part>, source: seq<byte>, partSize: nat, start: nat, end: nat,
                  first: nat, last: nat, ranges: seq<Range>, stored: nat)
    returns (slices: seq<Slice>)
    requires StoredFile(encrypted, parts, source, partSize) && start <= end < |source|
    requires Requested(ranges, start, end, partSize, first, last) && stored == |parts| * partSize
    ensures SlicesOf(encrypted, parts, ranges, slices) && AllExact(slices) && slices != []
    ensures Serve(slices, 0) == Share(source, start, end, stored) && Asked(slices, 0) == end - start + 1
    ensures slices[0].bytes.Some? <==> start < stored
  {
    var cut := CutsOf(start, end, partSize, first);
    var have;
    slices, have := RangeTiled(encrypted, parts, source, partSize, start, end, first, last, ranges, cut);
    PartOrder(start, end, partSize, first, last);
    var n := Min(have, |slices|);
    OuterCuts(start, end, partSize, first, last, |parts|, stored, cut, have, |slices|, n);
    TiledOwed(slices, source, start, end, stored, cut, have, n);
  }

  lemma TiledOwed(slices: seq<Slice>, source: seq<byte>, start: nat, end: nat, stored: nat, cut: nat -> nat,
                  have: nat, n: nat)
    requires Tiled(slices, source, cut, have) && slices != [] && n == Min(have, |slices|) && start <= end < |source|
    requires cut(0) == start && cut(|slices|) == end + 1
    requires (end < stored <==> n == |slices|) && (start < stored <==> 0 < n)
    requires 0 < n < |slices| ==> cut(n) == Max(start, stored)
    ensures AllExact(slices) && Serve(slices, 0) == Share(source, start, end, stored)
    ensures Asked(slices, 0) == end - start + 1
    ensures slices[0].bytes.Some? <==> start < stored
  {
    TilesExact(slices, source, cut, have);
    ServeTiled(slices, source, cut, have, n, 0);
    AskedTiled(slices, source, cut, have, 0);
    assert Tile(slices[0], source, cut(0), cut(1), 0 < have);
  }

  method PlanRanges(start: nat, end: nat, partSize: nat) returns (ranges: seq<Range>, ghost first: nat, ghost last: nat)
    requires partSize > 0
    ensures Requested(ranges, start, end, partSize, first, last)
  {
    first, last := start / partSize, end / partSize;
    ranges := CalculatePartByteRanges(start, end, partSize);
  }

  /** Opens a reader for a byte range of a file. */
  method NewReader(encrypted: bool, parts: seq<Part>, start: nat, end: nat, concurrency: Positive,
                   buffers: nat, reliable: bool, ghost source: seq<byte>, ghost partSize: nat, ghost stored: nat)
    returns (r: Reader?, e: Status)
    requires StoredFile(encrypted, parts, source, partSize) && start <= end < |source|
    requires stored == |parts| * partSize
    ensures r != null <==> e == Nil
    ensures (e == Nil || IoFailure(e) || e == OutOfRange) && (reliable ==> !IoFailure(e))
    ensures !IoFailure(e) ==> (e == OutOfRange <==> stored <= start)
    ensures r != null ==> r.Valid() && fresh(r) && fresh(r.Repr) && r.Owes() == Share(source, start, end, stored)
    ensures r != null ==> r.reliable == reliable
  {
    ghost var p, kept := FirstPartSize(encrypted, parts, source, partSize, stored);
    var size := PlainSize(encrypted, parts[0]).size;
    var ranges, first, last := PlanRanges(start, end, size);
    ghost var slices := RangeOwed(encrypted, parts, source, p, start, end, first, last, ranges, kept);
    ghost var layout: Layout := Slicing(encrypted, parts, ranges, slices);
    ghost var rest, left := ServeStep(layout, 0, 1);
    hide StoredFile, Reader.HasSealed, Reader.HasChunked;
    r := new Reader(encrypted, parts, ranges, layout, rest, left, end - start + 1, concurrency, buffers, reliable);
    e := r.Begin(rest, left);
    if e != Nil {
      r := null;
    }
  }

  /** Serves a byte range with buffers of any sizes. Unless the network fails, exactly the range's share
      of the stored bytes is delivered, and then end of file; or an error, if parts are missing. */
  method ServeRange(encrypted: bool, parts: seq<Part>, start: nat, end: nat, concurrency: Positive,
                    buffers: nat, reliable: bool, sizes: nat -> nat,
                    ghost source: seq<byte>, ghost partSize: nat, ghost stored: nat)
    returns (out: seq<byte>, e: Status)
    requires StoredFile(encrypted, parts, source, partSize) && start <= end < |source|
    requires stored == |parts| * partSize && forall i :: sizes(i) > 0
    ensures !IoFailure(e) ==> Future(out, e) == Share(source, start, end, stored)
    ensures out <= source[start..end + 1]
            && (stored >= |source| && !IoFailure(e) ==> out == source[start..end + 1] && e == EOF)
    ensures reliable ==> !IoFailure(e)
  {
    var r;
    r, e := NewReader(encrypted, parts, start, end, concurrency, buffers, reliable, source, partSize, stored);
    out := [];
    if r != null {
      out, e := ReadAll(r, sizes);
    }
    SharePrefix(source, start, end, stored);
  }

  lemma SharePrefix(source: seq<byte>, start: nat, end: nat, stored: nat)
    requires start <= end < |source|
    ensures Share(source, start, end, stored).bytes <= source[start..end + 1]
    ensures stored >= |source| ==> Share(source, start, end, stored) == Future(source[start..end + 1], EOF)
  {
    var hi := if end < stored then end + 1 else Min(Max(start, stored), |source|);
    assert source[start..end + 1][..hi - start] == source[start..hi];
  }

  method ReadAll(r: Reader, sizes: nat -> nat) returns (out: seq<byte>, e: Status)
    requires r.Valid() && forall i :: sizes(i) > 0
    modifies r, r.Repr
    ensures !IoFailure(e) ==> Future(out, e) == old(r.Owes())
    ensures out <= old(r.Owes().bytes) && (r.reliable ==> !IoFailure(e))
  {
    hide Reader.Valid;
    ghost var all, left := r.Owes(), r.Owes();
    out, e := [], Nil;
    var i := 0;
    while e == Nil
      invariant fresh(r.Repr - old(r.Repr))
      invariant e == Nil ==> r.Valid() && r.Owes() == left && Handed(all, out, left)
      invariant e != Nil && !IoFailure(e) ==> Future(out, e) == all
      invariant out <= all.bytes && (r.reliable ==> !IoFailure(e))
      decreases |left.bytes|, e == Nil
    {
      ghost var before, after := left, left;
      var chunk;
      chunk, after, e := ReadOnce(r, sizes(i), before);
      HandedOn(all, out, before, chunk, after, e);
      out := out + chunk;
      left := if e == Nil then after else left;
      i := i + 1;
    }
  }

  /** One Read with a buffer of the given size. */
  method ReadOnce(r: Reader, size: nat, ghost owed: Future) returns (chunk: seq<byte>, ghost after: Future, e: Status)
    requires r.Valid() && size > 0 && r.Owes() == owed
    modifies r, r.Repr
    ensures fresh(r.Repr - old(r.Repr))
    ensures e == Nil ==> r.Valid() && r.Owes() == after && chunk != []
    ensures HandedTo(owed, chunk, after, e) && (r.reliable ==> !IoFailure(e))
  {
    hide Reader.Valid;
    var p := new byte[size];
    var n;
    n, e := r.Read(p);
    chunk, after := p[..n], r.Owes();
  }

  /** What a Read with outcome e leaves of what was owed. */
  ghost predicate HandedTo(owed: Future, chunk: seq<byte>, after: Future, e: Status) {
    && (e == Nil ==> Handed(owed, chunk, after))
    && (e != Nil && !IoFailure(e) ==> owed == Future(chunk, e))
    && (IoFailure(e) ==> chunk <= owed.bytes)
  }

  lemma HandedOn(all: Future, out: seq<byte>, left: Future, chunk: seq<byte>, after: Future, e: Status)
    requires Handed(all, out, left) && HandedTo(left, chunk, after, e)
    ensures e == Nil ==> Handed(all, out + chunk, after) && |left.bytes| == |chunk| + |after.bytes|
    ensures e != Nil && !IoFailure(e) ==> Future(out + chunk, e) == all
    ensures out + chunk <= all.bytes
  {
    if e == Nil {
      assert out + (chunk + after.bytes) == (out + chunk) + after.bytes;
    } else {
      assert all.bytes == (out + chunk) + left.bytes[|chunk|..];
    }
  }
}
