/** The encrypted file format of internal/crypt/cipher.go: a header, then sealed 64 KiB blocks. */
module CipherFormat {
  import opened Streams
  import opened Nonce

  const MAGIC: seq<byte> := [84, 69, 76, 68, 82, 73, 86, 69, 0, 0] // "TELDRIVE" and two zero bytes
  const HEADER_SIZE: nat := 34
  const BLOCK_HEADER_SIZE: nat := 16
  const BLOCK_DATA_SIZE: nat := 65536
  const BLOCK_SIZE: nat := 65552

  /** secretbox under one key: only its contract is known. A sealed block authenticates its length, so no
      proper prefix of one opens; that cannot be had for messages of all lengths, and a block is short. */
  datatype Box = Box(seal: (seq<byte>, seq<byte>) -> seq<byte>, open: (seq<byte>, seq<byte>) -> Option<seq<byte>>)
  {
    ghost predicate Lawful() {
      && (forall n, m :: |seal(n, m)| == |m| + BLOCK_HEADER_SIZE && open(n, seal(n, m)) == Some(m))
      && (forall n, c :: open(n, c).Some? ==> |open(n, c).value| + BLOCK_HEADER_SIZE == |c|)
      && (forall n, m :: |m| <= BLOCK_DATA_SIZE ==> NoPrefixOpens(n, seal(n, m)))
    }

    /** A block that was cut short does not open. */
    ghost predicate NoPrefixOpens(n: seq<byte>, c: seq<byte>) {
      forall k: nat {:trigger c[..k]} :: k < |c| ==> open(n, c[..k]).None?
    }
  }

  type SecretBox = b: Box | b.Lawful() witness LengthBox()

  /** A lawful box, to show that there are any: its tag is the length of the message. */
  function LengthBox(): (b: Box)
    ensures b.Lawful()
  {
    var b := Box((n, m) => LengthTag(|m|) + m,
                 (n, c) => if |c| >= BLOCK_HEADER_SIZE && c[..BLOCK_HEADER_SIZE] == LengthTag(|c| - BLOCK_HEADER_SIZE)
                           then Some(c[BLOCK_HEADER_SIZE..]) else None);
    LengthBoxIsLawful(b);
    b
  }

  function LengthTag(k: nat): (tag: seq<byte>)
    ensures |tag| == BLOCK_HEADER_SIZE
  {
    [(k / 65536 % 256) as byte, (k / 256 % 256) as byte, (k % 256) as byte] + Zeros(13)
  }

  lemma LengthTagsDiffer(j: nat, k: nat)
    requires j < k <= BLOCK_DATA_SIZE
    ensures LengthTag(j) != LengthTag(k)
  {
    var a, b := LengthTag(j), LengthTag(k);
    assert a[0] as int == j / 65536 % 256 && a[1] as int == j / 256 % 256 && a[2] as int == j % 256;
    assert b[0] as int == k / 65536 % 256 && b[1] as int == k / 256 % 256 && b[2] as int == k % 256;
  }

  lemma LengthBoxIsLawful(b: Box)
    requires forall n, m :: b.seal(n, m) == LengthTag(|m|) + m
    requires forall n, c :: b.open(n, c) ==
                            if |c| >= BLOCK_HEADER_SIZE && c[..BLOCK_HEADER_SIZE] == LengthTag(|c| - BLOCK_HEADER_SIZE)
                            then Some(c[BLOCK_HEADER_SIZE..]) else None
    ensures b.Lawful()
  {
    forall n, m ensures |b.seal(n, m)| == |m| + BLOCK_HEADER_SIZE && b.open(n, b.seal(n, m)) == Some(m) {
      assert b.seal(n, m)[..BLOCK_HEADER_SIZE] == LengthTag(|m|) && b.seal(n, m)[BLOCK_HEADER_SIZE..] == m;
    }
    forall n, m | |m| <= BLOCK_DATA_SIZE ensures b.NoPrefixOpens(n, b.seal(n, m)) {
      var c := b.seal(n, m);
      forall k: nat {:trigger c[..k]} | k < |c| ensures b.open(n, c[..k]).None? {
        if k >= BLOCK_HEADER_SIZE {
          assert c[..k][..BLOCK_HEADER_SIZE] == LengthTag(|m|);
          LengthTagsDiffer(k - BLOCK_HEADER_SIZE, |m|);
        }
      }
    }
  }

  /** A reader's future: the bytes it will deliver and the status it will end with. */
  datatype Future = Future(bytes: seq<byte>, last: Status)

  /** The sealed blocks of plaintext p, the first of them being block i of its file. */
  function Seals(box: SecretBox, at: Counter, i: nat, p: seq<byte>): seq<byte>
    decreases |p|
  {
    if p == [] then []
    else
      var k := Min(BLOCK_DATA_SIZE, |p|);
      box.seal(at(i), p[..k]) + Seals(box, at, i + 1, p[k..])
  }

  /** One block as the decrypter sees it: a block that does not open becomes zeros of its own length. */
  function OpenOrZeros(box: SecretBox, n: seq<byte>, c: seq<byte>): (m: seq<byte>)
    requires |c| > BLOCK_HEADER_SIZE
    ensures |m| == |c| - BLOCK_HEADER_SIZE
  {
    match box.open(n, c)
    case Some(m) => m
    case None => Zeros(|c| - BLOCK_HEADER_SIZE)
  }

  /** What decrypting the blocks in c, from block i on, yields when the underlying reader ends with `last`. */
  function Opens(box: SecretBox, at: Counter, i: nat, c: seq<byte>, last: Status): Future
    decreases |c|
  {
    if c == [] then Future([], last)
    else if |c| < BLOCK_SIZE then
      if |c| <= BLOCK_HEADER_SIZE then Future([], if last == EOF then BadHeader else last)
      else if last != EOF && box.open(at(i), c).None? then Future([], last)
      else Future(OpenOrZeros(box, at(i), c), last)
    else
      var f := Opens(box, at, i + 1, c[BLOCK_SIZE..], last);
      Future(OpenOrZeros(box, at(i), c[..BLOCK_SIZE]) + f.bytes, f.last)
  }

  /** A whole encrypted file: header, then blocks. */
  function Encrypted(box: SecretBox, n: NonceBytes, p: seq<byte>): seq<byte> {
    MAGIC + n + Seals(box, CounterFrom(n), 0, p)
  }

  /** Decrypting a whole stored object from its start. */
  function Decrypted(box: SecretBox, c: seq<byte>): Future {
    if |c| < HEADER_SIZE then Future([], TooShort)
    else if c[..|MAGIC|] != MAGIC then Future([], BadMagic)
    else Opens(box, CounterFrom(c[|MAGIC|..HEADER_SIZE]), 0, c[HEADER_SIZE..], EOF)
  }

  function EncryptedSize(size: nat): nat {
    var blocks, residue := size / BLOCK_DATA_SIZE, size % BLOCK_DATA_SIZE;
    var whole := HEADER_SIZE + blocks * (BLOCK_HEADER_SIZE + BLOCK_DATA_SIZE);
    if residue != 0 then whole + BLOCK_HEADER_SIZE + residue else whole
  }

  datatype SizeResult = Size(size: nat) | BadSize(error: Status)

  function DecryptedSize(size: int): SizeResult {
    var body := size - HEADER_SIZE;
    if body < 0 then BadSize(TooShort)
    else
      var blocks, residue := body / BLOCK_SIZE, body % BLOCK_SIZE;
      if residue == 0 then Size(blocks * BLOCK_DATA_SIZE)
      else if residue - BLOCK_HEADER_SIZE <= 0 then BadSize(BadHeader)
      else Size(blocks * BLOCK_DATA_SIZE + (residue - BLOCK_HEADER_SIZE))
  }

  /** Every plain size survives encryption, and every stored size that is accepted is the encrypted
      size of its result. */
  lemma SizesAreInverse(n: nat, m: int)
    ensures DecryptedSize(EncryptedSize(n)) == Size(n)
    ensures DecryptedSize(m).Size? <==> exists k: nat :: EncryptedSize(k) == m
    ensures DecryptedSize(m).Size? ==> EncryptedSize(DecryptedSize(m).size) == m
  {
    SizeRoundTrip(n);
    forall k: nat | EncryptedSize(k) == m ensures DecryptedSize(m).Size? {
      SizeRoundTrip(k);
    }
    if DecryptedSize(m).Size? {
      StoredSizeRoundTrip(m);
    }
  }

  lemma StoredSizeRoundTrip(m: int)
    requires DecryptedSize(m).Size?
    ensures EncryptedSize(DecryptedSize(m).size) == m
  {
    var body := m - HEADER_SIZE;
    var d := DecryptedSize(m).size;
    var b, r := body / BLOCK_SIZE, body % BLOCK_SIZE;
    var rest := if r == 0 then 0 else r - BLOCK_HEADER_SIZE;
    assert d == b * BLOCK_DATA_SIZE + rest;
    assert d / BLOCK_DATA_SIZE == b && d % BLOCK_DATA_SIZE == rest;
  }

  lemma SizeRoundTrip(n: nat)
    ensures DecryptedSize(EncryptedSize(n)) == Size(n)
  {
    var b, r := n / BLOCK_DATA_SIZE, n % BLOCK_DATA_SIZE;
    var rest := if r == 0 then 0 else r + BLOCK_HEADER_SIZE;
    var body := EncryptedSize(n) - HEADER_SIZE;
    assert body == b * BLOCK_SIZE + rest;
    assert body / BLOCK_SIZE == b && body % BLOCK_SIZE == rest;
  }

  lemma {:induction false} SealsLength(box: SecretBox, at: Counter, i: nat, p: seq<byte>)
    ensures |Seals(box, at, i, p)| + HEADER_SIZE == EncryptedSize(|p|)
    decreases |p|
  {
    if p != [] {
      var k := Min(BLOCK_DATA_SIZE, |p|);
      SealsLength(box, at, i + 1, p[k..]);
      if k == BLOCK_DATA_SIZE {
        assert (|p| - k) / BLOCK_DATA_SIZE == |p| / BLOCK_DATA_SIZE - 1;
        assert (|p| - k) % BLOCK_DATA_SIZE == |p| % BLOCK_DATA_SIZE;
      }
    }
  }

  /** Decrypting what was encrypted gives the plaintext back and then end of file. */
  lemma {:induction false} OpensSeals(box: SecretBox, at: Counter, i: nat, p: seq<byte>)
    ensures Opens(box, at, i, Seals(box, at, i, p), EOF) == Future(p, EOF)
    decreases |p|
  {
    if p != [] {
      var k := Min(BLOCK_DATA_SIZE, |p|);
      var head := box.seal(at(i), p[..k]);
      var tail := Seals(box, at, i + 1, p[k..]);
      OpensSeals(box, at, i + 1, p[k..]);
      if k < BLOCK_DATA_SIZE || |p| == k {
        assert p[k..] == [] && tail == [] && p[..k] == p;
        assert head + tail == head;
      }
      if k == BLOCK_DATA_SIZE {
        assert (head + tail)[..BLOCK_SIZE] == head && (head + tail)[BLOCK_SIZE..] == tail;
        assert p == p[..k] + p[k..];
      }
    }
  }

  /** A file decrypts to its plaintext, and its stored size is the announced one. */
  lemma DecryptedEncrypted(box: SecretBox, n: NonceBytes, p: seq<byte>)
    ensures Decrypted(box, Encrypted(box, n, p)) == Future(p, EOF)
    ensures |Encrypted(box, n, p)| == EncryptedSize(|p|)
  {
    var c, blocks := Encrypted(box, n, p), Seals(box, CounterFrom(n), 0, p);
    assert c[..|MAGIC|] == MAGIC && c[|MAGIC|..HEADER_SIZE] == n && c[HEADER_SIZE..] == blocks;
    OpensSeals(box, CounterFrom(n), 0, p);
    SealsLength(box, CounterFrom(n), 0, p);
  }

  /** What is not decrypted: an object too short for a header, one that does not begin with the letters TELDRIVE and
      two zero bytes, and a last block too short for its tag. */
  lemma DecryptedRefuses(box: SecretBox, c: seq<byte>)
    ensures |c| < 34 ==> Decrypted(box, c) == Future([], TooShort)
    ensures |c| >= 34 && c[..10] != [84, 69, 76, 68, 82, 73, 86, 69, 0, 0] ==> Decrypted(box, c) == Future([], BadMagic)
    ensures |c| >= 34 && c[..10] == [84, 69, 76, 68, 82, 73, 86, 69, 0, 0] ==>
              Decrypted(box, c).last == if 0 < (|c| - 34) % 65552 <= 16 then BadHeader else EOF
  {
    if |c| >= 34 {
      OpensLength(box, CounterFrom(c[|MAGIC|..HEADER_SIZE]), 0, c[HEADER_SIZE..]);
    }
  }

  /** Skipping k whole blocks of ciphertext skips k whole blocks of plaintext. */
  lemma {:induction false} OpensDrop(box: SecretBox, at: Counter, i: nat, c: seq<byte>, last: Status,
                                     k: nat, j: nat, rest: seq<byte>)
    requires |c| >= k * BLOCK_SIZE && j == i + k && rest == c[k * BLOCK_SIZE..]
    ensures var f, g := Opens(box, at, i, c, last), Opens(box, at, j, rest, last);
            |f.bytes| >= k * BLOCK_DATA_SIZE && f.bytes[k * BLOCK_DATA_SIZE..] == g.bytes && f.last == g.last
    decreases k
  {
    if k != 0 {
      var h, mid := j - 1, c[(k - 1) * BLOCK_SIZE..];
      OpensDrop(box, at, i, c, last, k - 1, h, mid);
      OpensHead(box, at, h, mid, last, j, rest);
      var f, g := Opens(box, at, i, c, last), Opens(box, at, h, mid, last);
      assert f.bytes[k * BLOCK_DATA_SIZE..] == g.bytes[BLOCK_DATA_SIZE..];
    }
  }

  lemma OpensHead(box: SecretBox, at: Counter, i: nat, c: seq<byte>, last: Status, j: nat, rest: seq<byte>)
    requires |c| >= BLOCK_SIZE && j == i + 1 && rest == c[BLOCK_SIZE..]
    ensures var f, g := Opens(box, at, i, c, last), Opens(box, at, j, rest, last);
            f.bytes == OpenOrZeros(box, at(i), c[..BLOCK_SIZE]) + g.bytes && f.last == g.last
  {
  }

  /** Keeping only k whole blocks of ciphertext keeps exactly k whole blocks of plaintext. */
  lemma {:induction false} OpensTake(box: SecretBox, at: Counter, i: nat, c: seq<byte>, last: Status, k: nat)
    requires |c| >= k * BLOCK_SIZE
    ensures var f := Opens(box, at, i, c, last);
            |f.bytes| >= k * BLOCK_DATA_SIZE &&
            Opens(box, at, i, c[..k * BLOCK_SIZE], EOF) == Future(f.bytes[..k * BLOCK_DATA_SIZE], EOF)
    decreases k
  {
    if k != 0 {
      OpensTake(box, at, i + 1, c[BLOCK_SIZE..], last, k - 1);
      var t := c[..k * BLOCK_SIZE];
      assert t[..BLOCK_SIZE] == c[..BLOCK_SIZE];
      assert t[BLOCK_SIZE..] == c[BLOCK_SIZE..][..(k - 1) * BLOCK_SIZE];
    }
  }

  /** The plaintext length is a function of the ciphertext length alone, whatever the bytes are. */
  lemma {:induction false} OpensLength(box: SecretBox, at: Counter, i: nat, c: seq<byte>)
    ensures var f, d := Opens(box, at, i, c, EOF), DecryptedSize(|c| + HEADER_SIZE);
            f.last == (if d.Size? then EOF else BadHeader) && (d.Size? ==> |f.bytes| == d.size)
    ensures |Opens(box, at, i, c, EOF).bytes| <= (|c| / BLOCK_SIZE + 1) * BLOCK_DATA_SIZE
    decreases |c|
  {
    if |c| >= BLOCK_SIZE {
      OpensLength(box, at, i + 1, c[BLOCK_SIZE..]);
      var less := |c| - BLOCK_SIZE;
      assert less / BLOCK_SIZE == |c| / BLOCK_SIZE - 1 && less % BLOCK_SIZE == |c| % BLOCK_SIZE;
    } else {
      assert |c| / BLOCK_SIZE == 0 && |c| % BLOCK_SIZE == |c|;
    }
  }

  /** `plain` is what a block stands for: what it opens to, or as many zeros if it does not open. */
  ghost predicate BlockOpens(box: SecretBox, n: seq<byte>, block: seq<byte>, plain: seq<byte>) {
    match box.open(n, block)
    case Some(m) => plain == m
    case None => |plain| + BLOCK_HEADER_SIZE == |block| && forall k :: 0 <= k < |plain| ==> plain[k] == 0
  }

  /** Block i of damaged or healthy data appears at its own place, opened or zeroed, and no other
      block has any influence on it. */
  lemma BlockStandsAlone(box: SecretBox, at: Counter, c: seq<byte>, i: nat)
    requires i * BLOCK_SIZE + BLOCK_HEADER_SIZE < |c|
    ensures BlockOpens(box, at(i), Clip(c, i * BLOCK_SIZE, (i + 1) * BLOCK_SIZE),
                       Clip(Opens(box, at, 0, c, EOF).bytes, i * BLOCK_DATA_SIZE, (i + 1) * BLOCK_DATA_SIZE))
  {
    OpensDrop(box, at, 0, c, EOF, i, i, c[i * BLOCK_SIZE..]);
    var d := c[i * BLOCK_SIZE..];
    var block := Clip(c, i * BLOCK_SIZE, (i + 1) * BLOCK_SIZE);
    assert block == d[..Min(BLOCK_SIZE, |d|)];
    var plain, rest := Opens(box, at, 0, c, EOF).bytes, Opens(box, at, i, d, EOF).bytes;
    assert Clip(plain, i * BLOCK_DATA_SIZE, (i + 1) * BLOCK_DATA_SIZE) == rest[..Min(BLOCK_DATA_SIZE, |rest|)];
    if |d| < BLOCK_SIZE {
      assert block == d;
    }
    assert rest[..Min(BLOCK_DATA_SIZE, |rest|)] == OpenOrZeros(box, at(i), block);
  }

  /** The plaintext that stands for a stored object with a good header, block by block. */
  ghost predicate AllBlocksOpen(box: SecretBox, c: seq<byte>, plain: seq<byte>)
    requires |c| >= HEADER_SIZE
  {
    var at, body := CounterFrom(c[|MAGIC|..HEADER_SIZE]), c[HEADER_SIZE..];
    forall i: nat :: i * BLOCK_SIZE + BLOCK_HEADER_SIZE < |body| ==>
      BlockOpens(box, at(i), Clip(body, i * BLOCK_SIZE, (i + 1) * BLOCK_SIZE),
                 Clip(plain, i * BLOCK_DATA_SIZE, (i + 1) * BLOCK_DATA_SIZE))
  }

  lemma DecryptedBlocks(box: SecretBox, c: seq<byte>)
    requires |c| >= HEADER_SIZE && c[..|MAGIC|] == MAGIC
    ensures AllBlocksOpen(box, c, Decrypted(box, c).bytes)
  {
    var at, body := CounterFrom(c[|MAGIC|..HEADER_SIZE]), c[HEADER_SIZE..];
    forall i: nat | i * BLOCK_SIZE + BLOCK_HEADER_SIZE < |body|
      ensures BlockOpens(box, at(i), Clip(body, i * BLOCK_SIZE, (i + 1) * BLOCK_SIZE),
                         Clip(Decrypted(box, c).bytes, i * BLOCK_DATA_SIZE, (i + 1) * BLOCK_DATA_SIZE))
    {
      BlockStandsAlone(box, at, body, i);
    }
  }

  /** The first k whole blocks of plaintext are sealed on their own. */
  lemma {:induction false} SealsDrop(box: SecretBox, at: Counter, i: nat, p: seq<byte>, k: nat, j: nat, rest: seq<byte>)
    requires |p| >= k * BLOCK_DATA_SIZE && j == i + k && rest == p[k * BLOCK_DATA_SIZE..]
    ensures var c := Seals(box, at, i, p);
            |c| >= k * BLOCK_SIZE && c[k * BLOCK_SIZE..] == Seals(box, at, j, rest)
    decreases k
  {
    if k != 0 {
      var h, mid := j - 1, p[(k - 1) * BLOCK_DATA_SIZE..];
      SealsDrop(box, at, i, p, k - 1, h, mid);
      assert rest == mid[BLOCK_DATA_SIZE..];
      SealsHead(box, at, h, mid, j, rest);
      var c, d := Seals(box, at, i, p), Seals(box, at, h, mid);
      assert c[k * BLOCK_SIZE..] == d[BLOCK_SIZE..];
    }
  }

  lemma SealsHead(box: SecretBox, at: Counter, i: nat, p: seq<byte>, j: nat, rest: seq<byte>)
    requires |p| >= BLOCK_DATA_SIZE && j == i + 1 && rest == p[BLOCK_DATA_SIZE..]
    ensures var c := Seals(box, at, i, p); |c| >= BLOCK_SIZE && c[BLOCK_SIZE..] == Seals(box, at, j, rest)
  {
    assert |box.seal(at(i), p[..BLOCK_DATA_SIZE])| == BLOCK_SIZE;
  }

  /** Block i of sealed data. */
  lemma SealedBlock(box: SecretBox, at: Counter, p: seq<byte>, i: nat, from: nat, to: nat)
    requires i * BLOCK_DATA_SIZE < |p| && from == i * BLOCK_SIZE && to == from + BLOCK_SIZE
    ensures Clip(Seals(box, at, 0, p), from, to) == box.seal(at(i), Clip(p, i * 65536, (i + 1) * 65536))
  {
    var rest := p[i * BLOCK_DATA_SIZE..];
    SealsDrop(box, at, 0, p, i, i, rest);
    var k := Min(BLOCK_DATA_SIZE, |rest|);
    assert rest[..k] == Clip(p, i * 65536, (i + 1) * 65536);
    FirstSealed(box, at, i, rest, k);
    hide Seals;
    var body := Seals(box, at, 0, p);
    assert Clip(body, from, to) == Clip(body[from..], 0, BLOCK_SIZE);
  }

  /** The layout of an encrypted file: the letters TELDRIVE and two zero bytes, the nonce, and block i of
      64 KiB sealed with the nonce advanced by i, in 16 bytes more. */
  lemma EncryptedLayout(box: SecretBox, n: NonceBytes, p: seq<byte>, i: nat)
    ensures Encrypted(box, n, p)[..34] == [84, 69, 76, 68, 82, 73, 86, 69, 0, 0] + n
    ensures i * 65536 < |p| ==>
              Clip(Encrypted(box, n, p), 34 + i * 65552, 34 + (i + 1) * 65552) ==
              box.seal(Advance(n, i), Clip(p, i * 65536, (i + 1) * 65536))
  {
    hide Seals, Advance;
    var body := Seals(box, CounterFrom(n), 0, p);
    var head := MAGIC + n;
    assert (head + body)[..34] == head;
    if i * 65536 < |p| {
      var from, to := i * 65552, (i + 1) * 65552;
      SealedBlock(box, CounterFrom(n), p, i, from, to);
      BehindHead(head, body, from, to);
    }
  }

  lemma BehindHead(head: seq<byte>, body: seq<byte>, from: nat, to: nat)
    requires |head| == HEADER_SIZE && from <= to
    ensures Clip(head + body, HEADER_SIZE + from, HEADER_SIZE + to) == Clip(body, from, to)
  {
  }

  lemma FirstSealed(box: SecretBox, at: Counter, i: nat, p: seq<byte>, k: nat)
    requires p != [] && k == Min(BLOCK_DATA_SIZE, |p|)
    ensures Clip(Seals(box, at, i, p), 0, BLOCK_SIZE) == box.seal(at(i), p[..k])
  {
    if k < BLOCK_DATA_SIZE {
      assert p[k..] == [];
    }
  }

  /** No proper prefix of a stored block opens: a reader that gives up inside a block is noticed. */
  ghost predicate Untorn(box: SecretBox, at: Counter, i: nat, c: seq<byte>)
    decreases |c|
  {
    c != [] ==>
      var k := Min(BLOCK_SIZE, |c|);
      box.NoPrefixOpens(at(i), c[..k]) && Untorn(box, at, i + 1, c[k..])
  }

  /** Whatever was sealed is untorn. */
  lemma {:induction false} UntornSeals(box: SecretBox, at: Counter, i: nat, p: seq<byte>)
    ensures Untorn(box, at, i, Seals(box, at, i, p))
    decreases |p|
  {
    if p != [] {
      var k := Min(BLOCK_DATA_SIZE, |p|);
      var head, tail := box.seal(at(i), p[..k]), Seals(box, at, i + 1, p[k..]);
      UntornSeals(box, at, i + 1, p[k..]);
      assert box.NoPrefixOpens(at(i), head);
      if k < BLOCK_DATA_SIZE {
        assert tail == [] && head + tail == head && head[..|head|] == head && head[|head|..] == [];
      } else {
        assert (head + tail)[..BLOCK_SIZE] == head && (head + tail)[BLOCK_SIZE..] == tail;
      }
    }
  }

  lemma {:induction false} UntornDrop(box: SecretBox, at: Counter, i: nat, c: seq<byte>, k: nat, j: nat,
                                      rest: seq<byte>)
    requires |c| >= k * BLOCK_SIZE && j == i + k && rest == c[k * BLOCK_SIZE..] && Untorn(box, at, i, c)
    ensures Untorn(box, at, j, rest)
    decreases k
  {
    if k != 0 {
      var mid := c[BLOCK_SIZE..];
      assert rest == mid[(k - 1) * BLOCK_SIZE..];
      UntornDrop(box, at, i + 1, mid, k - 1, j, rest);
    }
  }

  lemma {:induction false} UntornTake(box: SecretBox, at: Counter, i: nat, c: seq<byte>, k: nat)
    requires |c| >= k * BLOCK_SIZE && Untorn(box, at, i, c)
    ensures Untorn(box, at, i, c[..k * BLOCK_SIZE])
    decreases k
  {
    if k != 0 {
      UntornTake(box, at, i + 1, c[BLOCK_SIZE..], k - 1);
      var t := c[..k * BLOCK_SIZE];
      assert t[..BLOCK_SIZE] == c[..BLOCK_SIZE];
      assert t[BLOCK_SIZE..] == c[BLOCK_SIZE..][..(k - 1) * BLOCK_SIZE];
    }
  }

  /** The blocks that random access reopens are as untorn as the whole. */
  lemma UntornWindow(box: SecretBox, at: Counter, body: seq<byte>, offset: nat, limit: int)
    requires Untorn(box, at, 0, body)
    ensures var u := CalculateUnderlying(offset, limit);
            Untorn(box, at, u.blocks, Window(body, u.offset - HEADER_SIZE, u.limit))
  {
    var u := CalculateUnderlying(offset, limit);
    var skip := u.blocks * BLOCK_SIZE;
    if skip > |body| {
      assert Window(body, skip, u.limit) == [];
    } else {
      var tail := body[skip..];
      UntornDrop(box, at, 0, body, u.blocks, u.blocks, tail);
      WindowShift(body, skip, 0, u.limit);
      if limit >= 0 {
        var k := UnderlyingCovers(offset, limit);
        UntornWhole(box, at, u.blocks, tail, k);
      }
    }
  }

  lemma UntornWhole(box: SecretBox, at: Counter, i: nat, c: seq<byte>, k: nat)
    requires Untorn(box, at, i, c)
    ensures Untorn(box, at, i, Window(c, 0, k * BLOCK_SIZE))
  {
    if |c| >= k * BLOCK_SIZE {
      UntornTake(box, at, i, c, k);
      assert Window(c, 0, k * BLOCK_SIZE) == c[..k * BLOCK_SIZE];
    } else {
      assert Window(c, 0, k * BLOCK_SIZE) == c;
    }
  }

  datatype Underlying = Underlying(offset: nat, limit: int, discard: nat, blocks: nat)

  function CalculateUnderlying(offset: nat, limit: int): Underlying {
    var blocks, discard := offset / BLOCK_DATA_SIZE, offset % BLOCK_DATA_SIZE;
    var underlyingLimit :=
      if limit < 0 then -1
      else
        var bytesToRead := limit - (BLOCK_DATA_SIZE - discard);
        var extra :=
          if bytesToRead > 0 then
            bytesToRead / BLOCK_DATA_SIZE + (if bytesToRead % BLOCK_DATA_SIZE != 0 then 1 else 0)
          else 0;
        (1 + extra) * (BLOCK_HEADER_SIZE + BLOCK_DATA_SIZE);
    Underlying(HEADER_SIZE + blocks * (BLOCK_HEADER_SIZE + BLOCK_DATA_SIZE), underlyingLimit, discard, blocks)
  }

  /** The reopened range is whole blocks, covers the limit, and has no spare block when limit > 0. */
  lemma UnderlyingCovers(offset: nat, limit: nat) returns (k: nat)
    ensures var u := CalculateUnderlying(offset, limit);
            && u.limit == k * BLOCK_SIZE && k >= 1
            && u.discard + limit <= k * BLOCK_DATA_SIZE
            && (limit > 0 ==> (k - 1) * BLOCK_DATA_SIZE < u.discard + limit)
  {
    k := CalculateUnderlying(offset, limit).limit / BLOCK_SIZE;
    var bytesToRead := limit - (BLOCK_DATA_SIZE - offset % BLOCK_DATA_SIZE);
    if bytesToRead > 0 {
      var e := bytesToRead / BLOCK_DATA_SIZE + (if bytesToRead % BLOCK_DATA_SIZE != 0 then 1 else 0);
      assert k == 1 + e;
    }
  }

  /** What a reader of f delivers from offset on under a limit, and how it ends: reaching the limit
      looks like end of file. */
  function WindowOf(f: Future, offset: nat, limit: int): Future {
    Future(Window(f.bytes, offset, limit),
           if 0 <= limit && offset < |f.bytes| && offset + limit <= |f.bytes| then EOF else f.last)
  }

  /** Random access agrees with decrypting everything and slicing: opening the blocks that
      CalculateUnderlying names, under the counter moved to their index, and dropping `discard` bytes
      gives the requested window of the whole plaintext. It also ends the same way, unless the
      position lies past the last stored block. */
  lemma RandomAccess(box: SecretBox, at: Counter, body: seq<byte>, offset: nat, limit: int)
    ensures var u := CalculateUnderlying(offset, limit);
            var part := Window(body, u.offset - HEADER_SIZE, u.limit);
            var q := WindowOf(Opens(box, at, u.blocks, part, EOF), u.discard, limit);
            var p := WindowOf(Opens(box, at, 0, body, EOF), offset, limit);
            q.bytes == p.bytes && (u.offset - HEADER_SIZE <= |body| ==> q.last == p.last)
  {
    var u := CalculateUnderlying(offset, limit);
    var k := 1;
    if limit >= 0 {
      k := UnderlyingCovers(offset, limit);
    }
    var skip, all := u.blocks * BLOCK_SIZE, u.blocks * BLOCK_DATA_SIZE + u.discard;
    if skip > |body| {
      PastTheEnd(box, at, body, u.blocks);
    } else {
      BlocksCoverWindow(box, at, body, u.blocks, skip, u.discard, u.limit, limit, k, all);
    }
  }

  lemma PastTheEnd(box: SecretBox, at: Counter, body: seq<byte>, blocks: nat)
    requires blocks * BLOCK_SIZE > |body|
    ensures |Opens(box, at, 0, body, EOF).bytes| <= blocks * BLOCK_DATA_SIZE
  {
    OpensLength(box, at, 0, body);
    assert |body| / BLOCK_SIZE < blocks;
  }

  lemma BlocksCoverWindow(box: SecretBox, at: Counter, body: seq<byte>,
                          blocks: nat, skip: nat, discard: nat, ulimit: int, limit: int, k: nat, offset: nat)
    requires if limit < 0 then ulimit < 0 else ulimit == k * BLOCK_SIZE && discard + limit <= k * BLOCK_DATA_SIZE
    requires skip == blocks * BLOCK_SIZE <= |body| && offset == blocks * BLOCK_DATA_SIZE + discard
    requires discard < k * BLOCK_DATA_SIZE
    ensures var q, p := Opens(box, at, blocks, Window(body, skip, ulimit), EOF), Opens(box, at, 0, body, EOF);
            WindowOf(q, discard, limit) == WindowOf(p, offset, limit)
  {
    hide Opens;
    var p := Opens(box, at, 0, body, EOF);
    var tail := body[skip..];
    OpensDrop(box, at, 0, body, EOF, blocks, blocks, tail);
    var g := Opens(box, at, blocks, tail, EOF);
    WindowShift(p.bytes, blocks * BLOCK_DATA_SIZE, discard, limit);
    assert WindowOf(p, offset, limit) == WindowOf(g, discard, limit);
    WindowShift(body, skip, 0, ulimit);
    assert Window(body, skip, ulimit) == Window(tail, 0, ulimit);
    if limit < 0 {
      assert Window(tail, 0, ulimit) == tail;
    } else {
      WindowTake(box, at, blocks, tail, discard, limit, k);
    }
  }

  /** Blocks past the k that cover a window do not matter to it. */
  lemma WindowTake(box: SecretBox, at: Counter, i: nat, c: seq<byte>, discard: nat, limit: nat, k: nat)
    requires discard + limit <= k * BLOCK_DATA_SIZE && discard < k * BLOCK_DATA_SIZE
    ensures var q := Opens(box, at, i, Window(c, 0, k * BLOCK_SIZE), EOF);
            WindowOf(q, discard, limit) == WindowOf(Opens(box, at, i, c, EOF), discard, limit)
  {
    var t := Opens(box, at, i, c, EOF);
    if |c| >= k * BLOCK_SIZE {
      OpensTake(box, at, i, c, EOF, k);
      assert Window(c, 0, k * BLOCK_SIZE) == c[..k * BLOCK_SIZE];
      assert Window(t.bytes[..k * BLOCK_DATA_SIZE], discard, limit) == Window(t.bytes, discard, limit);
    } else {
      assert Window(c, 0, k * BLOCK_SIZE) == c;
    }
  }

  lemma WindowShift<T>(s: seq<T>, skip: nat, offset: nat, limit: int)
    requires skip <= |s|
    ensures Window(s[skip..], offset, limit) == Window(s, skip + offset, limit)
  {
  }
}
