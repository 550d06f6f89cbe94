/** The seekable decrypter of internal/crypt/cipher.go. */
module DecryptStream {
  import opened Streams
  import opened Nonce
  import opened CipherFormat
  import opened ChunkReader
  import opened UpstreamReader

  /** The last byte that the open callback asks Telegram for. A negative limit asks for everything. */
  function CallbackEnd(size: nat, offset: nat, limit: int): int {
    if limit < 0 then size - 1 else Min(size - 1, offset + limit - 1)
  }

  /** What the OpenRangeSeek callback gives access to: a stored object that can be reopened anywhere, each
      time with a new chunked reader. Nothing is asked of Telegram for an empty range; SeekPanics says for
      which of them the chunk arithmetic of a new reader fails. */
  class StoredObject {
    const content: seq<byte>
    const concurrency: Positive
    const capacity: nat
    const reliable: bool // whether Telegram serves every allowed request

    constructor (content: seq<byte>, concurrency: Positive, capacity: nat, reliable: bool)
      ensures this.content == content && this.concurrency == concurrency
              && this.capacity == capacity && this.reliable == reliable
    {
      this.content, this.concurrency, this.capacity, this.reliable := content, concurrency, capacity, reliable;
    }

    method Open(offset: nat, limit: int) returns (rc: Upstream?, e: Status)
      ensures e == Nil || e.Broken?
      ensures (e == Nil <==> rc != null) && (reliable ==> e == Nil)
      ensures rc != null ==> rc.Valid() && fresh(rc.Repr()) && rc.last == EOF
      ensures rc != null ==> rc.rest == Window(content, offset, limit)
      ensures rc != null ==> (rc.rest != [] <==> rc.chunked != null) && (reliable ==> rc.Steady())
    {
      var reachable: bool := *;
      if !reachable && !reliable {
        return null, Broken(0);
      }
      var end := CallbackEnd(|content|, offset, limit);
      if offset <= end {
        var m := new MultiReader(content, offset, end, concurrency, capacity, reliable);
        rc := new Upstream.Chunked(m);
      } else {
        var nothing := new ByteStream([], EOF);
        rc := new Upstream.Direct(nothing);
      }
      e := Nil;
    }
  }

  /** A seek with a limit makes the new reader panic if and only if the object ends in the KiB in which the
      block asked for would start, before that start. */
  lemma SeekPanics(stored: nat, offset: nat, limit: nat, c: nat)
    requires var u := CalculateUnderlying(offset, limit);
             ChunkSizeFor(u.offset, CallbackEnd(stored, u.offset, u.limit), c)
    ensures var u := CalculateUnderlying(offset, limit);
            CutPanics(u.offset, CallbackEnd(stored, u.offset, u.limit), c) <==>
            u.offset - u.offset % KIB < stored < u.offset
  {
    var u := CalculateUnderlying(offset, limit);
    CutPanicsExactly(u.offset, CallbackEnd(stored, u.offset, u.limit), c);
  }

  /** 65500 bytes, encrypted, and a seek to the start of the next block. */
  lemma SeekPanicsExample()
    ensures var u := CalculateUnderlying(65536, 1);
            CutPanics(u.offset, CallbackEnd(EncryptedSize(65500), u.offset, u.limit), KIB)
  {
    SeekPanics(EncryptedSize(65500), 65536, 1, KIB);
  }

  datatype Whence = SeekStart | SeekCurrent | SeekEnd

  /** Where a seek can succeed: inside the plaintext, or just past a last block that is not full. */
  predicate Seekable(plain: seq<byte>, offset: nat) {
    offset < |plain| || (offset == |plain| && offset % BLOCK_DATA_SIZE != 0)
  }

  /** How a seek to `offset` ends in an object of `stored` bytes that decrypts to `plain`. */
  function SeekOutcome(plain: seq<byte>, stored: nat, offset: nat): Status {
    var at := HEADER_SIZE + offset / BLOCK_DATA_SIZE * BLOCK_SIZE;
    if Seekable(plain, offset) then Nil
    else if stored <= at then EOF
    else if stored <= at + BLOCK_HEADER_SIZE then BadHeader
    else BadSeek
  }

  class Decrypter {
    const box: SecretBox
    const nonce: array<byte>
    var rc: Upstream
    var store: StoredObject?
    var initialNonce: NonceBytes
    var buf: array?<byte>
    var readBuf: array?<byte>
    var bufIndex: nat
    var bufSize: nat
    var err: Status
    var limit: int

    ghost var Repr: set<object>
    ghost var index: nat // of the next block to be opened

    ghost predicate Owned()
      reads this
    {
      && this in Repr && nonce in Repr && rc in Repr && (buf != null ==> buf in Repr)
      && (rc.chunked != null ==> rc.chunked in Repr) && (rc.direct != null ==> rc.direct in Repr)
    }

    /** Everything but the place where rc stands. */
    ghost predicate Intact()
      reads this, nonce, rc, rc.chunked, rc.direct
    {
      && Owned() && rc.Valid()
      && nonce.Length == NONCE_SIZE && nonce[..] == CounterFrom(initialNonce)(index)
      && (err == Nil ==> HasBlocks())
      && (store != null ==> Intelligible(store, box, initialNonce))
    }

    /** rc stands at the start of block `index`, and giving up inside a block would be noticed. */
    ghost predicate Safe()
      reads this, rc, rc.chunked
    {
      rc.Steady() || Untorn(box, CounterFrom(initialNonce), index, rc.rest)
    }

    ghost predicate Valid()
      reads this, nonce, rc, rc.chunked, rc.direct
    {
      Intact() && (err == Nil ==> Safe())
    }

    ghost predicate HasBlocks()
      reads this
    {
      && buf != null && readBuf != null && buf in Repr && readBuf in Repr
      && buf != readBuf && buf != nonce && readBuf != nonce
      && buf.Length == BLOCK_SIZE && readBuf.Length == BLOCK_SIZE
      && bufIndex <= bufSize <= BLOCK_DATA_SIZE
    }

    /** The network cannot fail. */
    ghost predicate Steady()
      reads this, rc, rc.chunked
    {
      !IoFailure(err) && rc.Steady() && !IoFailure(rc.last) && (store != null ==> store.reliable)
    }

    /** What the blocks not yet read will decrypt to. */
    ghost function Unread(): Future
      reads this, rc
    {
      Opens(box, CounterFrom(initialNonce), index, rc.rest, rc.last)
    }

    /** The whole object this decrypter can seek in. */
    ghost function Plain(): Future
      reads this
    {
      if store == null then Future([], EOF) else Decrypted(box, store.content)
    }

    /** What lies ahead of the cursor, limit aside. */
    ghost function Ahead(): Future
      reads this, rc, buf
    {
      Future((if buf == null then [] else Bytes(buf[..], bufIndex, bufSize)) + Unread().bytes, Unread().last)
    }

    /** What this decrypter still owes its reader. */
    ghost function Owes(): Future
      reads this, rc, buf
    {
      if err != Nil then Future([], err) else WindowOf(Ahead(), 0, limit)
    }

    constructor (box: SecretBox, rc: Upstream)
      requires rc.Valid()
      ensures Intact() && err == Nil && bufIndex == bufSize && store == null
      ensures Repr == rc.Repr() + {this, nonce, buf, readBuf} && fresh({this, nonce, buf, readBuf})
      ensures this.box == box && this.rc == rc && index == 0 && limit == -1
    {
      this.box, this.rc, store := box, rc, null;
      var counter := new byte[NONCE_SIZE](_ => 0);
      var block, readBlock := new byte[BLOCK_SIZE], new byte[BLOCK_SIZE];
      nonce, buf, readBuf := counter, block, readBlock;
      initialNonce := Zeros(NONCE_SIZE);
      bufIndex, bufSize, err, limit, index := 0, 0, Nil, -1, 0;
      Repr := {this, counter, block, readBlock} + rc.Repr();
      new;
      assert nonce[..] == Zeros(NONCE_SIZE);
      CounterSteps(Zeros(NONCE_SIZE), 0);
    }

    /** Reads and opens the next block. */
    method FillBuffer() returns (e: Status)
      requires Valid() && err == Nil
      modifies Repr
      ensures Intact() && (e != Abandoned ==> Safe())
      ensures Repr == old(Repr) && err == Nil && store == old(store) && initialNonce == old(initialNonce)
      ensures limit == old(limit) && rc == old(rc)
      ensures e == Nil ==> bufIndex == 0 && Ahead() == old(Unread()) && 0 < bufSize
      ensures e == Nil ==> bufSize == if |old(rc.rest)| < BLOCK_SIZE then |Ahead().bytes| else BLOCK_DATA_SIZE
      ensures e != Nil && e != Abandoned ==> old(Unread()) == Future([], e)
      ensures old(rc.Steady()) ==> rc.Steady() && e != Abandoned && (e.Broken? ==> e == rc.last)
    {
      hide Upstream.Valid, Upstream.Steady, Opens, Untorn, CounterFrom;
      ghost var c, at, i, j := rc.rest, CounterFrom(initialNonce), index, index + 1;
      var n, readErr := rc.ReadFill(readBuf, BLOCK_SIZE);
      OpensFails(box, at, i, c, rc.last);
      UntornEmpty(box, at, i);
      if n == 0 {
        return readErr;
      }
      if n <= BLOCK_HEADER_SIZE {
        return if readErr != Nil && readErr != EOF then readErr else BadHeader;
      }
      assert readErr != Abandoned && n < BLOCK_SIZE ==> readBuf[..n] == c;
      var result := box.open(nonce[..], readBuf[..n]);
      if readErr == Abandoned {
        TornBlock(box, at, i, c, n);
      }
      if result.None? && readErr != Nil && readErr != EOF {
        return readErr;
      }
      var m := match result case Some(m) => m case None => Zeros(n - BLOCK_HEADER_SIZE);
      OpensNext(box, at, i, c, rc.last, j, rc.rest);
      UntornNext(box, at, i, c, j, rc.rest);
      StoreBlock(m, j);
      e := Nil;
    }

    /** Puts a decrypted block in the buffer and moves on to the next nonce. */
    method StoreBlock(m: seq<byte>, ghost j: nat)
      requires Intact() && err == Nil && 0 < |m| <= BLOCK_DATA_SIZE && j == index + 1
      requires rc.Steady() || Untorn(box, CounterFrom(initialNonce), j, rc.rest)
      modifies this`bufIndex, this`bufSize, this`index, buf, nonce
      ensures Valid() && index == j
      ensures bufIndex == 0 && bufSize == |m| && Ahead() == Future(m + Unread().bytes, Unread().last)
    {
      hide Upstream.Valid, Upstream.Steady, Upstream.Repr, Opens, Untorn, CounterFrom, Intelligible;
      Copy(buf, 0, m);
      BytesAre(buf[..], 0, |m|);
      assert buf[..][0..|m|] == m;
      bufIndex, bufSize := 0, |m|;
      Increment(nonce);
      CounterSteps(initialNonce, index);
      index := index + 1;
      assert Owned() && rc.Valid() && HasBlocks() && nonce[..] == CounterFrom(initialNonce)(index);
    }

    method Finish(e: Status) returns (r: Status)
      requires Intact() && err == Nil && e != Nil
      modifies this`err, this`buf, this`readBuf
      ensures Valid() && Repr == old(Repr) && store == old(store) && initialNonce == old(initialNonce) && r == err == e
    {
      hide Upstream.Valid, Upstream.Steady;
      if err != Nil {
        return err;
      }
      err, buf, readBuf := e, null, null;
      r := e;
    }

    /** The limit is what ends this stream, so its end is reported along with the last byte. */
    ghost predicate Bounded()
      reads this, rc, buf
    {
      err == Nil ==> limit == |Owes().bytes| && limit > 0
    }

    /** Hands out a prefix of what is owed. A failure of the chunked reader ends the stream without bytes. */
    method Read(p: array<byte>) returns (n: nat, e: Status)
      requires Valid() && p !in Repr
      modifies Repr, p
      ensures Valid() && Owned() && Repr == old(Repr) && store == old(store) && initialNonce == old(initialNonce)
      ensures n <= p.Length && p[n..] == old(p[n..]) && e == err
      ensures e == Abandoned ==> n == 0
      ensures e != Abandoned ==>
                Owes().last == old(Owes().last) &&
                ReadStep(old(Owes().bytes), p.Length, p[..n], e, Owes().bytes, Owes().last)
      ensures old(err) != Nil ==> e == old(err)
      ensures old(Bounded()) ==> Bounded()
      ensures old(Steady()) ==> Steady()
    {
      hide Upstream.Valid, Upstream.Steady, Opens, Untorn, WindowOf, CounterFrom;
      if err != Nil {
        return 0, err;
      }
      e := Ready();
      if e != Nil {
        return 0, e;
      }
      n, e := Emit(p);
    }

    /** Makes sure that there is something to hand out, or ends the stream. */
    method Ready() returns (e: Status)
      requires Valid() && err == Nil
      modifies Repr
      ensures Valid() && Repr == old(Repr) && store == old(store) && initialNonce == old(initialNonce) && err == e
      ensures e == Nil ==> bufIndex < bufSize && limit == old(limit) && Owes() == old(Owes())
      ensures e != Nil && e != Abandoned ==> old(Owes()) == Future([], e)
      ensures old(Steady()) ==> Steady()
    {
      hide Upstream.Valid, Upstream.Steady, WindowOf, Opens, Untorn;
      e := Nil;
      if bufIndex >= bufSize {
        assert Ahead() == Unread();
        e := FillBuffer();
        if e != Nil {
          NothingLeft(e, limit);
          e := Finish(e);
        }
      }
    }

    /** Hands out buffered bytes, up to the limit; using up the limit ends the stream. */
    method Emit(p: array<byte>) returns (n: nat, e: Status)
      requires Valid() && err == Nil && p !in Repr && bufIndex < bufSize
      modifies this`bufIndex, this`limit, this`err, this`buf, this`readBuf, p
      ensures Valid() && n <= p.Length && p[n..] == old(p[n..]) && e == err && (e == Nil || e == EOF)
      ensures Owes().last == old(Owes().last)
      ensures ReadStep(old(Owes().bytes), p.Length, p[..n], e, Owes().bytes, Owes().last)
      ensures old(Bounded()) ==> Bounded()
    {
      hide Upstream.Valid, Upstream.Steady, Opens, Untorn;
      ghost var f, bound := Ahead(), limit;
      var toCopy: nat := bufSize - bufIndex;
      if 0 <= limit < toCopy {
        toCopy := limit;
      }
      n := CopyOut(p, toCopy);
      WindowAdvance(f, bound, p[..n], Ahead().bytes);
      if limit >= 0 {
        limit := limit - n;
        if limit == 0 {
          e := Finish(EOF);
          return;
        }
      }
      e := Nil;
    }

    method CopyOut(p: array<byte>, toCopy: nat) returns (n: nat)
      requires Valid() && err == Nil && p !in Repr && bufIndex + toCopy <= bufSize
      modifies this`bufIndex, p
      ensures Valid() && n == Min(p.Length, toCopy) && p[n..] == old(p[n..])
      ensures old(Ahead()) == Future(p[..n] + Ahead().bytes, Ahead().last)
    {
      hide Upstream.Valid, Upstream.Steady, Opens, Untorn;
      ghost var tail, data, from, to := Unread().bytes, buf[..], bufIndex, bufSize;
      n := Min(p.Length, toCopy);
      var chunk := buf[bufIndex..bufIndex + n];
      ghost var mid := bufIndex + n;
      BytesAre(data, from, mid);
      JoinBytes(data, from, mid, to);
      Associate(chunk, Bytes(data, mid, to), tail);
      Copy(p, 0, chunk);
      assert p[..n] == p[0..n];
      bufIndex := bufIndex + n;
    }

    /** Steps over the first bytes of the buffered block, and limits what follows. */
    method Discard(n: nat, limit: int)
      requires Valid() && err == Nil && bufIndex == 0 && n <= bufSize
      modifies this`bufIndex, this`limit
      ensures Valid() && |old(Ahead().bytes)| >= n && Ahead() == Future(old(Ahead().bytes)[n..], old(Ahead().last))
      ensures this.limit == limit
    {
      hide Upstream.Valid, Upstream.Steady, Opens;
      ghost var data, to, tail := buf[..], bufSize, Unread().bytes;
      JoinBytes(data, 0, n, to);
      BytesAre(data, 0, n);
      assert (Bytes(data, 0, n) + Bytes(data, n, to)) + tail == Bytes(data, 0, n) + (Bytes(data, n, to) + tail);
      bufIndex, this.limit := n, limit;
    }

    /** Reopens the object at the block that holds `offset` and moves there. */
    method RangeSeek(offset: nat, whence: Whence, limit: int) returns (pos: nat, e: Status)
      requires Valid() && offset / BLOCK_DATA_SIZE < 0x1_0000_0000_0000_0000
      modifies Repr
      ensures Valid() && fresh(Repr - old(Repr)) && store == old(store) && initialNonce == old(initialNonce) && e == err
      ensures e == Nil ==> this.limit == limit && pos == offset && Owes() == WindowOf(Plain(), offset, limit)
      ensures e == Nil ==> rc.chunked != null
      ensures old(err) != Nil && (old(err) != EOF || store == null || whence != SeekStart) ==> e == old(err)
      ensures old(err) == Nil && (store == null || whence != SeekStart) ==> e == NotSeekable
      ensures store != null && whence == SeekStart && (old(err) == Nil || old(err) == EOF) ==>
                IoFailure(e) || e == SeekOutcome(Plain().bytes, |store.content|, offset)
      ensures old(Steady()) ==> Steady()
    {
      hide Upstream.Valid, Upstream.Steady;
      pos := 0;
      if store == null || whence != SeekStart {
        if err != Nil {
          return 0, err;
        }
        e := Finish(NotSeekable);
        return;
      }
      if err == EOF {
        UnFinish();
      } else if err != Nil {
        return 0, err;
      }
      var u := CalculateUnderlying(offset, limit);
      e := Reopen(u, offset, limit);
      if e == Nil {
        ghost var w, outcome := WindowOf(Plain(), offset, limit), SeekOutcome(Plain().bytes, |store.content|, offset);
        e := Land(w, outcome, u.discard, limit);
        pos := if e == Nil then offset else 0;
      }
    }

    /** Moves the counter and reopens the object. */
    method Reopen(u: Underlying, ghost offset: nat, ghost limit: int) returns (e: Status)
      requires Intact() && err == Nil && store != null && u == CalculateUnderlying(offset, limit)
      requires u.blocks < 0x1_0000_0000_0000_0000
      modifies this`rc, this`Repr, this`index, this`err, this`buf, this`readBuf, nonce
      ensures Valid() && old(Repr) <= Repr && fresh(Repr - old(Repr)) && err == e && (e == Nil || e.Broken?)
      ensures e == Nil ==> Reopened(Unread(), |rc.rest|, WindowOf(Plain(), offset, limit),
                                    SeekOutcome(Plain().bytes, |store.content|, offset), u.discard, limit)
      ensures e == Nil ==> (rc.rest != [] ==> rc.chunked != null) && rc.last == EOF
      ensures store.reliable ==> e == Nil && rc.Steady()
    {
      hide Upstream.Valid, Upstream.Steady;
      ghost var n, content := initialNonce, store.content;
      MoveNonce(u.blocks);
      var reopened;
      reopened, e := store.Open(u.offset, u.limit);
      if reopened == null {
        e := Finish(e);
        return;
      }
      ReopenedRight(box, content, n, offset, limit);
      ReopenedSound(store, box, n, offset, limit, reopened.rest);
      Attach(reopened);
    }

    /** Reads on from a reopened stream. */
    method Attach(reopened: Upstream)
      requires Intact() && err == Nil && reopened.Valid()
      requires reopened.Steady() || Untorn(box, CounterFrom(initialNonce), index, reopened.rest)
      modifies this`rc, this`Repr
      ensures Valid() && rc == reopened && Repr == old(Repr) + reopened.Repr()
    {
      hide Upstream.Valid, Upstream.Steady;
      rc := reopened;
      Repr := Repr + reopened.Repr();
    }

    /** Fills the buffer from the reopened object and steps to the position inside the block. */
    method Land(ghost w: Future, ghost outcome: Status, discard: nat, limit: int) returns (e: Status)
      requires Valid() && this in Repr && err == Nil && discard < BLOCK_DATA_SIZE
      requires Reopened(Unread(), |rc.rest|, w, outcome, discard, limit)
      modifies Repr
      ensures Valid() && Repr == old(Repr) && store == old(store) && initialNonce == old(initialNonce) && e == err
      ensures rc == old(rc) && (e == Nil ==> this.limit == limit && Owes() == w && old(rc.rest) != [])
      ensures e == Abandoned || e == outcome
      ensures old(rc.Steady()) ==> rc.Steady() && e != Abandoned
    {
      hide Upstream.Valid, Upstream.Steady, WindowOf, Opens, Untorn, Decrypter.Intact, Decrypter.Safe;
      ghost var q := Unread();
      var fillErr := FillBuffer();
      if fillErr != Nil {
        e := Finish(fillErr);
        return;
      }
      if discard > bufSize {
        e := Finish(BadSeek);
        return;
      }
      Discard(discard, limit);
      WindowDiscard(q, discard, limit);
      e := Nil;
    }

    method Seek(offset: nat, whence: Whence) returns (pos: nat, e: Status)
      requires Valid() && offset / BLOCK_DATA_SIZE < 0x1_0000_0000_0000_0000
      modifies Repr
      ensures Valid() && fresh(Repr - old(Repr)) && store == old(store) && initialNonce == old(initialNonce) && e == err
      ensures e == Nil ==> pos == offset && Owes() == WindowOf(Plain(), offset, -1)
      ensures old(err) != Nil && (old(err) != EOF || store == null || whence != SeekStart) ==> e == old(err)
      ensures old(err) == Nil && (store == null || whence != SeekStart) ==> e == NotSeekable
      ensures store != null && whence == SeekStart && (old(err) == Nil || old(err) == EOF) ==>
                IoFailure(e) || e == SeekOutcome(Plain().bytes, |store.content|, offset)
      ensures old(Steady()) ==> Steady()
    {
      pos, e := RangeSeek(offset, whence, -1);
    }

    /** Sets the counter to that of the block with the given index. */
    method MoveNonce(blocks: nat)
      requires Intact() && blocks < 0x1_0000_0000_0000_0000
      modifies this`index, nonce
      ensures Intact() && index == blocks
    {
      hide Upstream.Valid, Upstream.Steady;
      Copy(nonce, 0, initialNonce);
      assert nonce[..] == nonce[0..|initialNonce|];
      Add(nonce, blocks);
      CounterSteps(initialNonce, blocks);
      index := blocks;
    }

    method UnFinish()
      requires Intact()
      modifies this`err, this`buf, this`readBuf, this`bufIndex, this`bufSize, this`Repr
      ensures Intact() && fresh(Repr - old(Repr)) && old(Repr) <= Repr && err == Nil && bufIndex == bufSize
    {
      hide Upstream.Valid, Upstream.Steady, Upstream.Repr, Opens, Untorn, CounterFrom, Intelligible;
      var block, readBlock := GetBlocks();
      err, buf, readBuf, bufIndex, bufSize := Nil, block, readBlock, 0, 0;
      Repr := Repr + {block, readBlock};
      assert Owned();
      assert HasBlocks() by {
        hide Owned, Upstream.Valid;
      }
      assert rc.Valid() && nonce[..] == CounterFrom(initialNonce)(index);
    }

    method GetBlocks() returns (block: array<byte>, readBlock: array<byte>)
      ensures fresh(block) && fresh(readBlock) && block != readBlock
      ensures block.Length == BLOCK_SIZE && readBlock.Length == BLOCK_SIZE
    {
      block, readBlock := new byte[BLOCK_SIZE], new byte[BLOCK_SIZE];
    }

    method Close()
      requires Valid()
      modifies this`err, this`buf, this`readBuf, rc.chunked
      ensures Valid() && Repr == old(Repr) && err == Closed && store == old(store)
    {
      hide Upstream.Valid, Upstream.Steady;
      if err == Closed {
        return;
      }
      if err == Nil {
        var _ := Finish(EOF);
      }
      err := Closed;
      rc.Close();
    }
  }

  /** The decrypter can read this object: its header, and whether a block was cut short. */
  ghost predicate Intelligible(store: StoredObject, box: SecretBox, n: NonceBytes) {
    && IsHeader(store.content, n)
    && (store.reliable || Untorn(box, CounterFrom(n), 0, store.content[HEADER_SIZE..]))
  }

  ghost predicate IsHeader(content: seq<byte>, n: NonceBytes) {
    |content| >= HEADER_SIZE && content[..|MAGIC|] == MAGIC && content[|MAGIC|..HEADER_SIZE] == n
  }

  /** One step of Opens, for a block that the decrypter accepts. */
  lemma OpensNext(box: SecretBox, at: Counter, i: nat, c: seq<byte>, last: Status, j: nat, rest: seq<byte>)
    requires |c| > BLOCK_HEADER_SIZE && j == i + 1 && rest == c[Min(BLOCK_SIZE, |c|)..]
    requires |c| < BLOCK_SIZE && last != EOF ==> box.open(at(i), c).Some?
    ensures var f, g := Opens(box, at, i, c, last), Opens(box, at, j, rest, last);
            && f == Future(OpenOrZeros(box, at(i), c[..Min(BLOCK_SIZE, |c|)]) + g.bytes, g.last)
            && (|c| < BLOCK_SIZE ==> g.bytes == [])
  {
    if |c| < BLOCK_SIZE {
      assert c[..|c|] == c && rest == [];
      var m := OpenOrZeros(box, at(i), c);
      assert m + [] == m;
    }
  }

  /** The last piece of a stream that is no block. */
  lemma OpensFails(box: SecretBox, at: Counter, i: nat, c: seq<byte>, last: Status)
    ensures var f := Opens(box, at, i, c, last);
            && (c == [] ==> f == Future([], last))
            && (0 < |c| <= BLOCK_HEADER_SIZE ==> f == Future([], if last == EOF then BadHeader else last))
            && (BLOCK_HEADER_SIZE < |c| < BLOCK_SIZE && last != EOF && box.open(at(i), c).None? ==>
                  f == Future([], last))
  {
  }

  /** Nothing is left to be torn. */
  lemma UntornEmpty(box: SecretBox, at: Counter, i: nat)
    ensures Untorn(box, at, i, [])
  {
  }

  /** A block that the reader gave up on does not open. */
  lemma TornBlock(box: SecretBox, at: Counter, i: nat, c: seq<byte>, n: nat)
    requires Untorn(box, at, i, c) && n < BLOCK_SIZE && n < |c|
    ensures box.open(at(i), c[..n]).None?
  {
    var k := Min(BLOCK_SIZE, |c|);
    assert c[..k][..n] == c[..n];
  }

  lemma UntornNext(box: SecretBox, at: Counter, i: nat, c: seq<byte>, j: nat, rest: seq<byte>)
    requires c != [] && j == i + 1 && rest == c[Min(BLOCK_SIZE, |c|)..]
    ensures Untorn(box, at, i, c) ==> Untorn(box, at, j, rest)
  {
  }

  /** Delivering the first bytes of a window leaves the rest of that window. */
  lemma WindowAdvance(f: Future, limit: int, out: seq<byte>, after: seq<byte>)
    requires f.bytes == out + after && (limit >= 0 ==> |out| <= limit) && f.bytes != []
    ensures var left := if limit < 0 then limit else limit - |out|;
            var w, v := WindowOf(f, 0, limit), WindowOf(Future(after, f.last), 0, left);
            && w.bytes == out + v.bytes
            && (limit == |out| ==> w.last == EOF && v.bytes == [])
            && (limit != |out| ==> w.last == v.last)
  {
  }

  lemma NothingLeft(last: Status, limit: int)
    ensures WindowOf(Future([], last), 0, limit) == Future([], last)
  {
  }

  lemma WindowDiscard(f: Future, discard: nat, limit: int)
    requires discard <= |f.bytes|
    ensures WindowOf(Future(f.bytes[discard..], f.last), 0, limit) == WindowOf(f, discard, limit)
  {
    WindowShift(f.bytes, discard, 0, limit);
  }

  /** q, decrypted from `stored` reopened bytes, is the right place to look for a window w, and looking
      there ends with `outcome`. */
  ghost predicate Reopened(q: Future, stored: nat, w: Future, outcome: Status, discard: nat, limit: int) {
    && (q.bytes == [] ==> outcome == q.last != Nil && stored < BLOCK_SIZE)
    && (q.bytes != [] && stored < BLOCK_SIZE ==> outcome == if discard <= |q.bytes| then Nil else BadSeek)
    && (stored >= BLOCK_SIZE ==> outcome == Nil)
    && (q.bytes != [] ==> stored > 0 && WindowOf(q, discard, limit) == w)
  }

  lemma ReopenedRight(box: SecretBox, content: seq<byte>, n: NonceBytes, offset: nat, limit: int)
    requires IsHeader(content, n)
    ensures var u := CalculateUnderlying(offset, limit);
            var part, p := Window(content, u.offset, u.limit), Decrypted(box, content);
            Reopened(Opens(box, CounterFrom(n), u.blocks, part, EOF), |part|,
                     WindowOf(p, offset, limit), SeekOutcome(p.bytes, |content|, offset), u.discard, limit)
  {
    hide Window, Advance;
    var u, body := CalculateUnderlying(offset, limit), content[HEADER_SIZE..];
    WindowShift(content, HEADER_SIZE, u.offset - HEADER_SIZE, u.limit);
    SeekEnds(box, CounterFrom(n), body, offset, limit);
    RandomAccess(box, CounterFrom(n), body, offset, limit);
  }

  lemma ReopenedSound(store: StoredObject, box: SecretBox, n: NonceBytes, offset: nat, limit: int, part: seq<byte>)
    requires Intelligible(store, box, n)
    requires var u := CalculateUnderlying(offset, limit); part == Window(store.content, u.offset, u.limit)
    ensures store.reliable || Untorn(box, CounterFrom(n), offset / BLOCK_DATA_SIZE, part)
  {
    hide Window, Untorn;
    if !store.reliable {
      var u, body := CalculateUnderlying(offset, limit), store.content[HEADER_SIZE..];
      WindowShift(store.content, HEADER_SIZE, u.offset - HEADER_SIZE, u.limit);
      UntornWindow(box, CounterFrom(n), body, offset, limit);
    }
  }

  /** Whether a seek finds its position in the block it reopened. */
  lemma SeekEnds(box: SecretBox, at: Counter, body: seq<byte>, offset: nat, limit: int)
    ensures var u := CalculateUnderlying(offset, limit);
            var part, plain := Window(body, u.offset - HEADER_SIZE, u.limit), Opens(box, at, 0, body, EOF).bytes;
            var q, outcome := Opens(box, at, u.blocks, part, EOF), SeekOutcome(plain, |body| + HEADER_SIZE, offset);
            && (q.bytes == [] ==> outcome == q.last && |part| < BLOCK_SIZE)
            && (q.bytes != [] ==> u.offset - HEADER_SIZE <= |body|)
            && (q.bytes != [] && |part| < BLOCK_SIZE ==> outcome == if u.discard <= |q.bytes| then Nil else BadSeek)
            && (|part| >= BLOCK_SIZE ==> outcome == Nil)
  {
    var u := CalculateUnderlying(offset, limit);
    var skip := u.blocks * BLOCK_SIZE;
    if skip > |body| {
      PastTheEnd(box, at, body, u.blocks);
      assert Window(body, skip, u.limit) == [];
    } else {
      var tail := body[skip..];
      OpensDrop(box, at, 0, body, EOF, u.blocks, u.blocks, tail);
      WindowShift(body, skip, 0, u.limit);
      if limit >= 0 {
        var _ := UnderlyingCovers(offset, limit);
      }
      SeekInTail(box, at, u.blocks, tail, Window(tail, 0, u.limit), u.discard);
    }
  }

  lemma SeekInTail(box: SecretBox, at: Counter, i: nat, tail: seq<byte>, part: seq<byte>, discard: nat)
    requires part <= tail && (|part| < BLOCK_SIZE ==> part == tail) && discard < BLOCK_DATA_SIZE
    ensures var g, q := Opens(box, at, i, tail, EOF).bytes, Opens(box, at, i, part, EOF);
            && (|part| < BLOCK_SIZE ==> g == q.bytes && |g| == Max(|tail| - BLOCK_HEADER_SIZE, 0))
            && (|part| < BLOCK_SIZE ==> q.last == if 0 < |tail| <= BLOCK_HEADER_SIZE then BadHeader else EOF)
            && (|part| >= BLOCK_SIZE ==> |g| >= BLOCK_DATA_SIZE && q.bytes != [])
  {
    if |part| < BLOCK_SIZE {
      ShortBlock(box, at, i, part);
    } else {
      FullBlock(box, at, i, part);
      FullBlock(box, at, i, tail);
    }
  }

  lemma ShortBlock(box: SecretBox, at: Counter, i: nat, c: seq<byte>)
    requires |c| < BLOCK_SIZE
    ensures var f := Opens(box, at, i, c, EOF);
            && |f.bytes| == Max(|c| - BLOCK_HEADER_SIZE, 0)
            && f.last == if 0 < |c| <= BLOCK_HEADER_SIZE then BadHeader else EOF
  {
  }

  lemma FullBlock(box: SecretBox, at: Counter, i: nat, c: seq<byte>)
    requires |c| >= BLOCK_SIZE
    ensures |Opens(box, at, i, c, EOF).bytes| >= BLOCK_DATA_SIZE
  {
  }

  /** Reads the header of an encrypted stream and prepares to decrypt what follows. */
  method NewDecrypter(box: SecretBox, rc: Upstream) returns (fh: Decrypter?, e: Status)
    requires rc.Valid()
    modifies rc.Repr()
    ensures fh != null <==> e == Nil
    ensures fh != null ==>
              && fh.Intact() && fresh(fh) && fresh(fh.Repr - rc.Repr())
              && fh.err == Nil && fh.store == null && fh.box == box
              && IsHeader(old(rc.rest), fh.initialNonce) && fh.rc == rc && rc.rest == old(rc.rest)[HEADER_SIZE..]
              && fh.index == 0 && fh.bufIndex == fh.bufSize && fh.limit == -1
    ensures fh == null && e != Abandoned ==>
              if |old(rc.rest)| < HEADER_SIZE then e == (if rc.last == EOF then TooShort else rc.last)
              else old(rc.rest)[..|MAGIC|] != MAGIC && e == BadMagic
    ensures old(rc.Steady()) ==> rc.Steady() && e != Abandoned
  {
    hide Upstream.Valid, Upstream.Steady;
    ghost var c := rc.rest;
    var d := new Decrypter(box, rc);
    var n, readErr := rc.ReadFill(d.readBuf, HEADER_SIZE);
    assert d.readBuf[..n] == c[..n];
    if n < HEADER_SIZE && readErr == EOF {
      return null, TooShort;
    } else if readErr != EOF && readErr != Nil {
      return null, readErr;
    }
    assert d.readBuf[..|MAGIC|] == d.readBuf[..n][..|MAGIC|];
    if d.readBuf[..|MAGIC|] != MAGIC {
      return null, BadMagic;
    }
    assert d.readBuf[|MAGIC|..HEADER_SIZE] == d.readBuf[..n][|MAGIC|..HEADER_SIZE];
    SetNonce(d, d.readBuf[|MAGIC|..HEADER_SIZE]);
    return d, Nil;
  }

  /** Takes the nonce of the header for the counter of the first block, and keeps it for later seeks. */
  method SetNonce(d: Decrypter, n: NonceBytes)
    requires d.Intact() && d.index == 0 && d.store == null
    modifies d`initialNonce, d.nonce
    ensures d.Intact() && d.initialNonce == n
  {
    d.initialNonce := n;
    Copy(d.nonce, 0, n);
    assert d.nonce[..] == d.nonce[0..NONCE_SIZE];
    CounterSteps(n, 0);
  }

  /** Whether an object starts with a header that newDecrypter accepts. */
  predicate GoodHeader(content: seq<byte>) {
    |content| >= HEADER_SIZE && content[..|MAGIC|] == MAGIC
  }

  /** If the object is encrypted at all, none of its blocks can be mistaken for a shorter one. */
  ghost predicate Sound(box: SecretBox, content: seq<byte>) {
    GoodHeader(content) ==>
      Untorn(box, CounterFrom(content[|MAGIC|..HEADER_SIZE]), 0, content[HEADER_SIZE..])
  }

  /** What the first opening asks for: the header alone, or the header and the blocks behind it. */
  function FirstLimit(offset: nat, limit: int): int {
    if offset != 0 then HEADER_SIZE
    else if limit < 0 then -1
    else HEADER_SIZE + CalculateUnderlying(0, limit).limit
  }

  /** Opens a stored object at a position: the reader that comes back owes exactly the requested
      window of the decrypted object. */
  method NewDecrypterSeek(box: SecretBox, store: StoredObject, offset: nat, limit: int)
    returns (fh: Decrypter?, e: Status)
    requires offset / BLOCK_DATA_SIZE < 0x1_0000_0000_0000_0000
    requires store.reliable || Sound(box, store.content)
    ensures fh != null <==> e == Nil
    ensures fh != null ==>
              && fh.Valid() && fh.Owned() && fresh(fh) && fresh(fh.Repr) && fh.store == store && fh.box == box
              && fh.rc.chunked != null && fh.err == Nil && fh.limit == limit
              && fh.Owes() == WindowOf(Decrypted(box, store.content), offset, limit)
    ensures var plain := Decrypted(box, store.content).bytes;
            IoFailure(e) || (e == Nil <==> GoodHeader(store.content) && (offset == 0 || Seekable(plain, offset)))
    ensures !IoFailure(e) && !GoodHeader(store.content) ==> e == Decrypted(box, store.content).last
    ensures store.reliable ==> !IoFailure(e) && (fh != null ==> fh.Steady())
  {
    hide Upstream.Valid, Upstream.Steady, WindowOf, Opens, Untorn;
    fh, e := OpenHeader(box, store, offset, limit);
    if fh != null {
      if offset != 0 {
        var pos;
        pos, e := fh.RangeSeek(offset, SeekStart, limit);
        if e != Nil {
          fh := null;
        }
      } else {
        fh.limit := limit;
      }
    }
  }

  /** The first opening, up to the header. */
  method OpenHeader(box: SecretBox, store: StoredObject, offset: nat, limit: int)
    returns (fh: Decrypter?, e: Status)
    requires store.reliable || Sound(box, store.content)
    ensures fh != null <==> e == Nil
    ensures fh != null ==>
              && fh.Valid() && fresh(fh) && fresh(fh.Repr) && fh.store == store && fh.box == box
              && fh.rc.chunked != null
              && fh.err == Nil && fh.limit == -1 && GoodHeader(store.content)
              && fh.Plain() == Decrypted(box, store.content)
    ensures fh != null && offset == 0 ==>
              WindowOf(fh.Ahead(), 0, limit) == WindowOf(Decrypted(box, store.content), 0, limit)
    ensures fh == null && !IoFailure(e) ==> !GoodHeader(store.content) && e == Decrypted(box, store.content).last
    ensures store.reliable ==> !IoFailure(e) && (fh != null ==> fh.Steady())
  {
    hide Upstream.Valid, Upstream.Steady, MultiReader.Valid, WindowOf, Window, Opens, Untorn;
    var rc;
    rc, e := store.Open(0, FirstLimit(offset, limit));
    if rc == null {
      return null, e;
    }
    HeaderSeen(store.content, offset, limit, rc.rest);
    fh, e := NewDecrypter(box, rc);
    if fh != null {
      StartsRight(box, store.content, fh.initialNonce, offset, limit, rc.rest);
      assert fh.Ahead() == Opens(box, CounterFrom(fh.initialNonce), 0, rc.rest, EOF);
      fh.store := store;
    }
  }

  /** The first opening shows the header, if there is one. */
  lemma HeaderSeen(content: seq<byte>, offset: nat, limit: int, w: seq<byte>)
    requires w == Window(content, 0, FirstLimit(offset, limit))
    ensures |w| >= HEADER_SIZE <==> |content| >= HEADER_SIZE
    ensures |w| >= HEADER_SIZE ==>
              w[..|MAGIC|] == content[..|MAGIC|] && w[|MAGIC|..HEADER_SIZE] == content[|MAGIC|..HEADER_SIZE]
  {
    if |w| >= HEADER_SIZE {
      assert w[..HEADER_SIZE] == content[..HEADER_SIZE];
      assert w[..|MAGIC|] == w[..HEADER_SIZE][..|MAGIC|] && content[..|MAGIC|] == content[..HEADER_SIZE][..|MAGIC|];
      assert w[|MAGIC|..HEADER_SIZE] == w[..HEADER_SIZE][|MAGIC|..];
      assert content[|MAGIC|..HEADER_SIZE] == content[..HEADER_SIZE][|MAGIC|..];
    }
  }

  /** The bytes after the header are the right ones to start from: at offset 0 they are the blocks that
      the limit needs, and elsewhere there are none. */
  lemma StartsRight(box: SecretBox, content: seq<byte>, n: NonceBytes, offset: nat, limit: int, rest: seq<byte>)
    requires IsHeader(content, n)
    requires rest == Window(content, 0, FirstLimit(offset, limit))[HEADER_SIZE..]
    ensures Sound(box, content) ==> Untorn(box, CounterFrom(n), 0, rest)
    ensures offset == 0 ==>
              WindowOf(Opens(box, CounterFrom(n), 0, rest, EOF), 0, limit) ==
              WindowOf(Decrypted(box, content), 0, limit)
  {
    var u, body := CalculateUnderlying(0, limit), content[HEADER_SIZE..];
    if offset != 0 {
      assert rest == [];
    } else {
      assert rest == Window(body, 0, u.limit);
      RandomAccess(box, CounterFrom(n), body, 0, limit);
      if Sound(box, content) {
        UntornWindow(box, CounterFrom(n), body, 0, limit);
      }
    }
  }

  /** One Read with a fresh buffer of the given size. */
  method ReadOnce(fh: Decrypter, size: nat, ghost owed: Future)
    returns (chunk: seq<byte>, e: Status, ghost after: Future)
    requires fh.Valid() && fh.Owes() == owed
    modifies fh.Repr
    ensures fh.Valid() && fh.Repr == old(fh.Repr) && fh.store == old(fh.store)
            && fh.initialNonce == old(fh.initialNonce)
    ensures fh.Owes() == after && fh.err == e && (e == Abandoned ==> chunk == [])
    ensures e != Abandoned ==> after.last == owed.last && ReadStep(owed.bytes, size, chunk, e, after.bytes, owed.last)
    ensures old(fh.err) != Nil ==> e == old(fh.err)
    ensures old(fh.Steady()) ==> fh.Steady()
  {
    var p := new byte[size];
    var n;
    n, e := fh.Read(p);
    chunk, after := p[..n], fh.Owes();
  }

  /** Reads until the first error, with buffers of any sizes: exactly what was owed, unless the network
      fails, and a prefix of it then. */
  method ReadToEnd(fh: Decrypter, sizes: nat -> nat, ghost owed: Future) returns (out: seq<byte>, e: Status)
    requires fh.Valid() && fh.Owes() == owed && forall i :: sizes(i) > 0
    modifies fh.Repr
    ensures e != Abandoned ==> owed == Future(out, e)
    ensures out <= owed.bytes
    ensures old(fh.Steady()) ==> !IoFailure(e)
  {
    hide Decrypter.Valid, Decrypter.Owes, Decrypter.Steady;
    out, e := [], Nil;
    ghost var left, repr := owed.bytes, fh.Repr;
    var i := 0;
    while e == Nil
      invariant fh.Valid() && fh.Repr == repr
      invariant e != Abandoned ==> fh.Owes() == Future(left, owed.last)
      invariant owed.bytes == out + left
      invariant e != Nil && e != Abandoned ==> e == owed.last && left == []
      invariant old(fh.Steady()) ==> fh.Steady() && !IoFailure(e)
      decreases |left|, e == Nil
    {
      ghost var before, done, after := left, out, owed;
      var chunk;
      chunk, e, after := ReadOnce(fh, sizes(i), Future(before, owed.last));
      if e != Abandoned {
        HandOut(owed.bytes, done, before, chunk, after.bytes);
        left := after.bytes;
      }
      out, i := out + chunk, i + 1;
    }
  }

  /** One call on a decrypter, and what its caller sees of it. */
  datatype Op = SeekTo(offset: nat, limit: int) | ReadSome(size: nat)
  datatype Seen = Seen(bytes: seq<byte>, error: Status)

  /** A cursor over a plaintext: what lies ahead of it, and the error that stopped it. */
  datatype Cursor = Cursor(owed: Future, err: Status)

  predicate InRange(op: Op) {
    op.SeekTo? ==> op.offset / BLOCK_DATA_SIZE < 0x1_0000_0000_0000_0000
  }

  /** Where a seek puts a cursor over the plaintext p of an object of `stored` bytes. End of file does
      not keep a cursor from moving, every other error does. */
  function Moved(p: Future, stored: nat, c: Cursor, offset: nat, limit: int): Cursor {
    if c.err != Nil && c.err != EOF then c
    else
      var e := SeekOutcome(p.bytes, stored, offset);
      Cursor(if e == Nil then WindowOf(p, offset, limit) else Future([], e), e)
  }

  /** One call moves a cursor from c to d. */
  ghost predicate Step(p: Future, stored: nat, c: Cursor, op: Op, seen: Seen, d: Cursor) {
    && seen.error == d.err
    && match op
       case SeekTo(offset, limit) => seen.bytes == [] && d == Moved(p, stored, c, offset, limit)
       case ReadSome(size) =>
         && d.owed.last == c.owed.last && (c.err != Nil ==> d.err == c.err)
         && ReadStep(c.owed.bytes, size, seen.bytes, seen.error, d.owed.bytes, c.owed.last)
  }

  ghost predicate Follows(p: Future, stored: nat, ops: seq<Op>, seen: seq<Seen>, cursors: seq<Cursor>) {
    && |seen| <= |ops| && |cursors| == |seen| + 1
    && (forall i {:trigger seen[i]} :: 0 <= i < |seen| ==> Step(p, stored, cursors[i], ops[i], seen[i], cursors[i + 1]))
  }

  /** Any run of seeks and reads on one decrypter, whatever their order and whether they fail or not,
      is seen as from a cursor over one and the same plaintext. Only a failing network ends the run early. */
  method ServeOps(fh: Decrypter, ops: seq<Op>, ghost p: Future)
    returns (seen: seq<Seen>, ghost cursors: seq<Cursor>)
    requires fh.Valid() && fh.store != null && fh.Plain() == p
    requires forall i :: 0 <= i < |ops| ==> InRange(ops[i])
    modifies fh.Repr
    ensures Follows(p, |old(fh.store).content|, ops, seen, cursors)
    ensures cursors[0] == Cursor(old(fh.Owes()), old(fh.err))
    ensures |seen| < |ops| ==> IoFailure(fh.err)
    ensures old(fh.Steady()) ==> |seen| == |ops|
  {
    hide Decrypter.Valid, Decrypter.Owes, Decrypter.Steady, Decrypter.Plain, Step;
    seen, cursors := [], [Cursor(fh.Owes(), fh.err)];
    ghost var store := fh.store;
    while |seen| < |ops|
      invariant fh.Valid() && fresh(fh.Repr - old(fh.Repr)) && fh.store == store && fh.Plain() == p
      invariant Follows(p, |store.content|, ops, seen, cursors)
      invariant cursors[0] == Cursor(old(fh.Owes()), old(fh.err))
      invariant cursors[|seen|] == Cursor(fh.Owes(), fh.err)
      invariant old(fh.Steady()) ==> fh.Steady()
    {
      ghost var before, after := cursors[|seen|], cursors[|seen|];
      var s;
      s, after := ServeOp(fh, ops[|seen|], p, before);
      if IoFailure(s.error) {
        return;
      }
      seen, cursors := seen + [s], cursors + [after];
    }
  }

  method ServeOp(fh: Decrypter, op: Op, ghost p: Future, ghost c: Cursor) returns (s: Seen, ghost d: Cursor)
    requires fh.Valid() && fh.store != null && fh.Plain() == p && InRange(op) && c == Cursor(fh.Owes(), fh.err)
    modifies fh.Repr
    ensures fh.Valid() && fresh(fh.Repr - old(fh.Repr)) && fh.store == old(fh.store) && fh.Plain() == p
    ensures d == Cursor(fh.Owes(), fh.err) && s.error == fh.err
    ensures IoFailure(s.error) || Step(p, |fh.store.content|, c, op, s, d)
    ensures old(fh.Steady()) ==> fh.Steady()
  {
    match op
    case SeekTo(offset, limit) =>
      var _, e := fh.RangeSeek(offset, SeekStart, limit);
      s, d := Seen([], e), Cursor(fh.Owes(), fh.err);
    case ReadSome(size) =>
      var chunk, e;
      ghost var after;
      chunk, e, after := ReadOnce(fh, size, c.owed);
      s, d := Seen(chunk, e), Cursor(after, fh.err);
  }

  /** The bytes that a run of reads returned. */
  function Returned(seen: seq<Seen>, i: nat, j: nat): seq<byte>
    requires i <= j <= |seen|
    decreases j - i
  {
    if i == j then [] else Returned(seen, i, j - 1) + seen[j - 1].bytes
  }

  /** What the reads between a seek and the next one return is a prefix of the window sought, and all of it
      once one of them has reported an error, which is then the window's own. */
  lemma {:induction false} ReadsSeeWindow(p: Future, stored: nat, ops: seq<Op>, seen: seq<Seen>, cursors: seq<Cursor>,
                                          i: nat, j: nat)
    requires Follows(p, stored, ops, seen, cursors) && i < j <= |seen|
    requires ops[i].SeekTo? && seen[i].error == Nil && forall k :: i < k < j ==> ops[k].ReadSome?
    ensures var w := WindowOf(p, ops[i].offset, ops[i].limit);
            && w == Future(Returned(seen, i + 1, j) + cursors[j].owed.bytes, cursors[j].owed.last)
            && (cursors[j].err != Nil ==> Future(Returned(seen, i + 1, j), cursors[j].err) == w)
    decreases j
  {
    var h := j - 1;
    assert Step(p, stored, cursors[h], ops[h], seen[h], cursors[h + 1]);
    if h > i {
      ReadsSeeWindow(p, stored, ops, seen, cursors, i, h);
      var sofar, chunk, left := Returned(seen, i + 1, h), seen[h].bytes, cursors[j].owed.bytes;
      assert sofar + (chunk + left) == (sofar + chunk) + left;
    }
  }

  /** Decrypts a whole stored object, damaged or not, with buffers of any sizes. */
  method DecryptAll(box: SecretBox, content: seq<byte>, concurrency: Positive, capacity: nat, reliable: bool,
                    sizes: nat -> nat)
    returns (out: seq<byte>, e: Status)
    requires (reliable || Sound(box, content)) && forall i :: sizes(i) > 0
    ensures IoFailure(e) || Future(out, e) == Decrypted(box, content)
    ensures out <= Decrypted(box, content).bytes && (reliable ==> !IoFailure(e))
    ensures !IoFailure(e) && GoodHeader(content) ==> AllBlocksOpen(box, content, out)
    ensures !IoFailure(e) && GoodHeader(content) && DecryptedSize(|content|).Size? ==>
              e == EOF && |out| == DecryptedSize(|content|).size
  {
    hide Opens, AllBlocksOpen, Decrypter.Valid;
    var store := new StoredObject(content, concurrency, capacity, reliable);
    var fh;
    fh, e := NewDecrypterSeek(box, store, 0, -1);
    out := [];
    if fh != null {
      ghost var p := Decrypted(box, content);
      assert WindowOf(p, 0, -1) == p;
      out, e := ReadToEnd(fh, sizes, p);
      DecryptedBlocks(box, content);
      if DecryptedSize(|content|).Size? {
        OpensLength(box, CounterFrom(content[|MAGIC|..HEADER_SIZE]), 0, content[HEADER_SIZE..]);
      }
    }
  }
}
