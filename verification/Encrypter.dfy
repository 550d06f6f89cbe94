/** The streaming encrypter of internal/crypt/cipher.go. */
module EncryptStream {
  import opened Streams
  import opened Nonce
  import opened CipherFormat

  class Encrypter {
    const box: SecretBox
    const source: ByteStream
    const nonce: array<byte>
    var buf: array?<byte>
    var readBuf: array?<byte>
    var bufIndex: nat
    var bufSize: nat
    var err: Status

    ghost const Repr: set<object>
    ghost const start: NonceBytes
    ghost var index: nat // of the next block to be sealed

    ghost predicate Valid()
      reads this, nonce
    {
      && nonce.Length == NONCE_SIZE && nonce[..] == CounterFrom(start)(index)
      && source.last != Nil && {this, source, nonce} <= Repr
      && (err == Nil ==>
            && buf != null && readBuf != null && {buf, readBuf} <= Repr
            && buf != readBuf && buf != nonce && readBuf != nonce
            && buf.Length == BLOCK_SIZE && readBuf.Length == BLOCK_SIZE
            && bufIndex <= bufSize <= BLOCK_SIZE)
    }

    /** The ciphertext still to come. */
    ghost function Rest(): seq<byte>
      requires Valid()
      reads this, nonce, buf, source
    {
      if err != Nil then [] else buf[bufIndex..bufSize] + Seals(box, CounterFrom(start), index, source.rest)
    }

    ghost function Last(): Status
      reads this
    {
      if err != Nil then err else source.last
    }

    /** newEncrypter: the first buffer is the file header. */
    constructor (box: SecretBox, source: ByteStream, n: NonceBytes)
      requires source.last != Nil
      ensures Valid() && Last() == source.last && this.source == source && this.box == box
      ensures fresh(Repr - {source})
      ensures Rest() == Encrypted(box, n, source.rest)
    {
      this.box, this.source := box, source;
      start, index := n, 0;
      var counter := new byte[NONCE_SIZE](i requires 0 <= i < NONCE_SIZE => n[i]);
      var block, readBlock := new byte[BLOCK_SIZE], new byte[BLOCK_SIZE];
      nonce, buf, readBuf := counter, block, readBlock;
      bufIndex, bufSize, err := 0, HEADER_SIZE, Nil;
      Repr := {this, source, counter, block, readBlock};
      new;
      assert nonce[..] == n;
      CounterSteps(n, 0);
      Copy(buf, 0, MAGIC);
      Copy(buf, |MAGIC|, nonce[..]);
      assert buf[..HEADER_SIZE] == buf[..|MAGIC|] + buf[|MAGIC|..HEADER_SIZE];
    }

    method Read(p: array<byte>) returns (n: nat, e: Status)
      requires Valid() && p !in Repr
      modifies Repr, p
      ensures Valid() && Last() == old(Last())
      ensures n <= p.Length && p[n..] == old(p[n..])
      ensures ReadStep(old(Rest()), p.Length, p[..n], e, Rest(), Last())
      ensures e == Nil || n == 0
    {
      if err != Nil {
        return 0, err;
      }
      if bufIndex >= bufSize {
        var k, readErr := Refill();
        if k == 0 {
          e := Finish(readErr);
          return 0, e;
        }
      }
      n := Emit(p);
      e := Nil;
    }

    /** Hands out buffered bytes. */
    method Emit(p: array<byte>) returns (n: nat)
      requires Valid() && err == Nil && p !in Repr
      requires bufIndex < bufSize
      modifies this`bufIndex, p
      ensures Valid() && n <= p.Length && p[n..] == old(p[n..])
      ensures old(Rest()) == p[..n] + Rest()
      ensures p.Length > 0 ==> n > 0
    {
      ghost var sealed := Seals(box, CounterFrom(start), index, source.rest);
      n := Min(p.Length, bufSize - bufIndex);
      ghost var ahead := buf[bufIndex..bufSize];
      Copy(p, 0, buf[bufIndex..bufIndex + n]);
      bufIndex := bufIndex + n;
      assert ahead == p[..n] + buf[bufIndex..bufSize];
      assert ahead + sealed == p[..n] + (buf[bufIndex..bufSize] + sealed);
    }

    /** Seals the next block of the source into buf. */
    method Refill() returns (k: nat, readErr: Status)
      requires Valid() && err == Nil && bufIndex == bufSize
      modifies Repr
      ensures Valid() && err == Nil && Rest() == old(Rest())
      ensures k == 0 ==> readErr == source.last && Rest() == []
      ensures k > 0 ==> bufIndex < bufSize
    {
      ghost var plain := source.rest;
      k, readErr := ReadFill(source, readBuf, BLOCK_DATA_SIZE);
      if k > 0 {
        assert readBuf[..k] == plain[..k];
        var sealed := box.seal(nonce[..], readBuf[..k]);
        Copy(buf, 0, sealed);
        bufIndex := 0;
        bufSize := BLOCK_HEADER_SIZE + k;
        Increment(nonce);
        CounterSteps(start, index);
        index := index + 1;
        assert buf[0..bufSize] == sealed;
      }
    }

    method Finish(e: Status) returns (r: Status)
      requires Valid() && err == Nil && e != Nil
      modifies this
      ensures Valid() && r == err == e
    {
      if err != Nil {
        return err;
      }
      err, buf, readBuf := e, null, null;
      r := e;
    }
  }

  /** Reads a fresh encrypter to its end with buffers of the given sizes: whatever the sizes, and
      however the source splits its data, the output is the same file. */
  method EncryptAll(box: SecretBox, source: ByteStream, n: NonceBytes, sizes: nat -> nat)
    returns (out: seq<byte>, end: Status)
    requires source.last != Nil
    requires forall i :: sizes(i) > 0
    modifies source
    ensures out == Encrypted(box, n, old(source.rest)) && end == source.last
    ensures |out| == EncryptedSize(|old(source.rest)|)
  {
    ghost var file := Encrypted(box, n, source.rest);
    assert |file| == EncryptedSize(|source.rest|) by {
      DecryptedEncrypted(box, n, source.rest);
    }
    var enc := new Encrypter(box, source, n);
    out, end := [], Nil;
    ghost var left := file;
    var i := 0;
    while end == Nil
      invariant enc.Valid() && fresh(enc.Repr - {source}) && enc.Last() == source.last && enc.source == source
      invariant enc.Rest() == left && file == out + left
      invariant end != Nil ==> end == source.last && left == []
      decreases |left|, end == Nil
    {
      ghost var before, done, after := left, out, left;
      var chunk;
      chunk, end, after := ReadOnce(enc, sizes(i), before);
      assert done + (chunk + after) == (done + chunk) + after;
      out, left, i := out + chunk, after, i + 1;
    }
  }

  /** One Read with a fresh buffer of the given size. */
  method ReadOnce(enc: Encrypter, size: nat, ghost owed: seq<byte>)
    returns (chunk: seq<byte>, e: Status, ghost after: seq<byte>)
    requires enc.Valid() && size > 0 && enc.Rest() == owed
    modifies enc.Repr
    ensures enc.Valid() && enc.Last() == old(enc.Last()) && enc.Rest() == after
    ensures ReadStep(owed, size, chunk, e, after, enc.Last())
  {
    var p := new byte[size];
    var n;
    n, e := enc.Read(p);
    chunk, after := p[..n], enc.Rest();
  }
}
