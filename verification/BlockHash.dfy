/** Tree hashing in fixed blocks (internal/hash/hash.go). */
module BlockHash {
  import opened Streams

  const HASH_BLOCK: nat := 0x100_0000 // 16 MiB
  const DIGEST_SIZE: nat := 32

  /** BLAKE3: only the length of its digests is known. */
  type Hash = h: seq<byte> -> seq<byte> | Digests(h) witness (_ => Zeros(DIGEST_SIZE))

  ghost predicate Digests(h: seq<byte> -> seq<byte>) {
    forall m :: |h(m)| == DIGEST_SIZE
  }

  /** The digests of the blocks of data, one after the other. */
  function BlockHashes(h: Hash, data: seq<byte>): seq<byte>
    decreases |data|
  {
    if data == [] then []
    else
      var k := Min(HASH_BLOCK, |data|);
      h(data[..k]) + BlockHashes(h, data[k..])
  }

  /** Data cut at a block boundary hashes to the hashes of its pieces. */
  lemma {:induction false} HashesAppend(h: Hash, a: seq<byte>, b: seq<byte>)
    requires |a| % HASH_BLOCK == 0
    ensures BlockHashes(h, a + b) == BlockHashes(h, a) + BlockHashes(h, b)
    decreases |a|
  {
    if a == [] {
      assert a + b == b;
    } else {
      var head, tail := a[..HASH_BLOCK], a[HASH_BLOCK..];
      HashesAppend(h, tail, b);
      assert (a + b)[..HASH_BLOCK] == head && (a + b)[HASH_BLOCK..] == tail + b;
    }
  }

  lemma HashesOfBlock(h: Hash, block: seq<byte>)
    requires 0 < |block| <= HASH_BLOCK
    ensures BlockHashes(h, block) == h(block)
  {
    assert block[..|block|] == block && block[|block|..] == [];
  }

  /** There is one digest for every started block. */
  lemma {:induction false} HashesLength(h: Hash, data: seq<byte>)
    ensures |BlockHashes(h, data)| == (|data| + HASH_BLOCK - 1) / HASH_BLOCK * DIGEST_SIZE
    decreases |data|
  {
    if data != [] {
      var k := Min(HASH_BLOCK, |data|);
      HashesLength(h, data[k..]);
      if k == HASH_BLOCK {
        assert (|data| - k + HASH_BLOCK - 1) / HASH_BLOCK == (|data| + HASH_BLOCK - 1) / HASH_BLOCK - 1;
      }
    }
  }

  method Joined(pieces: seq<seq<byte>>) returns (result: seq<byte>)
    ensures result == Concat(pieces)
  {
    result := [];
    for i := 0 to |pieces|
      invariant result == Concat(pieces[..i])
    {
      ConcatSnoc(pieces[..i], pieces[i]);
      assert pieces[..i + 1] == pieces[..i] + [pieces[i]];
      result := result + pieces[i];
    }
    assert pieces[..|pieces|] == pieces;
  }

  /** One more closed block adds its digest. */
  lemma ClosedHashes(h: Hash, base: seq<byte>, whole: seq<byte>, block: seq<byte>, hashes: seq<seq<byte>>)
    requires |whole| % HASH_BLOCK == 0 && 0 < |block| <= HASH_BLOCK && Concat(hashes) == base + BlockHashes(h, whole)
    ensures Concat(hashes + [h(block)]) == base + BlockHashes(h, whole + block)
  {
    HashesOfBlock(h, block);
    HashesAppend(h, whole, block);
    ConcatSnoc(hashes, h(block));
    Associate(base, BlockHashes(h, whole), h(block));
  }

  class BlockHasher {
    const h: Hash
    var currentHash: seq<byte> // what the running hash has absorbed
    var blockHashes: seq<seq<byte>>
    var bytesInBlock: nat

    ghost var base: seq<byte>  // the digests of an earlier Sum
    ghost var since: seq<byte> // what has been written after it
    ghost var whole: seq<byte> // the closed blocks of that

    ghost predicate Valid()
      reads this
    {
      && bytesInBlock < HASH_BLOCK && |whole| % HASH_BLOCK == 0
      && (if bytesInBlock == 0 then since == whole else |currentHash| == bytesInBlock && since == whole + currentHash)
      && Concat(blockHashes) == base + BlockHashes(h, whole)
    }

    constructor (h: Hash)
      ensures Valid() && base == since == [] && this.h == h
    {
      this.h := h;
      currentHash, blockHashes, bytesInBlock, base, since, whole := [], [], 0, [], [], [];
    }

    /** However the data is sliced into writes, only its concatenation matters. */
    method Write(data: seq<byte>) returns (n: nat)
      requires Valid()
      modifies this
      ensures Valid() && n == |data| && since == old(since) + data && base == old(base)
    {
      n := |data|;
      var p := data;
      ghost var was, done := since, [];
      while p != []
        invariant Valid() && base == old(base) && data == done + p && since == was + done
        decreases |p|
      {
        var toWrite := Min(|p|, HASH_BLOCK - bytesInBlock);
        var piece, rest := p[..toWrite], p[toWrite..];
        assert (was + done) + piece == was + (done + piece) && done + (piece + rest) == (done + piece) + rest;
        Absorb(piece);
        p, done := rest, done + piece;
      }
      assert data == done;
    }

    /** Adds bytes of one block to the running hash, and closes the block when it is full. */
    method Absorb(piece: seq<byte>)
      requires Valid() && 0 < |piece| <= HASH_BLOCK - bytesInBlock
      modifies this
      ensures Valid() && since == old(since) + piece && base == old(base)
    {
      if bytesInBlock == 0 {
        currentHash := [];
      }
      assert whole + (currentHash + piece) == (whole + currentHash) + piece;
      currentHash := currentHash + piece;
      bytesInBlock := bytesInBlock + |piece|;
      since := whole + currentHash;
      if bytesInBlock >= HASH_BLOCK {
        CloseBlock();
      }
    }

    /** Appends the digest of the running block. */
    method CloseBlock()
      requires |whole| % HASH_BLOCK == 0 && 0 < bytesInBlock == |currentHash| <= HASH_BLOCK
      requires since == whole + currentHash && Concat(blockHashes) == base + BlockHashes(h, whole)
      modifies this`blockHashes, this`bytesInBlock, this`whole
      ensures bytesInBlock == 0 && whole == since && Concat(blockHashes) == base + BlockHashes(h, whole)
      ensures |currentHash| == HASH_BLOCK ==> |whole| % HASH_BLOCK == 0
    {
      ClosedHashes(h, base, whole, currentHash, blockHashes);
      blockHashes := blockHashes + [h(currentHash)];
      bytesInBlock, whole := 0, since;
    }

    /** Closes a partial last block and returns all digests. */
    method Sum() returns (result: seq<byte>)
      requires Valid()
      modifies this
      ensures Valid() && result == old(base) + BlockHashes(h, old(since)) && base == result && since == []
    {
      if bytesInBlock > 0 {
        CloseBlock();
      }
      result := Joined(blockHashes);
      base, since, whole := result, [], [];
      assert base + [] == base;
    }

    method Reset()
      modifies this
      ensures Valid() && base == since == []
    {
      blockHashes, bytesInBlock, base, since, whole := [], 0, [], [], [];
    }
  }

  /** Any slicing of the same data into writes gives the same block list. */
  method HashSlices(h: Hash, slices: seq<seq<byte>>) returns (result: seq<byte>)
    ensures result == BlockHashes(h, Concat(slices))
  {
    var hasher := new BlockHasher(h);
    for i := 0 to |slices|
      invariant hasher.Valid() && fresh(hasher) && hasher.h == h && hasher.base == []
                && hasher.since == Concat(slices[..i])
    {
      ConcatSnoc(slices[..i], slices[i]);
      assert slices[..i + 1] == slices[..i] + [slices[i]];
      var _ := hasher.Write(slices[i]);
    }
    assert slices[..|slices|] == slices;
    result := hasher.Sum();
    assert [] + BlockHashes(h, Concat(slices)) == BlockHashes(h, Concat(slices));
  }
}
