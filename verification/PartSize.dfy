/** The part size of a sync transfer (pkg/services/sync_chunk_size.go). */
module PartSize {
  import opened Streams
  import opened BlockHash

  const MIB: nat := 0x10_0000
  const MAX_SYNC_CHUNK: nat := 0x7D00_0000     // 2000 MiB
  const DEFAULT_SYNC_CHUNK: nat := 0x2000_0000 // 512 MiB
  const MIN_SYNC_CHUNK: nat := 0x400_0000      // 64 MiB
  const SYNC_CHUNK_BLOCK: nat := 0x100_0000    // 16 MiB

  function NormalizeSyncPartSize(size: int): int {
    if size <= 0 then DEFAULT_SYNC_CHUNK
    else
      var clamped := Min(Max(size, MIN_SYNC_CHUNK), MAX_SYNC_CHUNK);
      var aligned := (clamped + SYNC_CHUNK_BLOCK / 2) / SYNC_CHUNK_BLOCK * SYNC_CHUNK_BLOCK;
      Min(aligned, MAX_SYNC_CHUNK)
  }

  /** Whatever is asked for, parts end on hash-block boundaries and stay within Telegram's limits, as near to
      what was asked for as can be; the larger of two equally near sizes is taken, and 512 MiB by default. */
  lemma PartSizeIsAligned(size: int)
    ensures var n := NormalizeSyncPartSize(size);
            && 64 * MIB <= n <= 2000 * MIB && n % HASH_BLOCK == 0
            && NormalizeSyncPartSize(n) == n && (size <= 0 ==> n == 512 * MIB)
            && (forall m: nat :: m % HASH_BLOCK == 0 && 64 * MIB <= m <= 2000 * MIB && size > 0 ==>
                  Distance(size, n) < Distance(size, m) || (Distance(size, n) == Distance(size, m) && m <= n))
  {
    assert MAX_SYNC_CHUNK == 2000 * MIB && MIN_SYNC_CHUNK == 64 * MIB;
    assert MAX_SYNC_CHUNK == 125 * SYNC_CHUNK_BLOCK && MIN_SYNC_CHUNK == 4 * SYNC_CHUNK_BLOCK;
    var n := NormalizeSyncPartSize(size);
    var q := n / SYNC_CHUNK_BLOCK;
    assert n == q * SYNC_CHUNK_BLOCK;
    assert (n + SYNC_CHUNK_BLOCK / 2) / SYNC_CHUNK_BLOCK == q;
    if size > 0 {
      forall m: nat | m % HASH_BLOCK == 0 && MIN_SYNC_CHUNK <= m <= MAX_SYNC_CHUNK
        ensures Distance(size, n) < Distance(size, m) || (Distance(size, n) == Distance(size, m) && m <= n)
      {
        assert m == m / SYNC_CHUNK_BLOCK * SYNC_CHUNK_BLOCK;
      }
    }
  }

  function Distance(a: int, b: int): nat {
    if a <= b then b - a else a - b
  }
}
