/** The reader that a decrypter reads its blocks from (the io.ReadCloser of internal/crypt/cipher.go and
    of the open callback in internal/reader/reader.go). */
module UpstreamReader {
  import opened Streams
  import opened ChunkReader

  /** A chunked reader of a stored object, or any other reader. Only the first can give up halfway. */
  class Upstream {
    const chunked: MultiReader?
    const direct: ByteStream?
    const last: Status
    ghost var rest: seq<byte> // what it still owes, followed by `last`

    ghost predicate Valid()
      reads this, chunked, direct
    {
      if chunked != null then
        direct == null && last == EOF && chunked.Valid() && chunked.Rest() == rest
      else
        direct != null && last == direct.last && last != Nil && last != Abandoned && direct.rest == rest
    }

    ghost function Repr(): (r: set<object>)
      ensures this in r && (chunked != null ==> chunked in r) && (direct != null ==> direct in r)
    {
      {this} + (if chunked == null then {} else {chunked}) + (if direct == null then {} else {direct})
    }

    /** Nothing can go wrong on the way. */
    ghost predicate Steady()
      reads chunked
    {
      chunked != null ==> chunked.reliable && !chunked.cancelled
    }

    constructor Chunked(m: MultiReader)
      requires m.Valid()
      ensures Valid() && chunked == m && direct == null && rest == m.Rest() && last == EOF
    {
      chunked, direct, last, rest := m, null, EOF, m.Rest();
    }

    constructor Direct(s: ByteStream)
      requires s.last != Nil && s.last != Abandoned
      ensures Valid() && chunked == null && direct == s && rest == s.rest && last == s.last
    {
      chunked, direct, last, rest := null, s, s.last, s.rest;
    }

    method Read(p: array<byte>, lo: nat, hi: nat) returns (n: nat, e: Status)
      requires Valid() && lo <= hi <= p.Length
      modifies this`rest, chunked, direct, p
      ensures Valid() && n <= hi - lo && n <= |old(rest)| && rest == old(rest)[n..]
      ensures p[..lo + n] == old(p[..lo]) + old(rest)[..n]
      ensures e == Nil || (e == last && rest == []) || (e == Abandoned && n == 0 && rest != [])
      ensures n == 0 && hi > lo ==> e != Nil
      ensures e != Nil && e != EOF ==> n == 0
      ensures old(Steady()) ==> Steady() && e != Abandoned
    {
      if chunked != null {
        var out;
        out, e := chunked.Read(hi - lo);
        n := |out|;
        Copy(p, lo, out);
      } else {
        n, e := direct.Read(p, lo, hi);
      }
      rest := rest[n..];
      assert p[..lo + n] == p[..lo] + p[lo..lo + n];
    }

    /** Reads until p[..hi] is full or the reader stops (cipher.go readFill). A reader that gives up does
        so before the buffer is full and before its end. */
    method ReadFill(p: array<byte>, hi: nat) returns (n: nat, err: Status)
      requires Valid() && hi <= p.Length
      modifies this`rest, chunked, direct, p
      ensures Valid() && n <= hi && n <= |old(rest)| && rest == old(rest)[n..] && p[..n] == old(rest)[..n]
      ensures err == Nil || (err == last && rest == []) || (err == Abandoned && n < hi && rest != [])
      ensures err != Abandoned ==> n == Min(hi, |old(rest)|) && (n < hi ==> err == last)
      ensures err != Nil && err != EOF ==> n < hi
      ensures old(Steady()) ==> Steady() && err != Abandoned
    {
      n, err := 0, Nil;
      while n < hi && err == Nil
        invariant Valid() && n <= hi && n <= |old(rest)| && rest == old(rest)[n..] && p[..n] == old(rest)[..n]
        invariant err == Nil || (err == last && rest == []) || (err == Abandoned && n < hi && rest != [])
        invariant err != Nil && err != EOF ==> n < hi
        invariant old(Steady()) ==> Steady() && err != Abandoned
        decreases hi - n, err == Nil
      {
        var nn;
        nn, err := Read(p, n, hi);
        n := n + nn;
      }
    }

    method Close()
      requires Valid()
      modifies chunked
      ensures Valid()
    {
      if chunked != null {
        chunked.Close();
      }
    }
  }
}
