/** Bytes, and the io.Reader contract that every reader of the program keeps. */
module Streams {

  newtype byte = x: int | 0 <= x < 256

  /** What a Go reader can put in its error result. */
  datatype Status =
    | Nil
    | EOF
    | TooShort
    | BadHeader
    | BadMagic
    | BadSeek
    | Closed
    | NotSeekable
    | OutOfRange
    | Abandoned
    | Broken(code: int)

  /** Failures of the network, as opposed to what the stored bytes make happen. */
  predicate IoFailure(e: Status) {
    e == Abandoned || e.Broken?
  }

  datatype Option<+T> = None | Some(value: T) {
    function GetOr(default: T): T {
      if Some? then value else default
    }
  }

  type Positive = n: nat | n > 0 witness 1

  function Min(a: int, b: int): int {
    if a <= b then a else b
  }

  function Max(a: int, b: int): int {
    if a >= b then a else b
  }

  function Zeros(n: nat): (r: seq<byte>)
    ensures |r| == n
  {
    seq(n, _ => 0)
  }

  /** s[lo..hi], with both ends pulled back inside s. */
  function Clip<T>(s: seq<T>, lo: nat, hi: nat): seq<T>
    requires lo <= hi
  {
    s[Min(lo, |s|)..Min(hi, |s|)]
  }

  /** What a cursor placed at offset may still deliver under a limit; a negative limit is no limit. */
  function Window<T>(s: seq<T>, offset: nat, limit: int): seq<T> {
    if limit < 0 then s[Min(offset, |s|)..] else Clip(s, offset, offset + limit)
  }

  function Concat<T>(ss: seq<seq<T>>): seq<T> {
    if ss == [] then [] else ss[0] + Concat(ss[1..])
  }

  lemma {:induction false} ConcatAppend<T>(a: seq<seq<T>>, b: seq<seq<T>>)
    ensures Concat(a + b) == Concat(a) + Concat(b)
  {
    if a == [] {
      assert a + b == b;
    } else {
      assert (a + b)[1..] == a[1..] + b;
      ConcatAppend(a[1..], b);
    }
  }

  lemma ConcatSnoc<T>(a: seq<seq<T>>, x: seq<T>)
    ensures Concat(a + [x]) == Concat(a) + x
  {
    ConcatAppend(a, [x]);
    assert [x][1..] == [];
    assert Concat([x]) == x;
  }

  lemma Associate<T>(a: seq<T>, b: seq<T>, c: seq<T>)
    ensures (a + b) + c == a + (b + c)
  {
  }

  /** Handing out the next piece of a list moves it from what is left to what is done. */
  lemma HandOut<T>(all: seq<T>, done: seq<T>, before: seq<T>, chunk: seq<T>, after: seq<T>)
    requires all == done + before && before == chunk + after
    ensures all == (done + chunk) + after && |after| == |before| - |chunk|
  {
    Associate(done, chunk, after);
  }

  /** A list without repetitions is no longer than the set its elements come from. */
  lemma {:induction false} DistinctFit<T>(p: seq<T>, s: set<T>)
    requires forall i, j :: 0 <= i < j < |p| ==> p[i] != p[j]
    requires forall i :: 0 <= i < |p| ==> p[i] in s
    ensures |p| <= |s|
  {
    if p != [] {
      var n := |p| - 1;
      DistinctFit(p[..n], s - {p[n]});
    }
  }

  /** One Read of a well-behaved reader that still owes the bytes `before` and then the status `last`:
      it hands out a prefix, keeps the rest, reports `last` only when nothing is left, and never
      stalls on a non-empty buffer. */
  ghost predicate ReadStep(before: seq<byte>, want: nat, out: seq<byte>, err: Status, after: seq<byte>, last: Status) {
    && |out| <= want
    && before == out + after
    && (err == Nil || (err == last && after == []))
    && (want > 0 && out == [] ==> err != Nil)
  }

  /** One observed Read call: the size of the caller's buffer, the bytes put in it, the error. */
  datatype Obs = Obs(want: nat, out: seq<byte>, err: Status)

  function Delivered(trace: seq<Obs>): seq<byte> {
    if trace == [] then [] else trace[0].out + Delivered(trace[1..])
  }

  /** trace is a run of a reader that owes `content` and then `last`. */
  ghost predicate Run(content: seq<byte>, trace: seq<Obs>, last: Status)
    decreases |trace|
  {
    trace == [] ||
    exists after: seq<byte> ::
      && ReadStep(content, trace[0].want, trace[0].out, trace[0].err, after, last)
      && (trace[0].err == Nil || |trace| == 1)
      && Run(after, trace[1..], last)
  }

  /** Whatever the buffer sizes, a run delivers a prefix of the content, and a run that has reported
      an error has delivered all of it and reported exactly `last`. */
  lemma {:induction false} RunDelivers(content: seq<byte>, trace: seq<Obs>, last: Status)
    requires Run(content, trace, last)
    ensures Delivered(trace) <= content
    ensures trace != [] && trace[|trace| - 1].err != Nil ==>
              Delivered(trace) == content && trace[|trace| - 1].err == last
    decreases |trace|
  {
    if trace != [] {
      var after: seq<byte> :|
        && ReadStep(content, trace[0].want, trace[0].out, trace[0].err, after, last)
        && (trace[0].err == Nil || |trace| == 1)
        && Run(after, trace[1..], last);
      RunDelivers(after, trace[1..], last);
      assert Delivered(trace) == trace[0].out + Delivered(trace[1..]);
      assert trace[|trace| - 1] == if |trace| == 1 then trace[0] else trace[1..][|trace| - 2];
    }
  }

  /** A reader cannot be kept busy: with non-empty buffers the terminal status comes after at most
      one call per byte, plus one. */
  lemma {:induction false} RunTerminates(content: seq<byte>, trace: seq<Obs>, last: Status)
    requires Run(content, trace, last)
    requires forall i :: 0 <= i < |trace| ==> trace[i].want > 0 && trace[i].err == Nil
    ensures |trace| <= |content|
    decreases |trace|
  {
    if trace != [] {
      var after: seq<byte> :|
        && ReadStep(content, trace[0].want, trace[0].out, trace[0].err, after, last)
        && (trace[0].err == Nil || |trace| == 1)
        && Run(after, trace[1..], last);
      RunTerminates(after, trace[1..], last);
    }
  }

  /** Go's copy(p[lo:], src), for a src that fits. */
  method Copy(p: array<byte>, lo: nat, src: seq<byte>)
    requires lo + |src| <= p.Length
    modifies p
    ensures p[lo..lo + |src|] == src
    ensures p[..lo] == old(p[..lo]) && p[lo + |src|..] == old(p[lo + |src|..])
  {
    forall k | 0 <= k < |src| {
      p[lo + k] := src[k];
    }
  }

  /** Any io.Reader the program is handed from outside (a source file, a reopened object). It owes
      `rest`, in pieces of its own choosing, and then reports `last`; end of file may come together
      with the final bytes or on its own. */
  class ByteStream {
    var rest: seq<byte>
    const last: Status

    constructor (content: seq<byte>, last: Status)
      requires last != Nil
      ensures this.rest == content && this.last == last
    {
      this.rest, this.last := content, last;
    }

    method Read(p: array<byte>, lo: nat, hi: nat) returns (n: nat, err: Status)
      requires lo <= hi <= p.Length && last != Nil
      modifies this, p
      ensures n <= hi - lo && n <= |old(rest)|
      ensures rest == old(rest)[n..]
      ensures p[lo..lo + n] == old(rest)[..n]
      ensures p[..lo] == old(p[..lo]) && p[lo + n..] == old(p[lo + n..])
      ensures ReadStep(old(rest), hi - lo, p[lo..lo + n], err, rest, last)
      ensures err == Nil || err == last
      ensures err != Nil && err != EOF ==> n == 0
    {
      var most := Min(hi - lo, |rest|);
      n :| 0 <= n <= most && (n == 0 ==> hi == lo || rest == []);
      Copy(p, lo, rest[..n]);
      rest := rest[n..];
      var eager: bool := *;
      err := if rest == [] && ((n == 0 && hi > lo) || (eager && last == EOF)) then last else Nil;
    }
  }

  /** Reads until p[lo..hi] is full or the reader stops (cipher.go readFill). */
  method ReadFill(r: ByteStream, p: array<byte>, hi: nat) returns (n: nat, err: Status)
    requires hi <= p.Length && r.last != Nil
    modifies r, p
    ensures n == Min(hi, |old(r.rest)|)
    ensures r.rest == old(r.rest)[n..]
    ensures p[..n] == old(r.rest)[..n]
    ensures err == Nil || (err == r.last && r.rest == [])
    ensures n < hi ==> err == r.last
    ensures err != Nil && err != EOF ==> n < hi
  {
    n, err := 0, Nil;
    while n < hi && err == Nil
      invariant n <= hi && n <= |old(r.rest)|
      invariant r.rest == old(r.rest)[n..]
      invariant p[..n] == old(r.rest)[..n]
      invariant err == Nil || (err == r.last && r.rest == [])
      invariant err != Nil && err != EOF ==> n < hi
      decreases hi - n, err == Nil
    {
      var nn;
      nn, err := r.Read(p, n, hi);
      assert p[..n + nn] == p[..n] + p[n..n + nn];
      n := n + nn;
    }
  }
}
