/** The 24-byte little-endian block counter of internal/crypt/cipher.go. */
module Nonce {
  import opened Streams

  const NONCE_SIZE: nat := 24

  type NonceBytes = n: seq<byte> | |n| == NONCE_SIZE witness Zeros(NONCE_SIZE)

  function Pow(k: nat): (r: nat)
    ensures r > 0
  {
    if k == 0 then 1 else 256 * Pow(k - 1)
  }

  /** The number that little-endian bytes stand for. */
  function Value(s: seq<byte>): nat {
    if s == [] then 0 else s[0] as nat + 256 * Value(s[1..])
  }

  /** The k low base-256 digits of v, lowest first. */
  function Digits(v: nat, k: nat): (r: seq<byte>)
    ensures |r| == k
  {
    if k == 0 then [] else [(v % 256) as byte] + Digits(v / 256, k - 1)
  }

  /** Addition modulo 256^|n| (2^192 for a nonce), the meaning of `add` and, with x = 1, of `increment`. */
  function Advance(n: seq<byte>, x: nat): (r: seq<byte>)
    ensures |r| == |n|
  {
    Digits(Value(n) + x, |n|)
  }

  function Increments(n: seq<byte>, times: nat): seq<byte>
    decreases times
  {
    if times == 0 then n else Increments(Advance(n, 1), times - 1)
  }

  lemma {:induction false} DigitsOfValue(s: seq<byte>)
    ensures Digits(Value(s), |s|) == s
  {
    if s != [] {
      DigitsOfValue(s[1..]);
      assert Value(s) % 256 == s[0] as nat && Value(s) / 256 == Value(s[1..]);
    }
  }

  lemma MulMono(m: nat, a: nat, b: nat)
    requires a <= b
    ensures m * a <= m * b
  {
    assert m * b - m * a == m * (b - a);
  }

  /** Changing one digit changes the value by the difference times the digit's weight. */
  lemma {:induction false} ValueUpdate(s: seq<byte>, j: nat, d: byte)
    requires j < |s|
    ensures Value(s[j := d]) == Value(s) + (d as int - s[j] as int) * Pow(j)
  {
    var t := s[j := d];
    if j == 0 {
      assert t[1..] == s[1..];
    } else {
      assert t[1..] == s[1..][j - 1 := d];
      ValueUpdate(s[1..], j - 1, d);
      var delta, p := d as int - s[j] as int, Pow(j - 1);
      assert 256 * (Value(s[1..]) + delta * p) == 256 * Value(s[1..]) + delta * (256 * p);
    }
  }

  /** A counter is known by its value modulo 256^|n|. */
  lemma AdvanceByValue(n: seq<byte>, x: nat, m: seq<byte>, wraps: nat)
    requires |m| == |n|
    requires Value(m) + wraps * Pow(|n|) == Value(n) + x
    ensures m == Advance(n, x)
  {
    DigitsOfValue(m);
    DigitsModulo(Value(n) + x, Value(m), wraps, |n|);
  }

  lemma {:induction false} DigitsModulo(w: nat, v: nat, q: nat, k: nat)
    requires v + q * Pow(k) == w
    ensures Digits(w, k) == Digits(v, k)
  {
    if k != 0 {
      var p := Pow(k - 1);
      var qp := q * p;
      assert w == v + 256 * qp by {
        assert q * (256 * p) == 256 * (q * p);
      }
      DigitsModulo(w / 256, v / 256, q, k - 1);
    }
  }

  lemma AdvanceZero(n: seq<byte>)
    ensures Advance(n, 0) == n
  {
    DigitsOfValue(n);
  }

  /** How far the value of an advanced counter lags behind true addition. */
  lemma AdvanceValue(n: seq<byte>, x: nat) returns (wraps: nat)
    ensures Value(Advance(n, x)) + wraps * Pow(|n|) == Value(n) + x
  {
    wraps := Quotient(Value(n) + x, |n|);
  }

  lemma {:induction false} Quotient(v: nat, k: nat) returns (q: nat)
    ensures Value(Digits(v, k)) + q * Pow(k) == v
  {
    if k == 0 {
      q := v;
    } else {
      q := Quotient(v / 256, k - 1);
      var qp := q * Pow(k - 1);
      assert q * (256 * Pow(k - 1)) == 256 * qp;
    }
  }

  lemma AdvanceTwice(n: seq<byte>, x: nat, y: nat)
    ensures Advance(Advance(n, x), y) == Advance(n, x + y)
  {
    var wraps := AdvanceValue(n, x);
    DigitsModulo(Value(n) + x + y, Value(Advance(n, x)) + y, wraps, |n|);
  }

  /** add(x) is x applications of increment. */
  lemma {:induction false} AddIsIncrements(n: seq<byte>, x: nat)
    ensures Increments(n, x) == Advance(n, x)
    decreases x
  {
    if x == 0 {
      AdvanceZero(n);
    } else {
      AddIsIncrements(Advance(n, 1), x - 1);
      AdvanceTwice(n, 1, x - 1);
    }
  }

  /** Blocks whose indices differ by less than the counter's range are sealed under different nonces. */
  lemma DistinctIndicesDistinctNonces(n: seq<byte>, i: nat, j: nat)
    requires i < j < Pow(|n|)
    ensures Advance(n, i) != Advance(n, j)
  {
    var wi := AdvanceValue(n, i);
    var wj := AdvanceValue(n, j);
    NotMultiple(Pow(|n|), wi, wj, j - i);
  }

  lemma NotMultiple(p: nat, a: nat, b: nat, d: nat)
    requires 0 < d < p
    ensures b * p - a * p != d
  {
    if b > a {
      MulMono(p, a + 1, b);
    } else {
      MulMono(p, b, a);
    }
  }

  /** A nonce never repeats over the 64-bit block indices a file can have. */
  lemma BlockNoncesDistinct(n: NonceBytes, i: nat, j: nat)
    requires i < 0x1_0000_0000_0000_0000 && j < 0x1_0000_0000_0000_0000 && i != j
    ensures Advance(n, i) != Advance(n, j)
  {
    PowMono(8, |n|);
    DistinctIndicesDistinctNonces(n, if i < j then i else j, if i < j then j else i);
  }

  lemma {:induction false} PowMono(a: nat, b: nat)
    requires a <= b
    ensures Pow(a) <= Pow(b)
  {
    if a < b {
      PowMono(a, b - 1);
    }
  }

  /** The lowest digit comes first. */
  lemma LowestFirst(n: seq<byte>, x: nat)
    requires n != []
    ensures Advance(n, x)[0] as int == (n[0] as int + x) % 256
    ensures |n| > 1 && n[0] == 255 ==> Advance(n, 1)[1] as int == (n[1] as int + 1) % 256
  {
    var v := Value(n) + x;
    assert v % 256 == (n[0] as int + x) % 256;
    if |n| > 1 && n[0] == 255 {
      assert (Value(n) + 1) / 256 == Value(n[1..]) + 1;
      assert Value(n[1..]) == n[1] as int + 256 * Value(n[1..][1..]);
      assert Digits(Value(n) + 1, |n|)[1..] == Digits(Value(n[1..]) + 1, |n| - 1);
    }
  }

  /** The nonce of every block of a file, as a function of the block's index. */
  type Counter = nat -> NonceBytes

  function CounterFrom(n: NonceBytes): Counter {
    i => Advance(n, i)
  }

  lemma CounterSteps(n: NonceBytes, i: nat)
    ensures CounterFrom(n)(0) == n
    ensures Advance(CounterFrom(n)(i), 1) == CounterFrom(n)(i + 1)
    ensures Advance(n, i) == CounterFrom(n)(i)
  {
    AdvanceZero(n);
    AdvanceTwice(n, i, 1);
  }

  lemma CarryDigit(s: seq<byte>, j: nat)
    requires j < |s|
    ensures s[j] == 255 ==> Value(s[j := 0]) + Pow(j + 1) == Value(s) + Pow(j)
    ensures s[j] < 255 ==> Value(s[j := s[j] + 1]) == Value(s) + Pow(j)
  {
    if s[j] == 255 {
      ValueUpdate(s, j, 0);
    } else {
      ValueUpdate(s, j, s[j] + 1);
    }
  }

  /** Adds one at digit i and carries on through the digits that overflow. */
  method Carry(n: array<byte>, i: nat)
    requires i < n.Length
    modifies n
    ensures n[..] == Advance(old(n[..]), Pow(i))
  {
    var j := i;
    ghost var was := n[..];
    while j < n.Length
      invariant i <= j <= n.Length
      invariant Value(n[..]) + Pow(j) == Value(was) + Pow(i)
    {
      var digit := n[j];
      var newDigit := ((digit as int + 1) % 256) as byte;
      ghost var before := n[..];
      n[j] := newDigit;
      assert n[..] == before[j := newDigit];
      CarryDigit(before, j);
      if newDigit >= digit {
        AdvanceByValue(was, Pow(i), n[..], 0);
        return;
      }
      j := j + 1;
    }
    AdvanceByValue(was, Pow(i), n[..], 1);
  }

  method Increment(n: array<byte>)
    requires n.Length > 0
    modifies n
    ensures n[..] == Advance(old(n[..]), 1)
  {
    Carry(n, 0);
  }

  /** Adds a 64-bit number digit by digit, then carries past the eighth byte. */
  method Add(n: array<byte>, x: nat)
    requires n.Length > 8 && x < 0x1_0000_0000_0000_0000
    modifies n
    ensures n[..] == Advance(old(n[..]), x)
  {
    ghost var was := n[..];
    var carry := AddLow(n, x);
    ghost var wraps := 0;
    if carry != 0 {
      ghost var low := n[..];
      Carry(n, 8);
      wraps := AdvanceValue(low, Pow(8));
    }
    AdvanceByValue(was, x, n[..], wraps);
  }

  method AddLow(n: array<byte>, x: nat) returns (carry: nat)
    requires n.Length > 8 && x < 0x1_0000_0000_0000_0000
    modifies n
    ensures carry <= 1 && Value(n[..]) + carry * Pow(8) == Value(old(n[..])) + x
  {
    ghost var was := n[..];
    var rest: nat := x;
    ghost var left: nat := 8; // digits of x still to come
    carry := 0;
    for i := 0 to 8
      invariant carry <= 1
      invariant left == 8 - i && rest < Pow(left)
      invariant Value(n[..]) + (rest + carry) * Pow(i) == Value(was) + x
    {
      var digit, xDigit := n[i] as int, rest % 256;
      ghost var before, all := n[..], rest + carry;
      left := left - 1;
      rest := rest / 256;
      carry := carry + digit + xDigit;
      n[i] := (carry % 256) as byte;
      carry := carry / 256;
      assert n[..] == before[i := n[i]];
      AddDigit(before, i, n[i], all, rest + carry);
    }
    assert Pow(left) == 1;
  }

  /** One digit of a long addition: what is still to be added moves to the next weight. */
  lemma AddDigit(s: seq<byte>, i: nat, d: byte, all: int, all': int)
    requires i < |s| && all + s[i] as int == d as int + 256 * all'
    ensures Value(s[i := d]) + all' * Pow(i + 1) == Value(s) + all * Pow(i)
  {
    ValueUpdate(s, i, d);
    var p := Pow(i);
    assert all * p == (d as int - s[i] as int) * p + all' * (256 * p) by {
      assert (all + s[i] as int) * p == (d as int + 256 * all') * p;
    }
  }
}
