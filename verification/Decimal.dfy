/** Go's strconv.FormatInt and strconv.ParseInt in base 10 for 64-bit integers, and strings.Split. */
module Decimal {
  import opened Streams

  const MAX_INT64: int := 0x7FFF_FFFF_FFFF_FFFF
  const MIN_INT64: int := -0x8000_0000_0000_0000

  predicate IsDigit(c: char) {
    '0' <= c <= '9'
  }

  predicate AllDigits(s: string) {
    forall i :: 0 <= i < |s| ==> IsDigit(s[i])
  }

  function FormatNat(n: nat): string {
    if n < 10 then [(n + 48) as char] else FormatNat(n / 10) + [(n % 10 + 48) as char]
  }

  function Format(n: int): string {
    if n < 0 then "-" + FormatNat(-n) else FormatNat(n)
  }

  function ValueOf(s: string): nat
    requires AllDigits(s)
  {
    if s == "" then 0 else 10 * ValueOf(s[..|s| - 1]) + (s[|s| - 1] as int - 48)
  }

  /** ParseInt: an optional sign, at least one digit, and a value that fits. */
  function ParseInt(s: string): Option<int> {
    var negative := s != "" && s[0] == '-';
    var digits := if s != "" && (s[0] == '-' || s[0] == '+') then s[1..] else s;
    if digits == "" || !AllDigits(digits) then None
    else
      var magnitude: int := ValueOf(digits);
      var v := if negative then -magnitude else magnitude;
      if MIN_INT64 <= v <= MAX_INT64 then Some(v) else None
  }

  lemma {:induction false} FormatNatParses(n: nat)
    ensures FormatNat(n) != "" && AllDigits(FormatNat(n)) && ValueOf(FormatNat(n)) == n
  {
    if n >= 10 {
      FormatNatParses(n / 10);
      var head := FormatNat(n / 10);
      var s := FormatNat(n);
      assert s[..|s| - 1] == head;
      assert AllDigits(s);
    } else {
      assert FormatNat(n)[..0] == "";
    }
  }

  /** Every 64-bit integer survives being printed and parsed. */
  lemma FormatParses(n: int)
    requires MIN_INT64 <= n <= MAX_INT64
    ensures ParseInt(Format(n)) == Some(n)
  {
    FormatNatParses(if n < 0 then -n else n);
    if n < 0 {
      assert Format(n)[1..] == FormatNat(-n);
    } else {
      assert IsDigit(FormatNat(n)[0]);
    }
  }

  /** The weight of a decimal digit, i places from the right. */
  function Ten(i: nat): (r: nat)
    ensures r > 0
  {
    if i == 0 then 1 else 10 * Ten(i - 1)
  }

  function Digit(c: char): nat
    requires IsDigit(c)
  {
    c as int - '0' as int
  }

  /** What digits stand for: the sum of all digits, each times its weight. */
  function DigitSum(s: string): nat
    requires AllDigits(s)
  {
    if s == "" then 0 else Digit(s[0]) * Ten(|s| - 1) + DigitSum(s[1..])
  }

  lemma {:induction false} DigitSumSnoc(s: string, c: char)
    requires AllDigits(s) && IsDigit(c)
    ensures AllDigits(s + [c]) && DigitSum(s + [c]) == 10 * DigitSum(s) + Digit(c)
  {
    var t := s + [c];
    if s == "" {
      assert t[1..] == "" && Ten(0) == 1;
    } else {
      DigitSumSnoc(s[1..], c);
      assert t[1..] == s[1..] + [c];
      var d, w := Digit(s[0]), Ten(|s| - 1);
      assert d * (10 * w) == 10 * (d * w);
    }
  }

  lemma {:induction false} ValueIsDigitSum(s: string)
    requires AllDigits(s)
    ensures ValueOf(s) == DigitSum(s)
  {
    if s != "" {
      var front, c := s[..|s| - 1], s[|s| - 1];
      ValueIsDigitSum(front);
      DigitSumSnoc(front, c);
      assert s == front + [c];
    }
  }

  /** Digits, with or without a sign, are read in base 10, as far as the number has 64 bits. */
  lemma ParseDigits(s: string)
    requires s != "" && AllDigits(s)
    ensures ParseInt(s) == ParseInt("+" + s) == if DigitSum(s) <= MAX_INT64 then Some(DigitSum(s)) else None
    ensures ParseInt("-" + s) == if DigitSum(s) <= MAX_INT64 + 1 then Some(0 - DigitSum(s)) else None
  {
    ValueIsDigitSum(s);
    assert IsDigit(s[0]) && ("+" + s)[1..] == s && ("-" + s)[1..] == s;
  }

  /** Nothing else is a number. */
  lemma ParsesDigitsOnly(s: string)
    requires ParseInt(s).Some?
    ensures exists digits :: digits != "" && AllDigits(digits) && s in {digits, "+" + digits, "-" + digits}
  {
    var digits := if s[0] == '-' || s[0] == '+' then s[1..] else s;
    assert s == digits || s == [s[0]] + digits;
    assert digits != "" && AllDigits(digits);
  }

  /** A number is printed as the digits that stand for it, without leading zeros. */
  lemma {:induction false} FormatDigits(n: nat)
    ensures var s := FormatNat(n);
            s != "" && AllDigits(s) && DigitSum(s) == n && (s[0] == '0' ==> s == "0" && n == 0)
  {
    FormatNatParses(n);
    ValueIsDigitSum(FormatNat(n));
    if n >= 10 {
      FormatDigits(n / 10);
      assert FormatNat(n) == FormatNat(n / 10) + [(n % 10 + 48) as char];
    }
  }

  /** The position of the first c in s, or |s|. */
  function IndexOf(s: string, c: char): (i: nat)
    ensures i <= |s|
  {
    if s == "" || s[0] == c then 0 else 1 + IndexOf(s[1..], c)
  }

  lemma {:induction false} IndexOfIsFirst(s: string, c: char)
    ensures c !in s[..IndexOf(s, c)]
    ensures IndexOf(s, c) < |s| ==> s[IndexOf(s, c)] == c
    ensures IndexOf(s, c) == |s| <==> c !in s
  {
    if s != "" && s[0] != c {
      IndexOfIsFirst(s[1..], c);
      assert s == [s[0]] + s[1..];
      assert s[..IndexOf(s, c)] == [s[0]] + s[1..][..IndexOf(s[1..], c)];
    }
  }

  /** strings.Split by a one-character separator; the result is never empty. */
  function Split(s: string, c: char): (r: seq<string>)
    ensures r != []
    decreases |s|
  {
    var i := IndexOf(s, c);
    if i == |s| then [s] else [s[..i]] + Split(s[i + 1..], c)
  }

  /** strings.Join by a one-character separator. */
  function Join(parts: seq<string>, c: char): string
    requires parts != []
  {
    if |parts| == 1 then parts[0] else parts[0] + [c] + Join(parts[1..], c)
  }

  /** Splitting undoes joining, for parts that do not contain the separator. */
  lemma {:induction false} SplitJoin(parts: seq<string>, c: char)
    requires parts != [] && forall i :: 0 <= i < |parts| ==> c !in parts[i]
    ensures Split(Join(parts, c), c) == parts
  {
    if |parts| == 1 {
      IndexOfIsFirst(parts[0], c);
      assert parts == [parts[0]];
    } else {
      var tail := Join(parts[1..], c);
      SplitJoin(parts[1..], c);
      IndexOfPrefix(parts[0], c, tail);
      var s := Join(parts, c);
      assert s == parts[0] + [c] + tail;
      assert s[..|parts[0]|] == parts[0] && s[|parts[0]| + 1..] == tail;
    }
  }

  lemma {:induction false} IndexOfPrefix(a: string, c: char, b: string)
    requires c !in a
    ensures IndexOf(a + [c] + b, c) == |a|
  {
    var s := a + [c] + b;
    if a != "" {
      assert s[1..] == a[1..] + [c] + b;
      IndexOfPrefix(a[1..], c, b);
    }
  }
}
