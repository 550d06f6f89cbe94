/** Range headers (internal/http_range/range.go). */
module HttpRange {
  import opened Streams
  import opened Decimal

  datatype Range = Range(start: int, end: int)

  /** Parse's results; indexing r[1] of an element without "-" panics. */
  datatype Outcome = Ranges(ranges: seq<Range>) | Invalid | NoOverlap | Panic

  /** What one "first-last" element of the list asks for. */
  function Element(first: Option<int>, last: Option<int>, size: int): Option<Range> {
    if first.None? && last.None? then None
    else
      var start := if first.None? then size - last.value else first.value;
      var end := if first.None? || last.None? then size - 1 else Min(last.value, size - 1);
      if start > end || start < 0 then None else Some(Range(start, end))
  }

  function ElementOf(value: string, size: int): Option<Range>
    requires '-' in value
  {
    var r := Split(value, '-');
    SplitCount(value, '-');
    Element(ParseInt(r[0]), ParseInt(r[1]), size)
  }

  lemma SplitCount(s: string, c: char)
    ensures |Split(s, c)| >= 2 <==> c in s
  {
    IndexOfIsFirst(s, c);
  }

  /** The accepted ranges of a list of elements, in order. */
  function Collect(values: seq<string>, size: int): seq<Range>
    requires Dashed(values)
  {
    if values == [] then []
    else
      var k := |values| - 1;
      var rest := Collect(values[..k], size);
      match ElementOf(values[k], size)
      case Some(r) => rest + [r]
      case None => rest
  }

  function Elements(header: string): seq<string>
    requires '=' in header
  {
    IndexOfIsFirst(header, '=');
    Split(header[IndexOf(header, '=') + 1..], ',')
  }

  /** Every element has the "-" that Parse takes for granted. */
  predicate Dashed(values: seq<string>) {
    forall i :: 0 <= i < |values| ==> '-' in values[i]
  }

  method Parse(header: string, size: int) returns (out: Outcome)
    ensures out == Invalid <==> '=' !in header
    ensures out == Panic <==> '=' in header && !Dashed(Elements(header))
    ensures '=' in header && Dashed(Elements(header)) ==>
              var found := Collect(Elements(header), size);
              out == if found == [] then NoOverlap else Ranges(found)
    ensures out.Ranges? ==> out.ranges != [] && Within(out.ranges, size)
  {
    IndexOfIsFirst(header, '=');
    var index := IndexOf(header, '=');
    if index == |header| {
      return Invalid;
    }
    var arr := Split(header[index + 1..], ',');
    assert arr == Elements(header);
    out := ParseList(arr, size);
  }

  ghost predicate Within(ranges: seq<Range>, size: int) {
    forall i :: 0 <= i < |ranges| ==> 0 <= ranges[i].start <= ranges[i].end < size
  }

  /** Parse's loop over the elements. */
  method ParseList(arr: seq<string>, size: int) returns (out: Outcome)
    ensures out != Invalid && (out == Panic <==> !Dashed(arr))
    ensures Dashed(arr) ==> out == if Collect(arr, size) == [] then NoOverlap else Ranges(Collect(arr, size))
    ensures out.Ranges? ==> out.ranges != [] && Within(out.ranges, size)
  {
    var ranges: seq<Range> := [];
    for i := 0 to |arr|
      invariant Dashed(arr[..i]) && ranges == Collect(arr[..i], size) && Within(ranges, size)
    {
      ghost var done := arr[..i];
      assert arr[..i + 1] == done + [arr[i]];
      var ok, range := ParseElement(arr[i], size);
      if !ok {
        return Panic;
      }
      CollectSnoc(done, arr[i], size);
      if range.Some? {
        ranges := ranges + [range.value];
      }
    }
    assert arr[..|arr|] == arr;
    out := if ranges == [] then NoOverlap else Ranges(ranges);
  }

  /** The body of Parse's loop. */
  method ParseElement(value: string, size: int) returns (ok: bool, range: Option<Range>)
    ensures ok <==> '-' in value
    ensures ok ==> range == ElementOf(value, size)
    ensures range.Some? ==> 0 <= range.value.start <= range.value.end < size
  {
    var r := Split(value, '-');
    SplitCount(value, '-');
    if |r| < 2 {
      return false, None;
    }
    var first, last := ParseInt(r[0]), ParseInt(r[1]);
    if first.None? && last.None? {
      return true, None;
    }
    var start, end := first.GetOr(0), last.GetOr(0);
    if first.None? {
      start := size - end;
      end := size - 1;
    } else if last.None? {
      end := size - 1;
    }
    if end >= size {
      end := size - 1;
    }
    if start > end || start < 0 {
      return true, None;
    }
    return true, Some(Range(start, end));
  }

  lemma CollectSnoc(values: seq<string>, value: string, size: int)
    requires Dashed(values) && '-' in value
    ensures Dashed(values + [value])
    ensures Collect(values + [value], size) ==
            Collect(values, size) + (match ElementOf(value, size) case Some(r) => [r] case None => [])
  {
    assert (values + [value])[..|values|] == values;
  }

  /** The header of a single range. */
  function Header(first: string, last: string): string {
    "bytes" + ['='] + (first + ['-'] + last)
  }

  lemma HeaderElements(first: string, last: string)
    requires AllDigits(first) && AllDigits(last)
    ensures var h := Header(first, last); '=' in h && Elements(h) == [first + ['-'] + last]
  {
    var value := first + ['-'] + last;
    var h := Header(first, last);
    IndexOfPrefix("bytes", '=', value);
    IndexOfIsFirst(h, '=');
    assert h[|"bytes"| + 1..] == value;
    assert forall i :: 0 <= i < |value| ==> value[i] == '-' || IsDigit(value[i]);
    IndexOfIsFirst(value, ',');
  }

  lemma ElementParts(first: string, last: string, size: int)
    requires AllDigits(first) && AllDigits(last)
    ensures var value := first + ['-'] + last;
            '-' in value && ElementOf(value, size) == Element(ParseInt(first), ParseInt(last), size)
  {
    var value := first + ['-'] + last;
    assert value[|first|] == '-';
    IndexOfPrefix(first, '-', last);
    assert value[..|first|] == first && value[|first| + 1..] == last;
    IndexOfIsFirst(last, '-');
    assert '-' !in last && Split(last, '-') == [last];
    assert Split(value, '-') == [first] + [last];
  }

  /** Parse on a header with one element. */
  lemma SingleRange(first: string, last: string, size: int)
    requires AllDigits(first) && AllDigits(last)
    ensures var h := Header(first, last);
            && '=' in h && Dashed(Elements(h))
            && Collect(Elements(h), size) ==
               match Element(ParseInt(first), ParseInt(last), size) case Some(r) => [r] case None => []
  {
    HeaderElements(first, last);
    ElementParts(first, last, size);
    var value := first + ['-'] + last;
    CollectSnoc([], value, size);
    assert [] + [value] == [value];
  }

  /** A position in a header. */
  predicate Digits(s: string) {
    s != "" && AllDigits(s)
  }

  lemma HeaderMeans(first: string, last: string, size: int)
    requires AllDigits(first) && AllDigits(last)
    ensures var h := Header(first, last);
            && '=' in h && Dashed(Elements(h))
            && Collect(Elements(h), size) ==
               match Element(Position(first), Position(last), size) case Some(r) => [r] case None => []
  {
    hide Header, Elements, Collect, Dashed;
    SingleRange(first, last, size);
    if first != "" {
      ParseDigits(first);
    }
    if last != "" {
      ParseDigits(last);
    }
  }

  /** The number that a position stands for, if it has 63 bits. */
  function Position(s: string): Option<int>
    requires AllDigits(s)
  {
    if s != "" && DigitSum(s) <= MAX_INT64 then Some(DigitSum(s)) else None
  }

  /** What a header with one int-range means (section 14.1.2 of RFC 9110): it is accepted when it starts
      inside the representation, and cut at its end. A first position of more than 63 bits counts as missing,
      which turns the range into a suffix-range. */
  lemma IntRange(first: string, last: string, size: int)
    requires Digits(first) && Digits(last) && size <= MAX_INT64
    ensures var h, a, b := Header(first, last), DigitSum(first), DigitSum(last);
            '=' in h && Dashed(Elements(h)) &&
            Collect(Elements(h), size) ==
            if a <= MAX_INT64 then (if a <= b && a < size then [Range(a, Min(b, size - 1))] else [])
            else (if 1 <= b <= size then [Range(size - b, size - 1)] else [])
  {
    hide Header, Elements, Collect, Dashed;
    HeaderMeans(first, last, size);
  }

  lemma OpenRange(first: string, size: int)
    requires Digits(first) && size <= MAX_INT64
    ensures var h, a := Header(first, ""), DigitSum(first);
            '=' in h && Dashed(Elements(h)) &&
            Collect(Elements(h), size) == if a < size then [Range(a, size - 1)] else []
  {
    hide Header, Elements, Collect, Dashed;
    HeaderMeans(first, "", size);
  }

  /** A suffix-range is honoured exactly when it is not longer than the representation; section 14.1.2
      of RFC 9110 would have the longer ones mean the whole representation. */
  lemma SuffixRange(last: string, size: nat)
    requires Digits(last) && size <= MAX_INT64
    ensures var h, n := Header("", last), DigitSum(last);
            '=' in h && Dashed(Elements(h)) &&
            Collect(Elements(h), size) == if 1 <= n <= size then [Range(size - n, size - 1)] else []
  {
    hide Header, Elements, Collect, Dashed;
    HeaderMeans("", last, size);
  }

  /** For instance: the second ten bytes, all but the first ten, and the last ten of a thousand. */
  lemma RangeExamples()
    ensures '=' in "bytes=10-19" && Dashed(Elements("bytes=10-19"))
            && Collect(Elements("bytes=10-19"), 1000) == [Range(10, 19)]
    ensures '=' in "bytes=10-" && Dashed(Elements("bytes=10-"))
            && Collect(Elements("bytes=10-"), 1000) == [Range(10, 999)]
    ensures '=' in "bytes=-10" && Dashed(Elements("bytes=-10"))
            && Collect(Elements("bytes=-10"), 1000) == [Range(990, 999)]
  {
    hide Elements, Collect, Dashed;
    DigitExamples();
    assert Header("10", "19") == "bytes=10-19" && Header("10", "") == "bytes=10-" && Header("", "10") == "bytes=-10";
    IntRange("10", "19", 1000);
    OpenRange("10", 1000);
    SuffixRange("10", 1000);
  }

  lemma DigitExamples()
    ensures AllDigits("10") && AllDigits("19") && DigitSum("10") == 10 && DigitSum("19") == 19
  {
    assert "10"[1..] == "0" && "19"[1..] == "9" && "0"[1..] == "" && "9"[1..] == "";
    assert Ten(0) == 1 && Ten(1) == 10;
  }

  /** The elements of a header are what its part behind the first "=" is made of, between commas. */
  lemma ListElements(unit: string, values: seq<string>)
    requires '=' !in unit && values != [] && forall i :: 0 <= i < |values| ==> ',' !in values[i]
    ensures var h := unit + "=" + Join(values, ','); '=' in h && Elements(h) == values
  {
    var list := Join(values, ',');
    var h := unit + "=" + list;
    assert h == unit + ['='] + list && h[|unit|] == '=';
    IndexOfPrefix(unit, '=', list);
    assert h[|unit| + 1..] == list;
    SplitJoin(values, ',');
  }

  /** The elements at `from` are those that are accepted, as `found`, in the order of the list. */
  ghost predicate Picked(values: seq<string>, size: int, from: seq<nat>, found: seq<Range>)
    requires Dashed(values)
  {
    && |from| == |found| && (forall i, j :: 0 <= i < j < |from| ==> from[i] < from[j])
    && (forall j :: 0 <= j < |from| ==>
          from[j] < |values| && ElementOf(values[from[j]], size) == Some(found[j]))
    && (forall k :: 0 <= k < |values| && k !in from ==> ElementOf(values[k], size) == None)
  }

  lemma PickedSnoc(values: seq<string>, value: string, size: int, from: seq<nat>, found: seq<Range>)
    requires Dashed(values) && '-' in value && Picked(values, size, from, found)
    ensures Dashed(values + [value])
    ensures match ElementOf(value, size)
            case Some(r) => Picked(values + [value], size, from + [|values|], found + [r])
            case None => Picked(values + [value], size, from, found)
  {
    hide ElementOf;
    var all := values + [value];
    assert forall k :: 0 <= k < |values| ==> all[k] == values[k];
    assert forall k :: k in from ==> k in from + [|values|];
    assert (from + [|values|])[|from|] == |values|;
  }

  /** What a list of ranges means: those of its elements that are accepted, each once and in order. */
  lemma {:induction false} CollectPicks(values: seq<string>, size: int) returns (from: seq<nat>)
    requires Dashed(values)
    ensures Picked(values, size, from, Collect(values, size))
  {
    hide ElementOf;
    from := [];
    if values != [] {
      var k := |values| - 1;
      from := CollectPicks(values[..k], size);
      PickedSnoc(values[..k], values[k], size, from, Collect(values[..k], size));
      assert values[..k] + [values[k]] == values;
      if ElementOf(values[k], size).Some? {
        from := from + [k];
      }
    }
  }
}
