/**
Decimal numerals as the record parser reads them and printf writes them.
*/
module Decimal {
  import opened Bytes

  const GENERATION_LIMIT := 9007199254740991

  predicate IsDigit(c: Byte) {
    48 <= c <= 57
  }

  predicate AllDigits(s: seq<Byte>) {
    forall i :: 0 <= i < |s| ==> IsDigit(s[i])
  }

  /** The number a digit string denotes. */
  function Value(s: seq<Byte>): (n: nat)
    requires AllDigits(s)
  {
    if s == [] then 0 else Value(s[..|s| - 1]) * 10 + (s[|s| - 1] - 48)
  }

  /** The numeral printf("%llu") writes: no leading zero unless the number is zero. */
  function Digits(n: nat): (s: seq<Byte>)
    ensures |s| > 0 && AllDigits(s) && Value(s) == n
    ensures n > 0 ==> s[0] != 48
  {
    if n < 10 then
      assert Value([]) == 0;
      [48 + n]
    else
      var s := Digits(n / 10) + [48 + n % 10];
      assert s[..|s| - 1] == Digits(n / 10);
      s
  }

  lemma TimesTen(x: int, p: int, v: int, d: int)
    ensures (x * p + v) * 10 + d == x * (10 * p) + (v * 10 + d)
  {
  }

  /** Positional notation: the value of two runs of digits behind one another, and of one digit. */
  lemma {:induction false} ValueOfConcat(a: seq<Byte>, b: seq<Byte>)
    requires AllDigits(a) && AllDigits(b)
    ensures AllDigits(a + b) && Value(a + b) == Value(a) * Power10(|b|) + Value(b)
    ensures |b| == 1 ==> 48 <= b[0] <= 57 && Value(b) == b[0] - 48
    decreases |b|
  {
    assert Value([]) == 0;
    if b == [] {
      assert a + b == a;
    } else {
      var init := b[..|b| - 1];
      ValueOfConcat(a, init);
      assert (a + b)[..|a + b| - 1] == a + init;
      TimesTen(Value(a), Power10(|init|), Value(init), b[|b| - 1] - 48);
    }
  }

  /** A numeral is no longer than the width its magnitude allows. */
  lemma {:induction false} DigitsWidth(n: nat, width: nat)
    requires width >= 1 && n < Power10(width)
    ensures |Digits(n)| <= width
    decreases width
  {
    if n >= 10 {
      assert width > 1;
      DigitsWidth(n / 10, width - 1);
    }
  }

  function Power10(k: nat): (p: nat)
    ensures p > 0
  {
    if k == 0 then 1 else 10 * Power10(k - 1)
  }

  lemma Power10Of16()
    ensures Power10(16) == 10_000_000_000_000_000
  {
    assert Power10(4) == 10_000;
    assert Power10(8) == 100_000_000;
    assert Power10(12) == 1_000_000_000_000;
  }

  /** A digit string without a leading zero is the numeral of its value. */
  lemma {:induction false} DigitsOfValue(s: seq<Byte>)
    requires AllDigits(s) && s != [] && s[0] != 48
    ensures Value(s) > 0 && Digits(Value(s)) == s
  {
    var init, last := s[..|s| - 1], s[|s| - 1] - 48;
    if init == [] {
      assert s == [48 + last];
    } else {
      DigitsOfValue(init);
      assert Value(s) / 10 == Value(init) && Value(s) % 10 == last;
      assert s == init + [48 + last];
    }
  }

  /** Appending digits never lowers the value, so an overflow cannot be undone. */
  lemma {:induction false} ValueOfPrefix(s: seq<Byte>, k: nat)
    requires AllDigits(s) && k <= |s|
    ensures Value(s[..k]) <= Value(s)
    decreases |s|
  {
    if k < |s| {
      ValueOfPrefix(s[..|s| - 1], k);
      assert s[..|s| - 1][..k] == s[..k];
    } else {
      assert s[..k] == s;
    }
  }

  /** Where the run of digits that starts at p ends. */
  ghost function RunEnd(text: seq<Byte>, p: nat): (q: nat)
    requires p <= |text|
    ensures p <= q <= |text| && AllDigits(text[p..q])
    ensures q < |text| ==> !IsDigit(text[q])
    decreases |text| - p
  {
    if p < |text| && IsDigit(text[p]) then
      var q := RunEnd(text, p + 1);
      assert text[p..q] == [text[p]] + text[p + 1..q];
      q
    else p
  }

  /** The run is maximal and unique: any digit run closed by a non-digit is this one. */
  lemma {:induction false} RunEndIs(text: seq<Byte>, p: nat, q: nat)
    requires p <= q <= |text| && AllDigits(text[p..q])
    requires q < |text| ==> !IsDigit(text[q])
    ensures RunEnd(text, p) == q
    decreases q - p
  {
    if p < q {
      assert IsDigit(text[p..q][0]);
      assert text[p + 1..q] == text[p..q][1..];
      RunEndIs(text, p + 1, q);
    }
  }

  lemma {:induction false} RunCovers(text: seq<Byte>, p: nat, m: nat)
    requires p <= m <= |text| && AllDigits(text[p..m])
    ensures m <= RunEnd(text, p)
    decreases m - p
  {
    if p < m {
      assert IsDigit(text[p..m][0]);
      assert text[p + 1..m] == text[p..m][1..];
      RunCovers(text, p + 1, m);
    }
  }

  /**
  The digit loop of the record parser. The guard tests each digit before it is taken, so the
  64-bit accumulator never passes the limit; the loop rejects exactly the runs that denote more.
  */
  method Accumulate(text: seq<Byte>, start: nat) returns (value: Option<nat>, p: nat)
    requires start <= |text|
    ensures value.Some? <==> Value(text[start..RunEnd(text, start)]) <= GENERATION_LIMIT
    ensures value.Some? ==> p == RunEnd(text, start) && value.value == Value(text[start..p])
  {
    p := start;
    var generation: nat := 0;
    assert text[start..p] == [];
    while p < |text| && 48 <= text[p] <= 57
      invariant start <= p <= |text|
      invariant AllDigits(text[start..p])
      invariant generation == Value(text[start..p]) <= GENERATION_LIMIT
    {
      var digit := text[p] - 48;
      assert text[start..p + 1] == text[start..p] + [text[p]];
      p := p + 1;
      assert text[start..p][..p - start - 1] == text[start..p - 1];
      if generation > (GENERATION_LIMIT - digit) / 10 {
        Overflow(text, start, p);
        return None, p;
      }
      generation := generation * 10 + digit;
    }
    RunEndIs(text, start, p);
    value := Some(generation);
  }

  /** Once a prefix of the run passes the limit, so does the whole run. */
  lemma Overflow(text: seq<Byte>, start: nat, p: nat)
    requires start <= p <= |text| && AllDigits(text[start..p])
    requires Value(text[start..p]) > GENERATION_LIMIT
    ensures Value(text[start..RunEnd(text, start)]) > GENERATION_LIMIT
  {
    var q := RunEnd(text, start);
    RunCovers(text, start, p);
    assert text[start..q][..p - start] == text[start..p];
    ValueOfPrefix(text[start..q], p - start);
  }
}
