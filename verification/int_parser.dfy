/**
  `IntParser`: a decimal accumulator for 64-bit unsigned values with sticky
  `invalid` and `overflowed` flags. Overflow is detected with the source's
  own checks: an unsigned add that compares the wrapped sum with both
  operands, and a multiply that splits the larger operand into 32-bit
  halves instead of using a wide product. All `uint64_t` arithmetic is
  written modulo 2^64.
 */
module IntParsing {
  import opened Bytes

  /** `add_with_overflow_check<uint64_t>(a, b, r)`: stores the wrapped sum
      and reports whether it is at least both operands. */
  function AddWithOverflowCheck(a: uint64, b: uint64): (res: (bool, uint64))
    ensures res.0 <==> a + b < TWO_64
    ensures res.0 ==> res.1 == a + b
    ensures !res.0 ==> res.1 == a + b - TWO_64
  {
    var r := (a + b) % TWO_64;
    assert r == if a + b < TWO_64 then a + b else a + b - TWO_64;
    (a <= r && b <= r, r)
  }

  /** `mult_with_overflow_check<uint64_t>(a, b, r)`. The smaller operand
      must fit in 32 bits; the larger is split into its top half `c` and
      bottom half `d`; the top partial product must fit in 32 bits; the
      shifted top product and the bottom product are then added with the
      checked add. On the two early failures `*r` is not written, so the
      result carries `prior`, the value `*r` held before the call. */
  function MultWithOverflowCheck(a: uint64, b: uint64, prior: uint64): (res: (bool, uint64))
    ensures res.0 <==> a * b < TWO_64
    ensures res.0 ==> res.1 == a * b
  {
    var (x, y) := if a > b then (b, a) else (a, b);
    if x > UINT32_MAX then
      LargeFactors(x, y);
      (false, prior)
    else
      var c := y / TWO_32;
      var d := y % TWO_32;
      var u := (x * c) % TWO_64;
      var v := (x * d) % TWO_64;
      if u > UINT32_MAX then
        SplitCheckExact(x, y, c, d, u, v);
        (false, prior)
      else
        var res := AddWithOverflowCheck((u * TWO_32) % TWO_64, v);
        SplitCheckExact(x, y, c, d, u, v);
        res
  }

  /** The split check agrees with the wide product: the top partial product
      overflows 32 bits only when the full product overflows 64 bits, and
      otherwise the checked add of the shifted top product and the bottom
      product is the full product. */
  lemma SplitCheckExact(x: nat, y: nat, c: nat, d: nat, u: nat, v: nat)
    requires x <= UINT32_MAX && y < TWO_64
    requires c == y / TWO_32 && d == y % TWO_32
    requires u == (x * c) % TWO_64 && v == (x * d) % TWO_64
    ensures u > UINT32_MAX ==> x * y >= TWO_64
    ensures u <= UINT32_MAX ==>
      (u * TWO_32) % TWO_64 == u * TWO_32 && u * TWO_32 + v == x * y
  {
    SplitProduct(x, y, c, d);
    SmallMod(x * c, TWO_64);
    SmallMod(x * d, TWO_64);
    if u <= UINT32_MAX {
      assert u * TWO_32 == x * c * TWO_32;
      SmallMod(u * TWO_32, TWO_64);
    }
  }

  lemma SmallMod(a: nat, m: nat)
    requires a < m
    ensures a % m == a
  {
  }

  /** Both factors at least 2^32 means the product needs more than 64 bits. */
  lemma LargeFactors(x: nat, y: nat)
    requires UINT32_MAX < x <= y
    ensures x * y >= TWO_64
  {
    calc {
      x * y;
    >= { MulMonotone(x, y, TWO_32); }
      x * TWO_32;
    >= { MulMonotone(TWO_32, x, TWO_32); }
      TWO_32 * TWO_32;
    }
  }

  lemma MulMonotone(k: nat, a: nat, b: nat)
    requires a >= b
    ensures k * a >= k * b
  {
  }

  /** The facts about the 32-bit split that make the multiply check exact:
      neither partial product wraps, the shifted top product does not wrap
      while the top product fits in 32 bits, and the product is the sum of
      the shifted top product and the bottom product. */
  lemma SplitProduct(x: nat, y: nat, c: nat, d: nat)
    requires x <= UINT32_MAX && y < TWO_64
    requires c == y / TWO_32 && d == y % TWO_32
    ensures c <= UINT32_MAX && d <= UINT32_MAX
    ensures x * c < TWO_64 && x * d < TWO_64
    ensures x * y == x * c * TWO_32 + x * d
    ensures x * c > UINT32_MAX ==> x * y >= TWO_64
    ensures x * c <= UINT32_MAX ==> x * c * TWO_32 < TWO_64
  {
    HalvesFit(y, c, d);
    assert x * c < TWO_64 by { MulLe(x, c, UINT32_MAX, UINT32_MAX); }
    assert x * d < TWO_64 by { MulLe(x, d, UINT32_MAX, UINT32_MAX); }
    assert x * y == x * c * TWO_32 + x * d by { Distribute(x, c, TWO_32, d); }
    if x * c > UINT32_MAX {
      assert TWO_32 * TWO_32 <= x * c * TWO_32 by { MulLe(TWO_32, TWO_32, x * c, TWO_32); }
    } else {
      assert x * c * TWO_32 <= UINT32_MAX * TWO_32 by { MulLe(x * c, TWO_32, UINT32_MAX, TWO_32); }
    }
  }

  /** The two 32-bit halves of a 64-bit value. */
  lemma HalvesFit(y: nat, c: nat, d: nat)
    requires y < TWO_64 && c == y / TWO_32 && d == y % TWO_32
    ensures y == c * TWO_32 + d && c <= UINT32_MAX && d <= UINT32_MAX
  {
  }

  lemma MulLe(a: nat, b: nat, p: nat, q: nat)
    requires a <= p && b <= q
    ensures a * b <= p * q
  {
    MulMonotone(a, q, b);
    MulMonotone(q, p, a);
  }

  lemma Distribute(x: nat, c: nat, t: nat, d: nat)
    ensures x * (c * t + d) == x * c * t + x * d
  {
  }

  datatype IntParser = IntParser(overflowed: bool, invalid: bool, value: uint64)

  /** A value-initialised parser (the field defaults in IntParser.h). */
  function Fresh(): (p: IntParser)
    ensures !p.overflowed && !p.invalid && p.value == 0
  {
    IntParser(false, false, 0)
  }

  /** `reset()`: whatever the parser held, both flags clear and the value 0. */
  function Reset(p: IntParser): (p': IntParser)
    ensures !p'.overflowed && !p'.invalid && p'.value == 0
  {
    p.(overflowed := false, invalid := false, value := 0)
  }

  predicate IsDigit(c: uint8)
  {
    DIGIT_ZERO <= c <= DIGIT_NINE
  }

  /** `next(c)`: ignored once a flag is set; a non-digit sets `invalid`; a
      digit d makes the value value*10 + d, or sets `overflowed` when that
      does not fit in 64 bits. */
  function Next(p: IntParser, c: uint8): (p': IntParser)
    ensures p.invalid || p.overflowed ==> p' == p
    ensures !p.invalid && !p.overflowed && !IsDigit(c) ==>
      p'.invalid && !p'.overflowed && p'.value == p.value
    ensures !p.invalid && !p.overflowed && IsDigit(c) ==>
      && !p'.invalid
      && (p'.overflowed <==> p.value * 10 + (c - DIGIT_ZERO) >= TWO_64)
      && (!p'.overflowed ==> p'.value == p.value * 10 + (c - DIGIT_ZERO))
  {
    if p.invalid || p.overflowed then p
    else if c < DIGIT_ZERO || c > DIGIT_NINE then p.(invalid := true)
    else
      var (ok, v) := MultWithOverflowCheck(p.value, 10, p.value);
      if !ok then p.(overflowed := true, value := v)
      else
        var (ok2, v2) := AddWithOverflowCheck(v, c - DIGIT_ZERO);
        p.(overflowed := !ok2, value := v2)
  }

  /** `value(&v)`: always hands out the raw value; trustworthy only when
      neither flag is set. */
  function Value(p: IntParser): (res: (bool, uint64))
    ensures res.1 == p.value
    ensures res.0 <==> !p.overflowed && !p.invalid
  {
    (!p.overflowed && !p.invalid, p.value)
  }

  /** Feeding a run of bytes one `next` at a time. Once a flag is set the
      rest of the run is ignored. */
  function Feed(p: IntParser, s: seq<uint8>): (p': IntParser)
    ensures p.invalid || p.overflowed ==> p' == p
    ensures p.invalid ==> p'.invalid
    ensures p'.invalid ==> !p'.overflowed || p.overflowed
  {
    if |s| == 0 then p else Next(Feed(p, s[..|s| - 1]), s[|s| - 1])
  }

  predicate AllDigits(s: seq<uint8>)
  {
    forall i :: 0 <= i < |s| ==> IsDigit(s[i])
  }

  /** The number a run of decimal digits denotes, most significant first. */
  function DecimalValue(s: seq<uint8>): nat
    requires AllDigits(s)
  {
    if |s| == 0 then 0
    else DecimalValue(s[..|s| - 1]) * 10 + (s[|s| - 1] - DIGIT_ZERO)
  }

  lemma {:induction false} FeedAppend(p: IntParser, a: seq<uint8>, b: seq<uint8>)
    ensures Feed(p, a + b) == Feed(Feed(p, a), b)
    decreases |b|
  {
    if |b| == 0 {
      assert a + b == a;
    } else {
      assert (a + b)[..|a + b| - 1] == a + b[..|b| - 1];
      FeedAppend(p, a, b[..|b| - 1]);
    }
  }

  /** While the digits fed so far denote a value below 2^64 the parser holds
      exactly that value with no flag set; from the first digit that pushes
      the value to 2^64 or beyond, `overflowed` is set (and never
      `invalid`). */
  lemma {:induction false} FeedDigits(s: seq<uint8>)
    requires AllDigits(s)
    ensures !Feed(Fresh(), s).invalid
    ensures Feed(Fresh(), s).overflowed <==> DecimalValue(s) >= TWO_64
    ensures DecimalValue(s) < TWO_64 ==> Feed(Fresh(), s).value == DecimalValue(s)
  {
    if |s| > 0 {
      var init := s[..|s| - 1];
      assert AllDigits(init);
      FeedDigits(init);
    }
  }

  /** A non-digit after a run of digits: `invalid` if the digits so far fit
      in 64 bits, otherwise the earlier `overflowed` stays the only flag.
      Either way nothing after it changes the parser. */
  lemma FeedNonDigit(digits: seq<uint8>, c: uint8, rest: seq<uint8>)
    requires AllDigits(digits) && !IsDigit(c)
    ensures Feed(Fresh(), digits + [c] + rest).invalid <==> DecimalValue(digits) < TWO_64
    ensures Feed(Fresh(), digits + [c] + rest).overflowed <==> DecimalValue(digits) >= TWO_64
    ensures DecimalValue(digits) < TWO_64 ==>
      Feed(Fresh(), digits + [c] + rest).value == DecimalValue(digits)
  {
    FeedDigits(digits);
    FeedAppend(Fresh(), digits, [c]);
    assert Feed(Feed(Fresh(), digits), [c]) == Next(Feed(Feed(Fresh(), digits), []), c);
    FeedAppend(Fresh(), digits + [c], rest);
  }

  /** What `value` reports after a run of bytes: success exactly for a run of
      digits denoting a value below 2^64, and then that value. */
  lemma {:induction false} ValueAfterFeed(s: seq<uint8>)
    ensures Value(Feed(Fresh(), s)).0 <==> AllDigits(s) && DecimalValue(s) < TWO_64
    ensures AllDigits(s) && DecimalValue(s) < TWO_64 ==>
      Value(Feed(Fresh(), s)).1 == DecimalValue(s)
  {
    if AllDigits(s) {
      FeedDigits(s);
    } else {
      var i :| 0 <= i < |s| && !IsDigit(s[i]);
      var j := FirstNonDigit(s, i);
      assert s == s[..j] + [s[j]] + s[j + 1..];
      FeedNonDigit(s[..j], s[j], s[j + 1..]);
    }
  }

  lemma FirstNonDigit(s: seq<uint8>, i: nat) returns (j: nat)
    requires i < |s| && !IsDigit(s[i])
    ensures j <= i && !IsDigit(s[j]) && AllDigits(s[..j])
  {
    j := 0;
    while IsDigit(s[j])
      invariant j <= i && AllDigits(s[..j])
      decreases i - j
    {
      assert s[..j + 1] == s[..j] + [s[j]];
      j := j + 1;
    }
  }

  /** The position of the first byte that is not a digit. */
  function NonDigitIndex(s: seq<uint8>): (j: nat)
    requires !AllDigits(s)
    ensures j < |s| && !IsDigit(s[j]) && AllDigits(s[..j])
  {
    if !IsDigit(s[0]) then 0
    else
      var j := 1 + NonDigitIndex(s[1..]);
      assert forall i :: 1 <= i < j ==> s[..j][i] == s[1..][..j - 1][i - 1];
      j
  }

  /** How a decimal field reads as a 64-bit unsigned number, stated
      independently of the parser: a number when it is all digits below
      2^64; too large when its digits reach 2^64 before any other byte;
      not a number when a non-digit comes first. */
  datatype Outcome = Number(value: nat) | TooLarge | NotNumber

  function Judge(s: seq<uint8>): Outcome
  {
    if AllDigits(s) then
      if DecimalValue(s) < TWO_64 then Number(DecimalValue(s)) else TooLarge
    else
      var j := NonDigitIndex(s);
      if DecimalValue(s[..j]) < TWO_64 then NotNumber else TooLarge
  }

  /** The parser's flags after a run of bytes are exactly the verdict of
      `Judge`: `overflowed` for too large, `invalid` for not a number, and
      otherwise the number itself. */
  lemma FeedJudged(s: seq<uint8>)
    ensures Feed(Fresh(), s).overflowed <==> Judge(s) == TooLarge
    ensures Feed(Fresh(), s).invalid <==> Judge(s) == NotNumber
    ensures Judge(s).Number? ==> Feed(Fresh(), s).value == Judge(s).value
  {
    if AllDigits(s) {
      FeedDigits(s);
    } else {
      var j := NonDigitIndex(s);
      assert s == s[..j] + [s[j]] + s[j + 1..];
      FeedNonDigit(s[..j], s[j], s[j + 1..]);
    }
  }

  /** The decimal digits of n, most significant first, without leading
      zeros. */
  function Digits(n: nat): (s: seq<uint8>)
    ensures AllDigits(s) && |s| > 0
    decreases n
  {
    if n < 10 then [DIGIT_ZERO + n] else Digits(n / 10) + [DIGIT_ZERO + n % 10]
  }

  lemma {:induction false} DecimalValueOfDigits(n: nat)
    ensures DecimalValue(Digits(n)) == n
    decreases n
  {
    if n >= 10 {
      var s := Digits(n);
      assert s[..|s| - 1] == Digits(n / 10);
      DecimalValueOfDigits(n / 10);
    }
  }

  function Pow10(k: nat): (p: nat)
    ensures p >= 1
  {
    if k == 0 then 1 else 10 * Pow10(k - 1)
  }

  /** A leading digit contributes its weight times ten to the number of
      digits that follow. */
  lemma {:induction false} DecimalValuePrepend(d: uint8, s: seq<uint8>)
    requires IsDigit(d) && AllDigits(s)
    ensures AllDigits([d] + s)
    ensures DecimalValue([d] + s) == (d - DIGIT_ZERO) * Pow10(|s|) + DecimalValue(s)
    decreases |s|
  {
    assert AllDigits([d] + s);
    if |s| > 0 {
      var init := s[..|s| - 1];
      var k := d - DIGIT_ZERO;
      var last := s[|s| - 1] - DIGIT_ZERO;
      assert ([d] + s)[..|[d] + s| - 1] == [d] + init;
      assert AllDigits(init);
      DecimalValuePrepend(d, init);
      assert ([d] + s)[|s|] == s[|s| - 1];
      assert DecimalValue([d] + s) == DecimalValue([d] + init) * 10 + last;
      Regroup(k, Pow10(|init|), DecimalValue(init), last);
    }
  }

  lemma Regroup(k: int, p: int, v: int, last: int)
    ensures (k * p + v) * 10 + last == k * (10 * p) + (v * 10 + last)
  {
  }

  /** The largest 64-bit value parses exactly and without a flag. */
  lemma MaxValueParses()
    ensures Value(Feed(Fresh(), Digits(UINT64_MAX))) == (true, UINT64_MAX)
  {
    DecimalValueOfDigits(UINT64_MAX);
    FeedDigits(Digits(UINT64_MAX));
  }

  /** A '1' in front of the digits of the largest 64-bit value overflows,
      and the parser reports overflow rather than an invalid byte. */
  lemma OneMoreDigitOverflows()
    ensures Feed(Fresh(), [DIGIT_ZERO + 1] + Digits(UINT64_MAX)).overflowed
    ensures !Feed(Fresh(), [DIGIT_ZERO + 1] + Digits(UINT64_MAX)).invalid
    ensures !Value(Feed(Fresh(), [DIGIT_ZERO + 1] + Digits(UINT64_MAX))).0
  {
    var s := Digits(UINT64_MAX);
    DecimalValueOfDigits(UINT64_MAX);
    DecimalValuePrepend(DIGIT_ZERO + 1, s);
    FeedDigits([DIGIT_ZERO + 1] + s);
  }
}
