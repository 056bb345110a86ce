/** The numbers behind bit patterns and decimals, and which floats are small integers.  A parser takes a decimal
    to a nearest float; a printer chooses a decimal with the fewest digits that the parser takes back. */
module FloatValues {
  import opened MachineInts

  const TWO_52: nat := 0x10_0000_0000_0000
  /** The magnitudes of numbers are the patterns below this one, which is infinity. */
  const INFINITY: nat := 2047 * TWO_52

  function Pow2(k: int): (r: real)
    ensures r > 0.0
    decreases if k < 0 then -k else k
  {
    if k == 0 then 1.0 else if k > 0 then 2.0 * Pow2(k - 1) else Pow2(k + 1) / 2.0
  }

  lemma Pow2Next(k: int)
    ensures Pow2(k + 1) == 2.0 * Pow2(k)
  {
  }

  /** The number of a magnitude. */
  function Value(mag: nat): (v: real)
    requires mag < INFINITY
  {
    var e, m := mag / TWO_52, mag % TWO_52;
    if e == 0 then m as real * Pow2(-1074) else (TWO_52 + m) as real * Pow2(e - 1075)
  }

  /** The distance to the next magnitude. */
  function Gap(mag: nat): (g: real)
    requires mag < INFINITY
    ensures g > 0.0
  {
    var e := mag / TWO_52;
    Pow2((if e == 0 then 1 else e) - 1075)
  }

  lemma NextValue(mag: nat)
    requires mag + 1 < INFINITY
    ensures Value(mag + 1) == Value(mag) + Gap(mag)
  {
    hide Pow2;
    var e, m := mag / TWO_52, mag % TWO_52;
    var p := Gap(mag);
    if m + 1 < TWO_52 {
      assert (mag + 1) / TWO_52 == e && (mag + 1) % TWO_52 == m + 1;
      OneMore(m, p);
      OneMore(TWO_52 + m, p);
    } else {
      assert (mag + 1) / TWO_52 == e + 1 && (mag + 1) % TWO_52 == 0;
      if e > 0 {
        Pow2Next(e - 1075);
        Carry(p);
      } else {
        OneMore(m, p);
      }
    }
  }

  lemma OneMore(m: nat, p: real)
    ensures (m + 1) as real * p == m as real * p + p
  {
  }

  lemma Carry(p: real)
    ensures TWO_52 as real * (2.0 * p) == (TWO_52 + (TWO_52 - 1)) as real * p + p
  {
  }

  lemma {:induction false} ValueOrder(a: nat, b: nat)
    requires a < b < INFINITY
    ensures Value(a) < Value(b)
    decreases b - a
  {
    hide Value; hide Gap;
    NextValue(b - 1);
    if a < b - 1 {
      ValueOrder(a, b - 1);
    }
  }

  // ---- integers below a million ----

  const MILLION: nat := 1_000_000

  function Power(k: nat): (r: nat)
    ensures r > 0
  {
    if k == 0 then 1 else 2 * Power(k - 1)
  }

  lemma {:induction false} PowerReal(k: nat)
    ensures Pow2(k) == Power(k) as real
  {
    if k > 0 {
      PowerReal(k - 1);
    }
  }

  lemma {:induction false} Pow2Times(k: nat)
    ensures Power(k) as real * Pow2(0 - k) == 1.0
  {
    if k > 0 {
      Pow2Times(k - 1);
      assert Pow2(0 - k) == Pow2(1 - k) / 2.0;
    }
  }

  /** The exponent of the highest bit. */
  function TopBit(n: nat): (k: nat)
    requires n > 0
    ensures Power(k) <= n < Power(k + 1)
  {
    if n == 1 then 0 else TopBit(n / 2) + 1
  }

  lemma {:induction false} PowerOrder(a: nat, b: nat)
    requires a <= b
    ensures Power(a) <= Power(b)
    decreases b - a
  {
    if a < b {
      PowerOrder(a, b - 1);
    }
  }

  lemma SmallTopBit(n: nat)
    requires 0 < n < MILLION
    ensures TopBit(n) < 20
  {
    assert Power(20) == 1048576 by {
      assert Power(10) == 1024 by { assert Power(5) == 32; }
      assert Power(15) == 32768;
    }
    if TopBit(n) >= 20 {
      PowerOrder(20, TopBit(n));
    }
  }

  lemma {:induction false} PowerSplit(a: nat, b: nat)
    ensures Power(a + b) == Power(a) * Power(b)
  {
    if a > 0 {
      PowerSplit(a - 1, b);
      assert Power(a) * Power(b) == 2 * (Power(a - 1) * Power(b));
    }
  }

  lemma Power52(k: nat)
    requires k < 20
    ensures Power(52 - k) * Power(k) == TWO_52
  {
    PowerSplit(52 - k, k);
    assert Power(13) == 8192 by { assert Power(6) == 64; }
    PowerSplit(13, 13);
    PowerSplit(26, 26);
    assert Power(26) == 67108864;
  }

  /** The integer shifted up to 53 bits. */
  function Filled(n: nat): (f: nat)
    requires 0 < n < MILLION
  {
    SmallTopBit(n);
    n * Power(52 - TopBit(n))
  }

  lemma FilledIs(n: nat)
    requires 0 < n < MILLION
    ensures TopBit(n) < 20 && Filled(n) == n * Power(52 - TopBit(n))
  {
    SmallTopBit(n);
  }

  lemma FilledBounds(n: nat)
    requires 0 < n < MILLION
    ensures TWO_52 <= Filled(n) < 2 * TWO_52
  {
    SmallTopBit(n);
    var k := TopBit(n);
    Power52(k);
    assert Power(k + 1) == 2 * Power(k);
    Scaled(n, Power(k), Power(52 - k));
  }

  lemma Scaled(n: nat, p: nat, q: nat)
    requires p <= n < 2 * p && q * p == TWO_52
    ensures TWO_52 <= n * q < 2 * TWO_52
  {
    assert n * q >= p * q;
    assert n * q <= (2 * p - 1) * q == 2 * TWO_52 - q;
  }

  function Pattern(e: nat, m: nat): (mag: nat)
  {
    e * TWO_52 + m
  }

  lemma PatternParts(e: nat, m: nat)
    requires 0 < e < 2046 && m < TWO_52
    ensures
      var mag := Pattern(e, m);
      mag / TWO_52 == e && mag % TWO_52 == m && TWO_52 <= mag < INFINITY - TWO_52
  {
  }

  /** The pattern of an integer. */
  function IntegerMag(n: nat): (mag: nat)
    requires 0 < n < MILLION
    ensures TWO_52 <= mag < INFINITY - TWO_52
  {
    SmallTopBit(n);
    FilledBounds(n);
    PatternParts(1023 + TopBit(n), Filled(n) - TWO_52);
    Pattern(1023 + TopBit(n), Filled(n) - TWO_52)
  }

  lemma PatternValue(e: nat, f: nat)
    requires 0 < e < 2046 && TWO_52 <= f < 2 * TWO_52
    ensures
      var mag, x: int := Pattern(e, f - TWO_52), e;
      mag < INFINITY && Value(mag) == f as real * Pow2(x - 1075) && Gap(mag) == Pow2(x - 1075)
  {
    hide Pow2; hide Pattern;
    PatternParts(e, f - TWO_52);
  }

  lemma IntegerValue(n: nat)
    requires 0 < n < MILLION
    ensures Value(IntegerMag(n)) == n as real
    ensures Gap(IntegerMag(n)) * TWO_52 as real <= n as real
  {
    hide Pow2; hide Power; hide TopBit; hide Pattern; hide Value; hide Gap; hide Filled;
    SmallTopBit(n);
    FilledBounds(n);
    var k := TopBit(n);
    PatternValue(1023 + k, Filled(n));
    Pow2Times(52 - k);
    assert Filled(n) == n * Power(52 - k) by { FilledIs(n); }
    FilledReal(Filled(n), n, Power(52 - k), Pow2((k as int) - 52));
  }

  lemma FilledReal(f: nat, n: nat, q: nat, p: real)
    requires f == n * q && q as real * p == 1.0 && p > 0.0 && TWO_52 <= f
    ensures f as real * p == n as real && TWO_52 as real * p <= n as real
  {
    RealTimes(n, q);
    assert f as real == n as real * q as real;
    Scale(n as real, q as real, p);
    Wider(TWO_52 as real, f as real, p);
  }

  lemma {:induction false} RealTimes(a: nat, b: nat)
    ensures (a * b) as real == a as real * b as real
  {
    if a > 0 {
      RealTimes(a - 1, b);
      assert a * b == (a - 1) * b + b;
      OneMore(a - 1, b as real);
    }
  }

  lemma Scale(n: real, q: real, p: real)
    requires q * p == 1.0
    ensures n * q * p == n
  {
    assert n * q * p == n * (q * p);
  }

  lemma Wider(a: real, b: real, p: real)
    requires a <= b && p > 0.0
    ensures a * p <= b * p
  {
  }

  // ---- decimals ----

  /** Digits behind a decimal point that stands `point` places to the right of the first one. */
  datatype Decimal = Decimal(digits: seq<nat>, point: int)

  predicate AllDigits(ds: seq<nat>)
  {
    forall i :: 0 <= i < |ds| ==> ds[i] < 10
  }

  predicate WfDecimal(d: Decimal)
  {
    && |d.digits| > 0 && AllDigits(d.digits)
    && d.digits[0] != 0 && d.digits[|d.digits| - 1] != 0
  }

  function IntOf(digits: seq<nat>): (n: nat)
  {
    if digits == [] then 0 else 10 * IntOf(digits[..|digits| - 1]) + digits[|digits| - 1]
  }

  function Pow10(k: nat): (r: nat)
    ensures r > 0
  {
    if k == 0 then 1 else 10 * Pow10(k - 1)
  }

  lemma {:induction false} IntBounds(digits: seq<nat>)
    requires AllDigits(digits)
    ensures IntOf(digits) < Pow10(|digits|)
    ensures digits != [] && digits[0] != 0 ==> IntOf(digits) >= Pow10(|digits| - 1)
  {
    if digits != [] {
      var front := digits[..|digits| - 1];
      IntBounds(front);
      if digits[0] != 0 && |digits| > 1 {
        assert front[0] == digits[0];
      }
    }
  }

  lemma {:induction false} Pow10Order(a: nat, b: nat)
    requires a <= b
    ensures Pow10(a) <= Pow10(b)
    decreases b - a
  {
    if a < b {
      Pow10Order(a, b - 1);
    }
  }

  lemma {:induction false} Pow10Split(a: nat, b: nat)
    ensures Pow10(a + b) == Pow10(a) * Pow10(b)
  {
    if a > 0 {
      Pow10Split(a - 1, b);
      assert Pow10(a) * Pow10(b) == 10 * (Pow10(a - 1) * Pow10(b));
    }
  }

  lemma Pow10Six()
    ensures Pow10(6) == MILLION
  {
    assert Pow10(3) == 1000;
  }

  function DecimalValue(d: Decimal): (v: real)
  {
    if d.point >= |d.digits| then (IntOf(d.digits) * Pow10(d.point - |d.digits|)) as real
    else IntOf(d.digits) as real / Pow10(|d.digits| - d.point) as real
  }

  function Abs(x: real): (y: real)
  {
    if x < 0.0 then -x else x
  }

  /** No magnitude is closer to the number. */
  ghost predicate Nearest(v: real, mag: nat)
  {
    mag < INFINITY && forall c: nat :: c < INFINITY ==> Abs(v - Value(mag)) <= Abs(v - Value(c))
  }

  /** A parser takes every decimal to a nearest magnitude, and decimals beyond all magnitudes to the greatest
      or to infinity. */
  ghost predicate Parses(parse: Decimal -> nat)
  {
    forall d :: WfDecimal(d) ==>
      if DecimalValue(d) <= Value(INFINITY - 1) then Nearest(DecimalValue(d), parse(d)) else parse(d) >= INFINITY - 1
  }

  /** The parser takes the decimal back, and none with fewer digits. */
  ghost predicate IsShortest(parse: Decimal -> nat, d: Decimal, mag: nat)
  {
    && WfDecimal(d) && parse(d) == mag
    && forall c :: WfDecimal(c) && parse(c) == mag ==> |d.digits| <= |c.digits|
  }

  /** The decimal is an integer of at most six digits. */
  predicate Whole(d: Decimal)
  {
    |d.digits| <= d.point <= 6
  }

  function WholeValue(d: Decimal): (n: nat)
    requires Whole(d)
  {
    IntOf(d.digits) * Pow10(d.point - |d.digits|)
  }

  lemma WholeBounds(d: Decimal)
    requires WfDecimal(d) && Whole(d)
    ensures 0 < WholeValue(d) < MILLION
  {
    IntBounds(d.digits);
    var n := |d.digits|;
    Pow10Split(n, d.point - n);
    Pow10Order(d.point, 6);
    Pow10Six();
    Product(IntOf(d.digits), Pow10(n), Pow10(d.point - n));
  }

  lemma Product(a: nat, b: nat, c: nat)
    requires 0 < a < b && c > 0
    ensures 0 < a * c < b * c
  {
  }

  /** A parser takes an integer to its pattern. */
  lemma WholeParsed(parse: Decimal -> nat, d: Decimal)
    requires Parses(parse) && WfDecimal(d) && Whole(d)
    ensures 0 < WholeValue(d) < MILLION && parse(d) == IntegerMag(WholeValue(d))
  {
    hide Value; hide IntegerMag;
    WholeBounds(d);
    var n, mag := WholeValue(d), IntegerMag(WholeValue(d));
    IntegerValue(n);
    ValueOrder(mag, INFINITY - 1);
    assert Nearest(n as real, parse(d));
    assert Value(parse(d)) == n as real;
    SameMag(parse(d), mag);
  }

  lemma SameMag(a: nat, b: nat)
    requires a < INFINITY && b < INFINITY && Value(a) == Value(b)
    ensures a == b
  {
    hide Value;
    if a < b {
      ValueOrder(a, b);
    } else if b < a {
      ValueOrder(b, a);
    }
  }

  function DigitsOf(n: nat): (ds: seq<nat>)
    requires n > 0
    ensures |ds| > 0 && AllDigits(ds) && ds[0] != 0 && ds[|ds| - 1] == n % 10 && IntOf(ds) == n
  {
    if n < 10 then
      assert [n][..0] == [];
      [n]
    else
      var ds := DigitsOf(n / 10);
      assert (ds + [n % 10])[..|ds|] == ds;
      ds + [n % 10]
  }

  /** The decimal of an integer, without trailing zeros. */
  function DecimalOf(n: nat): (d: Decimal)
    requires n > 0
    ensures WfDecimal(d) && |d.digits| <= d.point
    ensures IntOf(d.digits) * Pow10(d.point - |d.digits|) == n
  {
    if n % 10 == 0 then
      var d := DecimalOf(n / 10);
      TenTimes(IntOf(d.digits), Pow10(d.point - |d.digits|), n / 10);
      Decimal(d.digits, d.point + 1)
    else
      Decimal(DigitsOf(n), |DigitsOf(n)|)
  }

  lemma TenTimes(a: nat, b: nat, c: nat)
    requires a * b == c
    ensures a * (10 * b) == 10 * c
  {
  }

  /** A decimal that is an integer below a million has its point at most six places on. */
  lemma SixPlaces(d: Decimal)
    requires WfDecimal(d) && |d.digits| <= d.point && IntOf(d.digits) * Pow10(d.point - |d.digits|) < MILLION
    ensures Whole(d)
  {
    var n := |d.digits|;
    IntBounds(d.digits);
    Pow10Split(n - 1, d.point - n);
    Pow10Six();
    AtLeast(IntOf(d.digits), Pow10(n - 1), Pow10(d.point - n));
    if d.point > 6 {
      Pow10Order(6, d.point - 1);
    }
  }

  lemma AtLeast(a: nat, b: nat, c: nat)
    requires a >= b
    ensures a * c >= b * c
  {
  }

  // ---- the shortest decimal of an integer ----

  lemma GapBelow(mag: nat)
    requires 0 < mag < INFINITY
    ensures Gap(mag - 1) <= Gap(mag)
  {
    hide Pow2;
    var e, f := mag / TWO_52, (mag - 1) / TWO_52;
    assert f == e || f == e - 1;
    if f == e - 1 && f > 0 {
      Pow2Next(f - 1075);
    }
  }

  /** What is nearest to an integer's pattern is closer than the gap. */
  lemma Close(v: real, n: nat)
    requires 0 < n < MILLION && Nearest(v, IntegerMag(n))
    ensures Abs(v - n as real) * TWO_52 as real < n as real
  {
    hide Value; hide Gap; hide IntegerMag;
    var mag := IntegerMag(n);
    var g := Gap(mag);
    IntegerValue(n);
    NextValue(mag);
    NextValue(mag - 1);
    GapBelow(mag);
    assert Abs(v - Value(mag)) <= Abs(v - Value(mag + 1)) && Abs(v - Value(mag)) <= Abs(v - Value(mag - 1));
    assert Abs(v - n as real) < g;
    Narrower(Abs(v - n as real), g, TWO_52 as real);
  }

  lemma Narrower(a: real, b: real, p: real)
    requires a < b && p > 0.0
    ensures a * p < b * p
  {
  }

  /** A fraction of at most six digits so close to an integer is the integer. */
  lemma CloseFraction(v: real, x: nat, q: nat, n: nat)
    requires 0 < n < MILLION && x < MILLION && q > 0 && v * q as real == x as real
    requires Abs(v - n as real) * TWO_52 as real < n as real
    ensures x == n * q
  {
    RealTimes(n, q);
    CloseReal(v, n as real, q as real, x as real);
    NoRoom(x, n * q);
  }

  lemma NoRoom(a: nat, b: nat)
    requires Abs(a as real - b as real) < 1.0
    ensures a == b
  {
  }

  lemma CloseReal(v: real, n: real, q: real, x: real)
    requires n > 0.0 && q > 0.0 && v * q == x && x < MILLION as real && Abs(v - n) * TWO_52 as real < n
    ensures Abs(x - n * q) < 1.0
  {
    var d := v - n;
    Distribute(v, n, q);
    HalfClose(v, n);
    Narrower(n, 2.0 * v, q);
    Regroup(v, q);
    AbsTimes(d, q);
    Narrower(Abs(d) * TWO_52 as real, n, q);
    Reorder(Abs(d), TWO_52 as real, q);
    Tiny(Abs(d) * q, n * q, x);
  }

  lemma Tiny(y: real, nq: real, x: real)
    requires y * TWO_52 as real < nq < 2.0 * x && x < MILLION as real
    ensures y < 1.0
  {
  }

  lemma Distribute(v: real, n: real, q: real)
    ensures (v - n) * q == v * q - n * q
  {
  }

  lemma HalfClose(v: real, n: real)
    requires n > 0.0 && Abs(v - n) * TWO_52 as real < n
    ensures n < 2.0 * v
  {
  }

  lemma Regroup(v: real, q: real)
    ensures 2.0 * v * q == 2.0 * (v * q)
  {
  }

  lemma Reorder(a: real, b: real, c: real)
    ensures a * b * c == a * c * b
  {
  }

  lemma AbsTimes(d: real, q: real)
    requires q > 0.0
    ensures Abs(d * q) == Abs(d) * q
  {
  }

  /** The integer a magnitude is, if it is one below a million, and 0 otherwise. */
  function SmallInteger(mag: nat): (n: nat)
  {
    var e, f := mag / TWO_52 - 1023, TWO_52 + mag % TWO_52;
    if 0 <= e < 20 && f % Power(52 - e) == 0 && f / Power(52 - e) < MILLION then f / Power(52 - e) else 0
  }

  lemma SmallIntegerMag(n: nat)
    requires 0 < n < MILLION
    ensures SmallInteger(IntegerMag(n)) == n
  {
    hide Power; hide TopBit; hide Pattern;
    FilledIs(n);
    FilledBounds(n);
    var k := TopBit(n);
    PatternParts(1023 + k, Filled(n) - TWO_52);
    Quotient(n, Power(52 - k));
  }

  lemma Quotient(n: nat, q: nat)
    requires q > 0
    ensures n * q % q == 0 && n * q / q == n
  {
    var r, t := n * q % q, n * q / q;
    assert n * q == t * q + r;
    assert (n - t) * q == r;
    if n - t >= 1 {
      AtLeast(n - t, 1, q);
    } else if n - t <= -1 {
      AtLeast(t - n, 1, q);
    }
  }

  /** An exponent and a mantissa whose low bits are clear are the pattern of the integer above them. */
  lemma SmallIntegerIs(mag: nat)
    requires mag < INFINITY && SmallInteger(mag) != 0
    ensures 0 < SmallInteger(mag) < MILLION && mag == IntegerMag(SmallInteger(mag))
  {
    hide Power; hide Pow2; hide IntegerMag; hide Gap;
    var e, f := mag / TWO_52 - 1023, TWO_52 + mag % TWO_52;
    var q, n := Power(52 - e), SmallInteger(mag);
    assert f == n * q;
    Pow2Times(52 - e);
    FilledReal(f, n, q, Pow2(e - 52));
    assert Value(mag) == n as real;
    IntegerValue(n);
    SameMag(mag, IntegerMag(n));
  }

  /** Whatever parser and printer: the shortest decimal of a float is an integer of at most six digits if and
      only if the float is an integer below a million, and then it is that integer. */
  lemma ShortestWhole(parse: Decimal -> nat, d: Decimal, mag: nat)
    requires Parses(parse) && 0 < mag < INFINITY && IsShortest(parse, d, mag)
    ensures Whole(d) <==> SmallInteger(mag) != 0
    ensures Whole(d) ==> WholeValue(d) == SmallInteger(mag)
  {
    hide Value; hide IntegerMag; hide SmallInteger; hide Parses;
    if Whole(d) {
      WholeParsed(parse, d);
      SmallIntegerMag(WholeValue(d));
    }
    if SmallInteger(mag) != 0 {
      SmallIntegerIs(mag);
      IntegerWhole(parse, d, SmallInteger(mag));
    }
  }

  lemma IntegerWhole(parse: Decimal -> nat, d: Decimal, n: nat)
    requires Parses(parse) && 0 < n < MILLION && IsShortest(parse, d, IntegerMag(n))
    ensures Whole(d)
  {
    hide Value; hide IntegerMag; hide Nearest; hide Whole; hide DecimalOf;
    var c := DecimalOf(n);
    SixPlaces(c);
    assert WholeValue(c) == n by { WholeIs(c, n); }
    WholeParsed(parse, c);
    assert |d.digits| <= |c.digits| <= 6 by { WholeSize(c); }
    assert Nearest(DecimalValue(d), IntegerMag(n));
    Close(DecimalValue(d), n);
    FewDigits(d, n);
  }

  lemma WholeIs(c: Decimal, n: nat)
    requires Whole(c) && IntOf(c.digits) * Pow10(c.point - |c.digits|) == n
    ensures WholeValue(c) == n
  {
  }

  lemma WholeSize(c: Decimal)
    requires Whole(c)
    ensures |c.digits| <= 6
  {
  }

  /** At most six digits so close to an integer are the integer. */
  lemma FewDigits(d: Decimal, n: nat)
    requires WfDecimal(d) && |d.digits| <= 6 && 0 < n < MILLION
    requires Abs(DecimalValue(d) - n as real) * TWO_52 as real < n as real
    ensures Whole(d)
  {
    hide IntOf; hide Pow10;
    NoFraction(d, n);
    var w := IntOf(d.digits) * Pow10(d.point - |d.digits|);
    TinyDistance(w, n);
    NoRoom(w, n);
    SixPlaces(d);
  }

  lemma NoFraction(d: Decimal, n: nat)
    requires WfDecimal(d) && |d.digits| <= 6 && 0 < n < MILLION
    requires Abs(DecimalValue(d) - n as real) * TWO_52 as real < n as real
    ensures d.point >= |d.digits|
  {
    hide IntOf; hide Pow10;
    var k, x := |d.digits|, IntOf(d.digits);
    if d.point < k {
      var q := Pow10(k - d.point);
      SixDigits(d.digits);
      Divide(x as real, q as real);
      CloseFraction(DecimalValue(d), x, q, n);
      TenDivides(k - d.point);
      LastZero(d.digits, n, q);
    }
  }

  lemma SixDigits(digits: seq<nat>)
    requires |digits| <= 6 && AllDigits(digits)
    ensures IntOf(digits) < MILLION
  {
    IntBounds(digits);
    Pow10Order(|digits|, 6);
    Pow10Six();
  }

  lemma TenDivides(k: nat)
    requires k > 0
    ensures Pow10(k) % 10 == 0
  {
  }

  lemma TinyDistance(w: nat, n: nat)
    requires n < MILLION && Abs(w as real - n as real) * TWO_52 as real < n as real
    ensures Abs(w as real - n as real) < 1.0
  {
  }

  lemma Divide(x: real, q: real)
    requires q > 0.0
    ensures x / q * q == x
  {
  }

  /** A multiple of ten ends in zero. */
  lemma LastZero(digits: seq<nat>, n: nat, q: nat)
    requires digits != [] && AllDigits(digits) && IntOf(digits) == n * q && q % 10 == 0
    ensures digits[|digits| - 1] == 0
  {
    var last := digits[|digits| - 1];
    assert n * q == 10 * (n * (q / 10));
    assert (10 * (n * (q / 10)) - last) % 10 == 0;
  }
}
