/** Floats as text: the two ways a float becomes text on its way into the store, and what reading the text back
    gives.  Integers are tried first, so a text without point and exponent is stored as an integer. */
module FloatText {
  import opened Bytes
  import opened FloatValues
  import opened MachineInts
  import Keys

  datatype Option<T> = None | Some(value: T)

  predicate IsDigit(c: char)
  {
    '0' <= c <= '9'
  }

  predicate DigitText(t: string)
  {
    forall i :: 0 <= i < |t| ==> IsDigit(t[i])
  }

  function Text(ds: seq<nat>): (t: string)
    requires AllDigits(ds)
    ensures |t| == |ds| && DigitText(t)
  {
    seq(|ds|, i requires 0 <= i < |ds| => ('0' as int + ds[i]) as char)
  }

  function DigitsIn(t: string): (ds: seq<nat>)
    requires DigitText(t)
    ensures |ds| == |t| && AllDigits(ds)
  {
    seq(|t|, i requires 0 <= i < |t| => t[i] as int - '0' as int)
  }

  lemma TextReads(ds: seq<nat>)
    requires AllDigits(ds)
    ensures DigitsIn(Text(ds)) == ds
  {
  }

  lemma TextConcat(a: seq<nat>, b: seq<nat>)
    requires AllDigits(a) && AllDigits(b)
    ensures AllDigits(a + b) && Text(a + b) == Text(a) + Text(b)
  {
  }

  function Zeros(n: nat): (ds: seq<nat>)
    ensures |ds| == n && AllDigits(ds) && forall i :: 0 <= i < n ==> ds[i] == 0
  {
    seq(n, i => 0)
  }

  function Sign(neg: bool): (t: string)
  {
    if neg then "-" else ""
  }

  // ---- printing ----

  /** Digits before and behind a decimal point; without the latter there is no point. */
  function Fixed(ip: seq<nat>, fp: seq<nat>): (t: string)
    requires AllDigits(ip) && AllDigits(fp)
  {
    Text(ip) + if fp == [] then "" else "." + Text(fp)
  }

  /** An exponent with its sign and at least `width` digits. */
  function ExponentText(x: int, width: nat): (t: string)
  {
    var ds := if x == 0 then [0] else DigitsOf(if x < 0 then -x else x);
    (if x < 0 then "-" else "+") + Text(Zeros(if |ds| < width then width - |ds| else 0)) + Text(ds)
  }

  function Scientific(d: Decimal, width: nat): (t: string)
    requires WfDecimal(d)
  {
    assert AllDigits(d.digits[..1]) && AllDigits(d.digits[1..]);
    Fixed(d.digits[..1], d.digits[1..]) + "e" + ExponentText(d.point - 1, width)
  }

  /** The shorter of two forms, as saves print it: an exponent below -4 or above 5 is written out. */
  function PrintShort(d: Decimal): (t: string)
    requires WfDecimal(d)
  {
    var n, p := |d.digits|, d.point;
    assert AllDigits(d.digits);
    if p - 1 < -4 || p - 1 >= 6 then Scientific(d, 2)
    else if p <= 0 then Fixed([0], Zeros(-p) + d.digits)
    else if p < n then
      assert AllDigits(d.digits[..p]) && AllDigits(d.digits[p..]);
      Fixed(d.digits[..p], d.digits[p..])
    else Fixed(d.digits + Zeros(p - n), [])
  }

  /** The form transactions print: always with a point or an exponent. */
  function PrintPointed(d: Decimal): (t: string)
    requires WfDecimal(d)
  {
    var n, p := |d.digits|, d.point;
    assert AllDigits(d.digits);
    if p < -6 || p > 17 then Scientific(d, 1)
    else if p <= 0 then Fixed([0], Zeros(-p) + d.digits)
    else if p < n then
      assert AllDigits(d.digits[..p]) && AllDigits(d.digits[p..]);
      Fixed(d.digits[..p], d.digits[p..])
    else Fixed(d.digits + Zeros(p - n), [0])
  }

  // ---- reading ----

  function Index(t: string, c: char): (i: nat)
    ensures i <= |t| && c !in t[..i] && (i < |t| ==> t[i] == c)
  {
    if t == "" then 0
    else if t[0] == c then 0
    else
      assert forall i :: 0 < i <= |t| ==> t[..i] == [t[0]] + t[1..][..i - 1];
      Index(t[1..], c) + 1
  }

  lemma IndexIs(a: string, c: char, b: string)
    requires c !in a
    ensures Index(a + [c] + b, c) == |a|
  {
    var t := a + [c] + b;
    var i := Index(t, c);
    assert t[|a|] == c;
  }

  lemma IndexNone(a: string, c: char)
    requires c !in a
    ensures Index(a, c) == |a|
  {
  }

  function Unsigned(t: string): (r: (bool, string))
  {
    if t != "" && t[0] == '-' then (true, t[1..]) else if t != "" && t[0] == '+' then (false, t[1..]) else (false, t)
  }

  /** A signed integer that fits 64 bits. */
  function ParseInt(t: string): (r: Option<int>)
    ensures r.Some? ==> Keys.IsInt64(r.value)
  {
    var (neg, u) := Unsigned(t);
    if u == "" || !DigitText(u) then None
    else
      var n: int := IntOf(DigitsIn(u));
      var m := if neg then -n else n;
      if Keys.IsInt64(m) then Some(m) else None
  }

  datatype Number = Number(neg: bool, digits: seq<nat>, point: int)

  /** Digits with at most one point. */
  function Mantissa(t: string, neg: bool): (r: Option<Number>)
  {
    var dot := Index(t, '.');
    var ip, fp := t[..dot], if dot < |t| then t[dot + 1..] else "";
    if ip + fp == "" || !DigitText(ip + fp) then None else Some(Number(neg, DigitsIn(ip + fp), |ip|))
  }

  /** The number a text spells: a mantissa and perhaps an exponent. */
  function Spelled(t: string): (r: Option<Number>)
  {
    var (neg, u) := Unsigned(t);
    var e := Index(u, 'e');
    var m := Mantissa(u[..e], neg);
    if m.None? || e == |u| then m
    else
      match ParseInt(u[e + 1..])
      case None => None
      case Some(x) => Some(m.value.(point := m.value.point + x))
  }

  function DropZeros(ds: seq<nat>, point: int): (d: Decimal)
    ensures AllDigits(ds) ==> AllDigits(d.digits)
    ensures d.digits != [] ==> d.digits[0] != 0
  {
    if ds == [] || ds[0] != 0 then Decimal(ds, point) else DropZeros(ds[1..], point - 1)
  }

  function CutZeros(ds: seq<nat>): (r: seq<nat>)
    ensures AllDigits(ds) ==> AllDigits(r)
    ensures r != [] ==> r[|r| - 1] != 0
    ensures r <= ds
  {
    if ds == [] || ds[|ds| - 1] != 0 then ds else CutZeros(ds[..|ds| - 1])
  }

  /** Without leading and trailing zeros. */
  function Normal(ds: seq<nat>, point: int): (d: Decimal)
  {
    var d := DropZeros(ds, point);
    Decimal(CutZeros(d.digits), d.point)
  }

  lemma {:induction false} DropLeading(a: nat, ds: seq<nat>, point: int)
    requires ds != [] && ds[0] != 0
    ensures DropZeros(Zeros(a) + ds, point) == Decimal(ds, point - a)
  {
    if a == 0 {
      assert Zeros(0) + ds == ds;
    } else {
      assert (Zeros(a) + ds)[1..] == Zeros(a - 1) + ds && (Zeros(a) + ds)[0] == 0;
      DropLeading(a - 1, ds, point - 1);
    }
  }

  lemma {:induction false} CutTrailing(ds: seq<nat>, b: nat)
    requires ds != [] && ds[|ds| - 1] != 0
    ensures CutZeros(ds + Zeros(b)) == ds
  {
    var all := ds + Zeros(b);
    if b == 0 {
      assert all == ds;
    } else {
      assert all[..|all| - 1] == ds + Zeros(b - 1) && all[|all| - 1] == 0;
      CutTrailing(ds, b - 1);
    }
  }

  lemma NormalIs(a: nat, d: Decimal, b: nat, point: int)
    requires WfDecimal(d) && point == d.point + a
    ensures Normal(Zeros(a) + (d.digits + Zeros(b)), point) == d
  {
    assert (d.digits + Zeros(b))[0] == d.digits[0];
    DropLeading(a, d.digits + Zeros(b), point);
    CutTrailing(d.digits, b);
  }

  // ---- reading what was printed ----

  lemma UnsignedIs(neg: bool, t: string)
    requires t != "" && t[0] != '-' && t[0] != '+'
    ensures Unsigned(Sign(neg) + t) == (neg, t)
  {
    assert ("-" + t)[1..] == t;
    assert "" + t == t;
  }

  lemma NotIn(ds: seq<nat>, c: char)
    requires AllDigits(ds) && !IsDigit(c)
    ensures c !in Text(ds)
  {
  }

  lemma FixedParts(ip: seq<nat>, fp: seq<nat>)
    requires AllDigits(ip) && AllDigits(fp) && ip != []
    ensures
      var t := Fixed(ip, fp);
      && t != "" && IsDigit(t[0]) && 'e' !in t && Index(t, 'e') == |t|
      && t[..Index(t, '.')] == Text(ip)
      && (if Index(t, '.') < |t| then t[Index(t, '.') + 1..] else "") == Text(fp)
      && (DigitText(t) <==> fp == [])
  {
    hide Text; hide Index;
    var t := Fixed(ip, fp);
    NotIn(ip, 'e');
    NotIn(fp, 'e');
    NotIn(ip, '.');
    IndexNone(t, 'e');
    if fp == [] {
      assert t == Text(ip);
      IndexNone(t, '.');
    } else {
      assert t == Text(ip) + ['.'] + Text(fp);
      IndexIs(Text(ip), '.', Text(fp));
      assert t[|ip|] == '.';
    }
  }

  lemma FixedMantissa(neg: bool, ip: seq<nat>, fp: seq<nat>)
    requires AllDigits(ip) && AllDigits(fp) && ip != []
    ensures Mantissa(Fixed(ip, fp), neg) == Some(Number(neg, ip + fp, |ip|))
  {
    hide Text; hide Index; hide DigitsIn; hide Fixed;
    FixedParts(ip, fp);
    TextConcat(ip, fp);
    TextReads(ip + fp);
  }

  lemma FixedSpelled(neg: bool, ip: seq<nat>, fp: seq<nat>)
    requires AllDigits(ip) && AllDigits(fp) && ip != []
    ensures Spelled(Sign(neg) + Fixed(ip, fp)) == Some(Number(neg, ip + fp, |ip|))
  {
    hide Index; hide Fixed; hide Mantissa;
    var t := Fixed(ip, fp);
    FixedParts(ip, fp);
    FixedMantissa(neg, ip, fp);
    UnsignedIs(neg, t);
    assert t[..|t|] == t;
  }

  lemma {:induction false} LeadingZeros(a: nat, ds: seq<nat>)
    ensures IntOf(Zeros(a) + ds) == IntOf(ds)
    decreases |ds|, a
  {
    var all := Zeros(a) + ds;
    if ds == [] {
      assert all == Zeros(a);
      if a > 0 {
        assert Zeros(a)[..a - 1] == Zeros(a - 1) + [];
        LeadingZeros(a - 1, []);
        assert Zeros(a - 1) + [] == Zeros(a - 1);
      }
    } else {
      assert all[..|all| - 1] == Zeros(a) + ds[..|ds| - 1];
      LeadingZeros(a, ds[..|ds| - 1]);
    }
  }

  lemma ExponentReads(x: int, width: nat)
    requires Keys.IsInt64(x)
    ensures ParseInt(ExponentText(x, width)) == Some(x)
  {
    hide Text; hide DigitsIn; hide IntOf;
    var ds := if x == 0 then [0] else DigitsOf(if x < 0 then -x else x);
    var z := Zeros(if |ds| < width then width - |ds| else 0);
    var sign := if x < 0 then "-" else "+";
    assert IntOf([0]) == 0 by { OneZero(); }
    LeadingZeros(|z|, ds);
    assert z == Zeros(|z|);
    TextConcat(z, ds);
    TextReads(z + ds);
    assert ExponentText(x, width) == sign + Text(z + ds);
    assert (sign + Text(z + ds))[1..] == Text(z + ds);
  }

  lemma OneZero()
    ensures IntOf([0]) == 0
  {
    assert [0][..0] == [];
  }

  lemma ExponentSpelled(neg: bool, t: string, x: string, m: Number, k: int)
    requires t != "" && IsDigit(t[0]) && 'e' !in t && Mantissa(t, neg) == Some(m) && ParseInt(x) == Some(k)
    ensures Spelled(Sign(neg) + (t + ['e'] + x)) == Some(m.(point := m.point + k))
  {
    hide Index; hide Mantissa; hide ParseInt;
    var u := t + ['e'] + x;
    IndexIs(t, 'e', x);
    UnsignedIs(neg, u);
    assert u[..|t|] == t && u[|t| + 1..] == x;
  }

  lemma ScientificSpelled(neg: bool, d: Decimal, width: nat)
    requires WfDecimal(d) && Keys.IsInt64(d.point - 1)
    ensures Spelled(Sign(neg) + Scientific(d, width)) == Some(Number(neg, d.digits, d.point))
    ensures ParseInt(Sign(neg) + Scientific(d, width)) == None
  {
    hide Index; hide Mantissa; hide Fixed; hide ExponentText; hide ParseInt; hide Spelled;
    var ip, fp := d.digits[..1], d.digits[1..];
    var t, x := Fixed(ip, fp), ExponentText(d.point - 1, width);
    assert Scientific(d, width) == t + ['e'] + x;
    assert ip + fp == d.digits;
    FixedParts(ip, fp);
    FixedMantissa(neg, ip, fp);
    ExponentReads(d.point - 1, width);
    ExponentSpelled(neg, t, x, Number(neg, d.digits, 1), d.point - 1);
    NotInteger(neg, t + ['e'] + x, |t|);
  }

  lemma NotInteger(neg: bool, u: string, i: nat)
    requires i < |u| && !IsDigit(u[i]) && IsDigit(u[0])
    ensures ParseInt(Sign(neg) + u) == None
  {
    UnsignedIs(neg, u);
  }

  lemma FixedParsed(neg: bool, ip: seq<nat>, fp: seq<nat>)
    requires AllDigits(ip) && AllDigits(fp) && ip != []
    ensures fp != [] ==> ParseInt(Sign(neg) + Fixed(ip, fp)) == None
    ensures
      var n: int := IntOf(ip);
      fp == [] && n < TWO_63 ==> ParseInt(Sign(neg) + Fixed(ip, fp)) == Some(if neg then -n else n)
  {
    hide Text; hide Index; hide DigitsIn; hide IntOf;
    var t := Fixed(ip, fp);
    FixedParts(ip, fp);
    UnsignedIs(neg, t);
    if fp == [] {
      assert t == Text(ip);
      TextReads(ip);
    }
  }

  /** The number that is read back. */
  ghost predicate ReadsAs(t: string, neg: bool, d: Decimal)
  {
    var r := Spelled(t);
    r.Some? && r.value.neg == neg && Normal(r.value.digits, r.value.point) == d
  }

  lemma FixedReads(neg: bool, ip: seq<nat>, fp: seq<nat>, d: Decimal, a: nat, b: nat)
    requires AllDigits(ip) && AllDigits(fp) && ip != [] && WfDecimal(d)
    requires ip + fp == Zeros(a) + d.digits + Zeros(b) && |ip| == d.point + a
    ensures ReadsAs(Sign(neg) + Fixed(ip, fp), neg, d)
  {
    hide Spelled; hide Fixed; hide Normal;
    FixedSpelled(neg, ip, fp);
    Spells(d, a, b, ip + fp, |ip|);
  }

  lemma ScientificReads(neg: bool, d: Decimal, width: nat)
    requires WfDecimal(d) && Keys.IsInt64(d.point - 1)
    ensures ReadsAs(Sign(neg) + Scientific(d, width), neg, d)
    ensures ParseInt(Sign(neg) + Scientific(d, width)) == None
  {
    hide Spelled; hide ParseInt; hide Scientific; hide Normal;
    ScientificSpelled(neg, d, width);
    assert Zeros(0) + d.digits + Zeros(0) == d.digits;
    Spells(d, 0, 0, d.digits, d.point);
  }

  /** Digits with a point among or before them, as both forms print them. */
  lemma PointReads(neg: bool, d: Decimal)
    requires WfDecimal(d) && d.point < |d.digits|
    ensures
      var ip := if d.point <= 0 then [0] else d.digits[..d.point];
      var fp := if d.point <= 0 then Zeros(-d.point) + d.digits else d.digits[d.point..];
      && AllDigits(ip) && AllDigits(fp) && ip != [] && fp != []
      && ReadsAs(Sign(neg) + Fixed(ip, fp), neg, d) && ParseInt(Sign(neg) + Fixed(ip, fp)) == None
  {
    hide ReadsAs; hide ParseInt; hide Fixed; hide IntOf;
    var ds, p := d.digits, d.point;
    if p <= 0 {
      assert [0] + (Zeros(-p) + ds) == Zeros(1 - p) + ds + Zeros(0);
      FixedReads(neg, [0], Zeros(-p) + ds, d, 1 - p, 0);
      FixedParsed(neg, [0], Zeros(-p) + ds);
    } else {
      assert ds[..p] + ds[p..] == Zeros(0) + ds + Zeros(0);
      FixedReads(neg, ds[..p], ds[p..], d, 0, 0);
      FixedParsed(neg, ds[..p], ds[p..]);
    }
  }

  /** Both forms spell the decimal they print.  The short one is an integer exactly for integers of at most
      six digits; the other never is. */
  lemma ShortReads(neg: bool, d: Decimal)
    requires WfDecimal(d) && Keys.IsInt64(d.point - 1)
    ensures ReadsAs(Sign(neg) + PrintShort(d), neg, d)
    ensures ParseInt(Sign(neg) + PrintShort(d))
      == if Whole(d) then Some(if neg then -(WholeValue(d) as int) else WholeValue(d)) else None
  {
    hide ReadsAs; hide ParseInt; hide Fixed; hide Scientific; hide IntOf;
    var ds, p := d.digits, d.point;
    if p - 1 < -4 || p - 1 >= 6 {
      ScientificReads(neg, d, 2);
    } else if p < |ds| {
      PointReads(neg, d);
    } else {
      WholeReads(neg, d);
    }
  }

  lemma WholeReads(neg: bool, d: Decimal)
    requires WfDecimal(d) && Whole(d)
    ensures
      var t := Sign(neg) + Fixed(d.digits + Zeros(d.point - |d.digits|), []);
      ReadsAs(t, neg, d) && ParseInt(t) == Some(if neg then -(WholeValue(d) as int) else WholeValue(d))
  {
    hide ReadsAs; hide ParseInt; hide Fixed; hide IntOf;
    var ds, b := d.digits, d.point - |d.digits|;
    assert ds + Zeros(b) + [] == Zeros(0) + ds + Zeros(b);
    FixedReads(neg, ds + Zeros(b), [], d, 0, b);
    FixedParsed(neg, ds + Zeros(b), []);
    TrailingZeros(ds, b);
    WholeBounds(d);
  }

  lemma Spells(d: Decimal, a: nat, b: nat, ds: seq<nat>, point: int)
    requires WfDecimal(d) && ds == Zeros(a) + d.digits + Zeros(b) && point == d.point + a
    ensures Normal(ds, point) == d
  {
    hide Normal;
    assert Zeros(a) + d.digits + Zeros(b) == Zeros(a) + (d.digits + Zeros(b));
    NormalIs(a, d, b, point);
  }

  lemma {:induction false} TrailingZeros(ds: seq<nat>, b: nat)
    ensures IntOf(ds + Zeros(b)) == IntOf(ds) * Pow10(b)
  {
    var all := ds + Zeros(b);
    if b == 0 {
      assert all == ds;
    } else {
      assert all[..|all| - 1] == ds + Zeros(b - 1) && all[|all| - 1] == 0;
      TrailingZeros(ds, b - 1);
      TenTimes(IntOf(ds), Pow10(b - 1), IntOf(ds) * Pow10(b - 1));
    }
  }

  lemma PointedReads(neg: bool, d: Decimal)
    requires WfDecimal(d) && Keys.IsInt64(d.point - 1)
    ensures ReadsAs(Sign(neg) + PrintPointed(d), neg, d)
    ensures ParseInt(Sign(neg) + PrintPointed(d)) == None
  {
    hide ReadsAs; hide ParseInt; hide Fixed; hide Scientific; hide IntOf;
    var ds, p := d.digits, d.point;
    if p < -6 || p > 17 {
      ScientificReads(neg, d, 1);
    } else if p < |ds| {
      PointReads(neg, d);
    } else {
      var b := p - |ds|;
      assert ds + Zeros(b) + [0] == Zeros(0) + ds + Zeros(b + 1);
      FixedReads(neg, ds + Zeros(b), [0], d, 0, b + 1);
      FixedParsed(neg, ds + Zeros(b), [0]);
    }
  }

  // ---- what is stored ----

  /** The one pattern a NaN is read as. */
  const NAN: nat := 0x7FF8_0000_0000_0001

  function Lower(t: string): (r: string)
  {
    seq(|t|, i requires 0 <= i < |t| => if 'A' <= t[i] <= 'Z' then (t[i] as int + 32) as char else t[i])
  }

  /** A decimal text or a name as a float; a number too large is an error. */
  function ParseFloat(t: string, parse: Decimal -> nat): (r: Option<nat>)
    ensures r.Some? ==> Keys.IsBits(r.value)
  {
    var low := Lower(t);
    if low == "nan" then Some(NAN)
    else if low == "inf" || low == "+inf" || low == "infinity" || low == "+infinity" then Some(INFINITY)
    else if low == "-inf" || low == "-infinity" then Some(TWO_63 + INFINITY)
    else
      match Spelled(t)
      case None => None
      case Some(x) =>
        var d := Normal(x.digits, x.point);
        var mag := if d.digits == [] then 0 else parse(d);
        if mag >= INFINITY then None else Some(mag + if x.neg then TWO_63 else 0)
  }

  /** The same letters in either case. */
  ghost predicate Letters(t: string, small: string, capital: string)
    requires |small| == |capital|
  {
    |t| == |small| && forall i :: 0 <= i < |t| ==> t[i] == small[i] || t[i] == capital[i]
  }

  /** The names of the values that are no numbers, in any case. */
  lemma NamesRead(t: string, parse: Decimal -> nat)
    ensures Letters(t, "nan", "NAN") ==> ParseFloat(t, parse) == Some(0x7FF8_0000_0000_0001)
    ensures Letters(t, "inf", "INF") || Letters(t, "+inf", "+INF") ==> ParseFloat(t, parse) == Some(0x7FF0_0000_0000_0000)
    ensures Letters(t, "infinity", "INFINITY") || Letters(t, "+infinity", "+INFINITY") ==>
      ParseFloat(t, parse) == Some(0x7FF0_0000_0000_0000)
    ensures Letters(t, "-inf", "-INF") || Letters(t, "-infinity", "-INFINITY") ==>
      ParseFloat(t, parse) == Some(0xFFF0_0000_0000_0000)
  {
    hide Spelled; hide Normal;
    SpellsLower(t, "nan", "NAN");
    SpellsLower(t, "inf", "INF");
    SpellsLower(t, "+inf", "+INF");
    SpellsLower(t, "infinity", "INFINITY");
    SpellsLower(t, "+infinity", "+INFINITY");
    SpellsLower(t, "-inf", "-INF");
    SpellsLower(t, "-infinity", "-INFINITY");
  }

  lemma SpellsLower(t: string, small: string, capital: string)
    requires |small| == |capital|
    requires forall i :: 0 <= i < |small| ==>
      if 'A' <= capital[i] <= 'Y' then small[i] as int == capital[i] as int + 32 else small[i] == capital[i] && !('A' <= small[i] <= 'Z')
    ensures Letters(t, small, capital) ==> Lower(t) == small
  {
    if Letters(t, small, capital) {
      forall i | 0 <= i < |t|
        ensures Lower(t)[i] == small[i]
      {
      }
    }
  }

  /** The bytes of a text under an attribute of fixed size; none is an error. */
  function EncodeFixed(t: string, parse: Decimal -> nat): (r: Option<Key>)
  {
    if t == "true" then Some(Keys.EncodeInt(1))
    else if t == "false" then Some(Keys.EncodeInt(0))
    else
      match ParseInt(t)
      case Some(n) => Some(Keys.EncodeInt(n))
      case None =>
        match ParseFloat(t, parse)
        case Some(bits) => Some(Keys.EncodeFloat(bits))
        case None => None
  }

  function Magnitude(bits: nat): (mag: nat)
    requires Keys.IsBits(bits)
    ensures mag < TWO_63 && bits == mag + if bits >= TWO_63 then TWO_63 else 0
  {
    if bits >= TWO_63 then bits - TWO_63 else bits
  }

  /** A parser, and a printer that chooses shortest decimals with exponents of at most three digits. */
  ghost predicate Printer(parse: Decimal -> nat, shortest: nat -> Decimal)
  {
    && Parses(parse)
    && forall mag :: 0 < mag < INFINITY ==>
      IsShortest(parse, shortest(mag), mag) && -1000 < shortest(mag).point < 1000
  }

  /** The text of a float in a save. */
  ghost function SaveText(bits: nat, parse: Decimal -> nat, shortest: nat -> Decimal): (t: string)
    requires Keys.IsBits(bits) && Printer(parse, shortest)
  {
    var mag, neg := Magnitude(bits), bits >= TWO_63;
    if mag > INFINITY then "NaN"
    else if mag == INFINITY then if neg then "-Inf" else "+Inf"
    else if mag == 0 then Sign(neg) + "0"
    else Sign(neg) + PrintShort(shortest(mag))
  }

  /** The text of a float in a transaction. */
  ghost function TxText(bits: nat, parse: Decimal -> nat, shortest: nat -> Decimal): (t: string)
    requires Keys.IsBits(bits) && Printer(parse, shortest)
  {
    var mag, neg := Magnitude(bits), bits >= TWO_63;
    if mag > INFINITY then "nan"
    else if mag == INFINITY then if neg then "-inf" else "inf"
    else if mag == 0 then Sign(neg) + "0.0"
    else Sign(neg) + PrintPointed(shortest(mag))
  }

  /** The integer a float is, if it is one of magnitude below a million. */
  predicate IsSmallInteger(bits: nat)
    requires Keys.IsBits(bits)
  {
    Magnitude(bits) == 0 || (Magnitude(bits) < INFINITY && SmallInteger(Magnitude(bits)) != 0)
  }

  function IntegerIn(bits: nat): (n: int)
    requires Keys.IsBits(bits) && IsSmallInteger(bits)
    ensures -1_000_000 < n < 1_000_000
  {
    var n := if Magnitude(bits) == 0 then 0 else SmallInteger(Magnitude(bits));
    if bits >= TWO_63 then -n else n
  }

  /** What a save stores: small integers as integers, every NaN as one. */
  function SavedFloat(bits: nat): (k: Key)
    requires Keys.IsBits(bits)
  {
    if IsSmallInteger(bits) then Keys.EncodeInt(IntegerIn(bits))
    else Keys.EncodeFloat(if Keys.IsNaN(bits) then NAN else bits)
  }

  /** What a transaction stores: the float, every NaN as one. */
  function SentFloat(bits: nat): (k: Key)
    requires Keys.IsBits(bits)
  {
    Keys.EncodeFloat(if Keys.IsNaN(bits) then NAN else bits)
  }

  lemma Names(parse: Decimal -> nat)
    ensures ParseInt("NaN") == ParseInt("nan") == None
    ensures ParseInt("+Inf") == ParseInt("-Inf") == ParseInt("inf") == ParseInt("-inf") == None
    ensures ParseFloat("NaN", parse) == ParseFloat("nan", parse) == Some(NAN)
    ensures ParseFloat("+Inf", parse) == ParseFloat("inf", parse) == Some(INFINITY)
    ensures ParseFloat("-Inf", parse) == ParseFloat("-inf", parse) == Some(TWO_63 + INFINITY)
  {
    hide Spelled; hide DigitsIn; hide IntOf;
    assert Lower("NaN") == "nan" == Lower("nan");
    assert Lower("+Inf") == "+inf" && Lower("inf") == "inf";
    assert Lower("-Inf") == "-inf" == Lower("-inf");
    assert !IsDigit("NaN"[0]) && !IsDigit("nan"[0]) && !IsDigit("inf"[0]);
    assert "+Inf"[1..] == "Inf" && "-Inf"[1..] == "Inf" && "-inf"[1..] == "inf" && !IsDigit("Inf"[0]);
  }

  lemma NamesStored(parse: Decimal -> nat)
    ensures EncodeFixed("NaN", parse) == EncodeFixed("nan", parse) == Some(Keys.EncodeFloat(NAN))
    ensures EncodeFixed("+Inf", parse) == EncodeFixed("inf", parse) == Some(Keys.EncodeFloat(INFINITY))
    ensures EncodeFixed("-Inf", parse) == EncodeFixed("-inf", parse) == Some(Keys.EncodeFloat(TWO_63 + INFINITY))
  {
    hide ParseInt; hide ParseFloat; hide Keys.EncodeFloat; hide Keys.EncodeInt;
    Names(parse);
  }

  lemma PointedZero(neg: bool, parse: Decimal -> nat)
    ensures EncodeFixed(Sign(neg) + "0.0", parse) == Some(Keys.EncodeFloat(if neg then TWO_63 else 0))
  {
    hide ParseInt; hide ParseFloat; hide Keys.EncodeFloat; hide Keys.EncodeInt; hide Spelled; hide Normal;
    ZeroTexts(neg);
    NotName(neg, "0.0", parse);
  }

  /** A text that starts with a digit, perhaps after a minus, is none of the names. */
  lemma NotName(neg: bool, u: string, parse: Decimal -> nat)
    requires u != "" && IsDigit(u[0])
    ensures
      var t := Sign(neg) + u;
      && t != "true" && t != "false"
      && ParseFloat(t, parse) == match Spelled(t)
        case None => None
        case Some(x) =>
          var d := Normal(x.digits, x.point);
          var mag := if d.digits == [] then 0 else parse(d);
          if mag >= INFINITY then None else Some(mag + if x.neg then TWO_63 else 0)
  {
    hide Spelled; hide Normal;
    var t := Sign(neg) + u;
    var i := if neg then 1 else 0;
    assert t[i] == u[0] && Lower(t)[i] == u[0];
    assert "true"[0] == 't' && "false"[0] == 'f';
  }

  /** A printed decimal that is no integer is stored as the float it is parsed to. */
  lemma StoredAsFloat(neg: bool, u: string, d: Decimal, parse: Decimal -> nat)
    requires u != "" && IsDigit(u[0]) && ReadsAs(Sign(neg) + u, neg, d) && ParseInt(Sign(neg) + u) == None
    requires d.digits != [] && parse(d) < INFINITY
    ensures EncodeFixed(Sign(neg) + u, parse) == Some(Keys.EncodeFloat(parse(d) + if neg then TWO_63 else 0))
  {
    hide Spelled; hide Normal; hide ParseInt; hide ParseFloat; hide Keys.EncodeInt; hide Keys.EncodeFloat;
    NotName(neg, u, parse);
  }

  lemma StoredAsInteger(neg: bool, u: string, n: int, parse: Decimal -> nat)
    requires u != "" && IsDigit(u[0]) && ParseInt(Sign(neg) + u) == Some(n)
    ensures Keys.IsInt64(n) && EncodeFixed(Sign(neg) + u, parse) == Some(Keys.EncodeInt(n))
  {
    hide Spelled; hide Normal; hide ParseFloat; hide Keys.EncodeInt; hide Keys.EncodeFloat;
    NotName(neg, u, parse);
  }

  lemma PrintsDigitFirst(d: Decimal)
    requires WfDecimal(d)
    ensures PrintShort(d) != "" && IsDigit(PrintShort(d)[0])
    ensures PrintPointed(d) != "" && IsDigit(PrintPointed(d)[0])
  {
    hide ExponentText; hide DigitsOf;
  }

  lemma Prints(parse: Decimal -> nat, shortest: nat -> Decimal, mag: nat)
    requires Printer(parse, shortest) && 0 < mag < INFINITY
    ensures
      var d := shortest(mag);
      Parses(parse) && IsShortest(parse, d, mag) && WfDecimal(d) && parse(d) == mag && Keys.IsInt64(d.point - 1)
  {
    hide Parses;
  }

  /** Saving a float through its text stores exactly this, whatever parser and printer. */
  lemma SaveStores(bits: nat, parse: Decimal -> nat, shortest: nat -> Decimal)
    requires Keys.IsBits(bits) && Printer(parse, shortest)
    ensures EncodeFixed(SaveText(bits, parse, shortest), parse) == Some(SavedFloat(bits))
  {
    hide ParseInt; hide ParseFloat; hide Keys.EncodeInt; hide Keys.EncodeFloat; hide Spelled; hide PrintShort;
    hide SmallInteger; hide Parses;
    hide ReadsAs; hide Whole; hide WholeValue; hide Printer; hide IsShortest; hide EncodeFixed;
    var mag, neg := Magnitude(bits), bits >= TWO_63;
    if mag >= INFINITY {
      NamesStored(parse);
    } else if mag == 0 {
      ZeroTexts(neg);
      StoredAsInteger(neg, "0", 0, parse);
    } else {
      var d := shortest(mag);
      Prints(parse, shortest, mag);
      ShortReads(neg, d);
      PrintsDigitFirst(d);
      ShortestWhole(parse, d, mag);
      if Whole(d) {
        StoredAsInteger(neg, PrintShort(d), IntegerIn(bits), parse);
      } else {
        StoredAsFloat(neg, PrintShort(d), d, parse);
      }
    }
  }

  lemma ZeroTexts(neg: bool)
    ensures ParseInt(Sign(neg) + "0") == Some(0)
    ensures ParseInt(Sign(neg) + "0.0") == None
    ensures Spelled(Sign(neg) + "0.0") == Some(Number(neg, [0, 0], 1)) && Normal([0, 0], 1).digits == []
  {
    hide Spelled; hide ParseInt;
    assert Text([0]) == "0";
    assert Fixed([0], []) == "0" && Fixed([0], [0]) == "0.0";
    OneZero();
    FixedParsed(neg, [0], []);
    FixedParsed(neg, [0], [0]);
    FixedSpelled(neg, [0], [0]);
    assert [0] + [0] == [0, 0];
    assert [0, 0][1..] == [0] && [0][1..] == [];
  }

  lemma TxStores(bits: nat, parse: Decimal -> nat, shortest: nat -> Decimal)
    requires Keys.IsBits(bits) && Printer(parse, shortest)
    ensures EncodeFixed(TxText(bits, parse, shortest), parse) == Some(SentFloat(bits))
  {
    hide ParseInt; hide ParseFloat; hide Keys.EncodeInt; hide Keys.EncodeFloat; hide Spelled; hide PrintPointed;
    hide Parses; hide ReadsAs; hide Printer; hide IsShortest; hide EncodeFixed;
    var mag, neg := Magnitude(bits), bits >= TWO_63;
    if mag >= INFINITY {
      NamesStored(parse);
    } else if mag == 0 {
      PointedZero(neg, parse);
    } else {
      var d := shortest(mag);
      Prints(parse, shortest, mag);
      PointedReads(neg, d);
      PrintsDigitFirst(d);
      StoredAsFloat(neg, PrintPointed(d), d, parse);
    }
  }
}
