/** The values a predicate compares, the order it compares them in, the bytes its bounds become and the
    bytes the store holds.  Where the two orders agree and where they do not. */
module RangeValues {
  import opened Bytes
  import opened MachineInts
  import FloatText
  import FloatValues
  import Keys

  /** A value by its kind; symbols, lists, resources and the void are told apart by their kind only. */
  datatype Value =
    | Bool(b: bool)
    | Int(n: int)
    | Float(bits: nat)
    | Str(s: Key)
    | Bytes(data: Key)
    | Keyword(name: Key)
    | Plain(rank: nat)

  predicate WfValue(v: Value)
  {
    match v
    case Int(n) => Keys.IsInt64(n)
    case Float(bits) => Keys.IsBits(bits)
    case Bytes(data) => |data| < TWO_63
    case Plain(rank) => rank == 0 || rank == 6 || rank == 8 || rank == 9
    case _ => true
  }

  function KindRank(v: Value): (r: nat)
    requires WfValue(v)
    ensures r < 10
  {
    match v
    case Bool(_) => 1
    case Int(_) => 2
    case Float(_) => 3
    case Str(_) => 4
    case Bytes(_) => 5
    case Keyword(_) => 7
    case Plain(rank) => rank
  }

  function CmpKeys(a: Key, b: Key): (c: int)
  {
    if Less(a, b) then -1 else if a == b then 0 else 1
  }

  function CmpInts(a: int, b: int): (c: int)
  {
    if a < b then -1 else if a > b then 1 else 0
  }

  /** The comparison of predicates: by kind, then within the kind; byte strings by length first. */
  function CmpValue(a: Value, b: Value): (c: int)
    requires WfValue(a) && WfValue(b)
  {
    if KindRank(a) != KindRank(b) then KindRank(a) - KindRank(b)
    else
      match a
      case Bool(x) => if x == b.b then 0 else if !x then -1 else 1
      case Int(x) => CmpInts(x, b.n)
      case Float(x) =>
        if Keys.IsNaN(x) || Keys.IsNaN(b.bits) then 0 else CmpInts(Keys.FloatOrder(x), Keys.FloatOrder(b.bits))
      case Str(x) => CmpKeys(x, b.s)
      case Keyword(x) => CmpKeys(x, b.name)
      case Bytes(x) => if |x| != |b.data| then |x| - |b.data| else CmpKeys(x, b.data)
      case Plain(_) => 0
  }

  // ---- the order as positions ----

  predicate Ordered(v: Value)
  {
    WfValue(v) && (v.Float? ==> !Keys.IsNaN(v.bits))
  }

  /** Where an ordered value stands: byte-wise comparison of positions is comparison of values. */
  function Position(v: Value): (k: Key)
    requires Ordered(v)
  {
    [KindRank(v)] +
    match v
    case Bool(b) => if b then [1] else [0]
    case Int(n) => Keys.EncodeInt(n)
    case Float(bits) => Keys.EncodeInt(Keys.FloatOrder(bits))
    case Str(s) => s
    case Keyword(s) => s
    case Bytes(data) => Keys.BigEndian(|data|, 8) + data
    case Plain(_) => []
  }

  /** Any two values that are not NaN compare as their positions do, whatever their kinds. */
  lemma ComparesByPosition(a: Value, b: Value)
    requires Ordered(a) && Ordered(b)
    ensures CmpValue(a, b) < 0 <==> Less(Position(a), Position(b))
    ensures CmpValue(a, b) > 0 <==> Less(Position(b), Position(a))
    ensures CmpValue(a, b) == 0 <==> Position(a) == Position(b)
  {
    hide Keys.EncodeInt; hide Keys.BigEndian; hide Less; hide Keys.Pow256;
    var p, q := Position(a), Position(b);
    var x, y := p[1..], q[1..];
    HeadFirst(KindRank(a), KindRank(b), x, y);
    HeadFirst(KindRank(b), KindRank(a), y, x);
    assert p == [KindRank(a)] + x && q == [KindRank(b)] + y;
    if KindRank(a) == KindRank(b) {
      WithinKind(a, b);
    }
  }

  lemma HeadFirst(i: nat, j: nat, x: Key, y: Key)
    requires i < 256 && j < 256
    ensures Less([i] + x, [j] + y) <==> i < j || (i == j && Less(x, y))
    ensures [i] + x == [j] + y <==> i == j && x == y
  {
    assert ([i] + x)[1..] == x && ([j] + y)[1..] == y;
    assert ([i] + x)[0] == i && ([j] + y)[0] == j;
  }

  lemma WithinKind(a: Value, b: Value)
    requires Ordered(a) && Ordered(b) && KindRank(a) == KindRank(b)
    ensures
      var x, y := Position(a)[1..], Position(b)[1..];
      && (CmpValue(a, b) < 0 <==> Less(x, y)) && (CmpValue(a, b) > 0 <==> Less(y, x)) && (CmpValue(a, b) == 0 <==> x == y)
  {
    hide Keys.EncodeInt; hide Keys.BigEndian; hide Less; hide Keys.Pow256;
    match a
    case Bool(u) =>
      BoolPositions();
    case Int(m) =>
      Keys.EncodeIntOrder(m, b.n);
      Keys.EncodeIntOrder(b.n, m);
    case Float(f) =>
      Keys.EncodeIntOrder(Keys.FloatOrder(f), Keys.FloatOrder(b.bits));
      Keys.EncodeIntOrder(Keys.FloatOrder(b.bits), Keys.FloatOrder(f));
    case Str(s) =>
      KeysCompare(s, b.s);
    case Keyword(s) =>
      KeysCompare(s, b.name);
    case Bytes(d) =>
      Keys.Pow256Eight();
      Keys.LengthFirst(d, b.data, 8);
      Keys.LengthFirst(b.data, d, 8);
      KeysCompare(d, b.data);
    case Plain(_) =>
      LessIrreflexive([]);
  }

  lemma BoolPositions()
    ensures Less([0], [1]) && !Less([1], [0]) && !Less([0], [0]) && !Less([1], [1]) && [0] != [1]
  {
    assert [0][0] == 0 && [1][0] == 1;
    LessIrreflexive([0]);
    LessIrreflexive([1]);
  }

  lemma KeysCompare(a: Key, b: Key)
    ensures CmpKeys(a, b) < 0 <==> Less(a, b)
    ensures CmpKeys(a, b) > 0 <==> Less(b, a)
    ensures CmpKeys(a, b) == 0 <==> a == b
  {
    hide Less;
    LessTotal(a, b);
    LessAsymmetricIf(a, b);
    LessIrreflexive(a);
  }

  // ---- bytes ----

  function CutAtNul(s: Key): (c: Key)
  {
    s[..Keys.FirstNul(s)]
  }

  /** The bytes of a bound. */
  function Encode(v: Value): (k: Key)
    requires WfValue(v)
  {
    match v
    case Int(n) => Keys.EncodeInt(n)
    case Float(bits) => Keys.EncodeFloat(bits)
    case Str(s) => Keys.Blocks(CutAtNul(s))
    case Bytes(data) => Keys.BigEndian(|data|, 4) + data
    case Bool(b) => (if b then [128] else [0]) + [0, 0, 0, 0, 0, 0, 0]
    case _ => [0, 0, 0, 0, 0, 0, 0, 0]
  }

  /** The bytes the write path stores for a value of an attribute of its kind; for floats they depend on the
      path, see below. */
  function Stored(v: Value): (k: Key)
    requires WfValue(v) && !v.Plain? && !v.Float?
  {
    match v
    case Int(n) => Keys.EncodeInt(n)
    case Str(s) => Keys.Blocks(CutAtNul(s))
    case Bytes(data) => Keys.BigEndian(|data|, 4) + data
    case Bool(b) => Keys.EncodeInt(if b then 1 else 0)
    case Keyword(s) => Keys.Blocks(CutAtNul(s))
  }

  /** Booleans reach the store through their names. */
  lemma BoolsByName(b: bool, parse: FloatValues.Decimal -> nat)
    ensures FloatText.EncodeFixed(if b then "true" else "false", parse) == FloatText.Some(Stored(Bool(b)))
  {
  }

  /** The scanner sees the stored bytes of a value on the same side of a bound as the predicate sees the
      value. */
  ghost predicate BytesAgreeWith(stored: Key, u: Value, bound: Value)
    requires WfValue(u) && WfValue(bound)
  {
    && (Less(stored, Encode(bound)) <==> CmpValue(u, bound) < 0)
    && (stored == Encode(bound) <==> CmpValue(u, bound) == 0)
  }

  ghost predicate Agrees(u: Value, bound: Value)
    requires WfValue(u) && WfValue(bound) && !u.Plain? && !u.Float?
  {
    BytesAgreeWith(Stored(u), u, bound)
  }

  lemma IntsAgree(m: int, n: int)
    requires Keys.IsInt64(m) && Keys.IsInt64(n)
    ensures Agrees(Int(m), Int(n))
  {
    Keys.EncodeIntOrder(m, n);
  }

  /** Strings agree unless they differ only behind a NUL. */
  lemma StringsAgree(s: Key, t: Key)
    ensures Agrees(Str(s), Str(t)) <==> CutAtNul(s) != CutAtNul(t) || s == t
  {
    hide Less; hide Keys.Blocks; hide Keys.FirstNul;
    Keys.BlocksOrder(CutAtNul(s), CutAtNul(t));
    KeysCompare(s, t);
    LessIrreflexive(CutAtNul(s));
    if CutAtNul(s) != CutAtNul(t) {
      Keys.CutCompare(s, t);
    }
  }

  /** Byte strings below four gigabytes agree. */
  lemma BytesAgree(x: Key, y: Key)
    requires |x| < TWO_32 && |y| < TWO_32
    ensures Agrees(Bytes(x), Bytes(y))
  {
    hide Less; hide Keys.BigEndian; hide Keys.Pow256;
    Keys.Pow256Eight();
    Keys.LengthFirst(x, y, 4);
    KeysCompare(x, y);
  }

  /** A float of a transaction agrees with a bound exactly when it is a number, the bound is one and they are
      not zeros of opposite sign; a NaN agrees with the one NaN that is stored for all. */
  lemma SentFloatsAgree(a: nat, b: nat)
    requires Keys.IsBits(a) && Keys.IsBits(b)
    ensures BytesAgreeWith(FloatText.SentFloat(a), Float(a), Float(b)) <==>
      if Keys.IsNaN(a) then b == FloatText.NAN
      else !Keys.IsNaN(b) && (a == b || !(Keys.FloatOrder(a) == 0 == Keys.FloatOrder(b)))
  {
    hide Less; hide Keys.EncodeFloat;
    Keys.EncodeFloatOrder(if Keys.IsNaN(a) then FloatText.NAN else a, b);
  }

  /** The bound lies between a small integer and the float its bytes stand for, ends included. */
  predicate Crossed(a: nat, b: nat)
    requires Keys.IsBits(a) && Keys.IsBits(b) && FloatText.IsSmallInteger(a)
  {
    var n := FloatText.IntegerIn(a);
    if n == 0 then b == TWO_63
    else if n > 0 then n <= Keys.FloatOrder(b) <= Keys.FloatOrder(a)
    else b >= TWO_63 && Keys.FloatOrder(a) <= Keys.FloatOrder(b) <= n + 1
  }

  /** A float of a save agrees with a bound exactly when both are numbers and, if it is an integer below a
      million, the bound does not lie between it and the float its bytes stand for. */
  lemma SavedFloatsAgree(a: nat, b: nat)
    requires Keys.IsBits(a) && Keys.IsBits(b)
    ensures BytesAgreeWith(FloatText.SavedFloat(a), Float(a), Float(b)) <==>
      if Keys.IsNaN(a) then b == FloatText.NAN
      else !Keys.IsNaN(b) && !(FloatText.IsSmallInteger(a) && Crossed(a, b))
  {
    hide Less; hide Keys.EncodeFloat; hide Keys.EncodeInt; hide FloatText.IntegerIn; hide FloatText.IsSmallInteger;
    NaNIsNoInteger(a);
    if FloatText.IsSmallInteger(a) {
      var n := FloatText.IntegerIn(a);
      IntegerBelowPattern(a);
      IntAgainstFloat(n, b);
    } else {
      ZeroIsInteger(a);
      Keys.EncodeFloatOrder(if Keys.IsNaN(a) then FloatText.NAN else a, b);
    }
  }

  lemma NaNIsNoInteger(a: nat)
    requires Keys.IsBits(a)
    ensures FloatText.IsSmallInteger(a) ==> !Keys.IsNaN(a)
  {
  }

  lemma ZeroIsInteger(a: nat)
    requires Keys.IsBits(a)
    ensures Keys.FloatOrder(a) == 0 ==> FloatText.IsSmallInteger(a)
  {
  }

  /** The pattern of a small integer is far greater than the integer. */
  lemma IntegerBelowPattern(a: nat)
    requires Keys.IsBits(a) && FloatText.IsSmallInteger(a)
    ensures
      var n, o := FloatText.IntegerIn(a), Keys.FloatOrder(a);
      if n == 0 then o == 0 else if n > 0 then n < o && a < TWO_63 else o < n && a >= TWO_63
  {
    hide FloatValues.SmallInteger;
    var mag := FloatText.Magnitude(a);
    if mag != 0 {
      FloatValues.SmallIntegerIs(mag);
    }
  }

  /** An integer's bytes against a float's: the order of their codes. */
  lemma IntAgainstFloat(n: int, b: nat)
    requires Keys.IsInt64(n) && Keys.IsBits(b)
    ensures Less(Keys.EncodeInt(n), Keys.EncodeFloat(b)) <==> n + TWO_63 < Keys.FloatCode(b)
    ensures Keys.EncodeInt(n) == Keys.EncodeFloat(b) <==> n + TWO_63 == Keys.FloatCode(b)
  {
    hide Keys.BigEndian; hide Keys.ReadBig; hide Less; hide Keys.Pow256;
    Keys.Pow256Eight();
    Keys.BigRoundTrip(n + TWO_63, 8);
    Keys.BigRoundTrip(Keys.FloatCode(b), 8);
    Keys.OrderIsNumeric(Keys.EncodeInt(n), Keys.EncodeFloat(b));
  }

  /** A saved float reads back as itself exactly when it is zero, the one NaN, or a number that is not a small
      integer. */
  lemma SavedFloatReads(a: nat)
    requires Keys.IsBits(a)
    ensures |FloatText.SavedFloat(a)| == 8
    ensures Keys.DecodeFloat(FloatText.SavedFloat(a)) == a <==>
      a == 0 || a == FloatText.NAN || (!Keys.IsNaN(a) && !FloatText.IsSmallInteger(a))
  {
    hide Less; hide Keys.EncodeFloat; hide FloatText.IntegerIn; hide FloatText.IsSmallInteger; hide Keys.BigEndian;
    hide Keys.ReadBig;
    NaNIsNoInteger(a);
    if FloatText.IsSmallInteger(a) {
      var n := FloatText.IntegerIn(a);
      IntegerBelowPattern(a);
      Keys.Pow256Eight();
      Keys.BigRoundTrip(n + TWO_63, 8);
    } else {
      ZeroIsInteger(a);
      Keys.EncodeFloatOrder(if Keys.IsNaN(a) then FloatText.NAN else a, a);
    }
  }

  lemma ThreeIsInteger()
    ensures FloatValues.SmallInteger(0x4008_0000_0000_0000) == 3
  {
    FloatValues.Power52(1);
    assert FloatValues.Power(1) == 2;
    assert FloatValues.Power(51) == 0x8_0000_0000_0000;
  }

  /** A saved 3.0 lies below the bound 1.5: "at least 1.5" rejects it. */
  lemma ThreeBelowOneAndAHalf()
    ensures
      var three, bound := 0x4008_0000_0000_0000, 0x3FF8_0000_0000_0000;
      && FloatText.IsSmallInteger(three) && FloatText.IntegerIn(three) == 3
      && CmpValue(Float(three), Float(bound)) > 0 && Less(FloatText.SavedFloat(three), Encode(Float(bound)))
  {
    hide Less; hide Keys.EncodeFloat; hide Keys.EncodeInt; hide FloatValues.SmallInteger;
    var three, bound := 0x4008_0000_0000_0000, 0x3FF8_0000_0000_0000;
    ThreeIsInteger();
    IntAgainstFloat(3, bound);
  }

  /** Booleans agree in one case only: a stored true against a bound of false. */
  lemma BoolsAgree(u: bool, c: bool)
    ensures Agrees(Bool(u), Bool(c)) <==> u && !c
  {
    hide Less; hide Keys.BigEndian; hide Keys.ReadBig;
    var stored, bound := Stored(Bool(u)), Encode(Bool(c));
    BoundNumber(c);
    Keys.Pow256Eight();
    Keys.BigRoundTrip((if u then 1 else 0) + TWO_63, 8);
    Keys.OrderIsNumeric(stored, bound);
  }

  lemma BoundNumber(c: bool)
    ensures |Encode(Bool(c))| == 8 && Keys.ReadBig(Encode(Bool(c))) == if c then TWO_63 else 0
  {
    hide Keys.ReadBig;
    var first := if c then 128 else 0;
    assert Encode(Bool(c)) == [first, 0, 0, 0, 0, 0, 0, 0];
    ReadEight(first);
  }

  lemma ReadEight(x: nat)
    requires x < 256
    ensures Keys.ReadBig([x, 0, 0, 0, 0, 0, 0, 0]) == x * 0x100_0000_0000_0000
  {
    var s: Key := [x, 0, 0, 0, 0, 0, 0, 0];
    assert s[..7] == [x, 0, 0, 0, 0, 0, 0] && s[..7][..6] == [x, 0, 0, 0, 0, 0] && s[..7][..6][..5] == [x, 0, 0, 0, 0];
    assert Keys.ReadBig([x]) == x by { assert [x][..0] == []; }
    assert Keys.ReadBig([x, 0]) == x * 0x100 by { assert [x, 0][..1] == [x]; }
    assert Keys.ReadBig([x, 0, 0]) == x * 0x1_0000 by { assert [x, 0, 0][..2] == [x, 0]; }
    assert Keys.ReadBig([x, 0, 0, 0]) == x * 0x100_0000 by { assert [x, 0, 0, 0][..3] == [x, 0, 0]; }
    assert Keys.ReadBig([x, 0, 0, 0, 0]) == x * 0x1_0000_0000 by { assert [x, 0, 0, 0, 0][..4] == [x, 0, 0, 0]; }
    assert Keys.ReadBig([x, 0, 0, 0, 0, 0]) == x * 0x100_0000_0000;
    assert Keys.ReadBig([x, 0, 0, 0, 0, 0, 0]) == x * 0x1_0000_0000_0000;
  }

  /** Keywords agree only when the stored one is empty and below the bound, or not empty and above it:
      every keyword bound is the same eight zero bytes. */
  lemma KeywordsAgree(s: Key, t: Key)
    ensures Agrees(Keyword(s), Keyword(t)) <==> if CutAtNul(s) == [] then Less(s, t) else Less(t, s)
    ensures Encode(Keyword(t)) == seq(8, _ => 0)
  {
    hide Less; hide Keys.Blocks; hide Keys.FirstNul;
    KeysCompare(s, t);
    var zeros := Encode(Keyword(t));
    Keys.BlockBytes(s);
    var stored := Stored(Keyword(s));
    if CutAtNul(s) == [] {
      PrefixLess([], zeros);
    } else {
      LessAtDifference(zeros, stored, 0);
      LessAsymmetric(zeros, stored);
    }
  }

  /** Three predicates that fail: "not true" rejects a stored false and accepts a stored true, "at least
      0.0" rejects a -0.0 of a transaction, and all keywords are one bound. */
  lemma KindsThatFail(s: Key, t: Key)
    ensures Stored(Bool(false)) == Encode(Bool(true)) && Stored(Bool(true)) != Encode(Bool(true))
    ensures CmpValue(Float(TWO_63), Float(0)) == 0 && Less(FloatText.SentFloat(TWO_63), Encode(Float(0)))
    ensures Encode(Keyword(s)) == Encode(Keyword(t))
  {
    hide Less; hide Keys.BigEndian; hide Keys.ReadBig; hide Keys.EncodeFloat;
    Keys.EncodeFloatOrder(TWO_63, 0);
    BoundNumber(true);
    Keys.Pow256Eight();
    Keys.BigRoundTrip(TWO_63, 8);
    Keys.BigRoundTrip(1 + TWO_63, 8);
    Keys.OrderIsNumeric(Stored(Bool(false)), Encode(Bool(true)));
    Keys.OrderIsNumeric(Stored(Bool(true)), Encode(Bool(true)));
  }

  // ---- the kinds that work ----

  /** Integers, strings without NUL and byte strings below four gigabytes. */
  predicate Faithful(v: Value)
  {
    match v
    case Int(n) => Keys.IsInt64(n)
    case Str(s) => Keys.FirstNul(s) == |s|
    case Bytes(data) => |data| < TWO_32
    case _ => false
  }

  /** Of one such kind the bytes are ordered exactly as the values. */
  lemma BytesInOrder(a: Value, b: Value)
    requires Faithful(a) && Faithful(b) && KindRank(a) == KindRank(b)
    ensures Ordered(a) && Ordered(b) && Stored(a) == Encode(a)
    ensures Less(Encode(a), Encode(b)) <==> Less(Position(a), Position(b))
    ensures Encode(a) == Encode(b) <==> Position(a) == Position(b)
  {
    hide Less; hide Keys.Blocks; hide Keys.EncodeInt; hide Keys.BigEndian; hide Position;
    ComparesByPosition(a, b);
    match a
    case Int(m) =>
      IntsAgree(m, b.n);
    case Str(s) =>
      assert CutAtNul(s) == s && CutAtNul(b.s) == b.s;
      StringsAgree(s, b.s);
    case Bytes(d) =>
      BytesAgree(d, b.data);
  }
}
