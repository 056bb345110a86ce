/** How datoms become index keys: order-preserving value encodings, the version suffix and the four
    key layouts. */
module Keys {
  import opened Bytes
  import opened MachineInts

  // ---- big-endian numbers ----

  function Pow256(n: nat): (p: nat)
    ensures p > 0
  {
    if n == 0 then 1 else 256 * Pow256(n - 1)
  }

  /** The n low bytes of v, most significant first. */
  function BigEndian(v: nat, n: nat): (s: Key)
    ensures |s| == n
  {
    if n == 0 then [] else BigEndian(v / 256, n - 1) + [v % 256]
  }

  lemma LastByte(v: nat, n: nat)
    requires n > 0
    ensures BigEndian(v, n)[n - 1] == v % 256
  {
  }

  function ReadBig(s: Key): (v: nat)
  {
    if s == [] then 0 else ReadBig(s[..|s| - 1]) * 256 + s[|s| - 1]
  }

  lemma {:induction false} BigRoundTrip(v: nat, n: nat)
    requires v < Pow256(n)
    ensures ReadBig(BigEndian(v, n)) == v
  {
    if n > 0 {
      var s := BigEndian(v, n);
      assert s[..n - 1] == BigEndian(v / 256, n - 1);
      BigRoundTrip(v / 256, n - 1);
    }
  }

  lemma {:induction false} ReadBigBound(s: Key)
    ensures ReadBig(s) < Pow256(|s|)
  {
    if s != [] {
      ReadBigBound(s[..|s| - 1]);
    }
  }

  /** Byte strings of one length are ordered as the numbers they are. */
  lemma {:induction false} OrderIsNumeric(a: Key, b: Key)
    requires |a| == |b|
    ensures Less(a, b) <==> ReadBig(a) < ReadBig(b)
    ensures a == b <==> ReadBig(a) == ReadBig(b)
  {
    if a != [] {
      var n := |a| - 1;
      var a0, b0 := a[..n], b[..n];
      OrderIsNumeric(a0, b0);
      assert a == a0 + [a[n]] && b == b0 + [b[n]];
      if a0 == b0 {
        LessCommonPrefix(a0, [a[n]], [b[n]]);
        assert Less([a[n]], [b[n]]) <==> a[n] < b[n];
      } else {
        LessTotal(a0, b0);
        if Less(a0, b0) {
          EqualLengthApart(a0, b0, [a[n]], [b[n]]);
        } else {
          EqualLengthApart(b0, a0, [b[n]], [a[n]]);
        }
      }
    }
  }

  /** Once two strings of one length differ, what follows does not matter. */
  lemma EqualLengthApart(a: Key, b: Key, x: Key, y: Key)
    requires |a| == |b| && Less(a, b)
    ensures Less(a + x, b + y) && !Less(b + y, a + x) && a + x != b + y
  {
    LessAsymmetric(a, b);
    assert !(a <= b) by {
      assert |a| == |b| && a != b;
    }
    LessExtend(a, b, x, y);
    LessAsymmetric(a + x, b + y);
  }

  lemma Pow256Eight()
    ensures Pow256(8) == TWO_64 && Pow256(4) == 0x1_0000_0000
  {
    assert Pow256(1) == 256 && Pow256(2) == 65536 && Pow256(3) == 0x100_0000;
    assert Pow256(5) == 0x100_0000_0000 && Pow256(6) == 0x1_0000_0000_0000 && Pow256(7) == 0x100_0000_0000_0000;
  }

  // ---- numbers ----

  predicate IsInt64(n: int)
  {
    -TWO_63 <= n < TWO_63
  }

  /** Flipping the sign bit adds two to the sixty-third. */
  function EncodeInt(n: int): (s: Key)
    requires IsInt64(n)
    ensures |s| == 8
  {
    BigEndian(n + TWO_63, 8)
  }

  function DecodeInt(s: Key): (n: int)
    requires |s| == 8
  {
    ReadBig(s) - TWO_63
  }

  /** The integer encoding is invertible and keeps the order of signed numbers. */
  lemma EncodeIntOrder(m: int, n: int)
    requires IsInt64(m) && IsInt64(n)
    ensures DecodeInt(EncodeInt(n)) == n
    ensures Less(EncodeInt(m), EncodeInt(n)) <==> m < n
    ensures EncodeInt(m) == EncodeInt(n) <==> m == n
  {
    Pow256Eight();
    BigRoundTrip(m + TWO_63, 8);
    BigRoundTrip(n + TWO_63, 8);
    OrderIsNumeric(EncodeInt(m), EncodeInt(n));
  }

  // ---- floats ----

  /** A 64-bit float is its bit pattern: the sign in the top bit, the rest a magnitude. */
  predicate IsBits(bits: nat)
  {
    bits < TWO_64
  }

  /** The magnitude with its sign, which orders all floats that are numbers; both zeros are 0. */
  function FloatOrder(bits: nat): (n: int)
    requires IsBits(bits)
    ensures -TWO_63 < n < TWO_63
  {
    if bits < TWO_63 then bits else TWO_63 - bits
  }

  /** Magnitudes beyond the infinities are not numbers. */
  predicate IsNaN(bits: nat)
    requires IsBits(bits)
  {
    FloatOrder(bits) > 0x7FF0_0000_0000_0000 || FloatOrder(bits) < -0x7FF0_0000_0000_0000
  }

  /** Flips the sign bit of positive floats and all bits of negative ones. */
  function FloatCode(bits: nat): (n: nat)
    requires IsBits(bits)
    ensures n < TWO_64
  {
    if bits < TWO_63 then bits + TWO_63 else TWO_64 - 1 - bits
  }

  function EncodeFloat(bits: nat): (s: Key)
    requires IsBits(bits)
    ensures |s| == 8
  {
    BigEndian(FloatCode(bits), 8)
  }

  function DecodeFloat(s: Key): (bits: int)
    requires |s| == 8
  {
    var x := ReadBig(s);
    if x >= TWO_63 then x - TWO_63 else TWO_64 - 1 - x
  }

  /** The float encoding is invertible and keeps the order of numbers, but for the negative zero, which
      it puts before the positive one. */
  lemma EncodeFloatOrder(a: nat, b: nat)
    requires IsBits(a) && IsBits(b)
    ensures DecodeFloat(EncodeFloat(a)) == a
    ensures EncodeFloat(a) == EncodeFloat(b) <==> a == b
    ensures Less(EncodeFloat(a), EncodeFloat(b)) <==>
      FloatOrder(a) < FloatOrder(b) || (a == TWO_63 && b == 0)
  {
    hide BigEndian; hide ReadBig; hide Pow256;
    Pow256Eight();
    BigRoundTrip(FloatCode(a), 8);
    BigRoundTrip(FloatCode(b), 8);
    OrderIsNumeric(EncodeFloat(a), EncodeFloat(b));
  }

  // ---- the version suffix ----

  /** Time and a retraction bit in 64 bits; shifting drops the top bit of the time. */
  function EncodeSuffix(t: int, retracted: bool): (sf: nat)
    requires IsInt64(t)
    ensures sf < TWO_64
  {
    (2 * t) % TWO_64 + if retracted then 1 else 0
  }

  function DecodeSuffix(sf: nat): (r: (int, bool))
  {
    (sf / 2, sf % 2 == 1)
  }

  lemma SuffixValue(t: int)
    requires IsInt64(t)
    ensures (2 * t) % TWO_64 == if t >= 0 then 2 * t else 2 * t + TWO_64
  {
  }

  /** A suffix gives back its time and its bit exactly for times that are not negative. */
  lemma SuffixRoundTrip(t: int, retracted: bool)
    requires IsInt64(t)
    ensures DecodeSuffix(EncodeSuffix(t, retracted)) == (t, retracted) <==> t >= 0
    ensures DecodeSuffix(EncodeSuffix(t, retracted)).1 == retracted
  {
    SuffixValue(t);
  }

  /** Versions are ordered by time, a retraction after an assertion of the same time. */
  lemma SuffixOrder(t: int, r: bool, u: int, q: bool)
    requires 0 <= t < TWO_63 && 0 <= u < TWO_63
    ensures Less(BigEndian(EncodeSuffix(t, r), 8), BigEndian(EncodeSuffix(u, q), 8)) <==> t < u || (t == u && !r && q)
    ensures BigEndian(EncodeSuffix(t, r), 8) == BigEndian(EncodeSuffix(u, q), 8) <==> t == u && r == q
  {
    SuffixValue(t);
    SuffixValue(u);
    Pow256Eight();
    BigRoundTrip(EncodeSuffix(t, r), 8);
    BigRoundTrip(EncodeSuffix(u, q), 8);
    OrderIsNumeric(BigEndian(EncodeSuffix(t, r), 8), BigEndian(EncodeSuffix(u, q), 8));
  }

  // ---- strings ----

  /** Blocks of eight bytes, each followed by 0xff when more follows and by its length otherwise. */
  function Blocks(s: Key): (e: Key)
    ensures s == [] <==> e == []
    ensures s != [] ==> |e| >= 9
  {
    if s == [] then []
    else if |s| > 8 then s[..8] + [255] + Blocks(s[8..])
    else Padded(s) + [|s|]
  }

  function Padded(s: Key): (p: Key)
    requires |s| <= 8
    ensures |p| == 8 && p[..|s|] == s
  {
    s + seq(8 - |s|, _ => 0)
  }

  function FirstNul(s: Key): (n: nat)
    ensures n <= |s| && (forall i :: 0 <= i < n ==> s[i] != 0) && (n < |s| ==> s[n] == 0)
  {
    if s == [] || s[0] == 0 then 0 else 1 + FirstNul(s[1..])
  }

  /** Encodes a string as far as its first NUL. */
  method EncodeVariable(s: Key) returns (out: Key)
    ensures out == Blocks(s[..FirstNul(s)])
  {
    hide Blocks; hide Padded;
    var n := FirstNul(s);
    out := [];
    var pos := 0;
    ghost var whole := s[..n];
    assert whole[0..] == whole;
    while pos < n
      invariant 0 <= pos
      invariant pos <= n ==> out + Blocks(whole[pos..]) == Blocks(whole)
      invariant pos > n ==> out == Blocks(whole)
      decreases n - pos
    {
      var remaining := n - pos;
      BlocksAt(whole, pos);
      if remaining > 8 {
        assert whole[pos..pos + 8] == s[pos..pos + 8];
        out := out + s[pos..pos + 8] + [255];
      } else {
        assert whole[pos..] == s[pos..pos + remaining];
        out := out + Padded(s[pos..pos + remaining]) + [remaining];
      }
      pos := pos + 8;
    }
    NoBlock(whole);
  }

  lemma BlocksAt(s: Key, pos: nat)
    requires pos < |s|
    ensures |s| - pos > 8 ==> Blocks(s[pos..]) == s[pos..pos + 8] + [255] + Blocks(s[pos + 8..])
    ensures |s| - pos <= 8 ==> Blocks(s[pos..]) == Padded(s[pos..]) + [|s| - pos]
    ensures |s| - pos == 8 ==> Blocks(s[pos + 8..]) == []
  {
    if |s| - pos > 8 {
      assert s[pos..][8..] == s[pos + 8..] && s[pos..][..8] == s[pos..pos + 8];
    }
  }

  lemma NoBlock(s: Key)
    ensures Blocks(s[|s|..]) == []
  {
  }

  /** Reads blocks up to the first that is not full. */
  function ReadBlocks(d: Key): (s: Key)
  {
    if |d| < 9 then []
    else if d[8] == 255 then d[..8] + ReadBlocks(d[9..])
    else d[..if d[8] < 8 then d[8] as int else 8]
  }

  method DecodeVariableStr(data: Key, start: nat) returns (b: Key)
    requires start <= |data|
    ensures b == ReadBlocks(data[start..])
  {
    hide ReadBlocks;
    b := [];
    var pos := start;
    var reading := true;
    while reading && pos + 9 <= |data|
      invariant start <= pos <= |data|
      invariant reading ==> b + ReadBlocks(data[pos..]) == ReadBlocks(data[start..])
      invariant !reading ==> b == ReadBlocks(data[start..])
      decreases reading, |data| - pos
    {
      ReadAt(data, pos);
      var control := data[pos + 8];
      ghost var before := b;
      b := b + data[pos..pos + 8];
      if control != 255 {
        if control < 8 {
          b := b[..|b| - (8 - control as int)];
          assert b == before + data[pos..pos + control as int];
        }
        reading := false;
      } else {
        pos := pos + 9;
      }
    }
    ReadNothing(data, pos);
  }

  lemma ReadAt(d: Key, pos: nat)
    requires pos + 9 <= |d|
    ensures d[pos + 8] == 255 ==> ReadBlocks(d[pos..]) == d[pos..pos + 8] + ReadBlocks(d[pos + 9..])
    ensures d[pos + 8] < 8 ==> ReadBlocks(d[pos..]) == d[pos..pos + d[pos + 8] as int]
    ensures 8 <= d[pos + 8] < 255 ==> ReadBlocks(d[pos..]) == d[pos..pos + 8]
  {
    var t := d[pos..];
    assert t[8] == d[pos + 8] && t[..8] == d[pos..pos + 8] && t[9..] == d[pos + 9..];
    if t[8] < 8 {
      assert t[..t[8] as int] == d[pos..pos + t[8] as int];
    }
  }

  lemma ReadNothing(d: Key, pos: nat)
    requires pos <= |d|
    ensures |d| < pos + 9 ==> ReadBlocks(d[pos..]) == []
  {
  }

  /** A non-empty string decodes to itself whatever bytes follow its encoding. */
  lemma {:induction false} BlocksRoundTrip(s: Key, rest: Key)
    requires s != []
    ensures ReadBlocks(Blocks(s) + rest) == s
    decreases |s|
  {
    var d := Blocks(s) + rest;
    if |s| > 8 {
      assert d[..8] == s[..8] && d[8] == 255 && d[9..] == Blocks(s[8..]) + rest;
      BlocksRoundTrip(s[8..], rest);
      assert s == s[..8] + s[8..];
    } else {
      assert d[..8] == Padded(s) && d[8] == |s|;
      assert d[..|s|] == d[..8][..|s|];
    }
  }

  /** Every string decodes from its encoding alone. */
  lemma ValueRoundTrip(s: Key)
    ensures ReadBlocks(Blocks(s)) == s
  {
    if s != [] {
      BlocksRoundTrip(s, []);
      assert Blocks(s) + [] == Blocks(s);
    }
  }

  /** The empty string is the one string with no block, so what follows is read instead. */
  lemma EmptyReadsOn(rest: Key)
    ensures ReadBlocks(Blocks([]) + rest) == ReadBlocks(rest)
    ensures ReadBlocks(Blocks([]) + (Padded([65]) + [1])) == [65]
  {
    assert [] + rest == rest;
    var d := Padded([65]) + [1];
    assert Blocks([65]) == d && [] + d == d;
    BlocksRoundTrip([65], []);
    assert d + [] == d;
  }

  /** No encoding of a non-empty string is a prefix of another string's. */
  lemma {:induction false} BlocksPrefixFree(a: Key, b: Key)
    requires a != [] && Blocks(a) <= Blocks(b)
    ensures a == b
    decreases |a|
  {
    var rest := Blocks(b)[|Blocks(a)|..];
    assert Blocks(b) == Blocks(a) + rest;
    BlocksRoundTrip(a, rest);
    BlocksRoundTrip(b, []);
    assert Blocks(b) + [] == Blocks(b);
  }

  /** The encoding keeps the lexicographic order, strictly. */
  lemma {:induction false} BlocksMonotone(a: Key, b: Key)
    requires Less(a, b)
    ensures Less(Blocks(a), Blocks(b))
    decreases |a|
  {
    if a == [] {
      assert Blocks(b) != [];
    } else {
      var x, y := First(a), First(b);
      var p, q := Rest(a), Rest(b);
      BlocksSplit(a);
      BlocksSplit(b);
      FirstsOrder(a, b);
      if x == y {
        LessCommonPrefix(x, p, q);
        BlocksMonotone(a[8..], b[8..]);
      } else {
        EqualLengthApart(x, y, p, q);
      }
    }
  }

  /** The first block with its control byte, and the encoding of what follows. */
  function First(s: Key): (x: Key)
    requires s != []
    ensures |x| == 9
  {
    if |s| > 8 then s[..8] + [255] else Padded(s) + [|s|]
  }

  function Rest(s: Key): (x: Key)
    requires s != []
  {
    if |s| > 8 then Blocks(s[8..]) else []
  }

  lemma BlocksSplit(s: Key)
    requires s != []
    ensures Blocks(s) == First(s) + Rest(s)
  {
  }

  /** First blocks are ordered as the strings, or equal and full. */
  lemma FirstsOrder(a: Key, b: Key)
    requires a != [] && Less(a, b)
    ensures b != []
    ensures First(a) == First(b) ==> |a| > 8 && |b| > 8 && Less(a[8..], b[8..])
    ensures First(a) != First(b) ==> Less(First(a), First(b))
  {
    hide Less; hide First;
    var i := FirstDifference(a, b);
    if i < 8 {
      if i < |a| {
        PartsInside(a, b, i);
      } else {
        PaddedBelow(a, b);
      }
      LessIrreflexive(First(a));
    } else if |a| == 8 {
      EndsAtBlock(a, b);
      LessIrreflexive(First(a));
    } else {
      FirstFull(a);
      FirstFull(b);
      assert a[..8] == a[..i][..8] == b[..i][..8] == b[..8];
      assert a == a[..8] + a[8..] && b == b[..8] + b[8..];
      LessCommonPrefix(a[..8], a[8..], b[8..]);
    }
  }

  lemma FirstFull(s: Key)
    requires |s| > 8
    ensures First(s) == s[..8] + [255]
  {
  }

  lemma FirstPrefix(s: Key, i: nat)
    requires s != [] && i <= |s| && i <= 8
    ensures First(s)[..i] == s[..i]
  {
    if |s| <= 8 {
      assert First(s)[..i] == Padded(s)[..i] == s[..i];
    }
  }

  lemma PartsInside(a: Key, b: Key, i: nat)
    requires i < 8 && i < |a| && i < |b| && a[..i] == b[..i] && a[i] < b[i]
    ensures Less(First(a), First(b))
  {
    hide Less; hide First;
    FirstPrefix(a, i);
    FirstPrefix(b, i);
    FirstPrefix(a, i + 1);
    FirstPrefix(b, i + 1);
    assert First(a)[i] == First(a)[..i + 1][i] && First(b)[i] == First(b)[..i + 1][i];
    LessAtDifference(First(a), First(b), i);
  }

  lemma EndsAtBlock(a: Key, b: Key)
    requires |a| == 8 < |b| && a == b[..8]
    ensures Less(First(a), First(b))
  {
    hide Less;
    assert Padded(a) == a;
    var x, y := First(a), First(b);
    assert x[..8] == y[..8];
    LessAtDifference(x, y, 8);
  }

  /** Where two ordered strings part: at a smaller byte, or where the first one ends. */
  lemma {:induction false} FirstDifference(a: Key, b: Key) returns (i: nat)
    requires Less(a, b)
    ensures i <= |a| && i < |b| && a[..i] == b[..i]
    ensures i < |a| ==> a[i] < b[i]
  {
    if a == [] || a[0] < b[0] {
      i := 0;
    } else {
      var j := FirstDifference(a[1..], b[1..]);
      i := j + 1;
      assert a[..i] == [a[0]] + a[1..][..j] && b[..i] == [b[0]] + b[1..][..j];
    }
  }

  /** A string that ends inside its first block comes before its extensions. */
  lemma PaddedBelow(a: Key, b: Key)
    requires a != [] && |a| < 8 && |a| < |b| && a == b[..|a|]
    ensures Less(First(a), First(b))
  {
    var x, y := First(a), First(b);
    var n := if |b| < 8 then |b| else 8;
    ghost var m := ZeroRun(b, |a|, n);
    assert forall j :: 0 <= j < m ==> x[j] == y[j];
    assert x[..m] == y[..m];
    if m < n {
      assert x[m] == 0 && y[m] == b[m];
      LessAtDifference(x, y, m);
    } else {
      assert forall j :: n <= j < 8 ==> x[j] == 0 && y[j] == 0;
      assert x[..8] == y[..8];
      LessAtDifference(x, y, 8);
    }
  }

  /** The zero bytes of b from position i on, up to n. */
  lemma ZeroRun(b: Key, i: nat, n: nat) returns (m: nat)
    requires i <= n <= |b|
    ensures i <= m <= n && (forall j :: i <= j < m ==> b[j] == 0) && (m < n ==> b[m] != 0)
    decreases n - i
  {
    if i == n || b[i] != 0 {
      m := i;
    } else {
      m := ZeroRun(b, i + 1, n);
    }
  }

  /** Encoded strings are ordered exactly as the strings, so the encoding is injective. */
  lemma BlocksOrder(a: Key, b: Key)
    ensures Less(Blocks(a), Blocks(b)) <==> Less(a, b)
    ensures Blocks(a) == Blocks(b) <==> a == b
  {
    hide Less; hide Blocks;
    LessTotal(a, b);
    if Less(a, b) {
      BlocksMonotone(a, b);
      LessAsymmetric(Blocks(a), Blocks(b));
      LessAsymmetric(a, b);
    } else if Less(b, a) {
      BlocksMonotone(b, a);
      LessAsymmetric(Blocks(b), Blocks(a));
      LessAsymmetric(b, a);
    } else {
      LessIrreflexive(a);
      LessIrreflexive(Blocks(a));
    }
  }

  /** Cutting two strings at their first NUL keeps their order as long as the cuts differ. */
  lemma {:induction false} CutCompare(s: Key, t: Key)
    requires s[..FirstNul(s)] != t[..FirstNul(t)]
    ensures Less(s, t) <==> Less(s[..FirstNul(s)], t[..FirstNul(t)])
    decreases |s|
  {
    var a, b := s[..FirstNul(s)], t[..FirstNul(t)];
    if a != [] && b != [] {
      assert a[0] == s[0] && b[0] == t[0];
      assert a[1..] == s[1..][..FirstNul(s[1..])] && b[1..] == t[1..][..FirstNul(t[1..])];
      if s[0] == t[0] {
        assert a == [s[0]] + a[1..] && b == [t[0]] + b[1..];
        CutCompare(s[1..], t[1..]);
      }
    }
  }

  /** Behind their lengths byte strings are ordered by length first. */
  lemma LengthFirst(x: Key, y: Key, n: nat)
    requires |x| < Pow256(n) && |y| < Pow256(n)
    ensures Less(BigEndian(|x|, n) + x, BigEndian(|y|, n) + y) <==> |x| < |y| || (|x| == |y| && Less(x, y))
    ensures BigEndian(|x|, n) + x == BigEndian(|y|, n) + y <==> x == y
  {
    hide BigEndian; hide ReadBig; hide Less; hide Pow256;
    var a, b := BigEndian(|x|, n), BigEndian(|y|, n);
    BigRoundTrip(|x|, n);
    BigRoundTrip(|y|, n);
    OrderIsNumeric(a, b);
    OrderIsNumeric(b, a);
    if |x| == |y| {
      LessCommonPrefix(a, x, y);
      assert (a + x)[n..] == x && (b + y)[n..] == y;
    } else if |x| < |y| {
      EqualLengthApart(a, b, x, y);
    } else {
      EqualLengthApart(b, a, y, x);
    }
  }

  // ---- datoms ----

  datatype Mode = RefMode | VariableMode | BlobMode | FixedMode

  /** The bytes an attribute of a mode stores for a value. */
  ghost predicate Encodes(mode: Mode, v: Key)
  {
    match mode
    case VariableMode => exists s: Key :: v == Blocks(s[..FirstNul(s)])
    case BlobMode => exists data: Key :: |data| < 0x1_0000_0000 && v == BigEndian(|data|, 4) + data
    case _ => |v| == 8
  }

  /** An encoded string that is not empty has neither a zero first byte nor a zero control byte. */
  lemma BlockBytes(s: Key)
    ensures var v := Blocks(s[..FirstNul(s)]); v != [] ==> |v| >= 9 && v[0] != 0 && v[8] != 0
  {
    var cut := s[..FirstNul(s)];
    if cut != [] {
      BlocksSplit(cut);
      FirstPrefix(cut, 1);
      assert First(cut)[0] == First(cut)[..1][0] == cut[0] == s[0];
    }
  }

  /** Within one mode no encoded value is a proper prefix of another, but for the empty string, whose
      encoding is empty. */
  lemma ValuesPrefixFree(mode: Mode, v: Key, w: Key)
    requires Encodes(mode, v) && Encodes(mode, w) && v <= w
    ensures v == w || (mode.VariableMode? && v == [] && |w| >= 9 && w[0] != 0 && w[8] != 0)
  {
    hide BigEndian; hide Blocks;
    match mode
    case VariableMode =>
      var a: Key :| v == Blocks(a[..FirstNul(a)]);
      var b: Key :| w == Blocks(b[..FirstNul(b)]);
      if v == [] {
        BlockBytes(b);
      } else {
        BlocksPrefixFree(a[..FirstNul(a)], b[..FirstNul(b)]);
      }
    case BlobMode =>
      var a: Key :| |a| < 0x1_0000_0000 && v == BigEndian(|a|, 4) + a;
      var b: Key :| |b| < 0x1_0000_0000 && w == BigEndian(|b|, 4) + b;
      BlobLength(a, b);
    case _ =>
  }

  lemma BlobLength(a: Key, b: Key)
    requires |a| < 0x1_0000_0000 && |b| < 0x1_0000_0000
    requires BigEndian(|a|, 4) + a <= BigEndian(|b|, 4) + b
    ensures |a| == |b|
  {
    hide BigEndian; hide ReadBig;
    hide Pow256;
    Pow256Eight();
    SplitHeads(BigEndian(|a|, 4), a, BigEndian(|b|, 4), b);
    BigRoundTrip(|a|, 4);
    BigRoundTrip(|b|, 4);
  }

  /** Heads of one length agree, and so do the tails as far as they go. */
  lemma SplitHeads(x: Key, a: Key, y: Key, b: Key)
    requires |x| == |y| && x + a <= y + b
    ensures x == y && a <= b
  {
    assert x == (x + a)[..|x|] == (y + b)[..|x|] == y;
    assert a == (x + a)[|x|..] && b == (y + b)[|x|..];
  }

  datatype Datom = Datom(eid: int, attr: nat, value: Key)

  datatype IndexEntry = IndexEntry(cf: nat, key: Key)

  predicate WfIds(d: Datom)
  {
    IsInt64(d.eid) && d.attr < 0x1_0000_0000
  }

  /** The part of an index key in front of its version: the entity, attribute and value of the datom
      in the order of the column family. */
  function Logical(cf: nat, d: Datom): (k: Key)
    requires WfIds(d) && cf < 4
    ensures |k| == 12 + |d.value|
  {
    var e, a := EncodeInt(d.eid), BigEndian(d.attr, 4);
    match cf
    case 0 => e + a + d.value
    case 1 => a + e + d.value
    case 2 => a + d.value + e
    case _ => d.value + a + e
  }

  lemma IdsPrefix(d: Datom, e: Datom)
    requires WfIds(d) && WfIds(e)
    ensures EncodeInt(d.eid) == EncodeInt(e.eid) <==> d.eid == e.eid
    ensures BigEndian(d.attr, 4) == BigEndian(e.attr, 4) <==> d.attr == e.attr
  {
    hide EncodeInt; hide BigEndian; hide ReadBig;
    EncodeIntOrder(d.eid, e.eid);
    Pow256Eight();
    BigRoundTrip(d.attr, 4);
    BigRoundTrip(e.attr, 4);
  }

  /** In every column family a logical key that is a prefix of another belongs to the same datom,
      whatever mode each attribute has, or to the empty string of an attribute, and then the other key
      goes on with a byte that is not zero; the reverse index holds references only. */
  lemma LogicalPrefixFree(cf: nat, modes: nat -> Mode, d: Datom, e: Datom)
    requires cf < 4 && WfIds(d) && WfIds(e)
    requires Encodes(modes(d.attr), d.value) && Encodes(modes(e.attr), e.value)
    requires cf == 3 ==> modes(d.attr).RefMode? && modes(e.attr).RefMode?
    requires Logical(cf, d) <= Logical(cf, e)
    ensures d == e || (d.value == [] && |Logical(cf, d)| < |Logical(cf, e)| && Logical(cf, e)[|Logical(cf, d)|] != 0)
  {
    hide EncodeInt; hide BigEndian; hide Encodes;
    IdsPrefix(d, e);
    var ed, ee, ad, ae := EncodeInt(d.eid), EncodeInt(e.eid), BigEndian(d.attr, 4), BigEndian(e.attr, 4);
    match cf {
      case 0 =>
        SplitHeads(ed + ad, d.value, ee + ae, e.value);
        SplitHeads(ed, ad, ee, ae);
        ValuesPrefixFree(modes(d.attr), d.value, e.value);
      case 1 =>
        SplitHeads(ad + ed, d.value, ae + ee, e.value);
        SplitHeads(ad, ed, ae, ee);
        ValuesPrefixFree(modes(d.attr), d.value, e.value);
      case 2 =>
        assert ad + d.value + ed == ad + (d.value + ed) && ae + e.value + ee == ae + (e.value + ee);
        SplitHeads(ad, d.value + ed, ae, e.value + ee);
        PartsAgree(modes(d.attr), d.value, e.value, ed, ee);
      case _ =>
        FixedSize(d.value, e.value, modes(d.attr), modes(e.attr));
        SplitHeads(d.value + ad, ed, e.value + ae, ee);
        SplitHeads(d.value, ad, e.value, ae);
    }
  }

  lemma FixedSize(v: Key, w: Key, m: Mode, n: Mode)
    requires m.RefMode? && n.RefMode? && Encodes(m, v) && Encodes(n, w)
    ensures |v| == |w| == 8
  {
  }

  /** Values followed by fixed-size ids: one inside the other means both are equal, or the first value
      is the empty string and the other one's control byte comes next. */
  lemma PartsAgree(mode: Mode, v: Key, w: Key, x: Key, y: Key)
    requires Encodes(mode, v) && Encodes(mode, w) && |x| == |y| == 8
    requires v + x <= w + y
    ensures (v == w && x == y) || (v == [] && |w| >= 9 && w[8] != 0)
  {
    hide Encodes;
    var a, b := v + x, w + y;
    assert |v| <= |w|;
    assert v == a[..|v|] == b[..|v|] == w[..|v|];
    ValuesPrefixFree(mode, v, w);
    assert x == a[|v|..] && y == b[|w|..];
  }

  // ---- versions of stored datoms ----

  /** Times whose suffix starts with a zero byte. */
  const TIME_LIMIT := 0x80_0000_0000_0000

  const PART_TX := 3

  /** Composes a partition and a sequence number below 2^44. */
  function MakeEntityId(partition: nat, sequence: nat): (eid: nat)
    requires sequence < 0x1000_0000_0000
  {
    partition * 0x1000_0000_0000 + sequence
  }

  /** Versions are timed by transactions, or by attributes when an attribute names itself. */
  lemma TimesInLimit(sequence: nat, attr: nat)
    requires sequence < 0x1000_0000_0000 && attr < 0x1_0000_0000
    ensures MakeEntityId(PART_TX, sequence) < TIME_LIMIT && attr < TIME_LIMIT
  {
  }

  /** The key one write stores for a version of a datom. */
  function VersionKey(cf: nat, d: Datom, t: nat, retracted: bool): (k: Key)
    requires cf < 4 && WfIds(d) && t < TIME_LIMIT
    ensures |k| == |d.value| + 20
  {
    Logical(cf, d) + BigEndian(EncodeSuffix(t, retracted), 8)
  }

  lemma {:induction false} TopByte(v: nat, n: nat)
    requires n > 0 && v < Pow256(n - 1)
    ensures BigEndian(v, n)[0] == 0
  {
    if n > 1 {
      assert v / 256 < Pow256(n - 2);
      TopByte(v / 256, n - 1);
    }
  }

  /** The last byte of a suffix is odd for a retraction. */
  lemma SuffixParity(t: nat, retracted: bool)
    requires t < TIME_LIMIT
    ensures BigEndian(EncodeSuffix(t, retracted), 8)[7] % 2 == if retracted then 1 else 0
  {
    hide BigEndian; hide EncodeSuffix;
    SuffixIs(t, retracted);
    LastByte(EncodeSuffix(t, retracted), 8);
    ByteParity(EncodeSuffix(t, retracted));
    OddOrEven(t, if retracted then 1 else 0);
  }

  lemma SuffixIs(t: nat, retracted: bool)
    requires t < TIME_LIMIT
    ensures EncodeSuffix(t, retracted) == 2 * t + if retracted then 1 else 0
  {
    SuffixValue(t);
  }

  lemma OddOrEven(n: nat, bit: nat)
    requires bit < 2
    ensures (2 * n + bit) % 2 == bit
  {
  }

  lemma ByteParity(n: nat)
    ensures (n % 256) % 2 == n % 2
  {
    assert n == 256 * (n / 256) + n % 256;
  }

  /** The suffix of a time within the limit starts with a zero byte. */
  lemma SuffixStartsZero(t: nat, retracted: bool)
    requires t < TIME_LIMIT
    ensures BigEndian(EncodeSuffix(t, retracted), 8)[0] == 0
  {
    SuffixValue(t);
    assert Pow256(7) == 0x100_0000_0000_0000 by {
      Pow256Eight();
      assert Pow256(8) == 256 * Pow256(7);
    }
    TopByte(EncodeSuffix(t, retracted), 8);
  }

  /** In every column family the keys of different datoms are ordered as their logical keys, the empty
      string included: no version of one datom lies between two versions of another. */
  lemma VersionsByDatom(cf: nat, modes: nat -> Mode, d: Datom, t: nat, r: bool, e: Datom, u: nat, q: bool)
    requires cf < 4 && WfIds(d) && WfIds(e) && t < TIME_LIMIT && u < TIME_LIMIT && d != e
    requires Encodes(modes(d.attr), d.value) && Encodes(modes(e.attr), e.value)
    requires cf == 3 ==> modes(d.attr).RefMode? && modes(e.attr).RefMode?
    ensures Less(VersionKey(cf, d, t, r), VersionKey(cf, e, u, q)) <==> Less(Logical(cf, d), Logical(cf, e))
    ensures Logical(cf, d) != Logical(cf, e)
  {
    hide Logical; hide BigEndian; hide Less; hide Encodes;
    var a, b := Logical(cf, d), Logical(cf, e);
    var x, y := BigEndian(EncodeSuffix(t, r), 8), BigEndian(EncodeSuffix(u, q), 8);
    if a <= b {
      LogicalPrefixFree(cf, modes, d, e);
      SuffixStartsZero(t, r);
      VersionBelow(a, x, b, y);
    } else if b <= a {
      LogicalPrefixFree(cf, modes, e, d);
      SuffixStartsZero(u, q);
      VersionBelow(b, y, a, x);
    } else {
      LessExtend(a, b, x, y);
    }
  }

  /** A version stays below a longer key that goes on with a byte that is not zero. */
  lemma VersionBelow(a: Key, x: Key, b: Key, y: Key)
    requires a <= b && |a| < |b| && b[|a|] != 0 && x != [] && x[0] == 0
    ensures Less(a, b) && Less(a + x, b + y) && !Less(b, a) && !Less(b + y, a + x)
  {
    hide Less;
    PrefixLess(a, b);
    var rest := b[|a|..] + y;
    assert b + y == a + rest;
    LessAtDifference(x, rest, 0);
    LessCommonPrefix(a, x, rest);
    LessAsymmetric(a, b);
    LessAsymmetric(a + x, b + y);
  }

  // ---- index entries ----

  /** The keys one write stores: every column family the datom belongs to. */
  function BuildEntries(d: Datom, sf: nat, isRef: bool, indexed: bool): (out: seq<IndexEntry>)
    requires WfIds(d)
  {
    var s := BigEndian(sf, 8);
    [IndexEntry(0, Logical(0, d) + s), IndexEntry(1, Logical(1, d) + s)]
    + (if isRef then [IndexEntry(3, Logical(3, d) + s)] else [])
    + (if indexed then [IndexEntry(2, Logical(2, d) + s)] else [])
  }

  /** Reshuffles a datom key into its derived index keys. */
  function DeriveIndexKeys(k: Key, indexed: bool, isRef: bool): (out: seq<IndexEntry>)
  {
    if |k| < 20 then []
    else
      var a, n := BigEndian(ReadBig(k[8..12]), 4), |k| - 8;
      [IndexEntry(1, a + k[..8] + k[12..])]
      + (if indexed then [IndexEntry(2, a + k[12..n] + k[..8] + k[n..])] else [])
      + (if isRef then [IndexEntry(3, k[12..n] + a + k[..8] + k[n..])] else [])
  }

  lemma {:induction false} ReadWrite(s: Key)
    ensures BigEndian(ReadBig(s), |s|) == s
  {
    if s != [] {
      var n := |s| - 1;
      ReadWrite(s[..n]);
      assert (ReadBig(s[..n]) * 256 + s[n]) / 256 == ReadBig(s[..n]);
      assert s == s[..n] + [s[n]];
    }
  }

  /** Deriving from the datom key alone gives back exactly the index keys the write stored. */
  lemma DerivedAreStored(d: Datom, sf: nat, isRef: bool, indexed: bool)
    requires WfIds(d)
    ensures
      var stored := BuildEntries(d, sf, isRef, indexed);
      Elems(stored) == {stored[0]} + Elems(DeriveIndexKeys(stored[0].key, indexed, isRef))
  {
    hide BigEndian; hide EncodeInt;
    var s, v := BigEndian(sf, 8), d.value;
    var e, a := EncodeInt(d.eid), BigEndian(d.attr, 4);
    var k := Logical(0, d) + s;
    var n := |k| - 8;
    ReadWrite(k[8..12]);
    assert k[..8] == e && k[8..12] == a && k[12..n] == v && k[n..] == s && k[12..] == v + s;
    assert Logical(1, d) + s == a + e + (v + s);
    assert Logical(2, d) + s == a + v + e + s && Logical(3, d) + s == v + a + e + s;
    var stored, derived := BuildEntries(d, sf, isRef, indexed), DeriveIndexKeys(k, indexed, isRef);
    assert stored[0] == IndexEntry(0, k);
    SameEntries(IndexEntry(0, k), IndexEntry(1, Logical(1, d) + s), IndexEntry(2, Logical(2, d) + s),
                IndexEntry(3, Logical(3, d) + s), isRef, indexed);
  }

  lemma SameEntries(x0: IndexEntry, x1: IndexEntry, x2: IndexEntry, x3: IndexEntry, isRef: bool, indexed: bool)
    ensures
      var two := if indexed then [x2] else [];
      var three := if isRef then [x3] else [];
      Elems([x0, x1] + three + two) == {x0} + Elems([x1] + two + three)
  {
  }
}
