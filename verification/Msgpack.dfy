/** The MessagePack codec of the wire ("Formats" section of the MessagePack specification), and the
    splicing of a pair into an encoded map without decoding it. */
module Msgpack {
  import opened Bytes
  import opened Keys
  import opened MachineInts

  /** `Single` is what a single-precision float on the wire decodes to; the encoder writes doubles. */
  datatype Value =
    | Nil
    | Bool(b: bool)
    | Int(i: int)
    | Float(bits: nat)
    | Single(bits: nat)
    | Str(s: Key)
    | Bin(bs: Key)
    | Array(items: Values)
    | Map(pairs: Pairs)
    | Ext(ty: int, data: Key)

  datatype Values = NoValues | Values(head: Value, tail: Values)

  datatype Pairs = NoPairs | Pairs(key: Value, value: Value, tail: Pairs)

  function Count(vs: Values): (n: nat)
  {
    if vs.NoValues? then 0 else 1 + Count(vs.tail)
  }

  function CountPairs(ps: Pairs): (n: nat)
  {
    if ps.NoPairs? then 0 else 1 + CountPairs(ps.tail)
  }

  // ---- headers ----

  /** What the first bytes of an encoding announce, and the bytes behind them. */
  datatype Header =
    | Scalar(v: Value, rest: Key)
    | StrHeader(n: nat, rest: Key)
    | BinHeader(n: nat, rest: Key)
    | ExtHeader(n: nat, rest: Key)
    | ArrayHeader(n: nat, rest: Key)
    | MapHeader(n: nat, rest: Key)
    | BadHeader

  function Signed(n: nat, width: nat): (i: int)
  {
    if n >= Pow256(width) / 2 then n - Pow256(width) else n
  }

  /** An unsigned number of k bytes behind the first byte. */
  function Field(d: Key, k: nat): (n: nat)
    requires |d| >= 1 + k
  {
    ReadBig(d[1..1 + k])
  }

  /** How many bytes the number behind a first byte takes. */
  function FieldSize(b: byte): (k: nat)
  {
    if b in {0xc4, 0xc7, 0xcc, 0xd0, 0xd9} then 1
    else if b in {0xc5, 0xc8, 0xcd, 0xd1, 0xda, 0xdc, 0xde} then 2
    else if b in {0xc6, 0xc9, 0xca, 0xce, 0xd2, 0xdb, 0xdd, 0xdf} then 4
    else if b in {0xcb, 0xcf, 0xd3} then 8
    else 0
  }

  function Head(d: Key): (h: Header)
    ensures !h.BadHeader? ==> d != [] && |h.rest| < |d|
  {
    if d == [] then BadHeader
    else
      var b, r := d[0], d[1..];
      if b <= 0x7f then Scalar(Int(b), r)
      else if b >= 0xe0 then Scalar(Int(b as int - 256), r)
      else if 0x90 <= b <= 0x9f then ArrayHeader(b - 0x90, r)
      else if 0xa0 <= b <= 0xbf then StrHeader(b - 0xa0, r)
      else if 0x80 <= b <= 0x8f then MapHeader(b - 0x80, r)
      else Tagged(b, d)
  }

  function Tagged(b: byte, d: Key): (h: Header)
    requires d != []
    ensures !h.BadHeader? ==> |h.rest| < |d|
  {
    var k := FieldSize(b);
    if |d| < 1 + k then BadHeader
    else
      var n, r := Field(d, k), d[1 + k..];
      if b == 0xc0 then Scalar(Nil, r)
      else if b == 0xc2 then Scalar(Bool(false), r)
      else if b == 0xc3 then Scalar(Bool(true), r)
      else if b in {0xc4, 0xc5, 0xc6} then BinHeader(n, r)
      else if b in {0xc7, 0xc8, 0xc9} then ExtHeader(n, r)
      else if b == 0xca then Scalar(Single(n), r)
      else if b == 0xcb then Scalar(Float(n), r)
      else if b in {0xcc, 0xcd, 0xce} then Scalar(Int(n), r)
      else if b == 0xcf then Scalar(Int(Signed(n, 8)), r)
      else if b in {0xd0, 0xd1, 0xd2, 0xd3} then Scalar(Int(Signed(n, k)), r)
      else if 0xd4 <= b <= 0xd8 then ExtHeader(FixExt(b), r)
      else if b in {0xd9, 0xda, 0xdb} then StrHeader(n, r)
      else if b in {0xdc, 0xdd} then ArrayHeader(n, r)
      else if b in {0xde, 0xdf} then MapHeader(n, r)
      else BadHeader
  }

  function FixExt(b: byte): (n: nat)
  {
    if b == 0xd4 then 1 else if b == 0xd5 then 2 else if b == 0xd6 then 4 else if b == 0xd7 then 8 else 16
  }

  function WithRest(h: Header, rest: Key): (r: Header)
  {
    match h
    case Scalar(v, _) => Scalar(v, rest)
    case StrHeader(n, _) => StrHeader(n, rest)
    case BinHeader(n, _) => BinHeader(n, rest)
    case ExtHeader(n, _) => ExtHeader(n, rest)
    case ArrayHeader(n, _) => ArrayHeader(n, rest)
    case MapHeader(n, _) => MapHeader(n, rest)
    case BadHeader => BadHeader
  }

  /** More bytes at the end do not change what was announced. */
  lemma HeadExtends(d: Key, x: Key)
    requires !Head(d).BadHeader?
    ensures Head(d + x) == WithRest(Head(d), Head(d).rest + x)
  {
    hide ReadBig; hide Signed; hide FixExt; hide Pow256;
    var b := d[0];
    assert (d + x)[0] == b && (d + x)[1..] == d[1..] + x;
    if 0xc0 <= b <= 0xdf {
      var k := FieldSize(b);
      assert (d + x)[1..1 + k] == d[1..1 + k] && (d + x)[1 + k..] == d[1 + k..] + x;
    }
  }

  // ---- decoding ----

  datatype Decoded<T> = Ok(v: T, rest: Key) | Err

  function Decode(d: Key): (r: Decoded<Value>)
    ensures r.Ok? ==> |r.rest| < |d|
    decreases |d|, 0
  {
    match Head(d)
    case Scalar(v, rest) => Ok(v, rest)
    case StrHeader(n, rest) => if n > |rest| then Err else Ok(Str(rest[..n]), rest[n..])
    case BinHeader(n, rest) => if n > |rest| then Err else Ok(Bin(rest[..n]), rest[n..])
    case ExtHeader(n, rest) =>
      if 1 + n > |rest| then Err else Ok(Ext(rest[0], rest[1..1 + n]), rest[1 + n..])
    case ArrayHeader(n, rest) =>
      var r := DecodeItems(n, rest);
      if r.Err? then Err else Ok(Array(r.v), r.rest)
    case MapHeader(n, rest) =>
      var r := DecodePairs(n, rest);
      if r.Err? then Err else Ok(Map(r.v), r.rest)
    case BadHeader => Err
  }

  function DecodeItems(n: nat, d: Key): (r: Decoded<Values>)
    ensures r.Ok? ==> |r.rest| <= |d| && Count(r.v) == n
    decreases |d|, 1
  {
    if n == 0 then Ok(NoValues, d)
    else
      var a := Decode(d);
      if a.Err? then Err
      else
        var b := DecodeItems(n - 1, a.rest);
        if b.Err? then Err else Ok(Values(a.v, b.v), b.rest)
  }

  function DecodePairs(n: nat, d: Key): (r: Decoded<Pairs>)
    ensures r.Ok? ==> |r.rest| <= |d| && CountPairs(r.v) == n
    decreases |d|, 1
  {
    if n == 0 then Ok(NoPairs, d)
    else
      var k := Decode(d);
      if k.Err? then Err
      else
        var v := Decode(k.rest);
        if v.Err? then Err
        else
          var b := DecodePairs(n - 1, v.rest);
          if b.Err? then Err else Ok(Pairs(k.v, v.v, b.v), b.rest)
  }

  /** One value and nothing behind it. */
  function Unmarshal(d: Key): (r: Decoded<Value>)
  {
    var r := Decode(d);
    if r.Ok? && r.rest == [] then r else Err
  }

  /** Decoding reads no further than the value: more bytes at the end are left over. */
  lemma {:induction false} DecodeExtends(d: Key, x: Key)
    requires Decode(d).Ok?
    ensures Decode(d + x) == Ok(Decode(d).v, Decode(d).rest + x)
    decreases |d|, 0
  {
    hide Head;
    HeadExtends(d, x);
    var h := Head(d);
    match h
    case StrHeader(n, rest) => SliceExtends(rest, x, 0, n);
    case BinHeader(n, rest) => SliceExtends(rest, x, 0, n);
    case ExtHeader(n, rest) => SliceExtends(rest, x, 1, 1 + n);
    case ArrayHeader(n, rest) => ItemsExtend(n, rest, x);
    case MapHeader(n, rest) => PairsExtend(n, rest, x);
    case _ =>
  }

  lemma SliceExtends(d: Key, x: Key, i: nat, j: nat)
    requires i <= j <= |d|
    ensures (d + x)[i..j] == d[i..j] && (d + x)[j..] == d[j..] + x
    ensures i < |d| ==> (d + x)[i] == d[i]
    ensures |d| > 0 ==> (d + x)[0] == d[0]
  {
  }

  lemma {:induction false} ItemsExtend(n: nat, d: Key, x: Key)
    requires DecodeItems(n, d).Ok?
    ensures DecodeItems(n, d + x) == Ok(DecodeItems(n, d).v, DecodeItems(n, d).rest + x)
    decreases |d|, 1
  {
    hide Decode;
    if n > 0 {
      DecodeExtends(d, x);
      ItemsExtend(n - 1, Decode(d).rest, x);
    }
  }

  lemma {:induction false} PairsExtend(n: nat, d: Key, x: Key)
    requires DecodePairs(n, d).Ok?
    ensures DecodePairs(n, d + x) == Ok(DecodePairs(n, d).v, DecodePairs(n, d).rest + x)
    decreases |d|, 1
  {
    hide Decode;
    if n > 0 {
      DecodeExtends(d, x);
      var k := Decode(d);
      DecodeExtends(k.rest, x);
      PairsExtend(n - 1, Decode(k.rest).rest, x);
    }
  }

  // ---- encoding ----

  function IntBytes(v: int): (s: Key)
    requires IsInt64(v)
  {
    if 0 <= v <= 0x7f then [v]
    else if -32 <= v < 0 then [v + 256]
    else if 0 <= v <= 0xff then [0xcc] + BigEndian(v, 1)
    else if -128 <= v < 0 then [0xd0] + BigEndian(v + 0x100, 1)
    else if 0 <= v <= 0xffff then [0xcd] + BigEndian(v, 2)
    else if -32768 <= v < 0 then [0xd1] + BigEndian(v + 0x1_0000, 2)
    else if 0 <= v <= 0xffff_ffff then [0xce] + BigEndian(v, 4)
    else if -0x8000_0000 <= v < 0 then [0xd2] + BigEndian(v + TWO_32, 4)
    else [0xd3] + BigEndian(if v < 0 then v + TWO_64 else v, 8)
  }

  /** One of three first bytes and the length behind it in one, two or four bytes. */
  function LenBytes(n: nat, one: byte, two: byte, four: byte): (s: Key)
    requires n < TWO_32
  {
    if n <= 0xff then [one] + BigEndian(n, 1) else WideBytes(n, two, four)
  }

  function WideBytes(n: nat, two: byte, four: byte): (s: Key)
    requires n < TWO_32
  {
    if n <= 0xffff then [two] + BigEndian(n, 2) else [four] + BigEndian(n, 4)
  }

  function StrBytes(n: nat): (s: Key)
    requires n < TWO_32
  {
    if n <= 31 then [0xa0 + n] else LenBytes(n, 0xd9, 0xda, 0xdb)
  }

  function BinBytes(n: nat): (s: Key)
    requires n < TWO_32
  {
    LenBytes(n, 0xc4, 0xc5, 0xc6)
  }

  function ArrayBytes(n: nat): (s: Key)
    requires n < TWO_32
  {
    if n <= 15 then [0x90 + n] else WideBytes(n, 0xdc, 0xdd)
  }

  function MapBytes(n: nat): (s: Key)
    requires n < TWO_32
  {
    if n <= 15 then [0x80 + n] else WideBytes(n, 0xde, 0xdf)
  }

  function ExtBytes(n: nat): (s: Key)
    requires n < TWO_32
  {
    if n == 1 then [0xd4] else if n == 2 then [0xd5] else if n == 4 then [0xd6]
    else if n == 8 then [0xd7] else if n == 16 then [0xd8]
    else LenBytes(n, 0xc7, 0xc8, 0xc9)
  }

  /** The values the wire can carry. */
  predicate Wf(v: Value)
  {
    match v
    case Int(i) => IsInt64(i)
    case Float(bits) => bits < TWO_64
    case Single(_) => false
    case Str(s) => |s| < TWO_32
    case Bin(bs) => |bs| < TWO_32
    case Array(items) => Count(items) < TWO_32 && AllWf(items)
    case Map(pairs) => CountPairs(pairs) < TWO_32 && PairsWf(pairs)
    case Ext(ty, data) => 0 <= ty < 256 && |data| < TWO_32
    case _ => true
  }

  predicate AllWf(vs: Values)
  {
    vs.Values? ==> Wf(vs.head) && AllWf(vs.tail)
  }

  predicate PairsWf(ps: Pairs)
  {
    ps.Pairs? ==> Wf(ps.key) && Wf(ps.value) && PairsWf(ps.tail)
  }

  function Encode(v: Value): (s: Key)
    requires Wf(v)
  {
    match v
    case Nil => [0xc0]
    case Bool(b) => [if b then 0xc3 else 0xc2]
    case Int(i) => IntBytes(i)
    case Float(bits) => [0xcb] + BigEndian(bits, 8)
    case Str(s) => StrBytes(|s|) + s
    case Bin(bs) => BinBytes(|bs|) + bs
    case Array(items) => ArrayBytes(Count(items)) + EncodeItems(items)
    case Map(pairs) => MapBytes(CountPairs(pairs)) + EncodePairs(pairs)
    case Ext(ty, data) => ExtBytes(|data|) + [ty] + data
  }

  function EncodeItems(vs: Values): (s: Key)
    requires AllWf(vs)
  {
    if vs.NoValues? then [] else Encode(vs.head) + EncodeItems(vs.tail)
  }

  function EncodePairs(ps: Pairs): (s: Key)
    requires PairsWf(ps)
  {
    if ps.NoPairs? then [] else Encode(ps.key) + Encode(ps.value) + EncodePairs(ps.tail)
  }

  // ---- decoding undoes encoding ----

  lemma FieldReads(b: byte, n: nat, k: nat, rest: Key)
    requires n < Pow256(k)
    ensures
      var d := [b] + BigEndian(n, k) + rest;
      d[0] == b && |d| >= 1 + k && Field(d, k) == n && d[1 + k..] == rest
  {
    hide BigEndian; hide ReadBig; hide Pow256;
    var d := [b] + BigEndian(n, k) + rest;
    assert d[1..1 + k] == BigEndian(n, k);
    BigRoundTrip(n, k);
  }

  lemma Widths()
    ensures Pow256(1) == 0x100 && Pow256(2) == 0x1_0000 && Pow256(4) == TWO_32 && Pow256(8) == TWO_64
  {
    Pow256Eight();
    assert Pow256(1) == 256 && Pow256(2) == 65536;
  }

  lemma IntHead(v: int, rest: Key)
    requires IsInt64(v)
    ensures Head(IntBytes(v) + rest) == Scalar(Int(v), rest)
  {
    hide BigEndian; hide ReadBig; hide Pow256; hide Field;
    Widths();
    var d := IntBytes(v) + rest;
    if -32 <= v <= 0x7f {
      assert d[1..] == rest;
    } else if 0 <= v <= 0xff {
      FieldReads(0xcc, v, 1, rest);
    } else if -128 <= v < 0 {
      FieldReads(0xd0, v + 0x100, 1, rest);
    } else if 0 <= v <= 0xffff {
      FieldReads(0xcd, v, 2, rest);
    } else if -32768 <= v < 0 {
      FieldReads(0xd1, v + 0x1_0000, 2, rest);
    } else if 0 <= v <= 0xffff_ffff {
      FieldReads(0xce, v, 4, rest);
    } else if -0x8000_0000 <= v < 0 {
      FieldReads(0xd2, v + TWO_32, 4, rest);
    } else {
      FieldReads(0xd3, if v < 0 then v + TWO_64 else v, 8, rest);
    }
  }

  lemma StrHead(n: nat, rest: Key)
    requires n < TWO_32
    ensures Head(StrBytes(n) + rest) == StrHeader(n, rest)
  {
    hide BigEndian; hide ReadBig; hide Pow256; hide Field;
    Widths();
    if n < 32 {
      var d := [0xa0 + n] + rest;
      assert d[1..] == rest;
    } else if n <= 0xff {
      FieldReads(0xd9, n, 1, rest);
    } else if n <= 0xffff {
      FieldReads(0xda, n, 2, rest);
    } else {
      FieldReads(0xdb, n, 4, rest);
    }
  }

  lemma BinHead(n: nat, rest: Key)
    requires n < TWO_32
    ensures Head(BinBytes(n) + rest) == BinHeader(n, rest)
  {
    hide BigEndian; hide ReadBig; hide Pow256; hide Field;
    Widths();
    if n <= 0xff {
      FieldReads(0xc4, n, 1, rest);
    } else if n <= 0xffff {
      FieldReads(0xc5, n, 2, rest);
    } else {
      FieldReads(0xc6, n, 4, rest);
    }
  }

  lemma ArrayHead(n: nat, rest: Key)
    requires n < TWO_32
    ensures Head(ArrayBytes(n) + rest) == ArrayHeader(n, rest)
  {
    hide BigEndian; hide ReadBig; hide Pow256; hide Field;
    Widths();
    if n < 16 {
      var d := [0x90 + n] + rest;
      assert d[1..] == rest;
    } else if n <= 0xffff {
      FieldReads(0xdc, n, 2, rest);
    } else {
      FieldReads(0xdd, n, 4, rest);
    }
  }

  lemma MapHead(n: nat, rest: Key)
    requires n < TWO_32
    ensures Head(MapBytes(n) + rest) == MapHeader(n, rest)
  {
    hide BigEndian; hide ReadBig; hide Pow256; hide Field;
    Widths();
    if n < 16 {
      var d := [0x80 + n] + rest;
      assert d[1..] == rest;
    } else if n <= 0xffff {
      FieldReads(0xde, n, 2, rest);
    } else {
      FieldReads(0xdf, n, 4, rest);
    }
  }

  lemma ExtHead(n: nat, rest: Key)
    requires n < TWO_32
    ensures Head(ExtBytes(n) + rest) == ExtHeader(n, rest)
  {
    hide BigEndian; hide ReadBig; hide Pow256;
    Widths();
    if n in {1, 2, 4, 8, 16} {
      var d := ExtBytes(n) + rest;
      assert d[1..] == rest && d[1..1] == [];
    } else if n <= 0xff {
      FieldReads(0xc7, n, 1, rest);
    } else if n <= 0xffff {
      FieldReads(0xc8, n, 2, rest);
    } else {
      FieldReads(0xc9, n, 4, rest);
    }
  }

  /** Every value comes back from its encoding, with whatever follows left over. */
  lemma {:induction false} RoundTrip(v: Value, rest: Key)
    requires Wf(v)
    ensures Decode(Encode(v) + rest) == Ok(v, rest)
    decreases v, 1
  {
    hide Head; hide IntBytes; hide StrBytes; hide BinBytes; hide ArrayBytes; hide MapBytes; hide ExtBytes;
    hide BigEndian;
    match v
    case Array(items) =>
      ArrayHead(Count(items), EncodeItems(items) + rest);
      assert Encode(v) + rest == ArrayBytes(Count(items)) + (EncodeItems(items) + rest);
      ItemsRoundTrip(items, rest);
    case Map(pairs) =>
      MapHead(CountPairs(pairs), EncodePairs(pairs) + rest);
      assert Encode(v) + rest == MapBytes(CountPairs(pairs)) + (EncodePairs(pairs) + rest);
      PairsRoundTrip(pairs, rest);
    case _ => LeafRoundTrip(v, rest);
  }

  lemma LeafRoundTrip(v: Value, rest: Key)
    requires Wf(v) && !v.Array? && !v.Map?
    ensures Decode(Encode(v) + rest) == Ok(v, rest)
  {
    hide Head; hide IntBytes; hide StrBytes; hide BinBytes; hide ExtBytes; hide BigEndian;
    match v
    case Nil => PlainHeads(rest);
    case Bool(b) => PlainHeads(rest);
    case Int(i) => IntHead(i, rest);
    case Float(bits) => FloatHead(bits, rest);
    case Str(s) =>
      StrHead(|s|, s + rest);
      assert Encode(v) + rest == StrBytes(|s|) + (s + rest);
    case Bin(bs) =>
      BinHead(|bs|, bs + rest);
      assert Encode(v) + rest == BinBytes(|bs|) + (bs + rest);
    case Ext(ty, data) =>
      var body := [ty] + data + rest;
      ExtHead(|data|, body);
      assert Encode(v) + rest == ExtBytes(|data|) + body;
      assert body[0] == ty && body[1..1 + |data|] == data && body[1 + |data|..] == rest;
  }

  lemma PlainHeads(rest: Key)
    ensures Head([0xc0] + rest) == Scalar(Nil, rest)
    ensures Head([0xc2] + rest) == Scalar(Bool(false), rest) && Head([0xc3] + rest) == Scalar(Bool(true), rest)
  {
    var a: Key, b: Key, c: Key := [0xc0] + rest, [0xc2] + rest, [0xc3] + rest;
    assert a[1..] == rest && b[1..] == rest && c[1..] == rest;
  }

  lemma FloatHead(bits: nat, rest: Key)
    requires bits < TWO_64
    ensures Head([0xcb] + BigEndian(bits, 8) + rest) == Scalar(Float(bits), rest)
  {
    hide BigEndian; hide ReadBig; hide Pow256; hide Field;
    Widths();
    FieldReads(0xcb, bits, 8, rest);
  }

  lemma {:induction false} ItemsRoundTrip(vs: Values, rest: Key)
    requires AllWf(vs)
    ensures DecodeItems(Count(vs), EncodeItems(vs) + rest) == Ok(vs, rest)
    decreases vs, 0
  {
    hide Decode; hide Encode;
    if vs.NoValues? {
      assert [] + rest == rest;
    } else {
      var tail := EncodeItems(vs.tail) + rest;
      assert EncodeItems(vs) + rest == Encode(vs.head) + tail;
      RoundTrip(vs.head, tail);
      ItemsRoundTrip(vs.tail, rest);
    }
  }

  lemma {:induction false} PairsRoundTrip(ps: Pairs, rest: Key)
    requires PairsWf(ps)
    ensures DecodePairs(CountPairs(ps), EncodePairs(ps) + rest) == Ok(ps, rest)
    decreases ps, 0
  {
    hide Decode; hide Encode;
    if ps.NoPairs? {
      assert [] + rest == rest;
    } else {
      var tail := EncodePairs(ps.tail) + rest;
      assert EncodePairs(ps) + rest == Encode(ps.key) + (Encode(ps.value) + tail);
      RoundTrip(ps.key, Encode(ps.value) + tail);
      RoundTrip(ps.value, tail);
      PairsRoundTrip(ps.tail, rest);
    }
  }

  /** Unmarshalling a marshalled value gives the value. */
  lemma MarshalRoundTrip(v: Value)
    requires Wf(v)
    ensures Unmarshal(Encode(v)) == Ok(v, [])
  {
    hide Decode; hide Encode;
    RoundTrip(v, []);
    assert Encode(v) + [] == Encode(v);
  }

  // ---- every spelling of every value ----

  /** A first byte and a big-endian number of k bytes behind it. */
  ghost predicate WithField(p: Key, b: byte, n: int, k: nat)
  {
    0 <= n < Pow256(k) && p == [b] + BigEndian(n, k)
  }

  /** A length in one, two or four bytes, however small it is. */
  ghost predicate SpellsLen(p: Key, n: nat, one: byte, two: byte, four: byte)
  {
    WithField(p, one, n, 1) || WithField(p, two, n, 2) || WithField(p, four, n, 4)
  }

  /** The ways to spell an integer: in its first byte, as an unsigned number of any width that holds it, or as
      the two's complement of any such width; the widest unsigned form carries the two's complement too. */
  ghost predicate SpellsInt(p: Key, i: int)
  {
    || (0 <= i < 128 && p == [i]) || (-32 <= i < 0 && p == [i + 256])
    || WithField(p, 0xcc, i, 1) || WithField(p, 0xcd, i, 2) || WithField(p, 0xce, i, 4)
    || (-128 <= i < 128 && WithField(p, 0xd0, i % 0x100, 1))
    || (-32768 <= i < 32768 && WithField(p, 0xd1, i % 0x1_0000, 2))
    || (-0x8000_0000 <= i < 0x8000_0000 && WithField(p, 0xd2, i % TWO_32, 4))
    || (IsInt64(i) && (WithField(p, 0xcf, i % TWO_64, 8) || WithField(p, 0xd3, i % TWO_64, 8)))
  }

  /** The bytes that announce a header, from the table of formats read by value. */
  ghost predicate Announces(p: Key, h: Header)
  {
    match h
    case Scalar(v, _) =>
      (match v
       case Nil => p == [0xc0]
       case Bool(b) => p == [if b then 0xc3 else 0xc2]
       case Int(i) => SpellsInt(p, i)
       case Float(bits) => WithField(p, 0xcb, bits, 8)
       case Single(bits) => WithField(p, 0xca, bits, 4)
       case _ => false)
    case StrHeader(n, _) => (n < 32 && p == [0xa0 + n]) || SpellsLen(p, n, 0xd9, 0xda, 0xdb)
    case BinHeader(n, _) => SpellsLen(p, n, 0xc4, 0xc5, 0xc6)
    case ExtHeader(n, _) =>
      || (n == 1 && p == [0xd4]) || (n == 2 && p == [0xd5]) || (n == 4 && p == [0xd6])
      || (n == 8 && p == [0xd7]) || (n == 16 && p == [0xd8])
      || SpellsLen(p, n, 0xc7, 0xc8, 0xc9)
    case ArrayHeader(n, _) => (n < 16 && p == [0x90 + n]) || WithField(p, 0xdc, n, 2) || WithField(p, 0xdd, n, 4)
    case MapHeader(n, _) => (n < 16 && p == [0x80 + n]) || WithField(p, 0xde, n, 2) || WithField(p, 0xdf, n, 4)
    case BadHeader => false
  }

  lemma FieldTagged(p: Key, b: byte, n: int, k: nat, rest: Key)
    requires WithField(p, b, n, k) && 0xc0 <= b <= 0xdf && FieldSize(b) == k
    ensures Head(p + rest) == Tagged(b, p + rest) && |p + rest| >= 1 + k
    ensures Field(p + rest, k) == n && (p + rest)[1 + k..] == rest
  {
    hide BigEndian; hide ReadBig; hide Pow256; hide Field; hide Tagged;
    FieldReads(b, n, k, rest);
  }

  lemma OneByte(b: byte, rest: Key)
    ensures ([b] + rest)[0] == b && ([b] + rest)[1..] == rest
  {
  }

  /** Every announcement is read as what it announces, whatever follows. */
  lemma HeadReads(p: Key, h: Header, rest: Key)
    requires Announces(p, h)
    ensures Head(p + rest) == WithRest(h, rest)
  {
    hide BigEndian; hide ReadBig; hide Field; hide SpellsInt; hide SpellsLen; hide WithField; hide Signed;
    match h
    case Scalar(v, _) =>
      if v.Int? {
        IntReads(p, v.i, rest);
      } else if v.Float? {
        FieldTagged(p, 0xcb, v.bits, 8, rest);
      } else if v.Single? {
        FieldTagged(p, 0xca, v.bits, 4, rest);
      } else {
        PlainHeads(rest);
      }
    case StrHeader(n, _) =>
      if n < 32 && p == [0xa0 + n] { OneByte(0xa0 + n, rest); } else { LenReads(p, n, 0xd9, 0xda, 0xdb, rest); }
    case BinHeader(n, _) => LenReads(p, n, 0xc4, 0xc5, 0xc6, rest);
    case ExtHeader(n, _) => ExtReads(p, n, rest);
    case ArrayHeader(n, _) =>
      if n < 16 && p == [0x90 + n] { OneByte(0x90 + n, rest); } else { WideReads(p, n, 0xdc, 0xdd, rest); }
    case MapHeader(n, _) =>
      if n < 16 && p == [0x80 + n] { OneByte(0x80 + n, rest); } else { WideReads(p, n, 0xde, 0xdf, rest); }
  }

  lemma LenReads(p: Key, n: nat, one: byte, two: byte, four: byte, rest: Key)
    requires SpellsLen(p, n, one, two, four)
    requires (one, two, four) in {(0xd9, 0xda, 0xdb), (0xc4, 0xc5, 0xc6), (0xc7, 0xc8, 0xc9)}
    ensures Head(p + rest)
      == if one == 0xd9 then StrHeader(n, rest) else if one == 0xc4 then BinHeader(n, rest) else ExtHeader(n, rest)
  {
    hide BigEndian; hide ReadBig; hide Field; hide WithField; hide Signed; hide Head;
    if WithField(p, one, n, 1) {
      FieldTagged(p, one, n, 1, rest);
    } else if WithField(p, two, n, 2) {
      FieldTagged(p, two, n, 2, rest);
    } else {
      FieldTagged(p, four, n, 4, rest);
    }
  }

  lemma WideReads(p: Key, n: nat, two: byte, four: byte, rest: Key)
    requires WithField(p, two, n, 2) || WithField(p, four, n, 4)
    requires (two, four) in {(0xdc, 0xdd), (0xde, 0xdf)}
    ensures Head(p + rest) == if two == 0xdc then ArrayHeader(n, rest) else MapHeader(n, rest)
  {
    hide BigEndian; hide ReadBig; hide Field; hide WithField; hide Signed; hide Head;
    if WithField(p, two, n, 2) {
      FieldTagged(p, two, n, 2, rest);
    } else {
      FieldTagged(p, four, n, 4, rest);
    }
  }

  lemma ExtReads(p: Key, n: nat, rest: Key)
    requires Announces(p, ExtHeader(n, []))
    ensures Head(p + rest) == ExtHeader(n, rest)
  {
    hide BigEndian; hide ReadBig; hide SpellsLen; hide Signed;
    if n == 1 && p == [0xd4] {
      OneByte(0xd4, rest);
    } else if n == 2 && p == [0xd5] {
      OneByte(0xd5, rest);
    } else if n == 4 && p == [0xd6] {
      OneByte(0xd6, rest);
    } else if n == 8 && p == [0xd7] {
      OneByte(0xd7, rest);
    } else if n == 16 && p == [0xd8] {
      OneByte(0xd8, rest);
    } else {
      LenReads(p, n, 0xc7, 0xc8, 0xc9, rest);
    }
  }

  /** Whatever its spelling, an integer is read as itself. */
  lemma IntReads(p: Key, i: int, rest: Key)
    requires SpellsInt(p, i)
    ensures Head(p + rest) == Scalar(Int(i), rest)
  {
    hide BigEndian; hide ReadBig; hide Field; hide WithField; hide Pow256; hide Head;
    Widths();
    if (0 <= i < 128 && p == [i]) || (-32 <= i < 0 && p == [i + 256]) {
      ShortInt(i, rest);
    } else if WithField(p, 0xcc, i, 1) {
      FieldTagged(p, 0xcc, i, 1, rest);
    } else if WithField(p, 0xcd, i, 2) {
      FieldTagged(p, 0xcd, i, 2, rest);
    } else if WithField(p, 0xce, i, 4) {
      FieldTagged(p, 0xce, i, 4, rest);
    } else if -128 <= i < 128 && WithField(p, 0xd0, i % 0x100, 1) {
      FieldTagged(p, 0xd0, i % 0x100, 1, rest);
    } else if -32768 <= i < 32768 && WithField(p, 0xd1, i % 0x1_0000, 2) {
      FieldTagged(p, 0xd1, i % 0x1_0000, 2, rest);
    } else if -0x8000_0000 <= i < 0x8000_0000 && WithField(p, 0xd2, i % TWO_32, 4) {
      FieldTagged(p, 0xd2, i % TWO_32, 4, rest);
    } else if WithField(p, 0xcf, i % TWO_64, 8) {
      FieldTagged(p, 0xcf, i % TWO_64, 8, rest);
    } else {
      FieldTagged(p, 0xd3, i % TWO_64, 8, rest);
    }
  }

  lemma ShortInt(i: int, rest: Key)
    requires -32 <= i < 128
    ensures Head([i % 256] + rest) == Scalar(Int(i), rest)
  {
    OneByte(i % 256, rest);
  }

  /** What is read was announced: the decoder knows no other first bytes. */
  lemma HeadAnnounced(d: Key)
    requires !Head(d).BadHeader?
    ensures |Head(d).rest| < |d|
    ensures
      var p := d[..|d| - |Head(d).rest|];
      d == p + Head(d).rest && Announces(p, Head(d))
  {
    hide BigEndian; hide ReadBig; hide Field; hide SpellsInt; hide SpellsLen; hide WithField; hide Signed; hide Pow256;
    hide FixExt; hide Tagged;
    HeadSuffix(d);
    var b, h := d[0], Head(d);
    assert d[..1] == [b];
    if b < 0xc0 || b >= 0xe0 {
      assert d[1..] == h.rest;
      if h.Scalar? {
        ShortSpelled(h.v.i);
      }
    } else {
      TaggedAnnounced(d);
    }
  }

  lemma ShortSpelled(i: int)
    ensures -32 <= i < 128 ==> SpellsInt([i % 256], i)
  {
    hide WithField;
  }

  lemma FieldSpelled(d: Key, k: nat)
    requires |d| >= 1 + k
    ensures WithField(d[..1 + k], d[0], Field(d, k), k)
  {
    ReadBigBound(d[1..1 + k]);
    ReadWrite(d[1..1 + k]);
    assert d[..1 + k] == [d[0]] + d[1..1 + k];
  }

  lemma TaggedAnnounced(d: Key)
    requires d != [] && 0xc0 <= d[0] <= 0xdf && !Tagged(d[0], d).BadHeader?
    ensures
      var h := Tagged(d[0], d);
      |h.rest| < |d| && Announces(d[..|d| - |h.rest|], h)
  {
    hide BigEndian; hide ReadBig; hide Field; hide SpellsInt; hide WithField; hide Signed; hide Pow256;
    var b, h := d[0], Tagged(d[0], d);
    var k := FieldSize(b);
    FieldSpelled(d, k);
    assert d[..|d| - |h.rest|] == d[..1 + k];
    assert k == 0 ==> d[..1] == [b];
    if h.Scalar? && h.v.Int? {
      IntSpelled(d[..1 + k], b, Field(d, k), k);
    }
  }

  lemma IntSpelled(p: Key, b: byte, n: nat, k: nat)
    requires WithField(p, b, n, k) && FieldSize(b) == k && b in {0xcc, 0xcd, 0xce, 0xcf, 0xd0, 0xd1, 0xd2, 0xd3}
    ensures SpellsInt(p, if b in {0xcc, 0xcd, 0xce} then n else Signed(n, k))
  {
    hide BigEndian;
    Widths();
    hide Pow256;
  }

  ghost function ExtBody(ty: int, data: Key): (s: Key)
    requires 0 <= ty < 256
  {
    [ty] + data
  }

  /** The bytes spell the value in one of the ways the formats allow. */
  ghost predicate Spells(d: Key, v: Value)
    decreases v
  {
    match v
    case Str(s) => exists h :: Announces(h, StrHeader(|s|, [])) && d == h + s
    case Bin(bs) => exists h :: Announces(h, BinHeader(|bs|, [])) && d == h + bs
    case Ext(ty, data) => 0 <= ty < 256 && exists h :: Announces(h, ExtHeader(|data|, [])) && d == h + ExtBody(ty, data)
    case Array(items) =>
      exists h, body :: Announces(h, ArrayHeader(Count(items), [])) && SpellsItems(body, items) && d == h + body
    case Map(pairs) =>
      exists h, body :: Announces(h, MapHeader(CountPairs(pairs), [])) && SpellsPairs(body, pairs) && d == h + body
    case _ => Announces(d, Scalar(v, []))
  }

  ghost predicate SpellsItems(d: Key, vs: Values)
    decreases vs
  {
    if vs.NoValues? then d == []
    else exists a, b :: Spells(a, vs.head) && SpellsItems(b, vs.tail) && d == a + b
  }

  ghost predicate SpellsPairs(d: Key, ps: Pairs)
    decreases ps
  {
    if ps.NoPairs? then d == []
    else exists a, b, c :: Spells(a, ps.key) && Spells(b, ps.value) && SpellsPairs(c, ps.tail) && d == a + (b + c)
  }

  /** Every spelling of a value decodes to it, whatever follows. */
  lemma {:induction false} SpellingDecodes(d: Key, v: Value, rest: Key)
    requires Spells(d, v)
    ensures Decode(d + rest) == Ok(v, rest)
    decreases v, 1
  {
    hide Announces; hide Head; hide Decode; hide SpellsItems; hide SpellsPairs;
    match v
    case Str(s) =>
      var h :| Announces(h, StrHeader(|s|, [])) && d == h + s;
      FlatDecodes(h, StrHeader(|s|, []), s, rest);
    case Bin(bs) =>
      var h :| Announces(h, BinHeader(|bs|, [])) && d == h + bs;
      FlatDecodes(h, BinHeader(|bs|, []), bs, rest);
    case Ext(ty, data) =>
      var h :| Announces(h, ExtHeader(|data|, [])) && d == h + ExtBody(ty, data);
      ExtDecodes(h, ty, data, rest);
    case Array(items) =>
      var h, body :| Announces(h, ArrayHeader(Count(items), [])) && SpellsItems(body, items) && d == h + body;
      ItemsDecode(body, items, rest);
      ListDecodes(h, ArrayHeader(Count(items), []), body, rest);
    case Map(pairs) =>
      var h, body :| Announces(h, MapHeader(CountPairs(pairs), [])) && SpellsPairs(body, pairs) && d == h + body;
      PairsDecode(body, pairs, rest);
      ListDecodes(h, MapHeader(CountPairs(pairs), []), body, rest);
    case _ => ScalarDecodes(d, v, rest);
  }

  lemma ScalarDecodes(d: Key, v: Value, rest: Key)
    requires Announces(d, Scalar(v, []))
    ensures Decode(d + rest) == Ok(v, rest)
  {
    hide Announces; hide Head;
    HeadReads(d, Scalar(v, []), rest);
  }

  lemma FlatDecodes(h: Key, header: Header, s: Key, rest: Key)
    requires Announces(h, header) && (header == StrHeader(|s|, []) || header == BinHeader(|s|, []))
    ensures Decode(h + s + rest) == Ok(if header.StrHeader? then Str(s) else Bin(s), rest)
  {
    hide Announces; hide Head;
    HeadReads(h, header, s + rest);
    assert h + s + rest == h + (s + rest);
    assert (s + rest)[..|s|] == s && (s + rest)[|s|..] == rest;
  }

  lemma ExtDecodes(h: Key, ty: int, data: Key, rest: Key)
    requires 0 <= ty < 256 && Announces(h, ExtHeader(|data|, []))
    ensures Decode(h + ExtBody(ty, data) + rest) == Ok(Ext(ty, data), rest)
  {
    hide Announces; hide Head;
    var body := ExtBody(ty, data) + rest;
    HeadReads(h, ExtHeader(|data|, []), body);
    assert h + ExtBody(ty, data) + rest == h + body;
    assert body[0] == ty && body[1..1 + |data|] == data && body[1 + |data|..] == rest;
  }

  lemma ListDecodes(h: Key, header: Header, body: Key, rest: Key)
    requires Announces(h, header) && (header.ArrayHeader? || header.MapHeader?)
    ensures header.ArrayHeader? ==>
      var r := DecodeItems(header.n, body + rest);
      Decode(h + body + rest) == if r.Err? then Err else Ok(Array(r.v), r.rest)
    ensures header.MapHeader? ==>
      var r := DecodePairs(header.n, body + rest);
      Decode(h + body + rest) == if r.Err? then Err else Ok(Map(r.v), r.rest)
  {
    hide Announces; hide Head; hide DecodeItems; hide DecodePairs;
    HeadReads(h, header, body + rest);
    assert h + body + rest == h + (body + rest);
  }

  lemma {:induction false} ItemsDecode(d: Key, vs: Values, rest: Key)
    requires SpellsItems(d, vs)
    ensures DecodeItems(Count(vs), d + rest) == Ok(vs, rest)
    decreases vs, 0
  {
    hide Spells; hide Decode;
    if vs.NoValues? {
      assert d + rest == rest;
    } else {
      var a, b :| Spells(a, vs.head) && SpellsItems(b, vs.tail) && d == a + b;
      assert d + rest == a + (b + rest);
      SpellingDecodes(a, vs.head, b + rest);
      ItemsDecode(b, vs.tail, rest);
    }
  }

  lemma {:induction false} PairsDecode(d: Key, ps: Pairs, rest: Key)
    requires SpellsPairs(d, ps)
    ensures DecodePairs(CountPairs(ps), d + rest) == Ok(ps, rest)
    decreases ps, 0
  {
    hide Spells; hide Decode;
    if ps.NoPairs? {
      assert d + rest == rest;
    } else {
      var a, b, c :| Spells(a, ps.key) && Spells(b, ps.value) && SpellsPairs(c, ps.tail) && d == a + (b + c);
      assert d + rest == a + (b + (c + rest));
      SpellingDecodes(a, ps.key, b + (c + rest));
      SpellingDecodes(b, ps.value, c + rest);
      PairsDecode(c, ps.tail, rest);
    }
  }

  /** What decodes starts with a spelling of what it decodes to: everything else is refused. */
  lemma {:induction false} DecodedIsSpelled(d: Key) returns (p: Key)
    requires Decode(d).Ok?
    ensures d == p + Decode(d).rest && Spells(p, Decode(d).v)
    decreases |d|, 0
  {
    hide Announces; hide Head; hide DecodeItems; hide DecodePairs; hide SpellsItems; hide SpellsPairs;
    HeadAnnounced(d);
    var h, r := Head(d), Decode(d);
    var first := d[..|d| - |h.rest|];
    SameAnnounced(first, h);
    match h
    case Scalar(v, rest) =>
      ScalarOnly(first, h);
      p := first;
    case ArrayHeader(n, rest) =>
      var body := ItemsSpelled(n, rest);
      p := first + body;
      assert d == first + (body + r.rest);
    case MapHeader(n, rest) =>
      var body := PairsSpelled(n, rest);
      p := first + body;
      assert d == first + (body + r.rest);
    case _ =>
      p := FlatSpelled(d, first);
  }

  lemma FlatSpelled(d: Key, first: Key) returns (p: Key)
    requires Decode(d).Ok? && (Head(d).StrHeader? || Head(d).BinHeader? || Head(d).ExtHeader?)
    requires d == first + Head(d).rest && Announces(first, WithRest(Head(d), []))
    ensures d == p + Decode(d).rest && Spells(p, Decode(d).v)
  {
    hide Announces; hide Head;
    var h := Head(d);
    var n := if h.ExtHeader? then 1 + h.n else h.n;
    var body := h.rest[..n];
    p := first + body;
    assert h.rest == body + h.rest[n..];
    assert d == p + h.rest[n..];
    if h.ExtHeader? {
      assert body == ExtBody(h.rest[0], h.rest[1..n]);
    }
  }

  lemma ScalarOnly(p: Key, h: Header)
    requires Announces(p, h) && h.Scalar?
    ensures !h.v.Str? && !h.v.Bin? && !h.v.Ext? && !h.v.Array? && !h.v.Map?
  {
  }

  lemma SameAnnounced(p: Key, h: Header)
    requires Announces(p, h)
    ensures Announces(p, WithRest(h, []))
  {
    hide SpellsInt; hide SpellsLen; hide WithField;
  }

  lemma {:induction false} ItemsSpelled(n: nat, d: Key) returns (p: Key)
    requires DecodeItems(n, d).Ok?
    ensures d == p + DecodeItems(n, d).rest && SpellsItems(p, DecodeItems(n, d).v)
    decreases |d|, 1
  {
    hide Spells; hide Decode;
    if n == 0 {
      p := [];
    } else {
      var a := DecodedIsSpelled(d);
      var b := ItemsSpelled(n - 1, Decode(d).rest);
      p := a + b;
      assert d == a + (b + DecodeItems(n - 1, Decode(d).rest).rest);
    }
  }

  lemma {:induction false} PairsSpelled(n: nat, d: Key) returns (p: Key)
    requires DecodePairs(n, d).Ok?
    ensures d == p + DecodePairs(n, d).rest && SpellsPairs(p, DecodePairs(n, d).v)
    decreases |d|, 1
  {
    hide Spells; hide Decode;
    if n == 0 {
      p := [];
    } else {
      var a := DecodedIsSpelled(d);
      var more := Decode(d).rest;
      var b := DecodedIsSpelled(more);
      var c := PairsSpelled(n - 1, Decode(more).rest);
      p := a + (b + c);
      assert d == a + (b + (c + DecodePairs(n - 1, Decode(more).rest).rest));
    }
  }

  // ---- the encoder writes a shortest spelling ----

  lemma FieldLength(p: Key, b: byte, n: int, k: nat)
    requires WithField(p, b, n, k)
    ensures |p| == 1 + k && n < Pow256(k)
  {
  }

  lemma SmallPowers()
    ensures Pow256(1) == 0x100 && Pow256(2) == 0x1_0000 && Pow256(4) == TWO_32 && Pow256(8) == TWO_64
  {
    Pow256Eight();
    assert Pow256(1) == 256 * Pow256(0) && Pow256(2) == 256 * Pow256(1);
  }

  lemma IntShortest(i: int, p: Key)
    requires IsInt64(i) && SpellsInt(p, i)
    ensures |IntBytes(i)| <= |p| && SpellsInt(IntBytes(i), i)
  {
    hide BigEndian; hide Pow256;
    SmallPowers();
  }

  lemma LenShortest(n: nat, one: byte, two: byte, four: byte, p: Key)
    requires n < TWO_32 && SpellsLen(p, n, one, two, four)
    ensures |LenBytes(n, one, two, four)| <= |p| && SpellsLen(LenBytes(n, one, two, four), n, one, two, four)
  {
    hide BigEndian; hide Pow256;
    SmallPowers();
  }

  lemma WideShortest(n: nat, two: byte, four: byte, p: Key)
    requires n < TWO_32 && (WithField(p, two, n, 2) || WithField(p, four, n, 4))
    ensures |WideBytes(n, two, four)| <= |p|
    ensures WithField(WideBytes(n, two, four), two, n, 2) || WithField(WideBytes(n, two, four), four, n, 4)
  {
    hide BigEndian; hide Pow256;
    SmallPowers();
  }

  lemma HeaderShortest(h: Header, p: Key)
    requires Announces(p, h) && !h.Scalar? && h.n < TWO_32
    ensures
      var b := HeaderBytes(h);
      |b| <= |p| && Announces(b, h)
  {
    hide WithField; hide LenBytes; hide WideBytes;
    match h
    case StrHeader(n, _) =>
      if SpellsLen(p, n, 0xd9, 0xda, 0xdb) { LenLong(p, n, 0xd9, 0xda, 0xdb); }
      if n > 31 { LenShortest(n, 0xd9, 0xda, 0xdb, p); }
    case BinHeader(n, _) => LenShortest(n, 0xc4, 0xc5, 0xc6, p);
    case ExtHeader(n, _) =>
      if SpellsLen(p, n, 0xc7, 0xc8, 0xc9) { LenLong(p, n, 0xc7, 0xc8, 0xc9); }
      if n !in {1, 2, 4, 8, 16} { LenShortest(n, 0xc7, 0xc8, 0xc9, p); }
    case ArrayHeader(n, _) =>
      if WithField(p, 0xdc, n, 2) { FieldLength(p, 0xdc, n, 2); }
      if WithField(p, 0xdd, n, 4) { FieldLength(p, 0xdd, n, 4); }
      if n > 15 { WideShortest(n, 0xdc, 0xdd, p); }
    case MapHeader(n, _) =>
      if WithField(p, 0xde, n, 2) { FieldLength(p, 0xde, n, 2); }
      if WithField(p, 0xdf, n, 4) { FieldLength(p, 0xdf, n, 4); }
      if n > 15 { WideShortest(n, 0xde, 0xdf, p); }
  }

  lemma LenLong(p: Key, n: nat, one: byte, two: byte, four: byte)
    requires SpellsLen(p, n, one, two, four)
    ensures |p| >= 2
  {
  }

  /** The bytes the encoder writes for a header. */
  function HeaderBytes(h: Header): (s: Key)
    requires !h.Scalar? && !h.BadHeader? && h.n < TWO_32
  {
    match h
    case StrHeader(n, _) => StrBytes(n)
    case BinHeader(n, _) => BinBytes(n)
    case ExtHeader(n, _) => ExtBytes(n)
    case ArrayHeader(n, _) => ArrayBytes(n)
    case MapHeader(n, _) => MapBytes(n)
  }

  /** What the encoder writes is a spelling. */
  lemma EncodeSpells(v: Value)
    requires Wf(v)
    ensures Spells(Encode(v), v)
  {
    hide Decode; hide Encode; hide Spells;
    RoundTrip(v, []);
    assert Encode(v) + [] == Encode(v);
    var p := DecodedIsSpelled(Encode(v));
    assert Encode(v) == p;
  }

  /** No spelling of a value is shorter. */
  lemma {:induction false} EncodesShortest(v: Value, d: Key)
    requires Wf(v) && Spells(d, v)
    ensures |Encode(v)| <= |d|
    decreases v, 1
  {
    hide Announces; hide HeaderBytes; hide IntBytes; hide SpellsInt; hide SpellsItems; hide SpellsPairs;
    hide EncodeItems; hide EncodePairs; hide BigEndian;
    match v
    case Str(s) =>
      var h :| Announces(h, StrHeader(|s|, [])) && d == h + s;
      HeaderAtMost(StrHeader(|s|, []), h);
    case Bin(bs) =>
      var h :| Announces(h, BinHeader(|bs|, [])) && d == h + bs;
      HeaderAtMost(BinHeader(|bs|, []), h);
    case Ext(ty, data) =>
      var h :| Announces(h, ExtHeader(|data|, [])) && d == h + ExtBody(ty, data);
      HeaderAtMost(ExtHeader(|data|, []), h);
    case Array(items) =>
      var h, body :| Announces(h, ArrayHeader(Count(items), [])) && SpellsItems(body, items) && d == h + body;
      HeaderAtMost(ArrayHeader(Count(items), []), h);
      ItemsShortest(items, body);
    case Map(pairs) =>
      var h, body :| Announces(h, MapHeader(CountPairs(pairs), [])) && SpellsPairs(body, pairs) && d == h + body;
      HeaderAtMost(MapHeader(CountPairs(pairs), []), h);
      PairsShortest(pairs, body);
    case _ => ScalarShortest(v, d);
  }

  lemma HeaderAtMost(h: Header, p: Key)
    requires Announces(p, h) && !h.Scalar? && h.n < TWO_32
    ensures
      match h
      case StrHeader(n, _) => |StrBytes(n)| <= |p|
      case BinHeader(n, _) => |BinBytes(n)| <= |p|
      case ExtHeader(n, _) => |ExtBytes(n)| <= |p|
      case ArrayHeader(n, _) => |ArrayBytes(n)| <= |p|
      case MapHeader(n, _) => |MapBytes(n)| <= |p|
  {
    hide Announces; hide StrBytes; hide BinBytes; hide ExtBytes; hide ArrayBytes; hide MapBytes;
    HeaderShortest(h, p);
  }

  lemma ScalarShortest(v: Value, d: Key)
    requires Wf(v) && Announces(d, Scalar(v, []))
    ensures |Encode(v)| <= |d|
  {
    hide IntBytes; hide SpellsInt; hide BigEndian;
    if v.Int? {
      IntShortest(v.i, d);
    }
  }

  lemma {:induction false} ItemsShortest(vs: Values, d: Key)
    requires AllWf(vs) && SpellsItems(d, vs)
    ensures |EncodeItems(vs)| <= |d|
    decreases vs, 0
  {
    hide Spells; hide Encode;
    if vs.Values? {
      var a, b :| Spells(a, vs.head) && SpellsItems(b, vs.tail) && d == a + b;
      EncodesShortest(vs.head, a);
      ItemsShortest(vs.tail, b);
    }
  }

  lemma {:induction false} PairsShortest(ps: Pairs, d: Key)
    requires PairsWf(ps) && SpellsPairs(d, ps)
    ensures |EncodePairs(ps)| <= |d|
    decreases ps, 0
  {
    hide Spells; hide Encode;
    if ps.Pairs? {
      var a, b, c :| Spells(a, ps.key) && Spells(b, ps.value) && SpellsPairs(c, ps.tail) && d == a + (b + c);
      EncodesShortest(ps.key, a);
      EncodesShortest(ps.value, b);
      PairsShortest(ps.tail, c);
    }
  }

  // ---- splicing a pair into an encoded map ----

  datatype Spliced = Done(bytes: Key) | NotAMap | Overflow

  /** The count and the header size of a top-level map; size 0 when there is none. */
  function MapCount(raw: Key): (r: (nat, nat))
    ensures r.1 <= |raw|
  {
    if raw == [] then (0, 0)
    else if 0x80 <= raw[0] <= 0x8f then (raw[0] - 0x80, 1)
    else if raw[0] == 0xde && |raw| >= 3 then (ReadBig(raw[1..3]), 3)
    else if raw[0] == 0xdf && |raw| >= 5 then (ReadBig(raw[1..5]), 5)
    else (0, 0)
  }

  /** Patches the count, widening the header when it is full, and appends the pair. */
  function InjectTopPair(raw: Key, key: Key, val: Key): (r: Spliced)
    requires |key| < TWO_32 && |val| < TWO_32
  {
    var (count, hdr) := MapCount(raw);
    if hdr == 0 then NotAMap
    else if hdr == 5 && count >= TWO_32 - 1 then Overflow
    else Done(PatchedHeader(count, hdr) + raw[hdr..] + Encode(Str(key)) + Encode(Str(val)))
  }

  /** The header for one more pair. */
  function PatchedHeader(count: nat, hdr: nat): (h: Key)
  {
    if hdr == 1 then (if count < 15 then [0x80 + (count + 1)] else [0xde, 0x00, 0x10])
    else if hdr == 3 then (if count < 0xffff then [0xde] + BigEndian(count + 1, 2) else [0xdf, 0x00, 0x01, 0x00, 0x00])
    else [0xdf] + BigEndian(count + 1, 4)
  }

  function Append(ps: Pairs, k: Value, v: Value): (r: Pairs)
  {
    if ps.NoPairs? then Pairs(k, v, NoPairs) else Pairs(ps.key, ps.value, Append(ps.tail, k, v))
  }

  /** A pair behind the pairs of a map is decoded after them. */
  lemma {:induction false} PairsAppend(n: nat, d: Key, k: Value, v: Value)
    requires Wf(k) && Wf(v) && DecodePairs(n, d).Ok? && DecodePairs(n, d).rest == []
    ensures DecodePairs(n + 1, d + (Encode(k) + Encode(v))) == Ok(Append(DecodePairs(n, d).v, k, v), [])
    decreases n
  {
    hide Decode; hide Encode;
    var kv := Encode(k) + Encode(v);
    if n == 0 {
      assert d + kv == kv;
      RoundTrip(k, Encode(v));
      RoundTrip(v, []);
      assert Encode(v) + [] == Encode(v);
      assert DecodePairs(0, []) == Ok(NoPairs, []);
      OnePair(kv, k, v, Encode(v));
    } else {
      var a := Decode(d);
      DecodeExtends(d, kv);
      DecodeExtends(a.rest, kv);
      PairsAppend(n - 1, Decode(a.rest).rest, k, v);
    }
  }

  lemma OnePair(d: Key, k: Value, v: Value, rest: Key)
    requires Decode(d) == Ok(k, rest) && Decode(rest) == Ok(v, [])
    ensures DecodePairs(1, d) == Ok(Pairs(k, v, NoPairs), [])
  {
    hide Decode;
    assert DecodePairs(0, []) == Ok(NoPairs, []);
  }

  /** A map is recognised by its header exactly when one is there. */
  lemma MapCountIsHead(raw: Key)
    ensures var (count, hdr) := MapCount(raw);
      if hdr == 0 then !Head(raw).MapHeader? else Head(raw) == MapHeader(count, raw[hdr..])
  {
    hide ReadBig; hide Signed; hide FixExt; hide Pow256;
  }

  /** The patched header announces one more pair. */
  lemma PatchedHead(raw: Key, x: Key)
    requires MapCount(raw).1 != 0 && (MapCount(raw).1 == 5 ==> MapCount(raw).0 < TWO_32 - 1)
    ensures
      var (count, hdr) := MapCount(raw);
      Head(PatchedHeader(count, hdr) + x) == MapHeader(count + 1, x)
  {
    hide BigEndian; hide ReadBig; hide Pow256; hide Field;
    var (count, hdr) := MapCount(raw);
    Widths();
    CountBound(raw);
    if hdr == 1 && count < 15 {
      var d: Key := [0x80 + count + 1] + x;
      assert d[1..] == x;
    } else if hdr == 1 {
      BigSmall();
      FieldReads(0xde, 16, 2, x);
      assert [0xde as byte] + BigEndian(16, 2) == [0xde, 0x00, 0x10];
    } else if hdr == 3 && count < 0xffff {
      FieldReads(0xde, count + 1, 2, x);
    } else if hdr == 3 {
      BigSmall();
      FieldReads(0xdf, 0x1_0000, 4, x);
      assert [0xdf as byte] + BigEndian(0x1_0000, 4) == [0xdf, 0x00, 0x01, 0x00, 0x00];
    } else {
      FieldReads(0xdf, count + 1, 4, x);
    }
  }

  lemma BigSmall()
    ensures BigEndian(16, 2) == [0, 16] && BigEndian(0x1_0000, 4) == [0, 1, 0, 0]
  {
    assert BigEndian(0, 1) == [0] && BigEndian(1, 2) == [0, 1] && BigEndian(0x100, 3) == [0, 1, 0];
  }

  lemma CountBound(raw: Key)
    ensures var (count, hdr) := MapCount(raw);
      (hdr == 1 ==> count <= 15) && (hdr == 3 ==> count <= 0xffff) && (hdr == 5 ==> count < TWO_32)
  {
    hide ReadBig; hide Pow256;
    Widths();
    if |raw| >= 3 {
      ReadBigBound(raw[1..3]);
    }
    if |raw| >= 5 {
      ReadBigBound(raw[1..5]);
    }
  }

  /** Splicing a pair into an encoded map and decoding gives the map with the pair appended, whatever
      width the count has or grows to. */
  lemma InjectAppends(raw: Key, key: Key, val: Key)
    requires |key| < TWO_32 && |val| < TWO_32
    requires Unmarshal(raw).Ok? && Unmarshal(raw).v.Map? && MapCount(raw).0 < TWO_32 - 1
    ensures InjectTopPair(raw, key, val).Done?
    ensures Unmarshal(InjectTopPair(raw, key, val).bytes)
      == Ok(Map(Append(Unmarshal(raw).v.pairs, Str(key), Str(val))), [])
  {
    hide Head; hide Encode; hide DecodePairs; hide MapCount; hide PatchedHeader;
    MapCountIsHead(raw);
    MapDecodes(raw);
    var (count, hdr) := MapCount(raw);
    var kv := Encode(Str(key)) + Encode(Str(val));
    var body := raw[hdr..];
    PatchedHead(raw, body + kv);
    PairsAppend(count, body, Str(key), Str(val));
    var out := InjectTopPair(raw, key, val).bytes;
    assert out == PatchedHeader(count, hdr) + (body + kv);
  }

  lemma MapDecodes(raw: Key)
    requires Unmarshal(raw).Ok? && Unmarshal(raw).v.Map?
    ensures Head(raw).MapHeader? && DecodePairs(Head(raw).n, Head(raw).rest) == Ok(Unmarshal(raw).v.pairs, [])
  {
    hide Head;
    ScalarHead(raw);
  }

  lemma ScalarHead(d: Key)
    ensures Head(d).Scalar? ==> !Head(d).v.Map?
  {
    hide ReadBig; hide Signed; hide FixExt;
  }

  /** Anything that is not a map is refused, and a map only when its count cannot grow. */
  lemma InjectRefuses(raw: Key, key: Key, val: Key)
    requires |key| < TWO_32 && |val| < TWO_32
    ensures InjectTopPair(raw, key, val).NotAMap? <==> !Head(raw).MapHeader?
    ensures InjectTopPair(raw, key, val).Overflow? <==> Head(raw).MapHeader? && Head(raw).n == TWO_32 - 1
  {
    hide Head; hide Encode; hide ReadBig;
    MapCountIsHead(raw);
    CountBound(raw);
  }

  // ---- the encoder and the decoder ----

  class Encoder {
    var buf: Key

    constructor ()
      ensures buf == []
    {
      buf := [];
    }

    /** Appends the encoding of a value. */
    method Put(v: Value)
      requires Wf(v)
      modifies this
      ensures buf == old(buf) + Encode(v)
      decreases v
    {
      hide IntBytes; hide StrBytes; hide BinBytes; hide ArrayBytes; hide MapBytes; hide ExtBytes; hide BigEndian;
      match v
      case Nil => buf := buf + [0xc0];
      case Bool(b) => buf := buf + [if b then 0xc3 else 0xc2];
      case Int(i) => buf := buf + IntBytes(i);
      case Float(bits) => buf := buf + ([0xcb] + BigEndian(bits, 8));
      case Str(s) => buf := buf + StrBytes(|s|); buf := buf + s;
      case Bin(bs) => buf := buf + BinBytes(|bs|); buf := buf + bs;
      case Ext(ty, data) => buf := buf + ExtBytes(|data|); buf := buf + [ty]; buf := buf + data;
      case Array(items) => buf := buf + ArrayBytes(Count(items)); PutItems(items);
      case Map(pairs) => buf := buf + MapBytes(CountPairs(pairs)); PutPairs(pairs);
    }

    method PutItems(items: Values)
      requires AllWf(items)
      modifies this
      ensures buf == old(buf) + EncodeItems(items)
      decreases items
    {
      hide Encode;
      var left := items;
      while left.Values?
        invariant AllWf(left) && (left == items || left < items)
        invariant buf + EncodeItems(left) == old(buf) + EncodeItems(items)
        decreases left
      {
        ghost var before := buf;
        Put(left.head);
        assert before + (Encode(left.head) + EncodeItems(left.tail)) == buf + EncodeItems(left.tail);
        left := left.tail;
      }
    }

    method PutPairs(pairs: Pairs)
      requires PairsWf(pairs)
      modifies this
      ensures buf == old(buf) + EncodePairs(pairs)
      decreases pairs
    {
      hide Encode;
      var left := pairs;
      while left.Pairs?
        invariant PairsWf(left) && (left == pairs || left < pairs)
        invariant buf + EncodePairs(left) == old(buf) + EncodePairs(pairs)
        decreases left
      {
        ghost var before := buf;
        Put(left.key);
        Put(left.value);
        assert before + (Encode(left.key) + Encode(left.value) + EncodePairs(left.tail)) == buf + EncodePairs(left.tail);
        left := left.tail;
      }
    }
  }

  datatype Read<T> = Good(v: T) | Bad

  /** The items read so far in front of the rest. */
  function Joined(read: seq<Value>, rest: Values): (vs: Values)
  {
    if read == [] then rest else Joined(read[..|read| - 1], Values(read[|read| - 1], rest))
  }

  function JoinedPairs(read: seq<(Value, Value)>, rest: Pairs): (ps: Pairs)
  {
    if read == [] then rest
    else
      var last := read[|read| - 1];
      JoinedPairs(read[..|read| - 1], Pairs(last.0, last.1, rest))
  }

  /** One more item read from the front of what is left. */
  lemma ItemRead(n: nat, d: Key, read: seq<Value>)
    requires n > 0
    ensures Decode(d).Err? ==> DecodeItems(n, d).Err?
    ensures Decode(d).Ok? ==>
      var a, all := Decode(d), DecodeItems(n, d);
      var rest := DecodeItems(n - 1, a.rest);
      && (all.Err? <==> rest.Err?)
      && (all.Ok? ==> all.rest == rest.rest && Joined(read + [a.v], rest.v) == Joined(read, all.v))
  {
    hide Decode;
    if Decode(d).Ok? {
      assert (read + [Decode(d).v])[..|read|] == read;
    }
  }

  lemma PairRead(n: nat, d: Key, read: seq<(Value, Value)>)
    requires n > 0
    ensures Decode(d).Err? || Decode(Decode(d).rest).Err? ==> DecodePairs(n, d).Err?
    ensures Decode(d).Ok? && Decode(Decode(d).rest).Ok? ==>
      var k, all := Decode(d), DecodePairs(n, d);
      var v := Decode(k.rest);
      var rest := DecodePairs(n - 1, v.rest);
      && (all.Err? <==> rest.Err?)
      && (all.Ok? ==> all.rest == rest.rest && JoinedPairs(read + [(k.v, v.v)], rest.v) == JoinedPairs(read, all.v))
  {
    hide Decode;
    if Decode(d).Ok? && Decode(Decode(d).rest).Ok? {
      var k := Decode(d);
      var v := Decode(k.rest);
      assert (read + [(k.v, v.v)])[..|read|] == read;
    }
  }

  lemma NoneLeft(d: Key)
    ensures DecodeItems(0, d) == Ok(NoValues, d) && DecodePairs(0, d) == Ok(NoPairs, d)
    ensures forall vs :: Joined([], vs) == vs
    ensures forall ps :: JoinedPairs([], ps) == ps
  {
  }

  class Decoder {
    const buf: Key
    const limit: nat
    var pos: nat

    ghost predicate Valid()
      reads this
    {
      pos <= limit <= |buf|
    }

    constructor (b: Key)
      ensures Valid() && buf == b && limit == |b| && pos == 0
    {
      buf, limit, pos := b, |b|, 0;
    }

    ghost function Ahead(): Key
      requires Valid()
      reads this
    {
      buf[pos..limit]
    }

    /** Skips what was read: `rest` is what remains. */
    method MoveTo(rest: Key)
      requires Valid() && |rest| <= |Ahead()| && rest == Ahead()[|Ahead()| - |rest|..]
      modifies this`pos
      ensures Valid() && Ahead() == rest
    {
      pos := limit - |rest|;
    }

    /** Reads n bytes. */
    method Take(n: nat) returns (r: Read<Key>)
      requires Valid()
      modifies this`pos
      ensures Valid() && old(pos) <= pos
      ensures r.Good? <==> n <= |old(Ahead())|
      ensures r.Good? ==> r.v == old(Ahead())[..n] && Ahead() == old(Ahead())[n..]
    {
      if n > limit - pos {
        return Bad;
      }
      r := Good(buf[pos..pos + n]);
      pos := pos + n;
    }

    /** Reads one value. */
    method DecodeValue() returns (r: Read<Value>)
      requires Valid()
      modifies this`pos
      ensures Valid() && old(pos) <= pos
      ensures r.Good? <==> Decode(old(Ahead())).Ok?
      ensures r.Good? ==> Decode(old(Ahead())) == Ok(r.v, Ahead())
      decreases limit - pos, 0
    {
      hide Head; hide DecodeItems; hide DecodePairs;
      var h := Head(buf[pos..limit]);
      if h.BadHeader? {
        return Bad;
      }
      HeadSuffix(buf[pos..limit]);
      MoveTo(h.rest);
      match h
      case Scalar(v, _) => return Good(v);
      case StrHeader(n, rest) =>
        var s := Take(n);
        return if s.Good? then Good(Str(s.v)) else Bad;
      case BinHeader(n, rest) =>
        var s := Take(n);
        return if s.Good? then Good(Bin(s.v)) else Bad;
      case ExtHeader(n, rest) =>
        var s := Take(1 + n);
        return if s.Good? then Good(Ext(s.v[0], s.v[1..])) else Bad;
      case ArrayHeader(n, rest) =>
        var items := DecodeArray(n);
        return if items.Good? then Good(Array(items.v)) else Bad;
      case MapHeader(n, rest) =>
        var pairs := DecodeMap(n);
        return if pairs.Good? then Good(Map(pairs.v)) else Bad;
    }

    method DecodeArray(n: nat) returns (r: Read<Values>)
      requires Valid()
      modifies this`pos
      ensures Valid() && old(pos) <= pos
      ensures r.Good? <==> DecodeItems(n, old(Ahead())).Ok?
      ensures r.Good? ==> DecodeItems(n, old(Ahead())) == Ok(r.v, Ahead())
      decreases limit - pos, 1
    {
      hide Decode; hide DecodeItems; hide Joined;
      ghost var start := Ahead();
      var read: seq<Value> := [];
      NoneLeft(start);
      for i := 0 to n
        invariant Valid() && old(pos) <= pos && |read| == i && (i > 0 ==> old(pos) < pos)
        invariant var rest := DecodeItems(n - i, Ahead());
          DecodeItems(n, start) == if rest.Err? then Err else Ok(Joined(read, rest.v), rest.rest)
      {
        ItemRead(n - i, Ahead(), read);
        var v := DecodeValue();
        if v.Bad? {
          return Bad;
        }
        read := read + [v.v];
      }
      NoneLeft(Ahead());
      return Good(Joined(read, NoValues));
    }

    method DecodeMap(n: nat) returns (r: Read<Pairs>)
      requires Valid()
      modifies this`pos
      ensures Valid() && old(pos) <= pos
      ensures r.Good? <==> DecodePairs(n, old(Ahead())).Ok?
      ensures r.Good? ==> DecodePairs(n, old(Ahead())) == Ok(r.v, Ahead())
      decreases limit - pos, 1
    {
      hide Decode; hide DecodePairs; hide JoinedPairs;
      ghost var start := Ahead();
      var read: seq<(Value, Value)> := [];
      NoneLeft(start);
      for i := 0 to n
        invariant Valid() && old(pos) <= pos && |read| == i && (i > 0 ==> old(pos) < pos)
        invariant var rest := DecodePairs(n - i, Ahead());
          DecodePairs(n, start) == if rest.Err? then Err else Ok(JoinedPairs(read, rest.v), rest.rest)
      {
        PairRead(n - i, Ahead(), read);
        var k := DecodeValue();
        if k.Bad? {
          return Bad;
        }
        var v := DecodeValue();
        if v.Bad? {
          return Bad;
        }
        read := read + [(k.v, v.v)];
      }
      NoneLeft(Ahead());
      return Good(JoinedPairs(read, NoPairs));
    }
  }

  lemma HeadSuffix(d: Key)
    ensures !Head(d).BadHeader? ==> |Head(d).rest| < |d| && Head(d).rest == d[|d| - |Head(d).rest|..]
  {
    hide ReadBig; hide Signed; hide FixExt; hide Pow256;
  }
}
