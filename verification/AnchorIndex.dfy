/** The anchor index itself: an open-addressing table over records in a byte arena, with tombstones,
    a free list and an intrusive list in order of use. */
module AnchorIndex {
  import opened Bytes
  import AnchorCache

  type Entry = AnchorCache.Entry
  type Cache = AnchorCache.Cache

  const EMPTY := -1
  const TOMB := -2
  const MIN_SLOTS := 1024

  // ---- hashing and masking ----

  function And(a: nat, b: nat): (r: nat)
  {
    if a == 0 || b == 0 then 0
    else 2 * And(a / 2, b / 2) + (if a % 2 == 1 && b % 2 == 1 then 1 else 0)
  }

  function Xor(a: nat, b: nat): (r: nat)
  {
    if a == 0 then b else if b == 0 then a
    else 2 * Xor(a / 2, b / 2) + (a % 2 + b % 2) % 2
  }

  predicate IsPow2(n: nat)
  {
    n == 1 || (n > 1 && n % 2 == 0 && IsPow2(n / 2))
  }

  /** Masking with a power of two less one is the remainder. */
  lemma {:induction false} AndMask(a: nat, n: nat)
    requires IsPow2(n)
    ensures And(a, n - 1) == a % n
    decreases n
  {
    if n == 1 {
    } else if a == 0 {
      ModUnique(0, n, 0, 0);
    } else {
      var m := n / 2;
      AndMask(a / 2, m);
      AndStep(a, m);
      HalfMod(a, m);
    }
  }

  lemma AndStep(a: nat, m: nat)
    requires a > 0 && m > 0
    ensures And(a, 2 * m - 1) == 2 * And(a / 2, m - 1) + a % 2
  {
    assert (2 * m - 1) / 2 == m - 1 && (2 * m - 1) % 2 == 1;
  }

  lemma HalfMod(a: nat, m: nat)
    requires m > 0
    ensures a % (2 * m) == 2 * ((a / 2) % m) + a % 2
  {
    var q, t := (a / 2) / m, (a / 2) % m;
    assert a / 2 == q * m + t;
    assert a == 2 * (a / 2) + a % 2;
    assert a == q * (2 * m) + (2 * t + a % 2);
    ModUnique(a, 2 * m, q, 2 * t + a % 2);
  }

  lemma ModUnique(a: int, d: int, q: int, t: int)
    requires d > 0 && a == q * d + t && 0 <= t < d
    ensures a % d == t
  {
    QuotientUnique(q, a / d, d, t, a % d);
  }

  lemma QuotientUnique(q: int, p: int, d: int, t: int, u: int)
    requires q * d + t == p * d + u && 0 <= t < d && 0 <= u < d
    ensures q == p && t == u
  {
    assert (q - p) * d == u - t;
    Multiple(q - p, d);
  }

  lemma Multiple(x: int, d: int)
    requires d > 0
    ensures x > 0 ==> x * d >= d
    ensures x < 0 ==> x * d <= -d
  {
  }

  const FNV_SEED: nat := 0xcbf2_9ce4_8422_2325
  const FNV_PRIME: nat := 0x100_0000_01b3
  const TWO_64: nat := 0x1_0000_0000_0000_0000

  function Mix(h: nat, b: byte): (r: nat)
  {
    (Xor(h, b) * FNV_PRIME) % TWO_64
  }

  function Fnv(k: Key): (h: nat)
  {
    if k == [] then FNV_SEED else Mix(Fnv(k[..|k| - 1]), k[|k| - 1])
  }

  /** The bits of a number, lowest first. */
  function Bit(n: nat, i: nat): (b: nat)
  {
    if i == 0 then n % 2 else Bit(n / 2, i - 1)
  }

  /** Exclusive or, bit by bit. */
  lemma {:induction false} XorBit(a: nat, b: nat, i: nat)
    ensures Bit(Xor(a, b), i) == (Bit(a, i) + Bit(b, i)) % 2
    decreases i
  {
    NoBits(i);
    BitIsBit(a, i);
    BitIsBit(b, i);
    if a > 0 && b > 0 {
      var low := (a % 2 + b % 2) % 2;
      assert Xor(a, b) == 2 * Xor(a / 2, b / 2) + low;
      assert Xor(a, b) / 2 == Xor(a / 2, b / 2) && Xor(a, b) % 2 == low;
      if i > 0 {
        XorBit(a / 2, b / 2, i - 1);
      }
    }
  }

  lemma {:induction false} NoBits(i: nat)
    ensures Bit(0, i) == 0
  {
    if i > 0 {
      NoBits(i - 1);
    }
  }

  lemma {:induction false} BitIsBit(n: nat, i: nat)
    ensures Bit(n, i) < 2
  {
    if i > 0 {
      BitIsBit(n / 2, i - 1);
    }
  }

  lemma XorWithA()
    ensures Xor(0xcbf2_9ce4_8422_2325, 0x61) == 0xcbf2_9ce4_8422_2344
  {
    assert Xor(0x197e539c9084446, 0) == 0x197e539c9084446;
    assert Xor(0x32fca739210888c, 1) == 0x32fca739210888d;
    assert Xor(0x65f94e724211119, 3) == 0x65f94e72421111a;
    assert Xor(0xcbf29ce48422232, 6) == 0xcbf29ce48422234;
    assert Xor(0x197e539c90844464, 12) == 0x197e539c90844468;
    assert Xor(0x32fca739210888c9, 24) == 0x32fca739210888d1;
    assert Xor(0x65f94e7242111192, 48) == 0x65f94e72421111a2;
    assert Xor(0xcbf29ce484222325, 97) == 0xcbf29ce484222344;
  }

  /** The published values of the 64-bit FNV-1a hash of nothing and of "a". */
  lemma FnvValues()
    ensures Fnv([]) == 0xcbf2_9ce4_8422_2325 && Fnv([0x61]) == 0xaf63_dc4c_8601_ec8c
  {
    XorWithA();
    hide Xor;
    assert [0x61][..0] == [];
    assert Mix(0xcbf2_9ce4_8422_2325, 0x61) == (0xcbf2_9ce4_8422_2344 * 0x100_0000_01b3) % TWO_64;
  }

  /** Attribute id and value as one key. */
  function AnchorKey(aid: nat, val: Key): (k: Key)
    requires aid < 0x1_0000_0000
  {
    Be32(aid) + val
  }

  lemma AnchorKeyInjective(a: nat, x: Key, b: nat, y: Key)
    requires a < 0x1_0000_0000 && b < 0x1_0000_0000 && AnchorKey(a, x) == AnchorKey(b, y)
    ensures a == b && x == y
  {
    hide Be32; hide ReadBe32;
    Be32RoundTrip(a);
    Be32RoundTrip(b);
    assert Be32(a) == AnchorKey(a, x)[..4] == AnchorKey(b, y)[..4] == Be32(b);
    assert x == AnchorKey(a, x)[4..] == AnchorKey(b, y)[4..] == y;
  }

  /** The hash of an attribute id and a value. */
  method FnvOf(aid: nat, val: Key) returns (h: nat)
    requires aid < 0x1_0000_0000
    ensures h == Fnv(AnchorKey(aid, val))
  {
    hide Mix;
    var k := AnchorKey(aid, val);
    h := FNV_SEED;
    h := Mix(h, Be32(aid)[0]);
    h := Mix(h, Be32(aid)[1]);
    h := Mix(h, Be32(aid)[2]);
    h := Mix(h, Be32(aid)[3]);
    hide Be32;
    FnvFour(k);
    for i := 0 to |val|
      invariant h == Fnv(k[..4 + i])
    {
      h := Mix(h, val[i]);
      assert k[..4 + (i + 1)][..4 + i] == k[..4 + i];
    }
    assert k[..4 + |val|] == k;
  }

  lemma FnvFour(k: Key)
    requires |k| >= 4
    ensures Fnv(k[..4]) == Mix(Mix(Mix(Mix(FNV_SEED, k[0]), k[1]), k[2]), k[3])
  {
    hide Mix;
    assert k[..4][..3] == k[..3] && k[..3][..2] == k[..2] && k[..2][..1] == k[..1] && k[..1][..0] == [];
    assert Fnv(k[..1]) == Mix(FNV_SEED, k[0]);
    assert Fnv(k[..2]) == Mix(Fnv(k[..1]), k[1]);
    assert Fnv(k[..3]) == Mix(Fnv(k[..2]), k[2]);
  }

  /** The hash of a stretch of the arena. */
  method FnvAt(arena: Key, off: nat, klen: nat) returns (h: nat)
    requires off + klen <= |arena|
    ensures h == Fnv(arena[off..off + klen])
  {
    h := FNV_SEED;
    for i := 0 to klen
      invariant h == Fnv(arena[off..off + i])
    {
      h := Mix(h, arena[off + i]);
      assert arena[off..off + (i + 1)][..i] == arena[off..off + i];
    }
  }

  // ---- walking around the table ----

  /** `j` places after `home` in a table of n. */
  function At(home: nat, j: nat, n: nat): (p: nat)
    requires home < n && j <= n
    ensures p < n
  {
    if home + j < n then home + j else home + j - n
  }

  /** How far `p` lies after `home`. */
  function Dist(home: nat, p: nat, n: nat): (d: nat)
    requires home < n && p < n
    ensures d < n && At(home, d, n) == p
  {
    if p >= home then p - home else p - home + n
  }

  function Home(k: Key, n: nat): (p: nat)
    requires n > 0
    ensures p < n
  {
    Fnv(k) % n
  }

  /** The next place of a walk, as the mask computes it. */
  lemma WalkOn(home: nat, i: nat, n: nat)
    requires IsPow2(n) && home < n && i < n
    ensures And(At(home, i, n) + 1, n - 1) == At(home, i + 1, n)
  {
    var p := At(home, i, n);
    AndMask(p + 1, n);
    if p + 1 == n {
      ModUnique(n, n, 1, 0);
    } else {
      ModUnique(p + 1, n, 0, p + 1);
    }
  }

  /** How many slots were ever used. */
  ghost function Used(slots: seq<int>): (n: nat)
    ensures n <= |slots|
  {
    if slots == [] then 0
    else Used(slots[..|slots| - 1]) + if slots[|slots| - 1] == EMPTY then 0 else 1
  }

  lemma {:induction false} UsedUpdate(slots: seq<int>, p: nat, v: int)
    requires p < |slots| && v != EMPTY
    ensures Used(slots[p := v]) == Used(slots) + if slots[p] == EMPTY then 1 else 0
  {
    var n := |slots| - 1;
    var s := slots[p := v];
    if p == n {
      assert s[..n] == slots[..n];
    } else {
      assert s[..n] == slots[..n][p := v];
      UsedUpdate(slots[..n], p, v);
    }
  }

  lemma {:induction false} EmptyExists(slots: seq<int>) returns (p: nat)
    requires Used(slots) < |slots|
    ensures p < |slots| && slots[p] == EMPTY
  {
    var n := |slots| - 1;
    if slots[n] == EMPTY {
      p := n;
    } else {
      p := EmptyExists(slots[..n]);
    }
  }

  lemma {:induction false} AllEmpty(slots: seq<int>)
    requires forall i :: 0 <= i < |slots| ==> slots[i] == EMPTY
    ensures Used(slots) == 0
  {
    if slots != [] {
      AllEmpty(slots[..|slots| - 1]);
    }
  }

  /** A probe from `home` gets as far as `p` without meeting an empty slot before it. */
  ghost predicate Reached(slots: seq<int>, home: nat, p: nat)
    requires home < |slots| && p < |slots|
  {
    forall j :: 0 <= j < Dist(home, p, |slots|) ==> slots[At(home, j, |slots|)] != EMPTY
  }

  // ---- records ----

  /** A record; its two list links are kept beside it in `Link`. */
  datatype Rec = Rec(off: int, klen: int, slotPos: int, eid: int, live: bool)

  datatype Link = Link(prev: int, next: int)

  predicate Stored(rec: Rec, arena: Key)
  {
    0 <= rec.off && 0 <= rec.klen && rec.off + rec.klen <= |arena|
  }

  function KeyOf(rec: Rec, arena: Key): (k: Key)
    requires Stored(rec, arena)
  {
    arena[rec.off..rec.off + rec.klen]
  }

  /** A live record sits in its slot, and a probe for its key gets there. */
  ghost predicate Placed(slots: seq<int>, recs: seq<Rec>, arena: Key, r: int)
  {
    && 0 <= r < |recs| && recs[r].live && Stored(recs[r], arena)
    && 0 <= recs[r].slotPos < |slots| && slots[recs[r].slotPos] == r
    && Reached(slots, Home(KeyOf(recs[r], arena), |slots|), recs[r].slotPos)
  }

  ghost predicate SlotOk(slots: seq<int>, recs: seq<Rec>, lru: seq<int>, p: nat)
    requires p < |slots|
  {
    slots[p] == EMPTY || slots[p] == TOMB || (slots[p] in lru && 0 <= slots[p] < |recs| && recs[slots[p]].slotPos == p)
  }

  ghost predicate WfTable(slots: seq<int>, recs: seq<Rec>, arena: Key, lru: seq<int>)
  {
    && |slots| >= 2 && IsPow2(|slots|)
    && (forall r :: r in lru ==> Placed(slots, recs, arena, r))
    && (forall p :: 0 <= p < |slots| ==> SlotOk(slots, recs, lru, p))
    && (forall r :: 0 <= r < |recs| && recs[r].live ==> r in lru)
  }

  /** The anchors in order of use. */
  ghost function Contents(recs: seq<Rec>, arena: Key, lru: seq<int>): (c: Cache)
    requires forall r :: r in lru ==> 0 <= r < |recs| && Stored(recs[r], arena)
    ensures |c| == |lru|
  {
    seq(|lru|, i requires 0 <= i < |lru| =>
      assert lru[i] in lru; AnchorCache.Entry(KeyOf(recs[lru[i]], arena), recs[lru[i]].eid))
  }

  ghost predicate Holds(slots: seq<int>, recs: seq<Rec>, arena: Key, lru: seq<int>, c: Cache)
  {
    && WfTable(slots, recs, arena, lru)
    && c == Contents(recs, arena, lru)
    && AnchorCache.Unique(c)
  }

  /** The live record of a key is the only place of the walk that can stop it. */
  lemma WalkFinds(slots: seq<int>, recs: seq<Rec>, arena: Key, lru: seq<int>, c: Cache, k: Key, home: nat, i: nat)
    requires Holds(slots, recs, arena, lru, c)
    requires home == Home(k, |slots|) && i < |slots| && slots[At(home, i, |slots|)] == EMPTY
    requires forall j :: 0 <= j < i ==> NotHere(slots, recs, arena, k, At(home, j, |slots|))
    ensures AnchorCache.Lookup(c, k).None?
  {
    hide Fnv; hide IsPow2; hide AnchorCache.Lookup; hide Reached; hide NotHere; hide At; hide Home;
    forall e | e in c
      ensures e.key != k
    {
      var m :| 0 <= m < |lru| && c[m] == e;
      assert lru[m] in lru;
      WalkMisses(slots, recs, arena, lru[m], k, home, i);
    }
  }

  /** A record whose place the walk has not met is the record of another key. */
  lemma WalkMisses(slots: seq<int>, recs: seq<Rec>, arena: Key, r: int, k: Key, home: nat, i: nat)
    requires Placed(slots, recs, arena, r) && home == Home(k, |slots|) && i < |slots|
    requires slots[At(home, i, |slots|)] == EMPTY
    requires forall j :: 0 <= j < i ==> NotHere(slots, recs, arena, k, At(home, j, |slots|))
    ensures KeyOf(recs[r], arena) != k
  {
    hide Fnv;
    var d := Dist(Home(KeyOf(recs[r], arena), |slots|), recs[r].slotPos, |slots|);
  }

  /** The slot does not hold the record of this key. */
  ghost predicate NotHere(slots: seq<int>, recs: seq<Rec>, arena: Key, k: Key, p: nat)
    requires p < |slots|
  {
    && slots[p] != EMPTY
    && (slots[p] != TOMB ==> 0 <= slots[p] < |recs| && Stored(recs[slots[p]], arena) && KeyOf(recs[slots[p]], arena) != k)
  }

  /** Walks from the home slot to the record of the key, or to where it would go: the first
      tombstone passed, or the empty slot that ends the walk. */
  method FindSlot(slots: seq<int>, recs: seq<Rec>, arena: Key, mask: nat, k: Key, h: nat, ghost lru: seq<int>, ghost c: Cache)
    returns (pos: nat, r: int)
    requires Holds(slots, recs, arena, lru, c) && mask == |slots| - 1 && h == Fnv(k)
    requires Used(slots) < |slots|
    ensures pos < |slots|
    ensures r >= 0 ==> slots[pos] == r && r in lru && r < |recs| && Stored(recs[r], arena) && KeyOf(recs[r], arena) == k
    ensures r < 0 ==> AnchorCache.Lookup(c, k).None?
    ensures r < 0 ==> (slots[pos] == EMPTY || slots[pos] == TOMB) && Reached(slots, Home(k, |slots|), pos)
    ensures r < 0 ==> forall j :: 0 <= j < Dist(Home(k, |slots|), pos, |slots|) ==> slots[At(Home(k, |slots|), j, |slots|)] != TOMB
  {
    hide And; hide Fnv; hide IsPow2; hide AnchorCache.Lookup; hide AnchorCache.Unique; hide Used;
    ghost var n := |slots|;
    ghost var home := Home(k, n);
    ghost var hole := EmptyExists(slots);
    AndMask(h, n);
    var p := And(h, mask);
    var tomb: int := -1;
    ghost var i: nat := 0;
    r := -1;
    while slots[p] != EMPTY && r < 0
      invariant i <= Dist(home, hole, n) && p == At(home, i, n)
      invariant -1 <= tomb < n
      invariant tomb >= 0 ==> slots[tomb] == TOMB && Dist(home, tomb, n) < i
      invariant forall j :: 0 <= j < (if tomb >= 0 then Dist(home, tomb, n) else i) ==> slots[At(home, j, n)] != TOMB
      invariant r < 0 ==> forall j :: 0 <= j < i ==> NotHere(slots, recs, arena, k, At(home, j, n))
      invariant r >= 0 ==> slots[p] == r && r in lru && r < |recs| && Stored(recs[r], arena) && KeyOf(recs[r], arena) == k
      decreases r < 0, Dist(home, hole, n) - i
    {
      var s := slots[p];
      assert SlotOk(slots, recs, lru, p);
      if s == TOMB {
        if tomb < 0 {
          tomb := p;
        }
      } else {
        assert Placed(slots, recs, arena, s);
      }
      if s != TOMB && KeyOf(recs[s], arena) == k {
        r := s;
      } else {
        assert NotHere(slots, recs, arena, k, p);
        WalkOn(home, i, n);
        p := And(p + 1, mask);
        i := i + 1;
      }
    }
    if r >= 0 {
      pos := p;
    } else {
      WalkFinds(slots, recs, arena, lru, c, k, home, i);
      pos := if tomb >= 0 then tomb else p;
      forall j | 0 <= j < Dist(home, pos, n)
        ensures slots[At(home, j, n)] != EMPTY
      {
        assert NotHere(slots, recs, arena, k, At(home, j, n));
      }
    }
  }

  // ---- the list in order of use ----

  ghost predicate LinkOk(links: seq<Link>, lru: seq<int>, i: nat)
    requires i < |lru|
  {
    && 0 <= lru[i] < |links|
    && links[lru[i]].prev == (if i == 0 then -1 else lru[i - 1])
    && links[lru[i]].next == (if i == |lru| - 1 then -1 else lru[i + 1])
  }

  ghost predicate Distinct(lru: seq<int>)
  {
    forall i, j :: 0 <= i < j < |lru| ==> lru[i] != lru[j]
  }

  ghost predicate WfLru(links: seq<Link>, head: int, tail: int, lru: seq<int>)
  {
    && Distinct(lru)
    && (forall i :: 0 <= i < |lru| ==> LinkOk(links, lru, i))
    && head == (if lru == [] then -1 else lru[0])
    && tail == (if lru == [] then -1 else lru[|lru| - 1])
  }

  function SetNext(links: seq<Link>, i: int, v: int): (r: seq<Link>)
    ensures |r| == |links|
  {
    if 0 <= i < |links| then links[i := links[i].(next := v)] else links
  }

  function SetPrev(links: seq<Link>, i: int, v: int): (r: seq<Link>)
    ensures |r| == |links|
  {
    if 0 <= i < |links| then links[i := links[i].(prev := v)] else links
  }

  function Unlinked(links: seq<Link>, i: nat): (r: seq<Link>)
    requires i < |links|
    ensures |r| == |links|
  {
    SetPrev(SetNext(links, links[i].prev, links[i].next), links[i].next, links[i].prev)[i := Link(-1, -1)]
  }

  ghost function Drop(lru: seq<int>, m: nat): (r: seq<int>)
    requires m < |lru|
  {
    lru[..m] + lru[m + 1..]
  }

  lemma UnlinkKeeps(links: seq<Link>, head: int, tail: int, lru: seq<int>, m: nat)
    requires WfLru(links, head, tail, lru) && m < |lru| && 0 <= lru[m] < |links|
    ensures
      var l := links[lru[m]];
      WfLru(Unlinked(links, lru[m]), if l.prev >= 0 then head else l.next, if l.next >= 0 then tail else l.prev, Drop(lru, m))
  {
    var i := lru[m];
    var rest := Drop(lru, m);
    var ls := Unlinked(links, i);
    assert LinkOk(links, lru, m);
    if m > 0 { assert LinkOk(links, lru, m - 1); }
    if m + 1 < |lru| { assert LinkOk(links, lru, m + 1); }
    DropDistinct(lru, m);
    forall j | 0 <= j < |rest|
      ensures LinkOk(ls, rest, j)
    {
      UnlinkOne(links, lru, m, j);
    }
  }

  lemma DropDistinct(lru: seq<int>, m: nat)
    requires Distinct(lru) && m < |lru|
    ensures Distinct(Drop(lru, m)) && lru[m] !in Drop(lru, m)
    ensures forall r :: r in lru <==> r in Drop(lru, m) || r == lru[m]
  {
    var rest := Drop(lru, m);
    forall j | 0 <= j < |rest|
      ensures rest[j] != lru[m]
    {
      assert rest[j] == lru[if j < m then j else j + 1];
    }
    forall i, j | 0 <= i < j < |rest|
      ensures rest[i] != rest[j]
    {
      assert rest[i] == lru[if i < m then i else i + 1] && rest[j] == lru[if j < m then j else j + 1];
    }
    assert lru == lru[..m] + [lru[m]] + lru[m + 1..];
  }

  lemma UnlinkOne(links: seq<Link>, lru: seq<int>, m: nat, j: nat)
    requires Distinct(lru) && m < |lru| && j < |lru| - 1
    requires forall i :: 0 <= i < |lru| ==> LinkOk(links, lru, i)
    ensures 0 <= lru[m] < |links| && LinkOk(Unlinked(links, lru[m]), Drop(lru, m), j)
  {
    var o := if j < m then j else j + 1;
    var rest := Drop(lru, m);
    assert LinkOk(links, lru, m) && LinkOk(links, lru, o);
    assert rest[j] == lru[o] && lru[o] != lru[m];
    assert m > 0 ==> LinkOk(links, lru, m - 1);
    assert m + 1 < |lru| ==> LinkOk(links, lru, m + 1);
    assert j > 0 ==> rest[j - 1] == lru[if j - 1 < m then j - 1 else j];
    assert j + 1 < |rest| ==> rest[j + 1] == lru[if j + 1 < m then j + 1 else j + 2];
  }

  /** Puts a record at the front of the list. */
  function Pushed(links: seq<Link>, head: int, i: nat): (r: seq<Link>)
    requires i < |links|
    ensures |r| == |links|
  {
    SetPrev(links[i := Link(-1, head)], head, i)
  }

  lemma PushKeeps(links: seq<Link>, head: int, tail: int, lru: seq<int>, i: nat)
    requires WfLru(links, head, tail, lru) && i < |links| && i !in lru
    ensures WfLru(Pushed(links, head, i), i, if head >= 0 then tail else i, [i as int] + lru)
  {
    var all: seq<int> := [i as int] + lru;
    var ls := Pushed(links, head, i);
    assert lru != [] ==> LinkOk(links, lru, 0);
    forall j | 0 <= j < |all|
      ensures LinkOk(ls, all, j)
    {
      if j > 0 {
        assert LinkOk(links, lru, j - 1);
        assert all[j] == lru[j - 1] && all[j] in lru;
      }
    }
    forall a, b | 0 <= a < b < |all|
      ensures all[a] != all[b]
    {
      if a == 0 {
        assert all[b] in lru;
      }
    }
  }

  // ---- changes to the table ----

  lemma ReachedGrows(a: seq<int>, b: seq<int>, home: nat, p: nat)
    requires |a| == |b| && home < |a| && p < |a| && Reached(a, home, p)
    requires forall q :: 0 <= q < |a| && a[q] != EMPTY ==> b[q] != EMPTY
    ensures Reached(b, home, p)
  {
  }

  /** Only occupied slots changed, into tombstones. */
  ghost predicate Faded(a: seq<int>, b: seq<int>)
  {
    |a| == |b| && forall q :: 0 <= q < |a| ==> b[q] == a[q] || (a[q] >= 0 && b[q] == TOMB)
  }

  /** Removing the record at place m of the list. */
  lemma KillKeeps(slots: seq<int>, recs: seq<Rec>, arena: Key, lru: seq<int>, c: Cache, m: nat)
    requires Holds(slots, recs, arena, lru, c) && Distinct(lru) && m < |lru|
    requires Placed(slots, recs, arena, lru[m])
    ensures
      var r := lru[m];
      var p := recs[r].slotPos;
      && Holds(slots[p := TOMB], recs[r := recs[r].(live := false, slotPos := EMPTY)], arena, Drop(lru, m),
               AnchorCache.Without(c, c[m].key))
      && Used(slots[p := TOMB]) == Used(slots) && Faded(slots, slots[p := TOMB])
  {
    hide AnchorCache.Without; hide IsPow2; hide Used; hide Fnv; hide Dist;
    var r := lru[m];
    var p := recs[r].slotPos;
    var slots' := slots[p := TOMB];
    var recs' := recs[r := recs[r].(live := false, slotPos := EMPTY)];
    var rest := Drop(lru, m);
    UsedUpdate(slots, p, TOMB);
    DropDistinct(lru, m);
    forall x | x in rest
      ensures Placed(slots', recs', arena, x)
    {
      assert Placed(slots, recs, arena, x);
      ReachedGrows(slots, slots', Home(KeyOf(recs[x], arena), |slots|), recs[x].slotPos);
    }
    forall q | 0 <= q < |slots|
      ensures SlotOk(slots', recs', rest, q)
    {
      assert SlotOk(slots, recs, lru, q);
    }
    DropContents(recs, recs', arena, lru, m);
    AnchorCache.WithoutAt(c, m);
    AnchorCache.WithoutUnique(c, c[m].key);
  }

  lemma DropContents(recs: seq<Rec>, recs': seq<Rec>, arena: Key, lru: seq<int>, m: nat)
    requires forall r :: r in lru ==> 0 <= r < |recs| && Stored(recs[r], arena)
    requires m < |lru| && Distinct(lru) && |recs| == |recs'|
    requires forall r :: 0 <= r < |recs| && r != lru[m] ==> recs'[r] == recs[r]
    ensures forall r :: r in Drop(lru, m) ==> 0 <= r < |recs'| && Stored(recs'[r], arena)
    ensures Contents(recs', arena, Drop(lru, m)) == Contents(recs, arena, lru)[..m] + Contents(recs, arena, lru)[m + 1..]
  {
    DropDistinct(lru, m);
    var rest := Drop(lru, m);
    var c := Contents(recs, arena, lru);
    forall j | 0 <= j < |rest|
      ensures Contents(recs', arena, rest)[j] == (c[..m] + c[m + 1..])[j]
    {
      assert rest[j] in rest && rest[j] == lru[if j < m then j else j + 1];
    }
  }

  /** Moving the record at place m to the front, with a new entity. */
  lemma RefreshKeeps(slots: seq<int>, recs: seq<Rec>, arena: Key, lru: seq<int>, c: Cache, m: nat, eid: int)
    requires Holds(slots, recs, arena, lru, c) && Distinct(lru) && m < |lru|
    requires Placed(slots, recs, arena, lru[m])
    ensures
      var r := lru[m];
      Holds(slots, recs[r := recs[r].(eid := eid)], arena, [r] + Drop(lru, m),
            [AnchorCache.Entry(c[m].key, eid)] + AnchorCache.Without(c, c[m].key))
  {
    hide AnchorCache.Without; hide IsPow2; hide Fnv; hide Reached;
    var r := lru[m];
    var recs' := recs[r := recs[r].(eid := eid)];
    var lru' := [r] + Drop(lru, m);
    DropDistinct(lru, m);
    forall x | x in lru'
      ensures Placed(slots, recs', arena, x)
    {
      assert Placed(slots, recs, arena, x);
    }
    forall q | 0 <= q < |slots|
      ensures SlotOk(slots, recs', lru', q)
    {
      assert SlotOk(slots, recs, lru, q);
    }
    RefreshContents(recs, recs', arena, lru, c, m, eid);
  }

  lemma RefreshContents(recs: seq<Rec>, recs': seq<Rec>, arena: Key, lru: seq<int>, c: Cache, m: nat, eid: int)
    requires forall r :: r in lru ==> 0 <= r < |recs| && Stored(recs[r], arena)
    requires m < |lru| && Distinct(lru) && 0 <= lru[m] < |recs| && recs' == recs[lru[m] := recs[lru[m]].(eid := eid)]
    requires c == Contents(recs, arena, lru) && AnchorCache.Unique(c)
    ensures forall r :: r in [lru[m]] + Drop(lru, m) ==> 0 <= r < |recs'| && Stored(recs'[r], arena)
    ensures
      var c' := [AnchorCache.Entry(c[m].key, eid)] + AnchorCache.Without(c, c[m].key);
      Contents(recs', arena, [lru[m]] + Drop(lru, m)) == c' && AnchorCache.Unique(c')
  {
    hide AnchorCache.Without; hide AnchorCache.Unique;
    var lru' := [lru[m]] + Drop(lru, m);
    DropDistinct(lru, m);
    DropContents(recs, recs', arena, lru, m);
    AnchorCache.WithoutAt(c, m);
    AnchorCache.WithoutUnique(c, c[m].key);
    var tail := AnchorCache.Without(c, c[m].key);
    var c' := Contents(recs', arena, lru');
    ContentsCons(recs', arena, lru[m], Drop(lru, m));
    assert KeyOf(recs'[lru[m]], arena) == c[m].key;
    FrontUnique(AnchorCache.Entry(c[m].key, eid), tail);
  }

  lemma ContentsCons(recs: seq<Rec>, arena: Key, r: int, lru: seq<int>)
    requires forall x :: x in [r] + lru ==> 0 <= x < |recs| && Stored(recs[x], arena)
    requires 0 <= r < |recs| && Stored(recs[r], arena)
    requires forall x :: x in lru ==> 0 <= x < |recs| && Stored(recs[x], arena)
    ensures Contents(recs, arena, [r] + lru)
         == [AnchorCache.Entry(KeyOf(recs[r], arena), recs[r].eid)] + Contents(recs, arena, lru)
  {
    hide KeyOf;
  }

  lemma FrontUnique(e: Entry, c: Cache)
    requires AnchorCache.Unique(c) && forall x :: x in c ==> x.key != e.key
    ensures AnchorCache.Unique([e] + c)
  {
  }

  /** Filling a free slot on the walk of a new key. */
  lemma InsertKeeps(slots: seq<int>, recs: seq<Rec>, arena: Key, lru: seq<int>, c: Cache, nr: nat, p: nat, k: Key, eid: int)
    requires Holds(slots, recs, arena, lru, c) && nr < |recs| && !recs[nr].live
    requires p < |slots| && slots[p] < 0 && Reached(slots, Home(k, |slots|), p)
    requires AnchorCache.Lookup(c, k).None?
    ensures nr !in lru
    ensures Holds(slots[p := nr], recs[nr := Rec(|arena|, |k|, p, eid, true)], arena + k, [nr as int] + lru,
                  [AnchorCache.Entry(k, eid)] + c)
    ensures Used(slots[p := nr]) <= Used(slots) + 1
  {
    hide AnchorCache.Lookup; hide Used; hide WfTable; hide Contents; hide Reached; hide AnchorCache.Unique;
    UsedUpdate(slots, p, nr);
    InsertTable(slots, recs, arena, lru, nr, p, k, eid);
    InsertContents(recs, recs[nr := Rec(|arena|, |k|, p, eid, true)], arena, k, lru, nr, c);
    FrontUnique(AnchorCache.Entry(k, eid), c);
  }

  lemma InsertTable(slots: seq<int>, recs: seq<Rec>, arena: Key, lru: seq<int>, nr: nat, p: nat, k: Key, eid: int)
    requires WfTable(slots, recs, arena, lru) && nr < |recs| && !recs[nr].live
    requires p < |slots| && slots[p] < 0 && Reached(slots, Home(k, |slots|), p)
    ensures nr !in lru && forall x :: x in lru ==> 0 <= x < |recs| && Stored(recs[x], arena)
    ensures WfTable(slots[p := nr], recs[nr := Rec(|arena|, |k|, p, eid, true)], arena + k, [nr as int] + lru)
  {
    hide IsPow2; hide Fnv; hide Dist;
    var slots' := slots[p := nr];
    var recs' := recs[nr := Rec(|arena|, |k|, p, eid, true)];
    var arena' := arena + k;
    var lru': seq<int> := [nr as int] + lru;
    assert nr in lru ==> Placed(slots, recs, arena, nr);
    ReachedGrows(slots, slots', Home(k, |slots|), p);
    assert arena'[|arena|..|arena| + |k|] == k;
    forall x | x in lru
      ensures 0 <= x < |recs| && Stored(recs[x], arena) && Placed(slots', recs', arena', x)
    {
      assert Placed(slots, recs, arena, x);
      assert KeyOf(recs'[x], arena') == KeyOf(recs[x], arena);
      ReachedGrows(slots, slots', Home(KeyOf(recs[x], arena), |slots|), recs[x].slotPos);
    }
    forall q | 0 <= q < |slots|
      ensures SlotOk(slots', recs', lru', q)
    {
      assert SlotOk(slots, recs, lru, q);
    }
  }

  lemma InsertContents(recs: seq<Rec>, recs': seq<Rec>, arena: Key, k: Key, lru: seq<int>, nr: nat, c: Cache)
    requires nr !in lru && forall x :: x in lru ==> 0 <= x < |recs| && Stored(recs[x], arena)
    requires c == Contents(recs, arena, lru)
    requires nr < |recs| == |recs'| && (forall x :: 0 <= x < |recs| && x != nr ==> recs'[x] == recs[x])
    requires recs'[nr].off == |arena| && recs'[nr].klen == |k|
    ensures forall x :: x in [nr as int] + lru ==> 0 <= x < |recs'| && Stored(recs'[x], arena + k)
    ensures Contents(recs', arena + k, [nr as int] + lru) == [AnchorCache.Entry(k, recs'[nr].eid)] + c
  {
    var arena' := arena + k;
    var lru': seq<int> := [nr as int] + lru;
    assert arena'[|arena|..|arena| + |k|] == k;
    forall j | 0 <= j < |lru|
      ensures Contents(recs', arena', lru')[j + 1] == c[j]
    {
      assert lru[j] in lru && lru'[j + 1] == lru[j];
      assert KeyOf(recs'[lru[j]], arena') == KeyOf(recs[lru[j]], arena);
    }
    assert Contents(recs', arena', lru') == [AnchorCache.Entry(k, recs'[nr].eid)] + c;
  }

  /** A spare record changes nothing. */
  lemma SpareKeeps(slots: seq<int>, recs: seq<Rec>, arena: Key, lru: seq<int>, c: Cache, rec: Rec)
    requires Holds(slots, recs, arena, lru, c) && !rec.live
    ensures Holds(slots, recs + [rec], arena, lru, c)
  {
    hide IsPow2; hide Fnv; hide Reached;
    var recs' := recs + [rec];
    forall x | x in lru
      ensures Placed(slots, recs', arena, x)
    {
      assert Placed(slots, recs, arena, x);
    }
    forall q | 0 <= q < |slots|
      ensures SlotOk(slots, recs', lru, q)
    {
      assert SlotOk(slots, recs, lru, q);
    }
    assert Contents(recs', arena, lru) == Contents(recs, arena, lru);
  }

  // ---- rehashing ----

  /** The first empty slot on the walk of a hash. */
  method FindEmpty(slots: seq<int>, mask: nat, k: Key, h: nat) returns (p: nat)
    requires |slots| > 0 && IsPow2(|slots|) && mask == |slots| - 1 && h == Fnv(k) && Used(slots) < |slots|
    ensures p < |slots| && slots[p] == EMPTY && Reached(slots, Home(k, |slots|), p)
  {
    hide And; hide Fnv; hide IsPow2; hide Used;
    ghost var n := |slots|;
    ghost var home := Home(k, n);
    ghost var hole := EmptyExists(slots);
    AndMask(h, n);
    p := And(h, mask);
    ghost var i: nat := 0;
    while slots[p] != EMPTY
      invariant i <= Dist(home, hole, n) && p == At(home, i, n)
      invariant forall j :: 0 <= j < i ==> slots[At(home, j, n)] != EMPTY
      decreases Dist(home, hole, n) - i
    {
      WalkOn(home, i, n);
      p := And(p + 1, mask);
      i := i + 1;
    }
  }

  ghost predicate SameAnchor(a: Rec, arena: Key, b: Rec, arena': Key)
  {
    Stored(a, arena) && Stored(b, arena') && KeyOf(b, arena') == KeyOf(a, arena) && b.eid == a.eid
  }

  ghost predicate MovedSlot(slots: seq<int>, recs: seq<Rec>, lru: seq<int>, r: nat, q: nat)
    requires q < |slots| && r <= |recs|
  {
    slots[q] == EMPTY || (slots[q] in lru && 0 <= slots[q] < r && recs[slots[q]].slotPos == q)
  }

  /** The records before r sit in the new table and arena, the others are untouched. */
  ghost predicate Moved(slots: seq<int>, recs0: seq<Rec>, arena0: Key, recs: seq<Rec>, arena: Key, lru: seq<int>, r: nat)
  {
    && |recs| == |recs0| && r <= |recs|
    && (forall x :: x in lru && x < r ==> Placed(slots, recs, arena, x) && SameAnchor(recs0[x], arena0, recs[x], arena))
    && (forall x :: r <= x < |recs| ==> recs[x] == recs0[x])
    && (forall x :: 0 <= x < r ==> recs[x].live == recs0[x].live)
    && (forall q :: 0 <= q < |slots| ==> MovedSlot(slots, recs, lru, r, q))
  }

  lemma MoveOne(slots: seq<int>, recs0: seq<Rec>, arena0: Key, recs: seq<Rec>, arena: Key, lru: seq<int>, r: nat, p: nat)
    requires Moved(slots, recs0, arena0, recs, arena, lru, r) && r < |recs| && r in lru
    requires Stored(recs0[r], arena0) && recs0[r].live
    requires p < |slots| && slots[p] == EMPTY && Reached(slots, Home(KeyOf(recs0[r], arena0), |slots|), p)
    ensures Moved(slots[p := r], recs0, arena0, recs[r := recs[r].(off := |arena|, slotPos := p)],
                  arena + KeyOf(recs0[r], arena0), lru, r + 1)
  {
    hide Fnv; hide Dist;
    var k := KeyOf(recs0[r], arena0);
    var slots' := slots[p := r];
    var recs' := recs[r := recs[r].(off := |arena|, slotPos := p)];
    var arena' := arena + k;
    assert arena'[|arena|..|arena| + |k|] == k;
    var next := r + 1;
    ReachedGrows(slots, slots', Home(k, |slots|), p);
    forall x | x in lru && x < next
      ensures Placed(slots', recs', arena', x) && SameAnchor(recs0[x], arena0, recs'[x], arena')
    {
      if x < r {
        assert Placed(slots, recs, arena, x) && SameAnchor(recs0[x], arena0, recs[x], arena);
        assert KeyOf(recs'[x], arena') == KeyOf(recs[x], arena);
        ReachedGrows(slots, slots', Home(KeyOf(recs[x], arena), |slots|), recs[x].slotPos);
      }
    }
    forall q | 0 <= q < |slots|
      ensures MovedSlot(slots', recs', lru, next, q)
    {
      assert MovedSlot(slots, recs, lru, r, q);
    }
  }

  lemma SkipOne(slots: seq<int>, recs0: seq<Rec>, arena0: Key, recs: seq<Rec>, arena: Key, lru: seq<int>, r: nat)
    requires Moved(slots, recs0, arena0, recs, arena, lru, r) && r < |recs| && r !in lru
    ensures Moved(slots, recs0, arena0, recs, arena, lru, r + 1)
  {
    hide Placed; hide SameAnchor;
    var next := r + 1;
    forall q | 0 <= q < |slots|
      ensures MovedSlot(slots, recs, lru, next, q)
    {
      assert MovedSlot(slots, recs, lru, r, q);
    }
  }

  ghost function Below(lru: seq<int>, r: int): set<int>
  {
    set x | x in lru && x < r
  }

  lemma BelowSize(lru: seq<int>, r: int)
    ensures |Below(lru, r)| <= |lru|
    ensures Below(lru, r + 1) == Below(lru, r) + (if r in lru then {r} else {})
    ensures |Below(lru, r + 1)| == |Below(lru, r)| + (if r in lru then 1 else 0)
  {
    BelowBound(lru, r);
  }

  lemma {:induction false} BelowBound(lru: seq<int>, r: int)
    ensures |Below(lru, r)| <= |lru|
  {
    if lru == [] {
      assert Below(lru, r) == {};
    } else {
      var front, last := lru[..|lru| - 1], lru[|lru| - 1];
      BelowBound(front, r);
      assert Below(lru, r) == Below(front, r) + (if last < r then {last} else {});
    }
  }

  /** Rebuilds the table at a given capacity and compacts the arena: every anchor stays. */
  method Rebuild(recs0: seq<Rec>, arena0: Key, newCap: nat, ghost slots0: seq<int>, ghost lru: seq<int>, ghost c: Cache)
    returns (slots: seq<int>, recs: seq<Rec>, arena: Key)
    requires Holds(slots0, recs0, arena0, lru, c)
    requires IsPow2(newCap) && newCap >= 2 && |lru| < newCap
    ensures |slots| == newCap && |recs| == |recs0| && Used(slots) <= |lru|
    ensures Holds(slots, recs, arena, lru, c)
    ensures forall x :: 0 <= x < |recs| ==> recs[x].live == recs0[x].live
  {
    hide And; hide Fnv; hide IsPow2; hide Used; hide Reached; hide Moved; hide Holds; hide Below;
    slots := seq(newCap, _ => EMPTY);
    AllEmpty(slots);
    recs, arena := recs0, [];
    NoneMoved(slots, slots0, recs0, arena0, lru, c);
    for r := 0 to |recs0|
      invariant |slots| == newCap
      invariant Moved(slots, recs0, arena0, recs, arena, lru, r)
      invariant Used(slots) == |Below(lru, r)|
    {
      BelowSize(lru, r);
      ToMove(slots0, recs0, arena0, lru, c, slots, recs, arena, r);
      if recs[r].live {
        var k := KeyOf(recs[r], arena0);
        var h := FnvAt(arena0, recs[r].off, recs[r].klen);
        var p := FindEmpty(slots, newCap - 1, k, h);
        MoveOne(slots, recs0, arena0, recs, arena, lru, r, p);
        UsedUpdate(slots, p, r);
        slots := slots[p := r];
        recs := recs[r := recs[r].(off := |arena|, slotPos := p)];
        arena := arena + k;
      } else {
        SkipOne(slots, recs0, arena0, recs, arena, lru, r);
      }
    }
    BelowSize(lru, |recs0|);
    AllMoved(slots0, recs0, arena0, slots, recs, arena, lru, c);
  }

  lemma NoneMoved(slots: seq<int>, slots0: seq<int>, recs: seq<Rec>, arena: Key, lru: seq<int>, c: Cache)
    requires Holds(slots0, recs, arena, lru, c)
    requires forall q :: 0 <= q < |slots| ==> slots[q] == EMPTY
    ensures Moved(slots, recs, arena, recs, [], lru, 0) && Below(lru, 0) == {}
  {
    hide Reached; hide IsPow2;
    assert forall r :: r in lru ==> Placed(slots0, recs, arena, r);
  }

  /** The next record as the rebuilding finds it. */
  lemma ToMove(slots0: seq<int>, recs0: seq<Rec>, arena0: Key, lru: seq<int>, c: Cache,
               slots: seq<int>, recs: seq<Rec>, arena: Key, r: nat)
    requires Holds(slots0, recs0, arena0, lru, c) && Moved(slots, recs0, arena0, recs, arena, lru, r) && r < |recs0|
    ensures |recs| == |recs0| && recs[r] == recs0[r]
    ensures recs0[r].live <==> r in lru
    ensures recs0[r].live ==> Stored(recs0[r], arena0)
  {
    hide Reached; hide IsPow2;
    assert r in lru ==> Placed(slots0, recs0, arena0, r);
  }

  lemma AllMoved(slots0: seq<int>, recs0: seq<Rec>, arena0: Key, slots: seq<int>, recs: seq<Rec>, arena: Key, lru: seq<int>, c: Cache)
    requires Holds(slots0, recs0, arena0, lru, c) && |slots| >= 2 && IsPow2(|slots|)
    requires Moved(slots, recs0, arena0, recs, arena, lru, |recs0|)
    ensures Holds(slots, recs, arena, lru, c)
    ensures |recs| == |recs0| && forall x :: 0 <= x < |recs| ==> recs[x].live == recs0[x].live
  {
    hide Reached; hide IsPow2; hide Fnv; hide AnchorCache.Unique;
    forall x | x in lru
      ensures Placed(slots, recs, arena, x) && SameAnchor(recs0[x], arena0, recs[x], arena)
    {
      assert Placed(slots0, recs0, arena0, x);
    }
    forall q | 0 <= q < |slots|
      ensures SlotOk(slots, recs, lru, q)
    {
      assert MovedSlot(slots, recs, lru, |recs0|, q);
    }
    forall i | 0 <= i < |lru|
      ensures Contents(recs, arena, lru)[i] == c[i]
    {
      assert lru[i] in lru;
    }
  }

  // ---- the index ----

  ghost predicate WfFree(free: seq<int>, recs: seq<Rec>)
  {
    Distinct(free) && forall f :: f in free ==> 0 <= f < |recs| && !recs[f].live
  }

  lemma FreeKill(free: seq<int>, recs: seq<Rec>, r: nat)
    requires WfFree(free, recs) && r < |recs| && recs[r].live
    ensures WfFree(free + [r as int], recs[r := recs[r].(live := false, slotPos := EMPTY)])
  {
    var all: seq<int> := free + [r as int];
    forall i, j | 0 <= i < j < |all|
      ensures all[i] != all[j]
    {
      if j == |free| {
        assert all[i] in free;
      }
    }
  }

  lemma DistinctLru(links: seq<Link>, head: int, tail: int, lru: seq<int>)
    requires WfLru(links, head, tail, lru)
    ensures Distinct(lru)
    ensures forall i :: 0 <= i < |lru| ==> 0 <= lru[i] < |links|
  {
    forall i | 0 <= i < |lru|
      ensures 0 <= lru[i] < |links|
    {
      assert LinkOk(links, lru, i);
    }
  }

  lemma HoldsAt(slots: seq<int>, recs: seq<Rec>, arena: Key, lru: seq<int>, c: Cache, m: nat)
    requires Holds(slots, recs, arena, lru, c) && m < |lru|
    ensures |c| == |lru| && AnchorCache.Unique(c)
    ensures Placed(slots, recs, arena, lru[m])
    ensures c[m] == AnchorCache.Entry(KeyOf(recs[lru[m]], arena), recs[lru[m]].eid)
  {
    assert lru[m] in lru;
  }

  class Index {
    const maxBytes: int
    var slots: seq<int>
    var mask: nat
    var live: nat
    var tombs: nat
    var recs: seq<Rec>
    var links: seq<Link>
    var free: seq<int>
    var arena: Key
    var head: int
    var tail: int
    var curBytes: int

    /** The live records, most recently used first, and what they hold. */
    ghost var lru: seq<int>
    ghost var cache: Cache

    ghost predicate Valid()
      reads this
    {
      && Holds(slots, recs, arena, lru, cache)
      && WfLru(links, head, tail, lru) && |links| == |recs|
      && WfFree(free, recs)
      && mask == |slots| - 1 && live == |lru|
      && (live + tombs) * 10 < |slots| * 7 && Used(slots) <= live + tombs
      && curBytes == AnchorCache.Size(cache)
    }

    constructor (budget: int)
      ensures Valid() && cache == [] && maxBytes == budget && |slots| == 2 && live == tombs == 0 && recs == [] && arena == []
    {
      maxBytes := budget;
      slots, mask := [EMPTY, EMPTY], 1;
      live, tombs, curBytes := 0, 0, 0;
      recs, links, free, arena := [], [], [], [];
      head, tail := -1, -1;
      lru, cache := [], [];
      new;
      AllEmpty(slots);
    }

    /** There is always an empty slot to end a walk, even though `tombs` also counts reused ones. */
    lemma HasEmpty()
      requires Valid()
      ensures Used(slots) < |slots|
    {
    }

    method LruUnlink(i: nat, ghost m: nat)
      requires WfLru(links, head, tail, lru) && m < |lru| && lru[m] == i < |links|
      modifies this`links, this`head, this`tail, this`lru
      ensures lru == Drop(old(lru), m) && |links| == |old(links)|
      ensures WfLru(links, head, tail, lru)
    {
      UnlinkKeeps(links, head, tail, lru, m);
      assert LinkOk(links, lru, m);
      var l := links[i];
      UnlinkedSteps(links, lru, i, m);
      if l.prev >= 0 {
        links := SetNext(links, l.prev, l.next);
      } else {
        head := l.next;
      }
      if l.next >= 0 {
        links := SetPrev(links, l.next, l.prev);
      } else {
        tail := l.prev;
      }
      links := links[i := Link(-1, -1)];
      lru := Drop(lru, m);
    }

    method LruPush(i: nat)
      requires WfLru(links, head, tail, lru) && i < |links| && i !in lru
      modifies this`links, this`head, this`tail, this`lru
      ensures lru == [i as int] + old(lru) && |links| == |old(links)|
      ensures WfLru(links, head, tail, lru)
    {
      PushKeeps(links, head, tail, lru, i);
      links := links[i := Link(-1, head)];
      if head >= 0 {
        links := SetPrev(links, head, i);
      } else {
        tail := i;
      }
      head := i;
      lru := [i as int] + lru;
    }

    /** Moves a record to the front of the list. */
    method Touch(i: nat, ghost m: nat)
      requires WfLru(links, head, tail, lru) && m < |lru| && lru[m] == i < |links|
      modifies this`links, this`head, this`tail, this`lru
      ensures lru == [i as int] + Drop(old(lru), m) && |links| == |old(links)|
      ensures WfLru(links, head, tail, lru)
    {
      ghost var was := lru;
      if head != i {
        DropDistinct(lru, m);
        LruUnlink(i, m);
        LruPush(i);
      } else {
        assert m == 0;
        assert lru == [i as int] + Drop(lru, 0);
      }
    }

    /** Takes a record out: tombstone, list and free list. */
    method KillRec(r: nat, ghost m: nat)
      requires Valid() && m < |lru| && lru[m] == r
      modifies this
      ensures Valid()
      ensures cache == AnchorCache.Without(old(cache), old(cache)[m].key)
      ensures live == old(live) - 1 && live + tombs == old(live + tombs)
      ensures Faded(old(slots), slots) && |recs| == |old(recs)|
      ensures forall x :: 0 <= x < |recs| && !old(recs)[x].live ==> !recs[x].live
      ensures forall f :: f in free ==> f in old(free) || f == r
      ensures arena == old(arena)
    {
      hide Holds; hide WfLru; hide WfFree; hide Used; hide Faded; hide AnchorCache.Size; hide AnchorCache.Without;
      hide Drop;
      KillFacts(slots, recs, arena, lru, cache, links, head, tail, free, m);
      var rc := recs[r];
      var slots' := slots[rc.slotPos := TOMB];
      var recs' := recs[r := rc.(live := false, slotPos := EMPTY)];
      tombs := tombs + 1;
      LruUnlink(r, m);
      slots, recs := slots', recs';
      free := free + [r as int];
      live := live - 1;
      curBytes := curBytes - (rc.klen + AnchorCache.ENTRY_OVERHEAD);
      cache := AnchorCache.Without(cache, cache[m].key);
    }

    /** The entity of an anchor; a hit becomes the most recently used. */
    method Probe(aid: nat, val: Key) returns (eid: int, ok: bool)
      requires Valid() && aid < 0x1_0000_0000
      modifies this`links, this`head, this`tail, this`lru, this`cache
      ensures Valid()
      ensures AnchorCache.Lookup(old(cache), AnchorKey(aid, val)) == if ok then AnchorCache.Some(eid) else AnchorCache.None
      ensures cache == AnchorCache.Touch(old(cache), AnchorKey(aid, val)) && (!ok ==> eid == 0)
    {
      hide Holds; hide WfLru; hide WfFree; hide Used; hide AnchorCache.Size; hide AnchorCache.Without; hide Drop;
      hide AnchorKey;
      hide AnchorCache.Lookup;
      var k := AnchorKey(aid, val);
      if live == 0 {
        NothingLive(slots, recs, arena, lru, cache, k);
        return 0, false;
      }
      var h := FnvOf(aid, val);
      HasEmpty();
      var pos, r := FindSlot(slots, recs, arena, mask, k, h, lru, cache);
      if r < 0 {
        return 0, false;
      }
      ghost var m := Refreshed(slots, recs, arena, lru, cache, links, head, tail, r, recs[r].eid);
      assert recs[r := recs[r].(eid := recs[r].eid)] == recs;
      Touch(r, m);
      cache := AnchorCache.Touch(cache, k);
      return recs[r].eid, true;
    }

    method Del(aid: nat, val: Key)
      requires Valid() && aid < 0x1_0000_0000
      modifies this
      ensures Valid()
      ensures cache == AnchorCache.Without(old(cache), AnchorKey(aid, val))
    {
      hide Holds; hide WfLru; hide WfFree; hide Used; hide AnchorCache.Size; hide AnchorCache.Without; hide AnchorKey;
      hide AnchorCache.Lookup;
      var k := AnchorKey(aid, val);
      if live == 0 {
        NothingLive(slots, recs, arena, lru, cache, k);
        AnchorCache.WithoutAbsent(cache, k);
        return;
      }
      var h := FnvOf(aid, val);
      HasEmpty();
      var pos, r := FindSlot(slots, recs, arena, mask, k, h, lru, cache);
      if r >= 0 {
        ghost var m :| 0 <= m < |lru| && lru[m] == r;
        HoldsAt(slots, recs, arena, lru, cache, m);
        KillRec(r, m);
      } else {
        AnchorCache.WithoutAbsent(cache, k);
      }
    }

    method Rehash(newCap: nat)
      requires Valid() && IsPow2(newCap) && newCap >= |slots|
      modifies this`slots, this`recs, this`arena, this`mask, this`tombs
      ensures Valid() && |slots| == newCap && tombs == 0
    {
      hide WfLru; hide Used; hide AnchorCache.Size; hide IsPow2;
      var s, rs, a := Rebuild(recs, arena, newCap, slots, lru, cache);
      slots, recs, arena := s, rs, a;
      mask := newCap - 1;
      tombs := 0;
    }

    /** Makes room for one more insertion. */
    method Grow()
      requires Valid()
      modifies this`slots, this`recs, this`arena, this`mask, this`tombs
      ensures Valid() && (live + tombs + 1) * 10 < |slots| * 7
      ensures (old(live + tombs) + 1) * 10 < |old(slots)| * 7 ==> slots == old(slots) && tombs == old(tombs)
      ensures (old(live + tombs) + 1) * 10 >= |old(slots)| * 7 ==> tombs == 0
      ensures (old(live + tombs) + 1) * 10 >= |old(slots)| * 7 ==>
        |slots| == if old(tombs) > live / 4 then |old(slots)| else if |old(slots)| * 2 < 1024 then 1024 else |old(slots)| * 2
    {
      hide Holds; hide WfLru; hide WfFree; hide Used; hide AnchorCache.Size;
      if (live + tombs + 1) * 10 >= |slots| * 7 {
        Capacity(slots, recs, arena, lru, cache);
        if tombs > live / 4 {
          Rehash(|slots|);
        } else {
          var nc := |slots| * 2;
          if nc < MIN_SLOTS {
            nc := MIN_SLOTS;
          }
          Rehash(nc);
        }
      }
    }

    /** Evicts the least recently used anchors until an entry of the given size fits. */
    method EvictUntilFits(incoming: nat)
      requires Valid()
      modifies this
      ensures Valid()
      ensures cache == AnchorCache.Fit(old(cache), maxBytes - incoming)
      ensures live + tombs == old(live + tombs)
      ensures Faded(old(slots), slots) && |recs| == |old(recs)|
      ensures forall x :: 0 <= x < |recs| && !old(recs)[x].live ==> !recs[x].live
      ensures forall f :: f in free ==> f in old(free) || (0 <= f < |recs| && old(recs)[f].live)
      ensures arena == old(arena)
    {
      hide Holds; hide WfLru; hide WfFree; hide Used; hide AnchorCache.Size; hide AnchorCache.Without;
      while curBytes + incoming > maxBytes && live > 0
        invariant Valid()
        invariant AnchorCache.Fit(cache, maxBytes - incoming) == AnchorCache.Fit(old(cache), maxBytes - incoming)
        invariant live + tombs == old(live + tombs)
        invariant Faded(old(slots), slots) && |recs| == |old(recs)|
        invariant forall x :: 0 <= x < |recs| && !old(recs)[x].live ==> !recs[x].live
        invariant forall f :: f in free ==> f in old(free) || (0 <= f < |recs| && old(recs)[f].live)
        invariant arena == old(arena)
        decreases live
      {
        Oldest(slots, recs, arena, lru, cache, links, head, tail);
        KillRec(tail, live - 1);
      }
      FitDone(slots, recs, arena, lru, cache, maxBytes - incoming);
    }

    /** A record to store a new anchor in: a freed one, or one more. */
    method TakeRec() returns (nr: nat)
      requires Valid()
      modifies this`free, this`recs, this`links
      ensures Valid() && nr < |recs| && !recs[nr].live && nr !in free
      ensures old(free) != [] ==> recs == old(recs) && nr == old(free)[|old(free)| - 1] && free == old(free)[..|old(free)| - 1]
      ensures old(free) == [] ==> nr == |old(recs)| && |recs| == nr + 1 && free == []
    {
      hide WfLru; hide Used; hide AnchorCache.Size; hide Holds;
      if |free| > 0 {
        var n := |free| - 1;
        assert free[n] in free;
        nr := free[n];
        FreeTake(free, recs);
        free := free[..n];
      } else {
        SpareKeeps(slots, recs, arena, lru, cache, Rec(0, 0, 0, 0, false));
        SpareLink(links, head, tail, lru, Link(0, 0));
        recs := recs + [Rec(0, 0, 0, 0, false)];
        links := links + [Link(0, 0)];
        nr := |recs| - 1;
      }
    }

    /** Write-through insert or update of an anchor. */
    method Put(aid: nat, val: Key, eid: int)
      requires Valid() && aid < 0x1_0000_0000
      modifies this
      ensures Valid()
      ensures cache == AnchorCache.Put(old(cache), maxBytes, AnchorKey(aid, val), eid)
    {
      hide Holds; hide WfLru; hide WfFree; hide Used; hide AnchorCache.Size; hide AnchorCache.Without; hide Drop;
      hide AnchorCache.Lookup; hide AnchorCache.Fit; hide Faded; hide Reached; hide Fnv;
      var k := AnchorKey(aid, val);
      if 4 + |val| > AnchorCache.MAX_KEY_LEN {
        return;
      }
      var entryBytes := AnchorCache.Cost(k);
      Grow();
      var h := FnvOf(aid, val);
      HasEmpty();
      var pos, r := FindSlot(slots, recs, arena, mask, k, h, lru, cache);
      if r >= 0 {
        Update(r, k, eid);
      } else if entryBytes <= maxBytes {
        Insert(pos, k, eid);
      }
    }

    /** A new entity for a stored anchor. */
    method Update(r: nat, k: Key, eid: int)
      requires Valid() && r in lru && r < |recs| && Stored(recs[r], arena) && KeyOf(recs[r], arena) == k
      modifies this`recs, this`links, this`head, this`tail, this`lru, this`cache
      ensures Valid() && AnchorCache.Lookup(old(cache), k).Some?
      ensures cache == [AnchorCache.Entry(k, eid)] + AnchorCache.Without(old(cache), k)
    {
      hide Holds; hide WfLru; hide WfFree; hide Used; hide AnchorCache.Size; hide AnchorCache.Without; hide Drop;
      hide AnchorCache.Lookup;
      ghost var m := Refreshed(slots, recs, arena, lru, cache, links, head, tail, r, eid);
      FreeSame(free, recs, r, eid);
      recs := recs[r := recs[r].(eid := eid)];
      Touch(r, m);
      cache := [AnchorCache.Entry(k, eid)] + AnchorCache.Without(cache, k);
    }

    /** A new anchor in a free slot of its walk. */
    method Insert(pos: nat, k: Key, eid: int)
      requires Valid() && (live + tombs + 1) * 10 < |slots| * 7
      requires pos < |slots| && slots[pos] < 0 && Reached(slots, Home(k, |slots|), pos)
      requires AnchorCache.Lookup(cache, k).None? && AnchorCache.Cost(k) <= maxBytes
      modifies this
      ensures Valid()
      ensures cache == [AnchorCache.Entry(k, eid)] + AnchorCache.Fit(old(cache), maxBytes - AnchorCache.Cost(k))
    {
      hide Holds; hide WfLru; hide WfFree; hide Used; hide AnchorCache.Size; hide AnchorCache.Lookup;
      hide AnchorCache.Fit;
      hide Faded; hide Reached; hide Home;
      var nr := TakeRec();
      EvictUntilFits(AnchorCache.Cost(k));
      StillFree(old(slots), slots, Home(k, |old(slots)|), pos);
      Admitted(slots, recs, arena, lru, cache, links, head, tail, free, nr, pos, k, eid, old(cache), maxBytes);
      recs := recs[nr := Rec(|arena|, |k|, pos, eid, true)];
      arena := arena + k;
      slots := slots[pos := nr];
      live := live + 1;
      curBytes := curBytes + AnchorCache.Cost(k);
      LruPush(nr);
      cache := [AnchorCache.Entry(k, eid)] + cache;
    }

    method Clear()
      modifies this
      ensures Valid() && cache == [] && |slots| == 1024 && live == tombs == 0 && recs == [] && arena == []
    {
      hide Holds; hide IsPow2; hide Used; hide WfLru; hide WfFree; hide AnchorCache.Size;
      var blank := seq(MIN_SLOTS, _ => EMPTY);
      NewTable(blank);
      slots := blank;
      mask := MIN_SLOTS - 1;
      live, tombs, curBytes := 0, 0, 0;
      recs, links, free, arena := [], [], [], [];
      head, tail := -1, -1;
      lru, cache := [], [];
    }
  }

  lemma NewTable(slots: seq<int>)
    requires |slots| == MIN_SLOTS && forall i :: 0 <= i < |slots| ==> slots[i] == EMPTY
    ensures Holds(slots, [], [], [], []) && Used(slots) == 0
    ensures WfLru([], -1, -1, []) && WfFree([], []) && AnchorCache.Size([]) == 0
  {
    hide Used;
    AllEmpty(slots);
    assert IsPow2(4) && IsPow2(16) && IsPow2(64) && IsPow2(256);
  }

  lemma NothingLive(slots: seq<int>, recs: seq<Rec>, arena: Key, lru: seq<int>, c: Cache, k: Key)
    requires Holds(slots, recs, arena, lru, c) && lru == []
    ensures AnchorCache.Lookup(c, k).None?
  {
  }

  /** A table under load seven tenths has at least two slots and room for one more record. */
  lemma Capacity(slots: seq<int>, recs: seq<Rec>, arena: Key, lru: seq<int>, c: Cache)
    requires Holds(slots, recs, arena, lru, c)
    ensures |slots| >= 2 && IsPow2(|slots|) && IsPow2(|slots| * 2) && IsPow2(MIN_SLOTS)
  {
    assert IsPow2(4) && IsPow2(16) && IsPow2(64) && IsPow2(256);
  }

  /** A found record refreshed to the front. */
  lemma Refreshed(slots: seq<int>, recs: seq<Rec>, arena: Key, lru: seq<int>, c: Cache,
                  links: seq<Link>, head: int, tail: int, r: int, eid: int) returns (m: nat)
    requires Holds(slots, recs, arena, lru, c) && WfLru(links, head, tail, lru) && r in lru
    ensures m < |lru| == |c| && lru[m] == r && 0 <= r < |recs| && r < |links| && Stored(recs[r], arena)
    ensures c[m].key == KeyOf(recs[r], arena) && AnchorCache.Lookup(c, c[m].key) == AnchorCache.Some(recs[r].eid)
    ensures
      var c' := [AnchorCache.Entry(c[m].key, eid)] + AnchorCache.Without(c, c[m].key);
      && Holds(slots, recs[r := recs[r].(eid := eid)], arena, [r] + Drop(lru, m), c')
      && AnchorCache.Size(c') == AnchorCache.Size(c)
      && |[r] + Drop(lru, m)| == |lru|
  {
    hide Holds; hide WfLru; hide AnchorCache.Without; hide AnchorCache.Size; hide AnchorCache.Lookup;
    m :| 0 <= m < |lru| && lru[m] == r;
    HoldsAt(slots, recs, arena, lru, c, m);
    DistinctLru(links, head, tail, lru);
    RefreshKeeps(slots, recs, arena, lru, c, m, eid);
    AnchorCache.LookupAt(c, m);
    AnchorCache.WithoutSize(c, c[m].key);
    AnchorCache.SizeCons(AnchorCache.Entry(c[m].key, eid), AnchorCache.Without(c, c[m].key));
  }

  /** The last record of the list is the one an eviction takes. */
  lemma Oldest(slots: seq<int>, recs: seq<Rec>, arena: Key, lru: seq<int>, c: Cache, links: seq<Link>, head: int, tail: int)
    requires Holds(slots, recs, arena, lru, c) && WfLru(links, head, tail, lru) && lru != []
    ensures var n := |lru| - 1;
      && |c| == |lru| && lru[n] == tail && 0 <= tail < |recs| && recs[tail].live
      && AnchorCache.Without(c, c[n].key) == c[..n]
  {
    hide Reached;
    var n := |lru| - 1;
    HoldsAt(slots, recs, arena, lru, c, n);
    AnchorCache.WithoutAt(c, n);
    assert c[..n] + c[n + 1..] == c[..n];
  }

  lemma FreeTake(free: seq<int>, recs: seq<Rec>)
    requires WfFree(free, recs) && free != []
    ensures WfFree(free[..|free| - 1], recs) && free[|free| - 1] !in free[..|free| - 1]
  {
    var n := |free| - 1;
    assert forall f :: f in free[..n] ==> f in free;
  }

  lemma SpareLink(links: seq<Link>, head: int, tail: int, lru: seq<int>, l: Link)
    requires WfLru(links, head, tail, lru)
    ensures WfLru(links + [l], head, tail, lru)
  {
    forall i | 0 <= i < |lru|
      ensures LinkOk(links + [l], lru, i)
    {
      assert LinkOk(links, lru, i);
    }
  }

  lemma FreeSame(free: seq<int>, recs: seq<Rec>, r: nat, eid: int)
    requires WfFree(free, recs) && r < |recs|
    ensures WfFree(free, recs[r := recs[r].(eid := eid)])
  {
  }

  /** Evictions leave the chosen slot free and its walk intact. */
  lemma StillFree(a: seq<int>, b: seq<int>, home: nat, p: nat)
    requires Faded(a, b) && home < |a| && p < |a| && Reached(a, home, p) && a[p] < 0
    ensures |a| == |b| && Reached(b, home, p) && b[p] < 0
  {
    ReachedGrows(a, b, home, p);
  }

  /** Everything that storing a new anchor keeps. */
  lemma Admitted(slots: seq<int>, recs: seq<Rec>, arena: Key, lru: seq<int>, c: Cache,
                 links: seq<Link>, head: int, tail: int, free: seq<int>, nr: nat, p: nat, k: Key, eid: int,
                 c0: Cache, maxBytes: int)
    requires Holds(slots, recs, arena, lru, c) && WfLru(links, head, tail, lru) && WfFree(free, recs)
    requires nr < |recs| == |links| && !recs[nr].live && nr !in free
    requires p < |slots| && slots[p] < 0 && Reached(slots, Home(k, |slots|), p)
    requires c == AnchorCache.Fit(c0, maxBytes - AnchorCache.Cost(k)) && AnchorCache.Lookup(c0, k).None?
    ensures nr !in lru
    ensures
      var recs' := recs[nr := Rec(|arena|, |k|, p, eid, true)];
      var c' := [AnchorCache.Entry(k, eid)] + c;
      && Holds(slots[p := nr], recs', arena + k, [nr as int] + lru, c')
      && WfFree(free, recs')
      && Used(slots[p := nr]) <= Used(slots) + 1
      && AnchorCache.Size(c') == AnchorCache.Size(c) + AnchorCache.Cost(k)
  {
    hide Holds; hide WfLru; hide Reached; hide Used; hide AnchorCache.Size;
    assert AnchorCache.Lookup(c, k).None?;
    InsertKeeps(slots, recs, arena, lru, c, nr, p, k, eid);
    AnchorCache.SizeCons(AnchorCache.Entry(k, eid), c);
  }

  lemma FitDone(slots: seq<int>, recs: seq<Rec>, arena: Key, lru: seq<int>, c: Cache, budget: int)
    requires Holds(slots, recs, arena, lru, c)
    ensures AnchorCache.Size(c) <= budget || lru == [] ==> AnchorCache.Fit(c, budget) == c
  {
  }

  /** Everything that removing the record at place m of the list keeps. */
  lemma KillFacts(slots: seq<int>, recs: seq<Rec>, arena: Key, lru: seq<int>, c: Cache,
                  links: seq<Link>, head: int, tail: int, free: seq<int>, m: nat)
    requires Holds(slots, recs, arena, lru, c) && WfLru(links, head, tail, lru) && WfFree(free, recs) && m < |lru|
    ensures |c| == |lru| && 0 <= lru[m] < |recs| && 0 <= recs[lru[m]].slotPos < |slots| && lru[m] < |links|
    ensures
      var r := lru[m];
      var slots' := slots[recs[r].slotPos := TOMB];
      var recs' := recs[r := recs[r].(live := false, slotPos := EMPTY)];
      var c' := AnchorCache.Without(c, c[m].key);
      && Holds(slots', recs', arena, Drop(lru, m), c') && |c'| == |c| - 1 == |Drop(lru, m)|
      && WfFree(free + [r], recs')
      && Used(slots') == Used(slots) && Faded(slots, slots')
      && AnchorCache.Size(c) == AnchorCache.Size(c') + recs[r].klen + AnchorCache.ENTRY_OVERHEAD
      && (forall x :: 0 <= x < |recs| && !recs[x].live ==> !recs'[x].live)
  {
    hide Reached; hide Used; hide AnchorCache.Size; hide AnchorCache.Without; hide Holds; hide WfLru; hide WfFree;
    HoldsAt(slots, recs, arena, lru, c, m);
    DistinctLru(links, head, tail, lru);
    KillKeeps(slots, recs, arena, lru, c, m);
    FreeKill(free, recs, lru[m]);
    AnchorCache.WithoutSize(c, c[m].key);
    AnchorCache.WithoutAt(c, m);
    AnchorCache.LookupAt(c, m);
  }

  lemma UnlinkedSteps(links: seq<Link>, lru: seq<int>, i: nat, m: nat)
    requires m < |lru| && lru[m] == i < |links| && LinkOk(links, lru, m)
    requires forall j :: 0 <= j < |lru| ==> LinkOk(links, lru, j)
    ensures links[i].prev < 0 ==> SetNext(links, links[i].prev, links[i].next) == links
    ensures
      var ls := SetNext(links, links[i].prev, links[i].next);
      links[i].next < 0 ==> SetPrev(ls, links[i].next, links[i].prev) == ls
  {
  }

  // ---- whole histories ----

  datatype Cmd = Put(aid: nat, val: Key, eid: int) | Del(aid: nat, val: Key) | Probe(aid: nat, val: Key) | Clear

  predicate WfCmd(cmd: Cmd)
  {
    !cmd.Clear? ==> cmd.aid < 0x1_0000_0000
  }

  function OpOf(cmd: Cmd): (op: AnchorCache.Op)
    requires WfCmd(cmd)
  {
    match cmd
    case Put(aid, val, eid) => AnchorCache.PutOp(AnchorKey(aid, val), eid)
    case Del(aid, val) => AnchorCache.DelOp(AnchorKey(aid, val))
    case Probe(aid, val) => AnchorCache.ProbeOp(AnchorKey(aid, val))
    case Clear => AnchorCache.ClearOp
  }

  ghost function History(cmds: seq<Cmd>): (ops: seq<AnchorCache.Op>)
    requires forall cmd :: cmd in cmds ==> WfCmd(cmd)
    ensures |ops| == |cmds|
  {
    seq(|cmds|, i requires 0 <= i < |cmds| => assert cmds[i] in cmds; OpOf(cmds[i]))
  }

  /** Whatever happens to a fresh index, a hit is the latest put of that anchor with nothing removing
      it since, the index holds exactly what the cache it stands for holds, and it stays within its
      budget. */
  method Replay(budget: int, cmds: seq<Cmd>) returns (index: Index, hits: seq<AnchorCache.Option<int>>)
    requires forall cmd :: cmd in cmds ==> WfCmd(cmd)
    ensures index.Valid() && |hits| == |cmds|
    ensures index.cache == AnchorCache.After(History(cmds), budget)
    ensures index.curBytes <= budget || index.live == 0
    ensures forall i :: 0 <= i < |cmds| && cmds[i].Probe? ==>
      hits[i] == AnchorCache.Lookup(AnchorCache.After(History(cmds)[..i], budget), OpOf(cmds[i]).key)
    ensures forall i :: 0 <= i < |cmds| && cmds[i].Probe? && hits[i].Some? ==>
      AnchorCache.Latest(History(cmds)[..i], OpOf(cmds[i]).key) == hits[i]
  {
    hide Index.Valid; hide AnchorKey; hide AnchorCache.Latest; hide AnchorCache.After; hide AnchorCache.Lookup;
    hide AnchorCache.Put; hide AnchorCache.Without; hide AnchorCache.Touch;
    index := new Index(budget);
    hits := [];
    ghost var ops := History(cmds);
    assert ops[..0] == [];
    StartEmpty(budget);
    for i := 0 to |cmds|
      invariant index.Valid() && index.maxBytes == budget && |hits| == i
      invariant index.cache == AnchorCache.After(ops[..i], budget)
      invariant forall j :: 0 <= j < i && cmds[j].Probe? ==>
        hits[j] == AnchorCache.Lookup(AnchorCache.After(ops[..j], budget), OpOf(cmds[j]).key)
      invariant forall j :: 0 <= j < i && cmds[j].Probe? && hits[j].Some? ==>
        AnchorCache.Latest(ops[..j], OpOf(cmds[j]).key) == hits[j]
    {
      assert cmds[i] in cmds && ops[i] == OpOf(cmds[i]);
      OneMore(ops, i, budget);
      var hit := AnchorCache.None;
      match cmds[i] {
        case Put(aid, val, eid) => index.Put(aid, val, eid);
        case Del(aid, val) => index.Del(aid, val);
        case Probe(aid, val) =>
          HitIsLatest(ops[..i], budget, AnchorKey(aid, val));
          var eid, ok := index.Probe(aid, val);
          hit := if ok then AnchorCache.Some(eid) else AnchorCache.None;
        case Clear => index.Clear();
      }
      hits := hits + [hit];
    }
    assert ops[..|cmds|] == ops;
    AnchorCache.WithinBudget(ops, budget);
    SizeIsBytes(index);
  }

  lemma StartEmpty(budget: int)
    ensures AnchorCache.After([], budget) == []
  {
  }

  lemma OneMore(ops: seq<AnchorCache.Op>, i: nat, budget: int)
    requires i < |ops|
    ensures AnchorCache.After(ops[..i + 1], budget) == AnchorCache.Step(AnchorCache.After(ops[..i], budget), budget, ops[i])
  {
    assert ops[..i + 1][..i] == ops[..i];
  }

  lemma HitIsLatest(ops: seq<AnchorCache.Op>, budget: int, k: Key)
    ensures var r := AnchorCache.Lookup(AnchorCache.After(ops, budget), k);
      r.Some? ==> AnchorCache.Latest(ops, k) == r
  {
    hide AnchorCache.Latest; hide AnchorCache.After;
    var r := AnchorCache.Lookup(AnchorCache.After(ops, budget), k);
    if r.Some? {
      AnchorCache.HitsAreLatest(ops, budget, AnchorCache.Entry(k, r.value));
    }
  }

  lemma SizeIsBytes(index: Index)
    requires index.Valid()
    ensures index.curBytes == AnchorCache.Size(index.cache) && (index.cache == [] ==> index.live == 0)
  {
    hide AnchorCache.Size; hide Used;
  }
}
