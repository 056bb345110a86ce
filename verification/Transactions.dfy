/** Saves and transactions through the engine: what they look up, what they write, and what store and cache
    answer afterwards. */
module Transactions {
  import opened Bytes
  import opened Versions
  import opened KvStore
  import opened Engine
  import opened Saves
  import AnchorCache
  import AnchorIndex
  import Hydrated
  import Keys
  import MemTables
  import PageTrees

  /** A datom the pages can hold. */
  ghost predicate WfDatom(modes: nat -> Keys.Mode, d: Keys.Datom)
  {
    Keys.WfIds(d) && Keys.Encodes(modes(d.attr), d.value) && |d.value| + 20 < 65536
  }

  /** The index entries of a datom. */
  function EntriesOf(d: Keys.Datom, t: nat, retracted: bool, isRef: bool, indexed: bool): (es: seq<CfKey>)
    requires Keys.WfIds(d) && t < Keys.TIME_LIMIT
  {
    var built := Keys.BuildEntries(d, Keys.EncodeSuffix(t, retracted), isRef, indexed);
    seq(|built|, i requires 0 <= i < |built| => MemTables.CfKey(built[i].cf, built[i].key))
  }

  // ---- what each index holds ----

  /** Which indexes hold the datoms of an attribute: entity and attribute order always, value order if it is
      indexed, reverse order if it is a reference. */
  predicate Carries(cf: nat, modes: nat -> Keys.Mode, indexed: nat -> bool, attr: nat)
  {
    match cf
    case 0 => true
    case 1 => true
    case 2 => indexed(attr)
    case 3 => modes(attr).RefMode?
    case _ => false
  }

  /** The keys an index holds for a set of datom keys: each version that the index carries, in its order. */
  ghost predicate Mirrors(cf: nat, modes: nat -> Keys.Mode, indexed: nat -> bool, ks: set<Key>, datoms: set<Key>)
    requires cf < 4
  {
    && (forall k :: k in ks ==> exists d, t: nat, r :: MirrorOf(cf, modes, indexed, datoms, d, t, r, k))
    && forall d, t: nat, r :: Carried(cf, modes, indexed, datoms, d, t, r) ==> Keys.VersionKey(cf, d, t, r) in ks
  }

  ghost predicate Carried(cf: nat, modes: nat -> Keys.Mode, indexed: nat -> bool, datoms: set<Key>,
                          d: Keys.Datom, t: nat, r: bool)
  {
    && Keys.WfIds(d) && t < Keys.TIME_LIMIT && Keys.VersionKey(0, d, t, r) in datoms
    && Carries(cf, modes, indexed, d.attr)
  }

  ghost predicate MirrorOf(cf: nat, modes: nat -> Keys.Mode, indexed: nat -> bool, datoms: set<Key>,
                           d: Keys.Datom, t: nat, r: bool, k: Key)
    requires cf < 4
  {
    Carried(cf, modes, indexed, datoms, d, t, r) && k == Keys.VersionKey(cf, d, t, r)
  }

  lemma MirrorsUnion(cf: nat, modes: nat -> Keys.Mode, indexed: nat -> bool, a: set<Key>, da: set<Key>, b: set<Key>, db: set<Key>)
    requires cf < 4 && Mirrors(cf, modes, indexed, a, da) && Mirrors(cf, modes, indexed, b, db)
    ensures Mirrors(cf, modes, indexed, a + b, da + db)
  {
    hide Keys.VersionKey; hide Carries;
    forall k | k in a + b
      ensures exists d, t: nat, r :: MirrorOf(cf, modes, indexed, da + db, d, t, r, k)
    {
      if k in a {
        var d, t: nat, r :| MirrorOf(cf, modes, indexed, da, d, t, r, k);
        assert MirrorOf(cf, modes, indexed, da + db, d, t, r, k);
      } else {
        var d, t: nat, r :| MirrorOf(cf, modes, indexed, db, d, t, r, k);
        assert MirrorOf(cf, modes, indexed, da + db, d, t, r, k);
      }
    }
  }

  lemma MirrorsNothing(cf: nat, modes: nat -> Keys.Mode, indexed: nat -> bool)
    requires cf < 4
    ensures Mirrors(cf, modes, indexed, {}, {})
  {
  }

  /** The version a key of an index is of is determined by the key. */
  lemma OneVersion(cf: nat, d: Keys.Datom, t: nat, r: bool, e: Keys.Datom, u: nat, q: bool)
    requires cf < 4 && Keys.WfIds(d) && Keys.WfIds(e) && t < Keys.TIME_LIMIT && u < Keys.TIME_LIMIT
    requires Keys.VersionKey(cf, d, t, r) == Keys.VersionKey(cf, e, u, q)
    ensures d == e && t == u && r == q
  {
    hide Keys.BigEndian; hide Keys.EncodeInt;
    var x, y := Keys.EncodeSuffix(t, r), Keys.EncodeSuffix(u, q);
    var k, l := Keys.VersionKey(cf, d, t, r), Keys.VersionKey(cf, e, u, q);
    assert Keys.Logical(cf, d) == k[..|k| - 8] == l[..|l| - 8] == Keys.Logical(cf, e);
    assert Keys.BigEndian(x, 8) == k[|k| - 8..] == l[|l| - 8..] == Keys.BigEndian(y, 8);
    SuffixInjective(t, r, u, q);
    Keys.IdsPrefix(d, e);
    PartsInjective(cf, Keys.EncodeInt(d.eid), Keys.BigEndian(d.attr, 4), d.value,
                   Keys.EncodeInt(e.eid), Keys.BigEndian(e.attr, 4), e.value);
  }

  lemma PartsInjective(cf: nat, e: Key, a: Key, v: Key, f: Key, b: Key, w: Key)
    requires |e| == |f| == 8 && |a| == |b| == 4 && |v| == |w|
    requires match cf
      case 0 => e + a + v == f + b + w
      case 1 => a + e + v == b + f + w
      case 2 => a + v + e == b + w + f
      case _ => v + a + e == w + b + f
    ensures e == f && a == b && v == w
  {
    match cf {
      case 0 => ThreeParts(e, a, v, f, b, w);
      case 1 => ThreeParts(a, e, v, b, f, w);
      case 2 => ThreeParts(a, v, e, b, w, f);
      case _ => ThreeParts(v, a, e, w, b, f);
    }
  }

  lemma ThreeParts(x: Key, y: Key, z: Key, x': Key, y': Key, z': Key)
    requires |x| == |x'| && |y| == |y'| && x + y + z == x' + y' + z'
    ensures x == x' && y == y' && z == z'
  {
    var k, l := x + y + z, x' + y' + z';
    assert x == k[..|x|] == l[..|x|] == x';
    assert y == k[|x|..|x| + |y|] == l[|x|..|x| + |y|] == y';
    assert z == k[|x| + |y|..] == l[|x| + |y|..] == z';
  }

  lemma SuffixInjective(t: nat, r: bool, u: nat, q: bool)
    requires t < Keys.TIME_LIMIT && u < Keys.TIME_LIMIT
    requires Keys.BigEndian(Keys.EncodeSuffix(t, r), 8) == Keys.BigEndian(Keys.EncodeSuffix(u, q), 8)
    ensures t == u && r == q
  {
    hide Keys.BigEndian;
    Keys.SuffixValue(t);
    Keys.SuffixValue(u);
    Keys.Pow256Eight();
    Keys.BigRoundTrip(Keys.EncodeSuffix(t, r), 8);
    Keys.BigRoundTrip(Keys.EncodeSuffix(u, q), 8);
  }

  /** So an index mirrors a set of datom keys exactly: it holds a version if and only if the version is in the
      set and the index carries its attribute. */
  lemma MirrorsExactly(cf: nat, modes: nat -> Keys.Mode, indexed: nat -> bool, ks: set<Key>, datoms: set<Key>,
                       d: Keys.Datom, t: nat, r: bool)
    requires cf < 4 && Mirrors(cf, modes, indexed, ks, datoms) && Keys.WfIds(d) && t < Keys.TIME_LIMIT
    ensures Keys.VersionKey(cf, d, t, r) in ks
      <==> Keys.VersionKey(0, d, t, r) in datoms && Carries(cf, modes, indexed, d.attr)
  {
    hide Keys.VersionKey; hide Carries;
    assert Carried(cf, modes, indexed, datoms, d, t, r) <==>
      Keys.VersionKey(0, d, t, r) in datoms && Carries(cf, modes, indexed, d.attr);
    if Keys.VersionKey(cf, d, t, r) in ks {
      var e, u: nat, q :| MirrorOf(cf, modes, indexed, datoms, e, u, q, Keys.VersionKey(cf, d, t, r));
      OneVersion(cf, d, t, r, e, u, q);
    }
  }

  /** A batch puts into every index the versions of the datoms it writes. */
  ghost predicate Complete(modes: nat -> Keys.Mode, indexed: nat -> bool, entries: seq<CfKey>)
  {
    forall cf :: 1 <= cf < 4 ==> Mirrors(cf, modes, indexed, BatchKeys(entries, cf), Elems(DatomSeq(entries)))
  }

  lemma {:induction false} BatchIs(entries: seq<CfKey>, cf: nat, k: Key)
    ensures k in BatchKeys(entries, cf) <==> MemTables.CfKey(cf, k) in entries
  {
    if k in BatchKeys(entries, cf) {
      var e := BatchMember(entries, cf, k);
    }
    if entries != [] && MemTables.CfKey(cf, k) in entries {
      var front, last := entries[..|entries| - 1], entries[|entries| - 1];
      assert entries == front + [last];
      BatchIs(front, cf, k);
      BatchLast(front, last, cf);
    }
  }

  lemma BatchLast(front: seq<CfKey>, last: CfKey, cf: nat)
    ensures BatchKeys(front + [last], cf) == BatchKeys(front, cf) + if last.cf == cf then {last.key} else {}
  {
    var all := front + [last];
    assert all[..|all| - 1] == front;
    if last.cf == cf {
      var rec := Runs.Rec(last.key, false, []);
      KeySetConcat(MemTables.BatchRecs(front, cf), [rec]);
      assert Runs.KeySet([rec]) == {last.key};
    }
  }

  lemma CompleteConcat(modes: nat -> Keys.Mode, indexed: nat -> bool, a: seq<CfKey>, b: seq<CfKey>)
    requires Complete(modes, indexed, a) && Complete(modes, indexed, b)
    ensures Complete(modes, indexed, a + b)
  {
    hide Mirrors; hide DatomSeq; hide BatchKeys;
    DatomSeqConcat(a, b);
    ElemsConcat(DatomSeq(a), DatomSeq(b));
    forall cf | 1 <= cf < 4
      ensures Mirrors(cf, modes, indexed, BatchKeys(a + b, cf), Elems(DatomSeq(a + b)))
    {
      forall k
        ensures k in BatchKeys(a + b, cf) <==> k in BatchKeys(a, cf) + BatchKeys(b, cf)
      {
        BatchIs(a, cf, k);
        BatchIs(b, cf, k);
        BatchIs(a + b, cf, k);
      }
      assert BatchKeys(a + b, cf) == BatchKeys(a, cf) + BatchKeys(b, cf);
      MirrorsUnion(cf, modes, indexed, BatchKeys(a, cf), Elems(DatomSeq(a)), BatchKeys(b, cf), Elems(DatomSeq(b)));
    }
  }

  lemma NothingComplete(modes: nat -> Keys.Mode, indexed: nat -> bool)
    ensures Complete(modes, indexed, [])
  {
    hide Mirrors;
    NoEntries(modes);
    forall cf | 1 <= cf < 4
      ensures Mirrors(cf, modes, indexed, BatchKeys([], cf), Elems(DatomSeq([])))
    {
      MirrorsNothing(cf, modes, indexed);
      assert BatchKeys([], cf) == {} && Elems(DatomSeq([])) == {};
    }
  }

  /** The entries of one version, with the flags of its attribute, complete it. */
  lemma EntriesComplete(modes: nat -> Keys.Mode, indexed: nat -> bool, d: Keys.Datom, t: nat, r: bool)
    requires WfDatom(modes, d) && t < Keys.TIME_LIMIT
    ensures Complete(modes, indexed, EntriesOf(d, t, r, modes(d.attr).RefMode?, indexed(d.attr)))
  {
    hide EntriesOf; hide DatomSeq; hide Keys.VersionKey; hide BatchKeys; hide Keys.Encodes;
    var es := EntriesOf(d, t, r, modes(d.attr).RefMode?, indexed(d.attr));
    EntriesWf(modes, d, t, r, modes(d.attr).RefMode?, indexed(d.attr));
    forall cf | 1 <= cf < 4
      ensures Mirrors(cf, modes, indexed, BatchKeys(es, cf), Elems(DatomSeq(es)))
    {
      EntryIn(modes, indexed, d, t, r, cf);
      forall k
        ensures k in BatchKeys(es, cf) <==> Carries(cf, modes, indexed, d.attr) && k == Keys.VersionKey(cf, d, t, r)
      {
        BatchIs(es, cf, k);
      }
      OneMirrors(cf, modes, indexed, d, t, r, BatchKeys(es, cf), Elems(DatomSeq(es)));
    }
  }

  lemma EntryIn(modes: nat -> Keys.Mode, indexed: nat -> bool, d: Keys.Datom, t: nat, r: bool, cf: nat)
    requires Keys.WfIds(d) && t < Keys.TIME_LIMIT && 1 <= cf < 4
    ensures
      var es := EntriesOf(d, t, r, modes(d.attr).RefMode?, indexed(d.attr));
      forall k :: MemTables.CfKey(cf, k) in es <==> Carries(cf, modes, indexed, d.attr) && k == Keys.VersionKey(cf, d, t, r)
  {
    hide Keys.BigEndian; hide Keys.Logical; hide Keys.EncodeSuffix;
    var isRef, inValue := modes(d.attr).RefMode?, indexed(d.attr);
    var built := Keys.BuildEntries(d, Keys.EncodeSuffix(t, r), isRef, inValue);
    var es := EntriesOf(d, t, r, isRef, inValue);
    var key := Keys.VersionKey(cf, d, t, r);
    forall e | e in es
      ensures e.cf == cf ==> Carries(cf, modes, indexed, d.attr) && e.key == key
    {
    }
    if Carries(cf, modes, indexed, d.attr) {
      var i := if cf == 1 then 1 else if cf == 3 then 2 else if isRef then 3 else 2;
      assert built[i] == Keys.IndexEntry(cf, key);
      assert es[i] == MemTables.CfKey(cf, key);
    }
  }

  lemma OneMirrors(cf: nat, modes: nat -> Keys.Mode, indexed: nat -> bool, d: Keys.Datom, t: nat, r: bool, ks: set<Key>, datoms: set<Key>)
    requires 1 <= cf < 4 && Keys.WfIds(d) && t < Keys.TIME_LIMIT
    requires forall k :: k in ks <==> Carries(cf, modes, indexed, d.attr) && k == Keys.VersionKey(cf, d, t, r)
    requires datoms == {Keys.VersionKey(0, d, t, r)}
    ensures Mirrors(cf, modes, indexed, ks, datoms)
  {
    hide Keys.VersionKey; hide Carries;
    forall k | k in ks
      ensures exists e, u: nat, q :: MirrorOf(cf, modes, indexed, datoms, e, u, q, k)
    {
      assert MirrorOf(cf, modes, indexed, datoms, d, t, r, k);
    }
    forall e, u: nat, q | Carried(cf, modes, indexed, datoms, e, u, q)
      ensures Keys.VersionKey(cf, e, u, q) in ks
    {
      OneVersion(0, d, t, r, e, u, q);
    }
  }

  /** Every index holds the versions of the datoms that it carries, and nothing else. */
  ghost predicate Agree(modes: nat -> Keys.Mode, indexed: nat -> bool, written: seq<set<Key>>)
  {
    |written| >= 4 && forall cf :: 1 <= cf < 4 ==> Mirrors(cf, modes, indexed, written[cf], written[0])
  }

  /** The store gained these datom keys, and every index exactly the versions of them that it carries. */
  ghost predicate Gains(modes: nat -> Keys.Mode, indexed: nat -> bool, before: seq<set<Key>>, after: seq<set<Key>>, gained: set<Key>)
  {
    && |before| == |after| >= 4 && after[0] == before[0] + gained
    && forall cf :: 1 <= cf < 4 ==> IndexGained(modes, indexed, before, after, gained, cf)
  }

  ghost predicate IndexGained(modes: nat -> Keys.Mode, indexed: nat -> bool, before: seq<set<Key>>, after: seq<set<Key>>,
                              gained: set<Key>, cf: nat)
    requires cf < 4 && |before| == |after| >= 4
  {
    exists more :: IndexGains(modes, indexed, before, after, gained, cf, more)
  }

  ghost predicate IndexGains(modes: nat -> Keys.Mode, indexed: nat -> bool, before: seq<set<Key>>, after: seq<set<Key>>,
                             gained: set<Key>, cf: nat, more: set<Key>)
    requires cf < 4 && |before| == |after| >= 4
  {
    after[cf] == before[cf] + more && Mirrors(cf, modes, indexed, more, gained)
  }

  /** What a complete batch adds. */
  lemma Gained(modes: nat -> Keys.Mode, indexed: nat -> bool, before: seq<set<Key>>, after: seq<set<Key>>, entries: seq<CfKey>)
    requires |before| == |after| >= 4 && Complete(modes, indexed, entries)
    requires after[0] == before[0] + Elems(DatomSeq(entries))
    requires forall cf :: 1 <= cf < 4 ==> after[cf] == before[cf] + BatchKeys(entries, cf)
    ensures Gains(modes, indexed, before, after, Elems(DatomSeq(entries)))
  {
    hide Mirrors; hide DatomSeq; hide BatchKeys;
    forall cf | 1 <= cf < 4
      ensures IndexGained(modes, indexed, before, after, Elems(DatomSeq(entries)), cf)
    {
      assert IndexGains(modes, indexed, before, after, Elems(DatomSeq(entries)), cf, BatchKeys(entries, cf));
    }
  }

  /** Gains add up, and keep indexes that agree in agreement. */
  lemma GainsTwice(modes: nat -> Keys.Mode, indexed: nat -> bool, a: seq<set<Key>>, b: seq<set<Key>>, c: seq<set<Key>>,
                   x: set<Key>, y: set<Key>)
    requires Gains(modes, indexed, a, b, x) && Gains(modes, indexed, b, c, y)
    ensures Gains(modes, indexed, a, c, x + y)
  {
    hide Mirrors;
    forall cf | 1 <= cf < 4
      ensures IndexGained(modes, indexed, a, c, x + y, cf)
    {
      assert IndexGained(modes, indexed, a, b, x, cf) && IndexGained(modes, indexed, b, c, y, cf);
      var m :| IndexGains(modes, indexed, a, b, x, cf, m);
      var n :| IndexGains(modes, indexed, b, c, y, cf, n);
      MirrorsUnion(cf, modes, indexed, m, x, n, y);
      assert IndexGains(modes, indexed, a, c, x + y, cf, m + n);
    }
  }

  lemma GainsAgree(modes: nat -> Keys.Mode, indexed: nat -> bool, before: seq<set<Key>>, after: seq<set<Key>>, gained: set<Key>)
    requires Gains(modes, indexed, before, after, gained) && Agree(modes, indexed, before)
    ensures Agree(modes, indexed, after)
  {
    hide Mirrors;
    forall cf | 1 <= cf < 4
      ensures Mirrors(cf, modes, indexed, after[cf], after[0])
    {
      assert IndexGained(modes, indexed, before, after, gained, cf);
      var more :| IndexGains(modes, indexed, before, after, gained, cf, more);
      MirrorsUnion(cf, modes, indexed, before[cf], before[0], more, gained);
    }
  }

  lemma EntriesWf(modes: nat -> Keys.Mode, d: Keys.Datom, t: nat, retracted: bool, isRef: bool, indexed: bool)
    requires WfDatom(modes, d) && t < Keys.TIME_LIMIT && (isRef ==> modes(d.attr).RefMode?)
    ensures WfEntries(modes, EntriesOf(d, t, retracted, isRef, indexed))
    ensures DatomSeq(EntriesOf(d, t, retracted, isRef, indexed)) == [Keys.VersionKey(0, d, t, retracted)]
  {
    hide Keys.BigEndian; hide Keys.Logical; hide Keys.Encodes; hide IsStoredKey; hide DatomSeq;
    var es := EntriesOf(d, t, retracted, isRef, indexed);
    forall cf | 0 <= cf < 4 && (cf == 3 ==> isRef)
      ensures IsStoredKey(cf, modes, Keys.VersionKey(cf, d, t, retracted))
    {
      StoredAs(cf, modes, d, t, retracted);
    }
    forall e | e in es
      ensures e.cf < 4 && (e.cf == 3 ==> isRef) && e.key == Keys.VersionKey(e.cf, d, t, retracted)
    {
    }
    assert es == [es[0]] + es[1..];
    OneDatomFirst(es[0], es[1..]);
  }

  lemma StoredAs(cf: nat, modes: nat -> Keys.Mode, d: Keys.Datom, t: nat, retracted: bool)
    requires cf < 4 && WfDatom(modes, d) && t < Keys.TIME_LIMIT && (cf == 3 ==> modes(d.attr).RefMode?)
    ensures IsStoredKey(cf, modes, Keys.VersionKey(cf, d, t, retracted))
  {
    hide Keys.VersionKey; hide Keys.Encodes;
    assert IsVersionOf(cf, modes, d, t, retracted, Keys.VersionKey(cf, d, t, retracted));
  }

  lemma OneDatomFirst(first: CfKey, rest: seq<CfKey>)
    requires first.cf == 0 && forall e :: e in rest ==> e.cf != 0
    ensures DatomSeq([first] + rest) == [first.key]
  {
    DatomsConcat([first], rest);
    NoDatoms(rest);
    assert [first][..0] == [];
    assert Datoms([first]) == [first];
  }

  lemma {:induction false} NoDatoms(es: seq<CfKey>)
    requires forall e :: e in es ==> e.cf != 0
    ensures Datoms(es) == []
  {
    if es != [] {
      var front, last := es[..|es| - 1], es[|es| - 1];
      assert last in es && forall e :: e in front ==> e in es;
      NoDatoms(front);
    }
  }

  lemma {:induction false} DatomsConcat(a: seq<CfKey>, b: seq<CfKey>)
    ensures Datoms(a + b) == Datoms(a) + Datoms(b)
    decreases |b|
  {
    if b == [] {
      assert a + b == a;
    } else {
      var front, last := b[..|b| - 1], b[|b| - 1];
      assert (a + b)[..|a + b| - 1] == a + front && (a + b)[|a + b| - 1] == last;
      DatomsConcat(a, front);
      var tail := if last.cf == 0 then [last] else [];
      assert Datoms(a) + Datoms(front) + tail == Datoms(a) + (Datoms(front) + tail);
    }
  }

  lemma DatomSeqConcat(a: seq<CfKey>, b: seq<CfKey>)
    ensures DatomSeq(a + b) == DatomSeq(a) + DatomSeq(b)
  {
    hide Datoms;
    DatomsConcat(a, b);
  }

  lemma WfEntriesConcat(modes: nat -> Keys.Mode, a: seq<CfKey>, b: seq<CfKey>)
    requires WfEntries(modes, a) && WfEntries(modes, b)
    ensures WfEntries(modes, a + b)
  {
  }

  // ---- lookups before a write ----

  /** The cache does not hide anything of the entity. */
  ghost predicate Sees(en: EavtEngine, eid: int)
    reads en.kv`written, en.hyd`keysOf, en.hyd`index
  {
    eid in en.hyd.index ==> en.Fresh(eid)
  }

  /** The prefix of an attribute names its entity and never reaches into a version. */
  lemma AttrAnswers(en: EavtEngine, d: Keys.Datom)
    requires en.Valid() && Keys.WfIds(d)
    ensures Sees(en, d.eid) ==> en.Answers(0, AttrPrefix(d))
    ensures forall k :: k in en.hyd.known ==> |k| >= 20
  {
    hide KVStore.Valid; hide Hydrated.Set.Valid; hide Less; hide Keys.BigEndian; hide IsStoredKey;
    hide Hydrated.Current;
    var p := AttrPrefix(d);
    assert p[..8] == Keys.EncodeInt(d.eid);
    Keys.EncodeIntOrder(d.eid, d.eid);
    Hydrated.DatomKeysAreDatoms(en.modes, en.hyd.known);
  }

  lemma KeyOfDatom(d: Keys.Datom, k: Key)
    requires Keys.WfIds(d) && |k| >= 20
    ensures AttrPrefix(d) <= k && k[12..|k| - 8] == d.value <==> LogicalOf(k) == Keys.Logical(0, d)
  {
    hide Keys.BigEndian; hide Keys.EncodeInt;
    var p := AttrPrefix(d);
    assert Keys.Logical(0, d) == p + d.value;
    if LogicalOf(k) == Keys.Logical(0, d) {
      assert p == LogicalOf(k)[..12] == k[..12];
      assert d.value == LogicalOf(k)[12..];
    }
    if p <= k && k[12..|k| - 8] == d.value {
      assert LogicalOf(k) == k[..12] + k[12..|k| - 8];
    }
  }

  /** The keys to look through for a datom: of the cache when the entity is hydrated, of the store otherwise. */
  method Candidates(en: EavtEngine, d: Keys.Datom) returns (ks: seq<Key>)
    requires en.Valid() && Keys.WfIds(d)
    modifies en.hyd`order, en.kv.mt`buf, en.kv.mt`runs, en.kv.mt`gen
    ensures en.Valid()
    ensures Sees(en, d.eid) ==> ((exists k :: k in ks && Holds(k, d)) <==> Present(en.kv.written[0], d))
  {
    hide KVStore.Valid; hide Hydrated.Set.Valid; hide Less; hide Keys.BigEndian; hide IsStoredKey;
    hide Hydrated.Current; hide Active;
    hide Keys.EncodeInt; hide Keys.DecodeInt; hide AttrPrefix; hide StoredIn; hide KeysWithPrefix; hide WithPrefix;
    hide AboveVersions; hide AllStorable; hide AnchorIndex.Index.Valid; hide AnchorCache.After; hide Present;
    hide Relayed; hide AllValueKeys; hide Holds;
    AttrAnswers(en, d);
    var hit := en.hyd.ProbeComplete(d.eid);
    if hit {
      ValuePrefix(d);
      ks := en.hyd.LookupRange(d.eid, AttrPrefix(d) + d.value, en.kv.written[0]);
      en.CachedKeys(d.eid);
      if en.Fresh(d.eid) {
        CachedDatom(en.kv.written[0], en.hyd.keysOf[d.eid], d);
      }
    } else {
      ks := en.ScanPrefixActive(0, AttrPrefix(d));
      ScannedDatom(en.kv.written[0], ks, d);
    }
  }

  /** Whether the datom is active. */
  method HasDatom(en: EavtEngine, d: Keys.Datom) returns (b: bool)
    requires en.Valid() && Keys.WfIds(d)
    modifies en.hyd`order, en.kv.mt`buf, en.kv.mt`runs, en.kv.mt`gen
    ensures en.Valid()
    ensures Sees(en, d.eid) ==> (b <==> Present(en.kv.written[0], d))
  {
    hide EavtEngine.Valid; hide Sees; hide Present;
    StoredLong(en);
    var ks := Candidates(en, d);
    b := false;
    for i := 0 to |ks|
      invariant b <==> exists j :: 0 <= j < i && Holds(ks[j], d)
      modifies {}
    {
      if |ks[i]| >= 20 && ks[i][12..|ks[i]| - 8] == d.value {
        b := true;
      }
    }
    FoundIs(ks, d);
  }

  predicate Holds(k: Key, d: Keys.Datom)
  {
    |k| >= 20 && k[12..|k| - 8] == d.value
  }

  lemma FoundIs(ks: seq<Key>, d: Keys.Datom)
    ensures (exists j :: 0 <= j < |ks| && Holds(ks[j], d)) <==> exists k :: k in ks && Holds(k, d)
  {
    if k :| k in ks && Holds(k, d) {
      var j :| 0 <= j < |ks| && ks[j] == k;
    }
    if j :| 0 <= j < |ks| && Holds(ks[j], d) {
      assert ks[j] in ks;
    }
  }

  lemma ValuePrefix(d: Keys.Datom)
    requires Keys.WfIds(d)
    ensures Keys.EncodeInt(d.eid) <= AttrPrefix(d) + d.value && |AttrPrefix(d)| == 12
  {
  }

  lemma PresentOne(s: set<Key>, d: Keys.Datom) returns (x: Key)
    requires Keys.WfIds(d) && Present(s, d)
    ensures x in Active(s) && x in s && Versioned(x) && LogicalOf(x) == Keys.Logical(0, d)
  {
    x :| x in Active(s) && LogicalOf(x) == Keys.Logical(0, d);
  }

  lemma PresentIf(s: set<Key>, d: Keys.Datom, x: Key)
    requires Keys.WfIds(d) && x in Active(s) && Versioned(x) && LogicalOf(x) == Keys.Logical(0, d)
    ensures Present(s, d)
  {
  }

  /** A fresh entry holds a version of the datom exactly when it is active. */
  lemma CachedDatom(s: set<Key>, keys: seq<Key>, d: Keys.Datom)
    requires Keys.WfIds(d) && (forall k :: k in s ==> |k| >= 20) && Hydrated.Current(keys, Hydrated.Group(s, d.eid))
    ensures (exists k :: k in KeysWithPrefix(keys, AttrPrefix(d) + d.value) && Holds(k, d)) <==> Present(s, d)
  {
    hide Less; hide Keys.EncodeInt; hide Active; hide Keys.Logical; hide AttrPrefix; hide Present;
    hide KeysWithPrefix; hide Hydrated.Group;
    var ks := KeysWithPrefix(keys, AttrPrefix(d) + d.value);
    assert forall k :: k in keys <==> k in Elems(keys);
    GroupActive(s, d.eid);
    if Present(s, d) {
      var x := PresentOne(s, d);
      KeyOfDatom(d, x);
      PrefixOfLogical(d, x);
      assert x in ks && Holds(x, d);
    }
    if k :| k in ks && Holds(k, d) {
      ActiveIn(s, k);
      PrefixOfLogical(d, k);
      KeyOfDatom(d, k);
      PresentIf(s, d, k);
    }
  }

  lemma PrefixOfLogical(d: Keys.Datom, k: Key)
    requires Keys.WfIds(d) && |k| >= 20
    ensures LogicalOf(k) == Keys.Logical(0, d) ==> AttrPrefix(d) + d.value <= k && Keys.EncodeInt(d.eid) <= k
    ensures AttrPrefix(d) + d.value <= k ==> AttrPrefix(d) <= k
  {
    hide Keys.EncodeInt; hide Keys.BigEndian;
    var p := AttrPrefix(d);
    assert Keys.Logical(0, d) == p + d.value && Keys.EncodeInt(d.eid) <= p;
    if LogicalOf(k) == Keys.Logical(0, d) {
      assert p + d.value == k[..|k| - 8];
    }
  }

  /** What is active of an entity is what is active below its prefix. */
  lemma GroupActive(s: set<Key>, eid: int)
    requires Keys.IsInt64(eid) && forall k :: k in s ==> |k| >= 20
    ensures forall k :: k in Active(Hydrated.Group(s, eid)) <==> k in Active(s) && Keys.EncodeInt(eid) <= k
  {
    hide Less; hide Keys.EncodeInt; hide Active;
    var p := Keys.EncodeInt(eid);
    forall k
      ensures k in Active(Hydrated.Group(s, eid)) <==> k in Active(s) && p <= k
    {
      if k in s && p <= k {
        assert p <= LogicalOf(k);
        ActivePart(s, p, k);
      } else {
        NotActive(s, k);
        NotActive(Hydrated.Group(s, eid), k);
      }
    }
  }

  lemma NotActive(s: set<Key>, k: Key)
    ensures k !in s ==> k !in Active(s)
  {
  }

  lemma ScannedDatom(s: set<Key>, ks: seq<Key>, d: Keys.Datom)
    requires Keys.WfIds(d) && (forall k :: k in s ==> |k| >= 20) && Elems(ks) == Active(WithPrefix(s, AttrPrefix(d)))
    ensures (exists k :: k in ks && Holds(k, d)) <==> Present(s, d)
  {
    hide Less; hide Active; hide Keys.Logical; hide AttrPrefix; hide Present;
    var p := AttrPrefix(d);
    assert forall k :: k in ks <==> k in Elems(ks);
    if Present(s, d) {
      var x := PresentOne(s, d);
      KeyOfDatom(d, x);
      ActiveBelow(s, d, x);
      assert x in ks && Holds(x, d);
    }
    if k :| k in ks && Holds(k, d) {
      ActiveIn(WithPrefix(s, p), k);
      ActiveBelow(s, d, k);
      KeyOfDatom(d, k);
      PresentIf(s, d, k);
    }
  }

  lemma ActiveBelow(s: set<Key>, d: Keys.Datom, k: Key)
    requires Keys.WfIds(d) && (forall x :: x in s ==> |x| >= 20) && k in s && AttrPrefix(d) <= k
    ensures k in Active(WithPrefix(s, AttrPrefix(d))) <==> k in Active(s)
  {
    hide Active;
    assert AttrPrefix(d) <= LogicalOf(k);
    ActivePart(s, AttrPrefix(d), k);
  }

  // ---- one save ----

  /** The retractions of keys, in order. */
  function RetractionSeq(found: seq<Key>, t: nat): (rs: seq<Key>)
    requires t < Keys.TIME_LIMIT && forall k :: k in found ==> Versioned(k)
  {
    seq(|found|, i requires 0 <= i < |found| => RetractionOf(found[i], t))
  }

  lemma RetractionElems(found: seq<Key>, t: nat, s: set<Key>, p: Key)
    requires t < Keys.TIME_LIMIT && (forall k :: k in found ==> Versioned(k)) && Elems(found) == Active(WithPrefix(s, p))
    ensures Elems(RetractionSeq(found, t)) == Retractions(s, p, t)
  {
    hide Active; hide RetractionOf;
    var rs := RetractionSeq(found, t);
    forall r
      ensures r in rs <==> r in Retractions(s, p, t)
    {
      if r in rs {
        var i :| 0 <= i < |rs| && rs[i] == r;
        assert found[i] in found && found[i] in Elems(found);
      }
      if r in Retractions(s, p, t) {
        var z := RetractionFrom(s, p, t, r);
        assert z in Elems(found);
        var i :| 0 <= i < |found| && found[i] == z;
        assert rs[i] == r;
      }
    }
  }

  /** The retraction of a stored key of the attribute can be built and stored. */
  lemma FoundWf(modes: nat -> Keys.Mode, d: Keys.Datom, k: Key, t: nat)
    requires Keys.WfIds(d) && IsStoredKey(0, modes, k) && PageTrees.Storable(k) && AttrPrefix(d) <= k && |k| >= 20
    requires t < Keys.TIME_LIMIT
    ensures WfDatom(modes, DatomAt(d, k)) && Keys.VersionKey(0, DatomAt(d, k), t, true) == RetractionOf(k, t)
  {
    hide Keys.BigEndian; hide Keys.EncodeInt; hide Keys.Encodes;
    var e, u, q :| IsVersionOf(0, modes, e, u, q, k);
    VersionParts(0, modes, e, u, q, k);
    assert LogicalOf(k) == Keys.Logical(0, e) == AttrPrefix(e) + e.value;
    assert AttrPrefix(e) == k[..12] == AttrPrefix(d);
    SameAttr(e, d);
    assert k[12..|k| - 8] == LogicalOf(k)[12..] == e.value;
    RebuiltRetracts(d, k, t);
  }

  /** What a save writes: the retractions of the active values of a single-valued attribute, then the
      assertion. */
  method SaveInto(en: EavtEngine, d: Keys.Datom, t: nat) returns (entries: seq<CfKey>, ghost rs: seq<Key>)
    requires en.Valid() && WfDatom(en.modes, d) && t < Keys.TIME_LIMIT
    modifies en.hyd`order, en.kv.mt`buf, en.kv.mt`runs, en.kv.mt`gen
    ensures en.Valid() && WfEntries(en.modes, entries)
    ensures DatomSeq(entries) == rs + [Keys.VersionKey(0, d, t, false)] && Complete(en.modes, en.indexed, entries)
    ensures Sees(en, d.eid) ==>
      Elems(rs) == if en.many(d.attr) then {} else Retractions(en.kv.written[0], AttrPrefix(d), t)
  {
    hide KVStore.Valid; hide Hydrated.Set.Valid; hide Less; hide Keys.BigEndian; hide IsStoredKey;
    hide Hydrated.Current; hide Active;
    hide Keys.EncodeInt; hide Keys.DecodeInt; hide AttrPrefix; hide KeysWithPrefix; hide WithPrefix;
    hide AboveVersions;
    hide AnchorIndex.Index.Valid; hide AnchorCache.After; hide RetractionSeq; hide EntriesOf; hide Keys.VersionKey;
    hide Keys.Encodes; hide Complete; hide Relayed; hide AllValueKeys;
    AttrAnswers(en, d);
    entries, rs := [], [];
    NothingComplete(en.modes, en.indexed);
    if !en.many(d.attr) {
      var found := en.ScanPrefixActive(0, AttrPrefix(d));
      entries := RetractFound(en.modes, en.indexed, d, t, found, en.hyd.known);
      rs := RetractionSeq(found, t);
      if Sees(en, d.eid) {
        RetractionElems(found, t, en.kv.written[0], AttrPrefix(d));
      }
    }
    var es := EntriesOf(d, t, false, en.modes(d.attr).RefMode?, en.indexed(d.attr));
    EntriesWf(en.modes, d, t, false, en.modes(d.attr).RefMode?, en.indexed(d.attr));
    EntriesComplete(en.modes, en.indexed, d, t, false);
    CompleteConcat(en.modes, en.indexed, entries, es);
    DatomSeqConcat(entries, es);
    WfEntriesConcat(en.modes, entries, es);
    entries := entries + es;
  }

  method RetractFound(modes: nat -> Keys.Mode, indexed: nat -> bool, d: Keys.Datom, t: nat, found: seq<Key>, ghost known: set<Key>)
    returns (entries: seq<CfKey>)
    requires Keys.WfIds(d) && t < Keys.TIME_LIMIT && StoredIn(0, modes, known) && AllStorable(known)
    requires (forall k :: k in known ==> |k| >= 20) && forall k :: k in found ==> k in known && AttrPrefix(d) <= k
    ensures WfEntries(modes, entries) && Complete(modes, indexed, entries)
    ensures DatomSeq(entries) == RetractionSeq(found, t)
  {
    hide IsStoredKey; hide Keys.BigEndian; hide AttrPrefix; hide EntriesOf; hide DatomSeq; hide Keys.VersionKey;
    hide RetractionOf; hide Complete;
    entries := [];
    NoEntries(modes);
    NothingComplete(modes, indexed);
    for i := 0 to |found|
      invariant WfEntries(modes, entries) && DatomSeq(entries) == RetractionSeq(found[..i], t)
      invariant Complete(modes, indexed, entries)
    {
      var k := found[i];
      assert k in found;
      FoundWf(modes, d, k, t);
      var e := DatomAt(d, k);
      var es := EntriesOf(e, t, true, modes(e.attr).RefMode?, indexed(e.attr));
      EntriesWf(modes, e, t, true, modes(e.attr).RefMode?, indexed(e.attr));
      EntriesComplete(modes, indexed, e, t, true);
      CompleteConcat(modes, indexed, entries, es);
      DatomSeqConcat(entries, es);
      WfEntriesConcat(modes, entries, es);
      entries := entries + es;
      assert RetractionSeq(found[..i + 1], t) == RetractionSeq(found[..i], t) + [RetractionOf(k, t)];
    }
    assert found[..|found|] == found;
  }

  lemma NoEntries(modes: nat -> Keys.Mode)
    ensures WfEntries(modes, []) && DatomSeq([]) == []
  {
  }

  lemma {:induction false} OfEntityAll(writes: seq<Key>, eid: int)
    requires Keys.IsInt64(eid) && forall w :: w in writes ==> Keys.EncodeInt(eid) <= w
    ensures Hydrated.OfEntity(writes, eid) == writes
  {
    hide Keys.EncodeInt;
    if writes != [] {
      var front, last := writes[..|writes| - 1], writes[|writes| - 1];
      assert last in writes && writes == front + [last] && forall w :: w in front ==> w in writes;
      OfEntityAll(front, eid);
    }
  }

  /** The cache can follow a save if and only if the save holds. */
  lemma SaveFollowed(s: set<Key>, d: Keys.Datom, t: nat, rs: seq<Key>)
    requires Keys.WfIds(d) && t < Keys.TIME_LIMIT && NoneLater(s, AttrPrefix(d), t) && forall x :: x in s ==> |x| >= 20
    requires Elems(rs) == Retractions(s, AttrPrefix(d), t)
    ensures
      var writes := rs + [Keys.VersionKey(0, d, t, false)];
      Hydrated.Followed(Hydrated.Group(s, d.eid), Hydrated.OfEntity(writes, d.eid)) <==> SaveHolds(s, d, t)
  {
    hide Less; hide Keys.VersionKey; hide AttrPrefix; hide Keys.EncodeInt; hide Active; hide SaveHolds;
    hide Retractions; hide NoneLater;
    hide Hydrated.HasActive; hide RetractionOf;
    var n, r := Keys.VersionKey(0, d, t, false), Keys.VersionKey(0, d, t, true);
    var writes := rs + [n];
    var all := Hydrated.Group(s, d.eid) + Elems(writes);
    SaveKeys(s, d, t, rs);
    OfEntityAll(writes, d.eid);
    assert writes[|rs|] == n && Hydrated.LastOfDatom(writes, |rs|);
    assert forall k :: k in all <==> k in Hydrated.Group(s, d.eid) || k in Elems(rs) || k == n;
    if SaveHolds(s, d, t) {
      forall i | Hydrated.LastOfDatom(writes, i)
        ensures Hydrated.NotOlder(all, writes[i])
      {
        SaveNewest(s, d, t, rs, all, writes[i]);
      }
    } else {
      assert r in all && SaveRetracted(r, n);
    }
  }

  /** A later retraction of the datom is there. */
  ghost predicate SaveRetracted(r: Key, n: Key)
  {
    SameDatom(r, n) && !LessEq(r, n)
  }

  /** The keys of a save belong to its entity; the retraction of its own datom is among them or stored
      exactly when the save does not hold. */
  lemma SaveKeys(s: set<Key>, d: Keys.Datom, t: nat, rs: seq<Key>)
    requires Keys.WfIds(d) && t < Keys.TIME_LIMIT && forall x :: x in s ==> |x| >= 20
    requires Elems(rs) == Retractions(s, AttrPrefix(d), t)
    ensures
      var n, r := Keys.VersionKey(0, d, t, false), Keys.VersionKey(0, d, t, true);
      && Versioned(n) && !Retracted(n) && SaveRetracted(r, n) && r == RetractionOf(n, t)
      && (forall w :: w in rs + [n] ==> Keys.EncodeInt(d.eid) <= w)
      && (r in Hydrated.Group(s, d.eid) || r in Elems(rs) <==> !SaveHolds(s, d, t))
  {
    hide Less; hide Keys.VersionKey; hide Keys.EncodeInt; hide Active; hide SaveHolds; hide Keys.BigEndian;
    var p, n, r := AttrPrefix(d), Keys.VersionKey(0, d, t, false), Keys.VersionKey(0, d, t, true);
    VersionPair(d, t);
    LessAsymmetricIf(n, r);
    LessIrreflexive(n);
    RetractionStored(s, d, t);
    assert Keys.EncodeInt(d.eid) <= p;
    assert p <= r by { assert p <= LogicalOf(n) == LogicalOf(r); }
    forall w | w in rs
      ensures p <= w
    {
      assert w in Elems(rs);
      var z := RetractionFrom(s, p, t, w);
      ActiveIn(WithPrefix(s, p), z);
      PrefixOfRetraction(p, z, t);
    }
  }

  /** Every write of a save that holds is the newest of its datom. */
  lemma SaveNewest(s: set<Key>, d: Keys.Datom, t: nat, rs: seq<Key>, all: set<Key>, w: Key)
    requires Keys.WfIds(d) && t < Keys.TIME_LIMIT && NoneLater(s, AttrPrefix(d), t) && forall x :: x in s ==> |x| >= 20
    requires Elems(rs) == Retractions(s, AttrPrefix(d), t) && SaveHolds(s, d, t)
    requires forall k :: k in all <==> k in Hydrated.Group(s, d.eid) || k in Elems(rs) || k == Keys.VersionKey(0, d, t, false)
    requires w in Elems(rs) || w == Keys.VersionKey(0, d, t, false)
    ensures Hydrated.NotOlder(all, w)
  {
    hide Less; hide Keys.VersionKey; hide AttrPrefix; hide Keys.EncodeInt; hide Active; hide SaveHolds;
    hide Keys.BigEndian;
    var p, n, r := AttrPrefix(d), Keys.VersionKey(0, d, t, false), Keys.VersionKey(0, d, t, true);
    SaveKeys(s, d, t, rs);
    VersionPair(d, t);
    if w in Elems(rs) {
      var z := RetractionFrom(s, p, t, w);
      ActiveIn(WithPrefix(s, p), z);
      forall x | x in all && SameDatom(x, w)
        ensures LessEq(x, w)
      {
        RetractionSame(x, z, t);
        assert p <= x by { assert p == z[..12] == LogicalOf(z)[..12] == LogicalOf(x)[..12] == x[..12]; }
        if x in Elems(rs) {
          var y := RetractionFrom(s, p, t, x);
          RetractionSame(y, z, t);
        }
      }
    } else {
      forall x | x in all && SameDatom(x, n)
        ensures LessEq(x, n)
      {
        RetractionSame(x, n, t);
        assert p <= x by { assert p <= LogicalOf(n) == LogicalOf(x); }
        if x in Elems(rs) {
          var y := RetractionFrom(s, p, t, x);
          RetractionSame(y, n, t);
        } else if x != n {
          LessTotal(x, n);
          if Less(n, x) {
            NothingBetween(d, t, x);
          }
        }
      }
    }
  }

  /** Saves one value.  If the cache hid nothing, the store gains exactly the retractions of the active values
      and the assertion; the value is then the attribute's only one, and the entity stays fresh, if and only
      if the save holds; a hydrated entity shows the value in any case. */
  method SaveWithT(en: EavtEngine, d: Keys.Datom, t: nat) returns (ghost gained: set<Key>)
    requires en.Valid() && WfDatom(en.modes, d) && t < Keys.TIME_LIMIT
    modifies en`told, en`heard, en.anchors, en.hyd, en.kv, en.kv.mt, en.kv.wal
    ensures en.Valid() && en.hyd.index.Keys == old(en.hyd.index.Keys)
    ensures d.eid in en.hyd.index ==> Keys.VersionKey(0, d, t, false) in en.hyd.keysOf[d.eid]
    ensures Gains(en.modes, en.indexed, old(en.kv.written), en.kv.written, gained)
    ensures Agree(en.modes, en.indexed, old(en.kv.written)) ==> Agree(en.modes, en.indexed, en.kv.written)
    ensures old(Sees(en, d.eid)) && en.many(d.attr) ==>
      en.kv.written[0] == old(en.kv.written[0]) + {Keys.VersionKey(0, d, t, false)}
    ensures old(Sees(en, d.eid)) && !en.many(d.attr) ==> en.kv.written[0] == AfterSave(old(en.kv.written[0]), d, t)
    ensures old(Sees(en, d.eid)) && !en.many(d.attr) && NoneLater(old(en.kv.written[0]), AttrPrefix(d), t) ==>
      && Active(WithPrefix(en.kv.written[0], AttrPrefix(d)))
        == (if SaveHolds(old(en.kv.written[0]), d, t) then {Keys.VersionKey(0, d, t, false)} else {})
      && (d.eid in en.hyd.index ==> (en.Fresh(d.eid) <==> SaveHolds(old(en.kv.written[0]), d, t)))
  {
    hide EavtEngine.Valid; hide Keys.VersionKey; hide AttrPrefix; hide Active; hide NoneLater; hide SaveHolds;
    hide AfterSave; hide Retractions;
    hide Hydrated.Followed; hide Hydrated.MirrorAll; hide Hydrated.Group; hide Hydrated.OfEntity; hide DatomSeq;
    hide WfEntries; hide EavtEngine.Fresh;
    hide Keys.Encodes; hide BatchKeys; hide AnchorOps; hide Datoms; hide ValueKeys; hide Complete; hide Gains; hide Agree;
    StoredLong(en);
    SomeWritten(en);
    ghost var s, n := en.kv.written[0], Keys.VersionKey(0, d, t, false);
    ghost var saw := Sees(en, d.eid);
    var entries;
    ghost var rs;
    entries, rs := SaveInto(en, d, t);
    ElemsConcat(rs, [n]);
    en.BatchWrite(entries);
    gained := Elems(DatomSeq(entries));
    SomeWritten(en);
    Gained(en.modes, en.indexed, old(en.kv.written), en.kv.written, entries);
    if Agree(en.modes, en.indexed, old(en.kv.written)) {
      GainsAgree(en.modes, en.indexed, old(en.kv.written), en.kv.written, gained);
    }
    if d.eid in en.hyd.index {
      LastShown(old(Elems(en.hyd.keysOf[d.eid])), rs, d, t);
    }
    if saw && !en.many(d.attr) {
      AfterSaveIs(s, d, t, rs);
      if NoneLater(s, AttrPrefix(d), t) {
        SaveExact(s, d, t);
        SaveFollowed(s, d, t, rs);
      }
    }
  }

  lemma StoredLong(en: EavtEngine)
    requires en.Valid()
    ensures |en.kv.written| > 0 && forall k :: k in en.kv.written[0] ==> |k| >= 20
    ensures en.hyd.keysOf.Keys == en.hyd.index.Keys
  {
    hide KVStore.Valid; hide Hydrated.Set.Valid; hide AnchorIndex.Index.Valid; hide IsStoredKey;
    en.hyd.Entries();
    Hydrated.DatomKeysAreDatoms(en.modes, en.hyd.known);
  }

  lemma SomeWritten(en: EavtEngine)
    requires en.Valid()
    ensures |en.kv.written| == en.kv.mt.numCf >= 4
  {
  }

  lemma AfterSaveIs(s: set<Key>, d: Keys.Datom, t: nat, rs: seq<Key>)
    requires Keys.WfIds(d) && t < Keys.TIME_LIMIT && Elems(rs) == Retractions(s, AttrPrefix(d), t)
    ensures s + Elems(rs + [Keys.VersionKey(0, d, t, false)]) == AfterSave(s, d, t)
  {
    hide Keys.VersionKey; hide Retractions; hide AttrPrefix;
    ElemsConcat(rs, [Keys.VersionKey(0, d, t, false)]);
  }

  /** The last write of an entity is what its entry shows. */
  lemma LastShown(ks: set<Key>, rs: seq<Key>, d: Keys.Datom, t: nat)
    requires Keys.WfIds(d) && t < Keys.TIME_LIMIT && forall w :: w in rs ==> Versioned(w)
    ensures
      var n := Keys.VersionKey(0, d, t, false);
      && (forall w :: w in rs + [n] ==> Versioned(w))
      && n in Hydrated.MirrorAll(ks, Hydrated.OfEntity(rs + [n], d.eid))
  {
    hide Keys.BigEndian; hide Keys.EncodeInt;
    var n := Keys.VersionKey(0, d, t, false);
    var writes := rs + [n];
    VersionPair(d, t);
    assert Keys.EncodeInt(d.eid) <= n;
    assert writes[..|writes| - 1] == rs;
    var ws := Hydrated.OfEntity(rs, d.eid);
    assert Hydrated.OfEntity(writes, d.eid) == ws + [n];
    assert (ws + [n])[..|ws|] == ws;
  }

  // ---- transactions ----

  /** What saving a list of datoms writes, every save looking at the same store. */
  ghost function SavedBy(s: set<Key>, ds: seq<Keys.Datom>, many: nat -> bool, t: nat): (ks: set<Key>)
    requires t < Keys.TIME_LIMIT && forall d :: d in ds ==> Keys.WfIds(d)
  {
    if ds == [] then {}
    else
      var front, last := ds[..|ds| - 1], ds[|ds| - 1];
      assert last in ds && forall d :: d in front ==> d in ds;
      SavedBy(s, front, many, t) + {Keys.VersionKey(0, last, t, false)}
        + if many(last.attr) then {} else Retractions(s, AttrPrefix(last), t)
  }

  ghost predicate WrittenFor(s: set<Key>, d: Keys.Datom, many: nat -> bool, t: nat, k: Key)
    requires t < Keys.TIME_LIMIT
  {
    && Keys.WfIds(d)
    && (k == Keys.VersionKey(0, d, t, false) || (!many(d.attr) && k in Retractions(s, AttrPrefix(d), t)))
  }

  lemma {:induction false} SavedMember(s: set<Key>, ds: seq<Keys.Datom>, many: nat -> bool, t: nat, k: Key)
    requires t < Keys.TIME_LIMIT && forall d :: d in ds ==> Keys.WfIds(d)
    ensures k in SavedBy(s, ds, many, t) <==> exists d :: d in ds && WrittenFor(s, d, many, t, k)
  {
    hide Keys.VersionKey; hide Retractions; hide AttrPrefix;
    if ds != [] {
      var front, last := ds[..|ds| - 1], ds[|ds| - 1];
      assert last in ds && forall d :: d in ds <==> d in front || d == last;
      SavedMember(s, front, many, t, k);
      assert k in SavedBy(s, ds, many, t) <==> k in SavedBy(s, front, many, t) || WrittenFor(s, last, many, t, k);
    }
  }

  /** The datoms that remain of a transaction. */
  ghost predicate Remaining(s: set<Key>, ops: seq<TxOp>, ds: seq<Keys.Datom>)
    requires forall op :: op in ops ==> Keys.WfIds(op.d)
  {
    && (forall d :: d in ds ==> Keys.WfIds(d) && exists op :: op in ops && Remains(s, op) && op.d == d)
    && forall op :: op in ops && Remains(s, op) ==> op.d in ds
  }

  /** Saving what remains writes the assertions and the retractions of what they replace. */
  lemma SavedIs(s: set<Key>, ops: seq<TxOp>, ds: seq<Keys.Datom>, many: nat -> bool, t: nat)
    requires WfTx(s, ops, t) && Remaining(s, ops, ds)
    ensures SavedBy(s, ds, many, t) == Asserted(s, ops, t) + Replaced(s, ops, many, t)
  {
    hide Keys.VersionKey; hide Retractions; hide AttrPrefix; hide SavedBy; hide Remains; hide AllOlder;
    forall k
      ensures k in SavedBy(s, ds, many, t) <==> k in Asserted(s, ops, t) + Replaced(s, ops, many, t)
    {
      SavedMember(s, ds, many, t, k);
      if k in SavedBy(s, ds, many, t) {
        var d :| d in ds && WrittenFor(s, d, many, t, k);
        var op :| op in ops && Remains(s, op) && op.d == d;
      }
      if k in Asserted(s, ops, t) {
        var op :| op in ops && Remains(s, op) && k == Keys.VersionKey(0, op.d, t, false);
        assert op.d in ds && WrittenFor(s, op.d, many, t, k);
      }
      if k in Replaced(s, ops, many, t) {
        var op, x :| op in ops && Remains(s, op) && !many(op.d.attr) && x in Retractions(s, AttrPrefix(op.d), t) && k == x;
        assert op.d in ds && WrittenFor(s, op.d, many, t, k);
      }
    }
  }

  /** Every key a transaction adds is the newest of its datom: first the assertions and what they replace,
      then the retractions asked for. */
  lemma SavedNewest(s: set<Key>, ops: seq<TxOp>, many: nat -> bool, t: nat, w: Key)
    requires WfTx(s, ops, t) && w in Asserted(s, ops, t) + Replaced(s, ops, many, t)
    ensures |w| >= 20 && Hydrated.NotOlder(s + Asserted(s, ops, t) + Replaced(s, ops, many, t), w)
  {
    hide Less; hide Keys.VersionKey; hide AttrPrefix; hide Retractions; hide Remains; hide Active; hide Withdrawn;
    hide Keys.Logical; hide RetractionOf;
    LongKeys(s, ops, many, t);
    var d := DatomOf(s, ops, many, t, w);
    var n, r := Keys.VersionKey(0, d, t, false), Keys.VersionKey(0, d, t, true);
    VersionPair(d, t);
    RetractionAdded(s, ops, many, t, d);
    AssertionAdded(s, ops, many, t, d, w);
    Parities(s, ops, many, t);
    forall x | x in s + Asserted(s, ops, t) + Replaced(s, ops, many, t) && SameDatom(x, w)
      ensures LessEq(x, w)
    {
      if x in s {
        OlderThanBoth(s, d, t, x);
      } else {
        AddedAtTime(s, ops, many, t, d, x);
      }
    }
  }

  /** The datom of an added key. */
  lemma DatomOf(s: set<Key>, ops: seq<TxOp>, many: nat -> bool, t: nat, w: Key) returns (d: Keys.Datom)
    requires WfTx(s, ops, t) && w in Asserted(s, ops, t) + Replaced(s, ops, many, t) + Withdrawn(s, ops, t)
    ensures Keys.WfIds(d) && AllOlder(s, AttrPrefix(d), t) && SameDatom(w, Keys.VersionKey(0, d, t, false))
    ensures w == Keys.VersionKey(0, d, t, false) || w == Keys.VersionKey(0, d, t, true)
  {
    hide Less; hide Keys.VersionKey; hide AttrPrefix; hide Remains; hide Active; hide Keys.Logical;
    hide RetractionOf; hide Keys.BigEndian;
    if w in Asserted(s, ops, t) {
      var op :| op in ops && Remains(s, op) && w == Keys.VersionKey(0, op.d, t, false);
      d := op.d;
      VersionPair(d, t);
    } else if w in Withdrawn(s, ops, t) {
      var op :| op in ops && op.retract && w == Keys.VersionKey(0, op.d, t, true);
      d := op.d;
      VersionPair(d, t);
    } else {
      var op, y :| op in ops && Remains(s, op) && y in Retractions(s, AttrPrefix(op.d), t) && w == y;
      var z := RetractionFrom(s, AttrPrefix(op.d), t, y);
      ActiveIn(WithPrefix(s, AttrPrefix(op.d)), z);
      d := DatomAt(op.d, z);
      DatomAtIs(op.d, t, z);
      VersionPair(d, t);
      RetractionSame(z, Keys.VersionKey(0, d, t, false), t);
    }
  }

  lemma WithdrawnNewest(s: set<Key>, ops: seq<TxOp>, many: nat -> bool, t: nat, w: Key)
    requires WfTx(s, ops, t) && w in Withdrawn(s, ops, t)
    ensures |w| >= 20 && Hydrated.NotOlder(AfterTx(s, ops, many, t), w)
  {
    hide Less; hide Keys.VersionKey; hide AttrPrefix; hide Retractions; hide Remains; hide Active; hide Keys.Logical;
    hide RetractionOf;
    hide Asserted; hide Replaced; hide Withdrawn;
    LongKeys(s, ops, many, t);
    var d := DatomOf(s, ops, many, t, w);
    var n, r := Keys.VersionKey(0, d, t, false), Keys.VersionKey(0, d, t, true);
    VersionPair(d, t);
    Parities(s, ops, many, t);
    forall x | x in AfterTx(s, ops, many, t) && SameDatom(x, w)
      ensures LessEq(x, w)
    {
      if x in s {
        OlderThanBoth(s, d, t, x);
      } else {
        AddedAtTime(s, ops, many, t, d, x);
      }
    }
  }

  /** Writes that are the newest of their datoms can all be followed. */
  lemma NewestFollowed(s: set<Key>, writes: seq<Key>, eid: int)
    requires Keys.IsInt64(eid) && forall w :: w in writes ==> Hydrated.NotOlder(s + Elems(writes), w)
    ensures Hydrated.Followed(Hydrated.Group(s, eid), Hydrated.OfEntity(writes, eid))
  {
    hide Less; hide Keys.EncodeInt; hide Hydrated.HasActive; hide Hydrated.OfEntity;
    var ws := Hydrated.OfEntity(writes, eid);
    forall i | Hydrated.LastOfDatom(ws, i)
      ensures Hydrated.NotOlder(Hydrated.Group(s, eid) + Elems(ws), ws[i])
    {
      assert ws[i] in ws;
    }
  }

  /** The transaction's lookups are not misled by the cache and its time is new. */
  ghost predicate Ready(en: EavtEngine, ops: seq<TxOp>, t: nat)
    reads en.kv`written, en.hyd`keysOf, en.hyd`index
  {
    |en.kv.written| > 0 && WfTx(en.kv.written[0], ops, t) && forall op :: op in ops ==> Sees(en, op.d.eid)
  }

  /** The assertions whose datoms are not active. */
  method Sift(en: EavtEngine, ops: seq<TxOp>, t: nat) returns (ds: seq<Keys.Datom>)
    requires en.Valid() && forall op :: op in ops ==> WfDatom(en.modes, op.d)
    modifies en.hyd`order, en.kv.mt`buf, en.kv.mt`runs, en.kv.mt`gen
    ensures en.Valid() && forall d :: d in ds ==> WfDatom(en.modes, d)
    ensures Ready(en, ops, t) ==> Remaining(en.kv.written[0], ops, ds)
  {
    hide EavtEngine.Valid; hide Sees; hide Present; hide WfDatom; hide WfTx;
    ds := [];
    for i := 0 to |ops|
      invariant en.Valid() && forall d :: d in ds ==> WfDatom(en.modes, d)
      invariant Ready(en, ops, t) ==> Sifted(en.kv.written[0], ops[..i], ds)
    {
      assert ops[i] in ops;
      ghost var before := ds;
      WfDatomIds(en.modes, ops[i].d);
      if !ops[i].retract {
        var b := HasDatom(en, ops[i].d);
        if !b {
          ds := ds + [ops[i].d];
        }
      }
      if Ready(en, ops, t) {
        SiftStep(en.kv.written[0], ops, i, before, ds);
      }
    }
    assert ops[..|ops|] == ops;
    if Ready(en, ops, t) {
      SiftDone(en.kv.written[0], ops, ds);
    }
  }

  lemma WfDatomIds(modes: nat -> Keys.Mode, d: Keys.Datom)
    requires WfDatom(modes, d)
    ensures Keys.WfIds(d)
  {
  }

  ghost predicate Sifted(s: set<Key>, ops: seq<TxOp>, ds: seq<Keys.Datom>)
  {
    (forall op :: op in ops ==> Keys.WfIds(op.d)) && Remaining(s, ops, ds)
  }

  lemma SiftStep(s: set<Key>, ops: seq<TxOp>, i: nat, before: seq<Keys.Datom>, ds: seq<Keys.Datom>)
    requires i < |ops| && Sifted(s, ops[..i], before) && Keys.WfIds(ops[i].d)
    requires ds == if Remains(s, ops[i]) then before + [ops[i].d] else before
    ensures Sifted(s, ops[..i + 1], ds)
  {
    hide Remains;
    assert ops[..i + 1] == ops[..i] + [ops[i]];
    var more := ops[..i + 1];
    assert ops[i] in more && forall op :: op in more <==> op in ops[..i] || op == ops[i];
  }

  lemma SiftDone(s: set<Key>, ops: seq<TxOp>, ds: seq<Keys.Datom>)
    requires Sifted(s, ops, ds)
    ensures (forall op :: op in ops ==> Keys.WfIds(op.d)) && Remaining(s, ops, ds)
  {
  }

  /** The entries of all saves that remain, each of them scanning the state before the transaction. */
  method SaveEntries(en: EavtEngine, ds: seq<Keys.Datom>, t: nat) returns (entries: seq<CfKey>)
    requires en.Valid() && t < Keys.TIME_LIMIT && forall d :: d in ds ==> WfDatom(en.modes, d)
    modifies en.hyd`order, en.kv.mt`buf, en.kv.mt`runs, en.kv.mt`gen
    ensures en.Valid() && WfEntries(en.modes, entries) && forall d :: d in ds ==> Keys.WfIds(d)
    ensures Complete(en.modes, en.indexed, entries)
    ensures (forall d :: d in ds ==> Sees(en, d.eid)) ==>
      Elems(DatomSeq(entries)) == SavedBy(en.kv.written[0], ds, en.many, t)
  {
    hide EavtEngine.Valid; hide Sees; hide WfDatom; hide DatomSeq; hide WfEntries; hide Retractions; hide AttrPrefix;
    hide Keys.VersionKey; hide SavedBy; hide Complete;
    forall d | d in ds
      ensures Keys.WfIds(d)
    {
      WfDatomIds(en.modes, d);
    }
    entries := [];
    NoEntries(en.modes);
    StoredLong(en);
    NothingSaved(en.kv.written[0], en.many, t);
    NothingComplete(en.modes, en.indexed);
    for i := 0 to |ds|
      invariant en.Valid() && WfEntries(en.modes, entries) && Complete(en.modes, en.indexed, entries)
      invariant (forall d :: d in ds ==> Sees(en, d.eid)) ==>
        Elems(DatomSeq(entries)) == SavedBy(en.kv.written[0], ds[..i], en.many, t)
    {
      assert ds[i] in ds;
      var es;
      ghost var rs;
      es, rs := SaveInto(en, ds[i], t);
      StoredLong(en);
      CompleteConcat(en.modes, en.indexed, entries, es);
      DatomSeqConcat(entries, es);
      WfEntriesConcat(en.modes, entries, es);
      ElemsConcat(DatomSeq(entries), DatomSeq(es));
      ElemsConcat(rs, [Keys.VersionKey(0, ds[i], t, false)]);
      SavedStep(en.kv.written[0], ds, i, en.many, t);
      entries := entries + es;
    }
    assert ds[..|ds|] == ds;
  }

  lemma NothingSaved(s: set<Key>, many: nat -> bool, t: nat)
    requires t < Keys.TIME_LIMIT
    ensures SavedBy(s, [], many, t) == {}
  {
  }

  lemma SavedStep(s: set<Key>, ds: seq<Keys.Datom>, i: nat, many: nat -> bool, t: nat)
    requires t < Keys.TIME_LIMIT && i < |ds| && forall d :: d in ds ==> Keys.WfIds(d)
    ensures SavedBy(s, ds[..i + 1], many, t) == SavedBy(s, ds[..i], many, t)
      + ((if many(ds[i].attr) then {} else Retractions(s, AttrPrefix(ds[i]), t)) + {Keys.VersionKey(0, ds[i], t, false)})
  {
    hide Retractions; hide AttrPrefix; hide Keys.VersionKey;
    var more := ds[..i + 1];
    assert more[..|more| - 1] == ds[..i] && more[|more| - 1] == ds[i];
  }

  /** The entries of the retractions asked for. */
  method RetractEntries(en: EavtEngine, ops: seq<TxOp>, t: nat) returns (entries: seq<CfKey>)
    requires t < Keys.TIME_LIMIT && forall op :: op in ops ==> WfDatom(en.modes, op.d)
    ensures WfEntries(en.modes, entries) && Complete(en.modes, en.indexed, entries)
    ensures forall k :: k in DatomSeq(entries) <==> SomeRetracts(ops, t, k)
  {
    hide WfDatom; hide DatomSeq; hide WfEntries; hide Keys.VersionKey; hide EntriesOf; hide SomeRetracts; hide Complete;
    entries := [];
    NoEntries(en.modes);
    NothingComplete(en.modes, en.indexed);
    NoneRetracts(t);
    for i := 0 to |ops|
      invariant WfEntries(en.modes, entries) && Complete(en.modes, en.indexed, entries)
      invariant forall k :: k in DatomSeq(entries) <==> SomeRetracts(ops[..i], t, k)
    {
      assert ops[i] in ops;
      OneMoreRetraction(ops, i, t);
      WfDatomIds(en.modes, ops[i].d);
      ghost var before := entries;
      if ops[i].retract {
        var d := ops[i].d;
        var es := EntriesOf(d, t, true, en.modes(d.attr).RefMode?, en.indexed(d.attr));
        EntriesWf(en.modes, d, t, true, en.modes(d.attr).RefMode?, en.indexed(d.attr));
        EntriesComplete(en.modes, en.indexed, d, t, true);
        CompleteConcat(en.modes, en.indexed, entries, es);
        DatomSeqConcat(entries, es);
        WfEntriesConcat(en.modes, entries, es);
        entries := entries + es;
      }
      forall k
        ensures k in DatomSeq(entries) <==> SomeRetracts(ops[..i + 1], t, k)
      {
        assert Retracts(ops[i], t, k) <==> ops[i].retract && k == Keys.VersionKey(0, ops[i].d, t, true);
        assert k in DatomSeq(entries) <==> k in DatomSeq(before) || Retracts(ops[i], t, k);
      }
    }
    assert ops[..|ops|] == ops;
  }

  lemma NoneRetracts(t: nat)
    requires t < Keys.TIME_LIMIT
    ensures forall k :: !SomeRetracts([], t, k)
  {
  }

  lemma OneMoreRetraction(ops: seq<TxOp>, i: nat, t: nat)
    requires i < |ops| && t < Keys.TIME_LIMIT
    ensures forall k :: SomeRetracts(ops[..i + 1], t, k) <==> SomeRetracts(ops[..i], t, k) || Retracts(ops[i], t, k)
  {
    hide Retracts;
    var more := ops[..i + 1];
    assert more == ops[..i] + [ops[i]] && ops[i] in more;
    assert forall op :: op in more <==> op in ops[..i] || op == ops[i];
  }

  ghost predicate Retracts(op: TxOp, t: nat, k: Key)
    requires t < Keys.TIME_LIMIT
  {
    op.retract && Keys.WfIds(op.d) && k == Keys.VersionKey(0, op.d, t, true)
  }

  ghost predicate SomeRetracts(ops: seq<TxOp>, t: nat, k: Key)
    requires t < Keys.TIME_LIMIT
  {
    exists op :: op in ops && Retracts(op, t, k)
  }

  lemma WithdrawnIs(s: set<Key>, ops: seq<TxOp>, t: nat, ws: seq<Key>)
    requires WfTx(s, ops, t) && forall k :: k in ws <==> SomeRetracts(ops, t, k)
    ensures Elems(ws) == Withdrawn(s, ops, t)
  {
    hide Keys.VersionKey; hide AllOlder;
    forall k | k in Withdrawn(s, ops, t)
      ensures k in ws
    {
      var op :| op in ops && op.retract && k == Keys.VersionKey(0, op.d, t, true);
      assert Retracts(op, t, k);
    }
  }

  /** A transaction: assertions of active datoms are dropped, the others written with the retractions of what
      they replace, all against the state before, and then the retractions asked for.  If its lookups are
      not misled, the store gains exactly that and every entity that was fresh stays fresh. */
  method Transact(en: EavtEngine, ops: seq<TxOp>, t: nat) returns (ghost gained: set<Key>)
    requires en.Valid() && t < Keys.TIME_LIMIT && forall op :: op in ops ==> WfDatom(en.modes, op.d)
    modifies en`told, en`heard, en.anchors, en.hyd, en.kv, en.kv.mt, en.kv.wal
    ensures en.Valid() && en.hyd.index.Keys == old(en.hyd.index.Keys)
    ensures Gains(en.modes, en.indexed, old(en.kv.written), en.kv.written, gained)
    ensures Agree(en.modes, en.indexed, old(en.kv.written)) ==> Agree(en.modes, en.indexed, en.kv.written)
    ensures old(Ready(en, ops, t)) ==>
      && en.kv.written[0] == AfterTx(old(en.kv.written[0]), ops, en.many, t)
      && forall e :: e in en.hyd.index && old(en.Fresh(e)) ==> en.Fresh(e)
  {
    hide EavtEngine.Valid; hide WfDatom; hide DatomSeq; hide WfEntries; hide EavtEngine.Fresh; hide Sees; hide WfTx;
    hide Remaining; hide SavedBy;
    hide Hydrated.Followed; hide Hydrated.MirrorAll; hide Hydrated.Group; hide Hydrated.OfEntity; hide BatchKeys;
    hide AnchorOps; hide Datoms;
    hide Asserted; hide Replaced; hide Withdrawn; hide Hydrated.NotOlder; hide SomeRetracts; hide AfterTx;
    hide ValueKeys; hide Complete; hide Gains; hide Agree;
    SomeWritten(en);
    ghost var ready, s := Ready(en, ops, t), if |en.kv.written| > 0 then en.kv.written[0] else {};
    var ds := Sift(en, ops, t);
    if ready {
      SiftedSees(en, ops, ds, t);
    }
    var entries := SaveEntries(en, ds, t);
    ghost var saved := DatomSeq(entries);
    if ready {
      SavedIs(s, ops, ds, en.many, t);
      SavedFollowed(s, ops, en.many, t, saved);
    }
    ghost var first := en.kv.written;
    en.BatchWrite(entries);
    SomeWritten(en);
    Gained(en.modes, en.indexed, first, en.kv.written, entries);
    ghost var second := en.kv.written;
    var gone := RetractEntries(en, ops, t);
    ghost var withdrawn := DatomSeq(gone);
    ghost var mid := en.kv.written[0];
    if ready {
      WithdrawnIs(s, ops, t, withdrawn);
      WithdrawnFollowed(s, ops, en.many, t, mid, withdrawn);
    }
    en.BatchWrite(gone);
    SomeWritten(en);
    Gained(en.modes, en.indexed, second, en.kv.written, gone);
    gained := Elems(saved) + Elems(withdrawn);
    GainsTwice(en.modes, en.indexed, first, second, en.kv.written, Elems(saved), Elems(withdrawn));
    if Agree(en.modes, en.indexed, first) {
      GainsAgree(en.modes, en.indexed, first, en.kv.written, gained);
    }
  }

  lemma SiftedSees(en: EavtEngine, ops: seq<TxOp>, ds: seq<Keys.Datom>, t: nat)
    requires Ready(en, ops, t) && Remaining(en.kv.written[0], ops, ds)
    ensures forall d :: d in ds ==> Sees(en, d.eid)
  {
    hide Sees; hide Remains; hide AllOlder;
  }

  lemma SavedFollowed(s: set<Key>, ops: seq<TxOp>, many: nat -> bool, t: nat, writes: seq<Key>)
    requires WfTx(s, ops, t) && Elems(writes) == Asserted(s, ops, t) + Replaced(s, ops, many, t)
    ensures forall e :: Keys.IsInt64(e) ==> Hydrated.Followed(Hydrated.Group(s, e), Hydrated.OfEntity(writes, e))
  {
    hide WfTx; hide Asserted; hide Replaced; hide Hydrated.Followed; hide Hydrated.Group; hide Hydrated.OfEntity;
    hide Hydrated.NotOlder;
    assert s + Elems(writes) == s + Asserted(s, ops, t) + Replaced(s, ops, many, t);
    forall w | w in writes
      ensures Hydrated.NotOlder(s + Elems(writes), w)
    {
      assert w in Elems(writes);
      SavedNewest(s, ops, many, t, w);
    }
    forall e | Keys.IsInt64(e)
      ensures Hydrated.Followed(Hydrated.Group(s, e), Hydrated.OfEntity(writes, e))
    {
      NewestFollowed(s, writes, e);
    }
  }

  lemma WithdrawnFollowed(s: set<Key>, ops: seq<TxOp>, many: nat -> bool, t: nat, mid: set<Key>, writes: seq<Key>)
    requires WfTx(s, ops, t) && mid == s + (Asserted(s, ops, t) + Replaced(s, ops, many, t))
    requires Elems(writes) == Withdrawn(s, ops, t)
    ensures mid + Elems(writes) == AfterTx(s, ops, many, t)
    ensures forall e :: Keys.IsInt64(e) ==> Hydrated.Followed(Hydrated.Group(mid, e), Hydrated.OfEntity(writes, e))
  {
    hide WfTx; hide Asserted; hide Replaced; hide Withdrawn; hide Hydrated.Followed; hide Hydrated.Group;
    hide Hydrated.OfEntity; hide Hydrated.NotOlder;
    assert mid + Elems(writes) == AfterTx(s, ops, many, t);
    forall w | w in writes
      ensures Hydrated.NotOlder(mid + Elems(writes), w)
    {
      assert w in Elems(writes);
      WithdrawnNewest(s, ops, many, t, w);
    }
    forall e | Keys.IsInt64(e)
      ensures Hydrated.Followed(Hydrated.Group(mid, e), Hydrated.OfEntity(writes, e))
    {
      NewestFollowed(mid, writes, e);
    }
  }
}
