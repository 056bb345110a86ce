/** The engine over its parts: one batch write reaches the log, the memtable, the hydrated cache and the
    anchor index; scans and lookups go through whichever of them answers first; flushes run beside them. */
module Engine {
  import opened Bytes
  import opened Versions
  import opened KvStore
  import AnchorCache
  import AnchorIndex
  import Hydrated
  import Keys
  import MemTables
  import PageGc
  import PageStore
  import PageTrees

  /** What an entry of the value index tells the anchor index. */
  function AnchorOps(entries: seq<CfKey>): (ops: seq<AnchorCache.Op>)
  {
    if entries == [] then []
    else
      var last := entries[|entries| - 1];
      AnchorOps(entries[..|entries| - 1]) + if last.cf == 2 && |last.key| >= 20 then [AnchorOp(last.key)] else []
  }

  function AnchorOp(k: Key): (op: AnchorCache.Op)
    requires |k| >= 20
  {
    var a := AnchorIndex.AnchorKey(Aid(k), AnchorValue(k));
    if Retracted(k) then AnchorCache.DelOp(a) else AnchorCache.PutOp(a, AnchorEid(k))
  }

  function Aid(k: Key): (aid: nat)
    requires |k| >= 4
    ensures aid < 0x1_0000_0000
  {
    Keys.ReadBigBound(k[..4]);
    Keys.Pow256Eight();
    Keys.ReadBig(k[..4])
  }

  function AnchorValue(k: Key): (v: Key)
    requires |k| >= 20
  {
    k[4..|k| - 16]
  }

  function AnchorEid(k: Key): (eid: int)
    requires |k| >= 20
  {
    Keys.DecodeInt(k[|k| - 16..|k| - 8])
  }

  /** What a version in the value index tells: its entity is named by the attribute and value, or is so no
      more. */
  lemma AnchorOpIs(d: Keys.Datom, t: nat, retracted: bool)
    requires Keys.WfIds(d) && t < Keys.TIME_LIMIT
    ensures
      var a := AnchorIndex.AnchorKey(d.attr, d.value);
      AnchorOp(Keys.VersionKey(2, d, t, retracted))
        == if retracted then AnchorCache.DelOp(a) else AnchorCache.PutOp(a, d.eid)
  {
    hide Keys.BigEndian; hide Keys.EncodeInt; hide Keys.DecodeInt; hide Keys.ReadBig; hide AnchorIndex.AnchorKey;
    var k := Keys.VersionKey(2, d, t, retracted);
    var e, a, x := Keys.EncodeInt(d.eid), Keys.BigEndian(d.attr, 4), Keys.BigEndian(Keys.EncodeSuffix(t, retracted), 8);
    assert k == a + d.value + e + x;
    assert k[..4] == a && k[4..|k| - 16] == d.value && k[|k| - 16..|k| - 8] == e;
    Keys.Pow256Eight();
    Keys.BigRoundTrip(d.attr, 4);
    EntityPrefix(d.eid);
    ParityIs(2, d, t, retracted);
  }

  lemma ParityIs(cf: nat, d: Keys.Datom, t: nat, retracted: bool)
    requires cf < 4 && Keys.WfIds(d) && t < Keys.TIME_LIMIT
    ensures Retracted(Keys.VersionKey(cf, d, t, retracted)) == retracted
  {
    hide Keys.Logical; hide Keys.BigEndian; hide Keys.EncodeSuffix;
    Keys.SuffixParity(t, retracted);
    var k := Keys.VersionKey(cf, d, t, retracted);
    assert k[|k| - 1] == Keys.BigEndian(Keys.EncodeSuffix(t, retracted), 8)[7];
  }

  // ---- the versions of an attribute and value ----

  /** The keys of the value index in a batch, in order. */
  function ValueKeys(entries: seq<CfKey>): (ks: seq<Key>)
  {
    if entries == [] then []
    else
      var last := entries[|entries| - 1];
      ValueKeys(entries[..|entries| - 1]) + if last.cf == 2 then [last.key] else []
  }

  /** The key is a version, asserted or retracted, of some entity's datom of the attribute and value. */
  ghost predicate Concerns(k: Key, aid: nat, val: Key)
  {
    exists eid, t: nat, r :: VersionAt(k, Keys.Datom(eid, aid, val), t, r)
  }

  ghost predicate VersionAt(k: Key, d: Keys.Datom, t: nat, r: bool)
  {
    Keys.WfIds(d) && t < Keys.TIME_LIMIT && k == Keys.VersionKey(2, d, t, r)
  }

  /** The last write of the attribute and value was an assertion, and of this entity. */
  ghost predicate LastNames(heard: seq<Key>, i: nat, aid: nat, val: Key, eid: int)
  {
    && i < |heard|
    && (exists t: nat :: VersionAt(heard[i], Keys.Datom(eid, aid, val), t, false))
    && forall j :: i < j < |heard| ==> !Concerns(heard[j], aid, val)
  }

  ghost predicate AllValueKeys(heard: seq<Key>)
  {
    forall k :: k in heard ==> exists d, t: nat, r :: VersionAt(k, d, t, r)
  }

  /** What was told, probes aside, is what these keys say. */
  ghost predicate Relayed(told: seq<AnchorCache.Op>, heard: seq<Key>)
  {
    if told == [] then heard == []
    else
      var front, last := told[..|told| - 1], told[|told| - 1];
      if last.ProbeOp? then Relayed(front, heard)
      else
        && heard != [] && |heard[|heard| - 1]| >= 20 && last == AnchorOp(heard[|heard| - 1])
        && Relayed(front, heard[..|heard| - 1])
  }

  lemma {:induction false} RelayedMore(told: seq<AnchorCache.Op>, heard: seq<Key>, entries: seq<CfKey>)
    requires Relayed(told, heard) && AllValueKeys(ValueKeys(entries))
    ensures Relayed(told + AnchorOps(entries), heard + ValueKeys(entries))
  {
    hide AnchorOp; hide Relayed; hide VersionAt;
    if entries == [] {
      assert told + [] == told && heard + [] == heard;
    } else {
      var front, last := entries[..|entries| - 1], entries[|entries| - 1];
      assert forall k :: k in ValueKeys(front) ==> k in ValueKeys(entries);
      RelayedMore(told, heard, front);
      var t, h := told + AnchorOps(front), heard + ValueKeys(front);
      if last.cf == 2 {
        assert last.key in ValueKeys(entries);
        VersionLong(last.key);
        RelayedOne(t, h, last.key);
        assert told + AnchorOps(entries) == t + [AnchorOp(last.key)];
        assert heard + ValueKeys(entries) == h + [last.key];
      } else {
        assert AnchorOps(entries) == AnchorOps(front) && ValueKeys(entries) == ValueKeys(front);
      }
    }
  }

  lemma VersionLong(k: Key)
    requires exists d, t: nat, r :: VersionAt(k, d, t, r)
    ensures |k| >= 20
  {
  }

  lemma RelayedOne(told: seq<AnchorCache.Op>, heard: seq<Key>, k: Key)
    requires Relayed(told, heard) && |k| >= 20
    ensures Relayed(told + [AnchorOp(k)], heard + [k])
  {
    assert (told + [AnchorOp(k)])[..|told|] == told && (heard + [k])[..|heard|] == heard;
  }

  lemma RelayedProbe(told: seq<AnchorCache.Op>, heard: seq<Key>, k: Key)
    requires Relayed(told, heard)
    ensures Relayed(told + [AnchorCache.ProbeOp(k)], heard)
  {
    assert (told + [AnchorCache.ProbeOp(k)])[..|told|] == told;
  }

  /** The latest put that nothing removed is the last write of the attribute and value. */
  lemma {:induction false} LatestIsLast(told: seq<AnchorCache.Op>, heard: seq<Key>, aid: nat, val: Key, eid: int)
    returns (i: nat)
    requires aid < 0x1_0000_0000 && Relayed(told, heard) && AllValueKeys(heard)
    requires AnchorCache.Latest(told, AnchorIndex.AnchorKey(aid, val)) == AnchorCache.Some(eid)
    ensures LastNames(heard, i, aid, val, eid)
    decreases |told|
  {
    hide AnchorOp; hide AnchorIndex.AnchorKey; hide VersionAt; hide Concerns;
    var front, last := told[..|told| - 1], told[|told| - 1];
    if last.ProbeOp? {
      i := LatestIsLast(front, heard, aid, val, eid);
    } else {
      var n := |heard| - 1;
      var k := heard[n];
      assert k in heard;
      var d, t, r :| VersionAt(k, d, t, r);
      ConcernsIs(k, d, t, r, aid, val);
      if AnchorIndex.AnchorKey(d.attr, d.value) == AnchorIndex.AnchorKey(aid, val) {
        assert d == Keys.Datom(eid, aid, val);
        i := n;
      } else {
        assert forall x :: x in heard[..n] ==> x in heard;
        i := LatestIsLast(front, heard[..n], aid, val, eid);
        assert heard[i] == heard[..n][i];
        assert forall j :: i < j < n ==> heard[j] == heard[..n][j];
      }
    }
  }

  lemma ConcernsIs(k: Key, d: Keys.Datom, t: nat, r: bool, aid: nat, val: Key)
    requires aid < 0x1_0000_0000 && VersionAt(k, d, t, r)
    ensures |k| >= 20 && d.attr < 0x1_0000_0000
    ensures var a := AnchorIndex.AnchorKey(d.attr, d.value);
      AnchorOp(k) == if r then AnchorCache.DelOp(a) else AnchorCache.PutOp(a, d.eid)
    ensures AnchorIndex.AnchorKey(d.attr, d.value) == AnchorIndex.AnchorKey(aid, val) ==> d == Keys.Datom(d.eid, aid, val)
    ensures Concerns(k, aid, val) ==> AnchorIndex.AnchorKey(d.attr, d.value) == AnchorIndex.AnchorKey(aid, val)
  {
    hide AnchorOp; hide AnchorIndex.AnchorKey;
    AnchorOpIs(d, t, r);
    if AnchorIndex.AnchorKey(d.attr, d.value) == AnchorIndex.AnchorKey(aid, val) {
      AnchorIndex.AnchorKeyInjective(d.attr, d.value, aid, val);
    }
    if Concerns(k, aid, val) {
      var e, u: nat, q :| VersionAt(k, Keys.Datom(e, aid, val), u, q);
      AnchorOpIs(Keys.Datom(e, aid, val), u, q);
    }
  }

  /** The datom keys of a batch, in order. */
  function DatomSeq(entries: seq<CfKey>): (ks: seq<Key>)
  {
    var ds := Datoms(entries);
    seq(|ds|, i requires 0 <= i < |ds| => ds[i].key)
  }

  /** Every key of the set is a key of the column family. */
  ghost predicate StoredIn(cf: nat, modes: nat -> Keys.Mode, s: set<Key>)
    requires cf < 4
  {
    forall k :: k in s ==> IsStoredKey(cf, modes, k)
  }

  ghost predicate AllStorable(s: set<Key>)
  {
    forall k :: k in s ==> PageTrees.Storable(k)
  }

  /** Keys of the four indexes that the pages can hold. */
  ghost predicate WfEntries(modes: nat -> Keys.Mode, entries: seq<CfKey>)
  {
    forall e :: e in entries ==> e.cf < 4 && PageTrees.Storable(e.key) && IsStoredKey(e.cf, modes, e.key)
  }

  class EavtEngine {
    const kv: KVStore
    const hyd: Hydrated.Set
    const anchors: AnchorIndex.Index

    /** How each attribute encodes its values, which attributes have many and which are indexed. */
    const modes: nat -> Keys.Mode
    const many: nat -> bool
    const indexed: nat -> bool

    /** Everything the anchor index was told, and every key ever written to the value index. */
    ghost var told: seq<AnchorCache.Op>
    ghost var heard: seq<Key>

    ghost predicate Valid()
      reads this, kv, kv.ps, kv.mt, kv.wal, hyd, anchors
    {
      && kv.Valid() && kv.pending == {} && |kv.written| == kv.mt.numCf >= 4
      && (forall cf :: 0 <= cf < 4 ==> StoredIn(cf, modes, kv.written[cf]))
      && hyd.Valid() && kv.written[0] <= hyd.known && StoredIn(0, modes, hyd.known) && AllStorable(hyd.known)
      && anchors.Valid() && anchors.cache == AnchorCache.After(told, anchors.maxBytes)
      && Relayed(told, heard) && AllValueKeys(heard)
    }

    /** The cache holds exactly the active keys the store has of the entity. */
    ghost predicate Fresh(eid: int)
      reads kv`written, hyd`keysOf
    {
      |kv.written| > 0 && hyd.Fresh(eid, kv.written[0])
    }

    constructor (store: KVStore, cache: Hydrated.Set, index: AnchorIndex.Index,
                 encodings: nat -> Keys.Mode, manyValued: nat -> bool, valueIndexed: nat -> bool)
      requires store.Valid() && store.pending == {} && |store.written| == store.mt.numCf >= 4
      requires forall cf :: 0 <= cf < 4 ==> StoredIn(cf, encodings, store.written[cf])
      requires cache.Valid() && cache.known == store.written[0] && AllStorable(cache.known)
      requires index.Valid() && index.cache == []
      ensures Valid() && kv == store && hyd == cache && anchors == index && told == [] && heard == []
      ensures modes == encodings && many == manyValued && indexed == valueIndexed
    {
      hide KVStore.Valid; hide Hydrated.Set.Valid; hide AnchorIndex.Index.Valid; hide IsStoredKey;
      kv, hyd, anchors, told, heard := store, cache, index, [], [];
      modes, many, indexed := encodings, manyValued, valueIndexed;
    }

    /** Passes the entries of the value index on to the anchors. */
    method TellAnchors(entries: seq<CfKey>)
      requires anchors.Valid() && anchors.cache == AnchorCache.After(told, anchors.maxBytes)
      modifies anchors, this`told
      ensures anchors.Valid() && anchors.cache == AnchorCache.After(told, anchors.maxBytes)
      ensures told == old(told) + AnchorOps(entries)
    {
      hide AnchorIndex.Index.Valid; hide AnchorCache.After; hide AnchorIndex.AnchorKey; hide AnchorCache.Put;
      hide AnchorCache.Without;
      for i := 0 to |entries|
        invariant anchors.Valid() && anchors.cache == AnchorCache.After(told, anchors.maxBytes)
        invariant told == old(told) + AnchorOps(entries[..i])
      {
        assert entries[..i + 1][..i] == entries[..i];
        var k := entries[i].key;
        if entries[i].cf == 2 && |k| >= 20 {
          Told(told, AnchorOp(k), anchors.maxBytes);
          if Retracted(k) {
            anchors.Del(Aid(k), AnchorValue(k));
          } else {
            anchors.Put(Aid(k), AnchorValue(k), AnchorEid(k));
          }
          told := told + [AnchorOp(k)];
        }
      }
      assert entries[..|entries|] == entries;
    }

    /** The write path: anchors, log, cache, memtable.  The log gains exactly the datoms and every column
        family exactly its keys.  A hydrated entity then answers with the last write of every datom; if it was
        fresh it stays so if and only if the last write of each of its datoms can be followed. */
    method BatchWrite(entries: seq<CfKey>)
      requires Valid() && WfEntries(modes, entries)
      modifies this`told, this`heard, anchors, hyd`index, hyd`curBytes, hyd`keysOf, hyd`known, kv`pending, kv`written, kv.mt, kv.wal
      ensures Valid() && hyd.index.Keys == old(hyd.index.Keys)
      ensures forall cf :: 0 <= cf < kv.mt.numCf ==> kv.written[cf] == old(kv.written[cf]) + BatchKeys(entries, cf)
      ensures kv.written[0] == old(kv.written[0]) + Elems(DatomSeq(entries))
      ensures kv.wal.recs == old(kv.wal.recs) + Datoms(entries)
      ensures told == old(told) + AnchorOps(entries) && heard == old(heard) + ValueKeys(entries)
      ensures forall k :: k in DatomSeq(entries) ==> Versioned(k)
      ensures forall e :: e in hyd.index ==> Keys.IsInt64(e)
      ensures forall e :: e in hyd.index ==>
        Elems(hyd.keysOf[e]) == Hydrated.MirrorAll(old(Elems(hyd.keysOf[e])), Hydrated.OfEntity(DatomSeq(entries), e))
      ensures forall e :: e in hyd.index && old(Fresh(e)) ==>
        (Fresh(e) <==> Hydrated.Followed(Hydrated.Group(old(kv.written[0]), e), Hydrated.OfEntity(DatomSeq(entries), e)))
    {
      hide KVStore.Valid; hide Hydrated.Set.Valid; hide AnchorIndex.Index.Valid; hide AnchorCache.After;
      hide BatchKeys;
      hide EntryKeys; hide Datoms; hide IsStoredKey; hide AnchorOps; hide StoredIn; hide AllStorable; hide DatomSeq;
      hide WfEntries;
      hide Hydrated.Current; hide Hydrated.Group; hide Hydrated.MirrorAll; hide Hydrated.Followed;
      hide Hydrated.OfEntity; hide KVStore.Shelves; hide Relayed; hide AllValueKeys; hide ValueKeys;
      ghost var before, known := kv.written, hyd.known;
      TellAnchors(entries);
      ValueKeysStored(modes, heard, entries);
      RelayedMore(old(told), heard, entries);
      heard := heard + ValueKeys(entries);
      BatchDatoms(entries, modes, known);
      kv.JournalOnly(Datoms(entries));
      hyd.ApplyAll(DatomSeq(entries), kv.written[0]);
      DatomKeys(entries);
      kv.ApplyBatch(entries);
      BatchStored(entries, modes, before, kv.written);
    }

    /** The written keys of a column family below a prefix, in order. */
    method ScanPrefix(cf: nat, prefix: Key) returns (out: seq<Key>)
      requires Valid() && cf < kv.mt.numCf
      modifies kv.mt`buf, kv.mt`runs, kv.mt`gen
      ensures Valid()
      ensures Ascending(out) && Elems(out) == WithPrefix(kv.written[cf], prefix)
    {
      hide KVStore.Valid; hide Hydrated.Set.Valid; hide AnchorIndex.Index.Valid; hide AnchorCache.After;
      hide StoredIn;
      hide Less; hide KeysWithPrefix; hide AllStorable;
      var all := kv.Scan(cf, prefix);
      out := [];
      var i := 0;
      NoneYet(all, prefix);
      while i < |all| && prefix <= all[i]
        invariant 0 <= i <= |all| && out == KeysWithPrefix(all[..i], prefix)
        modifies {}
      {
        Hydrated.OneMore(all, i, prefix);
        out := out + [all[i]];
        i := i + 1;
      }
      if i < |all| {
        assert all[i] in all;
      }
      Hydrated.NoneAbove(all, i, prefix);
      Matching(all, kv.written[cf], prefix);
    }

    /** The store answers an active scan, or the cache with a fresh entry and not inside a version. */
    ghost predicate Answers(cf: nat, prefix: Key)
      requires cf < |kv.written|
      reads kv`written, hyd`keysOf, hyd`index
    {
      cf == 0 && |prefix| >= 8 && Keys.DecodeInt(prefix[..8]) in hyd.index ==>
        Fresh(Keys.DecodeInt(prefix[..8])) && AboveVersions(kv.written[0], prefix)
    }

    /** An active scan, from the cache when the entity is hydrated and from the merged store otherwise: exactly
        the newest asserted versions of everything written below the prefix.  For a whole hydrated entity
        that is so if and only if its entry is fresh. */
    method ScanPrefixActive(cf: nat, prefix: Key) returns (out: seq<Key>)
      requires Valid() && cf < 4
      modifies hyd`order, kv.mt`buf, kv.mt`runs, kv.mt`gen
      ensures Valid() && Ascending(out)
      ensures Answers(cf, prefix) ==> Elems(out) == Active(WithPrefix(kv.written[cf], prefix))
      ensures cf == 0 && |prefix| == 8 && Keys.DecodeInt(prefix) in hyd.index ==>
        (Elems(out) == Active(WithPrefix(kv.written[0], prefix)) <==> Fresh(Keys.DecodeInt(prefix)))
      ensures forall k :: k in out ==> k in (if cf == 0 then hyd.known else kv.written[cf]) && prefix <= k
    {
      hide KVStore.Valid; hide AnchorIndex.Index.Valid; hide AnchorCache.After; hide StoredIn;
      hide Hydrated.Set.Valid; hide AllStorable;
      hide Less; hide Active; hide AboveVersions; hide Keys.EncodeInt; hide Keys.DecodeInt; hide Hydrated.Group;
      hide Hydrated.Current;
      if cf == 0 && |prefix| >= 8 {
        var eid := Keys.DecodeInt(prefix[..8]);
        var hit := hyd.ProbeComplete(eid);
        if hit {
          Hydrated.KeyEid(prefix, eid);
          assert |prefix| == 8 ==> prefix[..8] == prefix;
          out := hyd.LookupRange(eid, prefix, kv.written[0]);
          CachedKeys(eid);
          return;
        }
        assert |prefix| == 8 ==> prefix[..8] == prefix;
      }
      var collected := ScanPrefix(cf, prefix);
      PartByDatom(cf, modes, kv.written[cf], prefix);
      out := Versions.ScanPrefixActive(collected);
      ActiveWithPrefix(out, kv.written[cf], prefix);
    }

    lemma CachedKeys(eid: int)
      requires hyd.Valid() && eid in hyd.index
      ensures eid in hyd.keysOf && forall k :: k in hyd.keysOf[eid] ==> k in hyd.known
    {
      hide Less; hide Keys.EncodeInt;
      assert Hydrated.EntryOk(hyd.index[eid], hyd.keysOf[eid], Hydrated.Group(hyd.known, eid));
      forall k | k in hyd.keysOf[eid]
        ensures k in hyd.known
      {
        assert k in Elems(hyd.keysOf[eid]);
      }
    }

    /** Hydrates an entity with what an active scan of the store finds, if that is something and fits. */
    method HydrateEid(eid: int)
      requires Valid() && Keys.IsInt64(eid)
      modifies hyd`index, hyd`order, hyd`curBytes, hyd`keysOf, kv.mt`buf, kv.mt`runs, kv.mt`gen
      ensures Valid() && hyd.known == old(hyd.known)
      ensures eid in old(hyd.index) ==> hyd.index == old(hyd.index) && hyd.keysOf == old(hyd.keysOf)
      ensures eid !in old(hyd.index) && eid in hyd.index ==> Fresh(eid)
      ensures forall e :: e in hyd.index && e != eid ==> e in old(hyd.index) && hyd.keysOf[e] == old(hyd.keysOf)[e]
      ensures forall ks :: Ascending(ks) && Elems(ks) == Active(WithPrefix(kv.written[0], Keys.EncodeInt(eid))) ==>
        (eid in hyd.index <==> eid in old(hyd.index) || (ks != [] && |Flatten(ks)| <= hyd.maxBytes))
    {
      hide KVStore.Valid; hide AnchorIndex.Index.Valid; hide AnchorCache.After; hide Hydrated.Set.Valid;
      hide StoredIn; hide AllStorable;
      hide Less; hide Active; hide Keys.EncodeInt; hide Keys.DecodeInt; hide IsStoredKey; hide Flatten;
      hide WithPrefix;
      if eid in hyd.index {
        return;
      }
      var prefix := Keys.EncodeInt(eid);
      EntityPrefix(eid);
      var ks := ScanPrefixActive(0, prefix);
      if |ks| > 0 {
        hyd.Hydrate(eid, ks, kv.written[0]);
      }
      forall other | Ascending(other) && Elems(other) == Elems(ks)
        ensures other == ks
      {
        AscendingUnique(other, ks);
      }
    }

    /** An anchor hit names the entity of the last write of the attribute and value to the value index, which
        was an assertion. */
    method LookupAnchor(aid: nat, val: Key) returns (eid: int, ok: bool)
      requires Valid() && aid < 0x1_0000_0000
      modifies this`told, anchors
      ensures Valid()
      ensures heard == old(heard) && (ok ==> exists i: nat :: LastNames(heard, i, aid, val, eid))
      ensures told == old(told) + [AnchorCache.ProbeOp(AnchorIndex.AnchorKey(aid, val))]
    {
      hide KVStore.Valid; hide AnchorIndex.Index.Valid; hide AnchorCache.After; hide Hydrated.Set.Valid;
      hide StoredIn; hide AllStorable;
      hide AnchorIndex.AnchorKey; hide AnchorCache.Latest; hide AnchorCache.Touch; hide AnchorCache.Lookup;
      hide Relayed; hide AllValueKeys; hide LastNames;
      var k := AnchorIndex.AnchorKey(aid, val);
      AnchorIndex.HitIsLatest(told, anchors.maxBytes, k);
      Told(told, AnchorCache.ProbeOp(k), anchors.maxBytes);
      eid, ok := anchors.Probe(aid, val);
      if ok {
        var i := LatestIsLast(told, heard, aid, val, eid);
      }
      RelayedProbe(told, heard, k);
      told := told + [AnchorCache.ProbeOp(k)];
    }

    // ---- flushes ----

    /** Captures and publishes change nothing that is written or hydrated. */
    method CaptureFlush() returns (res: PageStore.Option<FlushBatch>)
      requires Valid()
      modifies kv`flushActive, kv`inflight, kv.mt, kv.wal`sealBoundary
      ensures Valid() && (res.None? <==> old(kv.flushActive)) && (res.Some? ==> kv.inflight == res)
      ensures kv.Shelves() == if res.Some? then NextShelves(Capture, Idle, old(kv.Shelves())) else old(kv.Shelves())
    {
      hide KVStore.Valid; hide Hydrated.Set.Valid; hide AnchorIndex.Index.Valid; hide AnchorCache.After;
      hide StoredIn; hide AllStorable;
      hide KVStore.Shelves;
      res := kv.CaptureFlush();
    }

    method PublishFlush(b: FlushBatch, trees: seq<PageStore.CfTree>, root: PageStore.RootName)
      requires Valid() && kv.inflight == PageStore.Some(b) && Prepared(b, kv.ps.blobs, trees)
      modifies kv`flushActive, kv`durable, kv`inflight, kv.ps`trees, kv.ps`currentRoot, kv.mt
      ensures Valid() && !kv.flushActive && kv.written == old(kv.written)
      ensures kv.ps.trees == trees && kv.ps.currentRoot == root
      ensures kv.Shelves() == NextShelves(Publish, Merging, old(kv.Shelves()))
    {
      hide KVStore.Valid; hide Hydrated.Set.Valid; hide AnchorIndex.Index.Valid; hide AnchorCache.After;
      hide StoredIn; hide AllStorable;
      hide KVStore.Shelves; hide Prepared;
      kv.PublishFlush(b, trees, root);
    }

    /** Gives a flush up.  The cache keeps what it holds; an entity that was fresh stays so if and only if the
        loss is unseen: of its keys that are gone none was the newest of its datom, except retractions of what
        is not active without them either. */
    method AbortFlush()
      requires Valid() && kv.flushActive
      modifies kv`flushActive, kv`inflight, kv`written, kv`dropped, kv.mt
      ensures Valid() && !kv.flushActive
      ensures forall cf :: 0 <= cf < kv.mt.numCf ==> kv.written[cf] == old(kv.ShelfOf(cf)).paged + old(kv.ShelfOf(cf)).live
      ensures kv.written[0] <= old(kv.written[0])
      ensures kv.Shelves() == NextShelves(Abort, Captured, old(kv.Shelves()))
      ensures forall e :: old(Fresh(e)) ==>
        (Fresh(e) <==> Hydrated.LossUnseen(Hydrated.Group(old(kv.written[0]), e), Hydrated.Group(kv.written[0], e)))
    {
      hide KVStore.Valid; hide Hydrated.Set.Valid; hide AnchorIndex.Index.Valid; hide AnchorCache.After;
      hide StoredIn; hide AllStorable;
      hide KVStore.ShelfOf; hide KVStore.Shelves; hide NextShelves; hide Hydrated.LossUnseen;
      ghost var before, shelves := kv.written, kv.Shelves();
      forall cf | 0 <= cf < kv.mt.numCf
        ensures |shelves| == kv.mt.numCf && shelves[cf] == kv.ShelfOf(cf) && before[cf] == Shown(shelves[cf])
      {
        kv.ShownIs(cf);
        kv.EveryShelf(cf);
      }
      AbortedShelves(shelves);
      kv.AbortFlush();
      forall cf | 0 <= cf < kv.mt.numCf
        ensures kv.written[cf] == shelves[cf].paged + shelves[cf].live <= before[cf]
      {
        kv.ShownIs(cf);
        kv.EveryShelf(cf);
      }
      FewerStored(modes, before, kv.written);
      forall e | old(Fresh(e))
        ensures Fresh(e) <==> Hydrated.LossUnseen(Hydrated.Group(before[0], e), Hydrated.Group(kv.written[0], e))
      {
        StaysFresh(hyd.keysOf[e], before[0], kv.written[0], e);
      }
    }

    /** One flush from capture to publish, or given up when its prepare fails.  A published one moves every live
        write to the pages under the new root and changes nothing that is written or fresh; a failed one
        leaves the pages only. */
    method RunFlush(now: PageGc.Clock, fails: bool)
      requires Valid()
      modifies kv, kv.ps, kv.mt, kv.wal`sealBoundary
      ensures Valid()
      ensures !fails || old(kv.flushActive) ==> kv.written == old(kv.written)
      ensures !old(kv.flushActive) && !fails ==> kv.ps.currentRoot == PageGc.MakeRootName(now)
      ensures !old(kv.flushActive) ==>
        forall cf :: 0 <= cf < kv.mt.numCf ==> kv.ShelfOf(cf) == AfterFlush(old(kv.ShelfOf(cf)), fails)
      ensures kv.written[0] <= old(kv.written[0])
      ensures forall e :: old(Fresh(e)) ==>
        (Fresh(e) <==> Hydrated.LossUnseen(Hydrated.Group(old(kv.written[0]), e), Hydrated.Group(kv.written[0], e)))
    {
      hide KVStore.Valid; hide Hydrated.Set.Valid; hide AnchorIndex.Index.Valid; hide AnchorCache.After;
      hide StoredIn; hide AllStorable;
      hide KVStore.ShelfOf; hide KVStore.Shelves; hide Prepared; hide PageGc.MakeRootName; hide Hydrated.LossUnseen;
      hide Hydrated.Current;
      hide NextShelves;
      NoLoss(kv.written[0]);
      ghost var shelves := kv.Shelves();
      AllShelves(kv);
      FlushedShelves(shelves);
      var b := CaptureFlush();
      if b.None? {
        return;
      }
      kv.Phase(b);
      if fails {
        AbortFlush();
        AllShelves(kv);
        return;
      }
      var root := PageGc.MakeRootName(now);
      var trees := kv.PrepareFlush(b.value, root);
      PublishFlush(b.value, trees, root);
      AllShelves(kv);
    }
  }

  ghost function AfterFlush(s: Shelf, fails: bool): (s': Shelf)
  {
    Shelf(if fails then s.paged else s.paged + s.live, {}, {})
  }

  lemma AllShelves(kv: KVStore)
    requires kv.Valid()
    ensures |kv.Shelves()| == kv.mt.numCf && forall cf :: 0 <= cf < kv.mt.numCf ==> kv.Shelves()[cf] == kv.ShelfOf(cf)
  {
    hide KVStore.Valid; hide KVStore.ShelfOf; hide KVStore.Shelves;
    forall cf | 0 <= cf < kv.mt.numCf
      ensures |kv.Shelves()| == kv.mt.numCf && kv.Shelves()[cf] == kv.ShelfOf(cf)
    {
      kv.EveryShelf(cf);
    }
    kv.FirstShelf();
  }

  /** A flush that succeeds moves the live writes to the pages; one that fails loses them. */
  lemma FlushedShelves(ss: seq<Shelf>)
    ensures
      var captured := NextShelves(Capture, Idle, ss);
      var published, aborted := NextShelves(Publish, Merging, captured), NextShelves(Abort, Captured, captured);
      && |published| == |aborted| == |ss|
      && forall cf :: 0 <= cf < |ss| ==>
           published[cf] == AfterFlush(ss[cf], false) && aborted[cf] == AfterFlush(ss[cf], true)
  {
  }

  lemma {:induction false} ValueKeyFrom(entries: seq<CfKey>, k: Key)
    requires k in ValueKeys(entries)
    ensures exists e :: e in entries && e.cf == 2 && e.key == k
  {
    var front, last := entries[..|entries| - 1], entries[|entries| - 1];
    assert last in entries && forall e :: e in front ==> e in entries;
    if k in ValueKeys(front) {
      ValueKeyFrom(front, k);
    }
  }

  lemma ValueKeysStored(modes: nat -> Keys.Mode, heard: seq<Key>, entries: seq<CfKey>)
    requires WfEntries(modes, entries) && AllValueKeys(heard)
    ensures AllValueKeys(ValueKeys(entries)) && AllValueKeys(heard + ValueKeys(entries))
  {
    hide ValueKeys;
    forall k | k in ValueKeys(entries)
      ensures exists d, t: nat, r :: VersionAt(k, d, t, r)
    {
      ValueKeyFrom(entries, k);
      var e :| e in entries && e.cf == 2 && e.key == k;
      var d, t, r :| IsVersionOf(2, modes, d, t, r, k);
      assert VersionAt(k, d, t, r);
    }
  }

  lemma Told(ops: seq<AnchorCache.Op>, op: AnchorCache.Op, budget: int)
    ensures AnchorCache.After(ops + [op], budget) == AnchorCache.Step(AnchorCache.After(ops, budget), budget, op)
  {
    assert (ops + [op])[..|ops|] == ops;
  }

  /** The datoms of a batch are datom keys, together with what was known before. */
  lemma BatchDatoms(entries: seq<CfKey>, modes: nat -> Keys.Mode, known: set<Key>)
    requires WfEntries(modes, entries) && StoredIn(0, modes, known) && AllStorable(known)
    ensures Elems(DatomSeq(entries)) == EntryKeys(Datoms(entries))
    ensures StoredIn(0, modes, known + Elems(DatomSeq(entries))) && AllStorable(known + Elems(DatomSeq(entries)))
    ensures Hydrated.Datoms(known + Elems(DatomSeq(entries)))
    ensures AllDatoms(Datoms(entries))
    ensures forall e :: e in entries ==> e.cf < FIRST_KV_CF && PageTrees.Storable(e.key)
  {
    hide IsStoredKey; hide Hydrated.Datoms;
    var ds, ks := Datoms(entries), DatomSeq(entries);
    forall k | k in ks
      ensures exists e :: e in ds && e.key == k
    {
      var i :| 0 <= i < |ks| && ks[i] == k;
      assert ds[i] in ds;
    }
    forall e | e in ds
      ensures e.key in ks
    {
      var i :| 0 <= i < |ds| && ds[i] == e;
      assert ks[i] == e.key;
    }
    Hydrated.DatomKeysAreDatoms(modes, known + Elems(ks));
  }

  lemma {:induction false} BatchMember(entries: seq<CfKey>, cf: nat, k: Key) returns (e: CfKey)
    requires k in BatchKeys(entries, cf)
    ensures e in entries && e.cf == cf && e.key == k
  {
    var front, last := entries[..|entries| - 1], entries[|entries| - 1];
    assert entries == front + [last];
    if last.cf == cf && last.key == k {
      e := last;
    } else {
      e := BatchMember(front, cf, k);
    }
  }

  /** What a batch adds to the indexes are keys of them. */
  lemma BatchStored(entries: seq<CfKey>, modes: nat -> Keys.Mode, before: seq<set<Key>>, after: seq<set<Key>>)
    requires WfEntries(modes, entries) && |before| == |after| >= 4
    requires forall cf :: 0 <= cf < 4 ==> StoredIn(cf, modes, before[cf])
    requires forall cf :: 0 <= cf < 4 ==> after[cf] == before[cf] + BatchKeys(entries, cf)
    ensures forall cf :: 0 <= cf < 4 ==> StoredIn(cf, modes, after[cf])
  {
    hide IsStoredKey; hide BatchKeys;
    forall cf, k | 0 <= cf < 4 && k in after[cf]
      ensures IsStoredKey(cf, modes, k)
    {
      if k in before[cf] {
        assert StoredIn(cf, modes, before[cf]);
      } else {
        var e := BatchMember(entries, cf, k);
      }
    }
  }

  lemma FewerStored(modes: nat -> Keys.Mode, before: seq<set<Key>>, after: seq<set<Key>>)
    requires |before| == |after| >= 4 && forall cf :: 0 <= cf < |after| ==> after[cf] <= before[cf]
    requires forall cf :: 0 <= cf < 4 ==> StoredIn(cf, modes, before[cf])
    ensures forall cf :: 0 <= cf < 4 ==> StoredIn(cf, modes, after[cf])
  {
    hide IsStoredKey;
    forall cf | 0 <= cf < 4
      ensures StoredIn(cf, modes, after[cf])
    {
      assert StoredIn(cf, modes, before[cf]);
    }
  }

  lemma AbortedShelves(ss: seq<Shelf>)
    ensures forall cf :: 0 <= cf < |ss| ==> Shown(NextShelves(Abort, Captured, ss)[cf]) == ss[cf].paged + ss[cf].live <= Shown(ss[cf])
  {
  }

  /** Active keys stay the active keys of fewer datoms if and only if the loss is unseen. */
  lemma StaysFresh(keys: seq<Key>, before: set<Key>, after: set<Key>, eid: int)
    requires Keys.IsInt64(eid) && after <= before && Hydrated.Current(keys, Hydrated.Group(before, eid))
    ensures Hydrated.Current(keys, Hydrated.Group(after, eid))
      <==> Hydrated.LossUnseen(Hydrated.Group(before, eid), Hydrated.Group(after, eid))
  {
    hide Active; hide Keys.EncodeInt; hide Hydrated.LossUnseen;
    Hydrated.LossExact(Hydrated.Group(before, eid), Hydrated.Group(after, eid));
  }

  lemma NoLoss(s: set<Key>)
    ensures forall e :: Keys.IsInt64(e) ==> Hydrated.LossUnseen(Hydrated.Group(s, e), Hydrated.Group(s, e))
  {
  }

  lemma NoneYet(keys: seq<Key>, p: Key)
    ensures KeysWithPrefix(keys[..0], p) == []
  {
  }

  /** The keys from the prefix on that have it are the written keys that have it. */
  lemma Matching(all: seq<Key>, written: set<Key>, p: Key)
    requires Ascending(all) && forall k :: k in all <==> k in written && LessEq(p, k)
    ensures Ascending(KeysWithPrefix(all, p)) && Elems(KeysWithPrefix(all, p)) == WithPrefix(written, p)
  {
    hide Less;
    KeysWithPrefixAscending(all, p);
    forall k
      ensures k in Elems(KeysWithPrefix(all, p)) <==> k in WithPrefix(written, p)
    {
      if p <= k && p != k {
        PrefixLess(p, k);
      }
    }
  }

  lemma PartByDatom(cf: nat, modes: nat -> Keys.Mode, s: set<Key>, p: Key)
    requires cf < 4 && StoredIn(cf, modes, s)
    ensures ByDatom(WithPrefix(s, p))
  {
    hide IsStoredKey;
    StoredKeysByDatom(cf, modes, WithPrefix(s, p));
  }

  lemma ActiveWithPrefix(out: seq<Key>, s: set<Key>, p: Key)
    requires Elems(out) == Active(WithPrefix(s, p))
    ensures forall k :: k in out ==> k in s && p <= k
  {
    forall k | k in out
      ensures k in s && p <= k
    {
      assert k in Elems(out);
    }
  }

  lemma EntityPrefix(eid: int)
    requires Keys.IsInt64(eid)
    ensures |Keys.EncodeInt(eid)| == 8 && Keys.DecodeInt(Keys.EncodeInt(eid)) == eid
    ensures Keys.EncodeInt(eid)[..8] == Keys.EncodeInt(eid)
  {
    Keys.EncodeIntOrder(eid, eid);
  }
}
