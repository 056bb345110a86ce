/** Index keys derived from datom keys: by a replica from the log records it receives, and at a restart from
    the datoms the log gave back. */
module Rebuild {
  import opened Bytes
  import opened Versions
  import opened KvStore
  import opened Engine
  import opened Transactions
  import Keys
  import MemTables

  /** The attribute of the time of a transaction. */
  const TX_INSTANT := 9

  function AttrOf(k: Key): (aid: nat)
    requires |k| >= 12
  {
    Keys.ReadBig(k[8..12])
  }

  /** The derived keys of a datom key as entries of their column families. */
  function Derived(k: Key, indexed: bool, isRef: bool): (es: seq<CfKey>)
  {
    var ds := Keys.DeriveIndexKeys(k, indexed, isRef);
    seq(|ds|, i requires 0 <= i < |ds| => MemTables.CfKey(ds[i].cf, ds[i].key))
  }

  /** Deriving gives the versions of the datom in each index asked for, and nothing else. */
  lemma DerivedIs(d: Keys.Datom, t: nat, r: bool, indexed: bool, isRef: bool)
    requires Keys.WfIds(d) && t < Keys.TIME_LIMIT
    ensures
      var es := Derived(Keys.VersionKey(0, d, t, r), indexed, isRef);
      forall e :: e in es <==>
        1 <= e.cf < 4 && (e.cf == 2 ==> indexed) && (e.cf == 3 ==> isRef) && e.key == Keys.VersionKey(e.cf, d, t, r)
    ensures AttrOf(Keys.VersionKey(0, d, t, r)) == d.attr
  {
    hide Keys.BigEndian; hide Keys.EncodeInt; hide Keys.ReadBig;
    var k, s := Keys.VersionKey(0, d, t, r), Keys.BigEndian(Keys.EncodeSuffix(t, r), 8);
    var e, a, v := Keys.EncodeInt(d.eid), Keys.BigEndian(d.attr, 4), d.value;
    var n := |k| - 8;
    assert k[..8] == e && k[8..12] == a && k[12..n] == v && k[n..] == s && k[12..] == v + s;
    Keys.Pow256Eight();
    Keys.BigRoundTrip(d.attr, 4);
    assert Keys.VersionKey(1, d, t, r) == a + e + (v + s);
    assert Keys.VersionKey(2, d, t, r) == a + v + e + s && Keys.VersionKey(3, d, t, r) == v + a + e + s;
    InEach(Keys.VersionKey(1, d, t, r), Keys.VersionKey(2, d, t, r), Keys.VersionKey(3, d, t, r), indexed, isRef,
           Keys.DeriveIndexKeys(k, indexed, isRef), Derived(k, indexed, isRef));
  }

  lemma InEach(one: Key, two: Key, three: Key, indexed: bool, isRef: bool, ds: seq<Keys.IndexEntry>, es: seq<CfKey>)
    requires ds == [Keys.IndexEntry(1, one)] + (if indexed then [Keys.IndexEntry(2, two)] else [])
                   + (if isRef then [Keys.IndexEntry(3, three)] else [])
    requires |es| == |ds| && forall i :: 0 <= i < |es| ==> es[i] == MemTables.CfKey(ds[i].cf, ds[i].key)
    ensures forall e :: e in es <==>
      || e == MemTables.CfKey(1, one)
      || (indexed && e == MemTables.CfKey(2, two))
      || (isRef && e == MemTables.CfKey(3, three))
  {
    var second := if indexed then [MemTables.CfKey(2, two)] else [];
    var third := if isRef then [MemTables.CfKey(3, three)] else [];
    assert es == [MemTables.CfKey(1, one)] + second + third;
  }

  // ---- a replica ----

  /** The entry of a datom and the keys derived from it. */
  function Expansion(k: Key, modes: nat -> Keys.Mode, indexed: nat -> bool): (es: seq<CfKey>)
    requires |k| >= 20
  {
    [MemTables.CfKey(0, k)] + Derived(k, indexed(AttrOf(k)), modes(AttrOf(k)).RefMode?)
  }

  /** The keys of the records that are datoms. */
  function DatomRecords(recs: seq<CfKey>): (ks: seq<Key>)
  {
    if recs == [] then []
    else
      var last := recs[|recs| - 1];
      DatomRecords(recs[..|recs| - 1]) + if last.cf == 0 && |last.key| >= 20 then [last.key] else []
  }

  ghost predicate AllStored(modes: nat -> Keys.Mode, ks: seq<Key>)
  {
    forall k :: k in ks ==> IsStoredKey(0, modes, k)
  }

  lemma ExpansionComplete(modes: nat -> Keys.Mode, indexed: nat -> bool, k: Key)
    requires IsStoredKey(0, modes, k) && |k| >= 20
    ensures Complete(modes, indexed, Expansion(k, modes, indexed)) && DatomSeq(Expansion(k, modes, indexed)) == [k]
  {
    hide Derived; hide DatomSeq; hide BatchKeys; hide Keys.VersionKey; hide Keys.Encodes; hide AttrOf;
    var d, t: nat, r :| IsVersionOf(0, modes, d, t, r, k);
    DerivedIs(d, t, r, indexed(AttrOf(k)), modes(AttrOf(k)).RefMode?);
    var es := Expansion(k, modes, indexed);
    var rest := Derived(k, indexed(AttrOf(k)), modes(AttrOf(k)).RefMode?);
    OneDatomFirst(MemTables.CfKey(0, k), rest);
    forall cf | 1 <= cf < 4
      ensures Mirrors(cf, modes, indexed, BatchKeys(es, cf), Elems(DatomSeq(es)))
    {
      forall x
        ensures x in BatchKeys(es, cf) <==> Carries(cf, modes, indexed, d.attr) && x == Keys.VersionKey(cf, d, t, r)
      {
        BatchIs(es, cf, x);
        assert MemTables.CfKey(cf, x) in es <==> MemTables.CfKey(cf, x) in rest;
      }
      OneMirrors(cf, modes, indexed, d, t, r, BatchKeys(es, cf), Elems(DatomSeq(es)));
    }
  }

  /** A replica writes the datoms among the records and, for each of them, exactly the index keys that the
      primary stored with it. */
  method Expand(recs: seq<CfKey>, modes: nat -> Keys.Mode, indexed: nat -> bool) returns (out: seq<CfKey>)
    requires AllStored(modes, DatomRecords(recs))
    ensures DatomSeq(out) == DatomRecords(recs) && Complete(modes, indexed, out)
  {
    hide Complete; hide DatomSeq; hide Expansion; hide IsStoredKey;
    out := [];
    NoEntries(modes);
    NothingComplete(modes, indexed);
    for i := 0 to |recs|
      invariant DatomSeq(out) == DatomRecords(recs[..i]) && Complete(modes, indexed, out)
    {
      assert recs[..i + 1][..i] == recs[..i];
      if recs[i].cf == 0 && |recs[i].key| >= 20 {
        var k := recs[i].key;
        RecordsPrefix(recs, i + 1);
        assert k in DatomRecords(recs[..i + 1]);
        ExpansionComplete(modes, indexed, k);
        CompleteConcat(modes, indexed, out, Expansion(k, modes, indexed));
        DatomSeqConcat(out, Expansion(k, modes, indexed));
        out := out + Expansion(k, modes, indexed);
      }
    }
    assert recs[..|recs|] == recs;
  }

  lemma {:induction false} RecordsPrefix(recs: seq<CfKey>, n: nat)
    requires n <= |recs|
    ensures DatomRecords(recs[..n]) <= DatomRecords(recs)
    decreases |recs|
  {
    if n < |recs| {
      var front := recs[..|recs| - 1];
      RecordsPrefix(front, n);
      assert front[..n] == recs[..n];
    } else {
      assert recs[..n] == recs;
    }
  }

  // ---- a restart ----

  /** What a restart derives from one datom key: nothing for the time of a transaction, and no reverse key for
      a retraction. */
  function Rederived(k: Key, modes: nat -> Keys.Mode, indexed: nat -> bool): (es: seq<CfKey>)
  {
    if |k| < 20 || AttrOf(k) == TX_INSTANT then []
    else Derived(k, indexed(AttrOf(k)), !Retracted(k) && modes(AttrOf(k)).RefMode?)
  }

  /** A version of the datoms that the restart derives for this index. */
  ghost predicate Restored(cf: nat, modes: nat -> Keys.Mode, indexed: nat -> bool, datoms: set<Key>,
                           d: Keys.Datom, t: nat, r: bool, k: Key)
    requires cf < 4
  {
    MirrorOf(cf, modes, indexed, datoms, d, t, r, k) && d.attr != 9 && (cf == 3 ==> !r)
  }

  lemma RederivedIs(modes: nat -> Keys.Mode, indexed: nat -> bool, d: Keys.Datom, t: nat, r: bool)
    requires Keys.WfIds(d) && t < Keys.TIME_LIMIT
    ensures
      var es := Rederived(Keys.VersionKey(0, d, t, r), modes, indexed);
      forall e :: e in es <==>
        && 1 <= e.cf < 4 && Carries(e.cf, modes, indexed, d.attr) && d.attr != 9 && (e.cf == 3 ==> !r)
        && e.key == Keys.VersionKey(e.cf, d, t, r)
  {
    hide Derived; hide Keys.VersionKey; hide AttrOf;
    DerivedIs(d, t, r, indexed(d.attr), !r && modes(d.attr).RefMode?);
    ParityIs(0, d, t, r);
  }

  /** Goes through the datoms of the store and collects what they derive. */
  method RecoverIndexes(keys: seq<Key>, modes: nat -> Keys.Mode, indexed: nat -> bool) returns (derived: seq<CfKey>)
    requires AllStored(modes, keys)
    ensures forall e :: e in derived ==> 1 <= e.cf < 4
    ensures forall cf, k :: 1 <= cf < 4 ==>
      (MemTables.CfKey(cf, k) in derived <==> exists d, t: nat, r :: Restored(cf, modes, indexed, Elems(keys), d, t, r, k))
  {
    hide Rederived; hide IsStoredKey;
    derived := [];
    for i := 0 to |keys|
      invariant forall e :: e in derived <==> exists j :: 0 <= j < i && e in Rederived(keys[j], modes, indexed)
    {
      derived := derived + Rederived(keys[i], modes, indexed);
    }
    forall e | e in derived
      ensures 1 <= e.cf < 4
    {
      var j :| 0 <= j < |keys| && e in Rederived(keys[j], modes, indexed);
      assert keys[j] in keys;
      var d, t, r := RederivedFrom(modes, indexed, keys, j, e);
    }
    forall cf, k | 1 <= cf < 4
      ensures MemTables.CfKey(cf, k) in derived <==> exists d, t: nat, r :: Restored(cf, modes, indexed, Elems(keys), d, t, r, k)
    {
      var e := MemTables.CfKey(cf, k);
      if e in derived {
        var j :| 0 <= j < |keys| && e in Rederived(keys[j], modes, indexed);
        var d, t, r := RederivedFrom(modes, indexed, keys, j, e);
        assert Restored(cf, modes, indexed, Elems(keys), d, t, r, k);
      }
      if d, t: nat, r :| Restored(cf, modes, indexed, Elems(keys), d, t, r, k) {
        var j :| 0 <= j < |keys| && keys[j] == Keys.VersionKey(0, d, t, r);
        RederivedIs(modes, indexed, d, t, r);
        assert e in Rederived(keys[j], modes, indexed);
      }
    }
  }

  lemma RederivedFrom(modes: nat -> Keys.Mode, indexed: nat -> bool, keys: seq<Key>, j: nat, e: CfKey)
    returns (d: Keys.Datom, t: nat, r: bool)
    requires j < |keys| && AllStored(modes, keys) && e in Rederived(keys[j], modes, indexed)
    ensures 1 <= e.cf < 4 && Restored(e.cf, modes, indexed, Elems(keys), d, t, r, e.key)
  {
    hide Rederived; hide Keys.VersionKey; hide Keys.Encodes;
    var k := keys[j];
    assert k in keys;
    d, t, r :| IsVersionOf(0, modes, d, t, r, k);
    RederivedIs(modes, indexed, d, t, r);
  }

  /** A version that came back from the log and that the restart does not derive. */
  ghost predicate Forgotten(cf: nat, modes: nat -> Keys.Mode, indexed: nat -> bool, paged: set<Key>, all: set<Key>,
                            d: Keys.Datom, t: nat, r: bool)
  {
    && Carried(cf, modes, indexed, all, d, t, r) && Keys.VersionKey(0, d, t, r) !in paged
    && (d.attr == 9 || (cf == 3 && r))
  }

  /** With an index whose pages agree with the pages of the datoms, and datoms that came back from the log on
      top, the restart makes the index agree with all datoms if and only if none that came back is the time
      of a transaction or, in the reverse index, a retraction. */
  lemma RecoveredExact(cf: nat, modes: nat -> Keys.Mode, indexed: nat -> bool,
                       pagedIndex: set<Key>, paged: set<Key>, all: set<Key>, derived: set<Key>)
    requires 1 <= cf < 4 && Mirrors(cf, modes, indexed, pagedIndex, paged) && paged <= all
    requires forall k :: k in derived <==> exists d, t: nat, r :: Restored(cf, modes, indexed, all, d, t, r, k)
    ensures Mirrors(cf, modes, indexed, pagedIndex + derived, all)
      <==> !exists d, t: nat, r :: Forgotten(cf, modes, indexed, paged, all, d, t, r)
  {
    hide Keys.VersionKey; hide Carries;
    if Mirrors(cf, modes, indexed, pagedIndex + derived, all) {
      if d, t: nat, r :| Forgotten(cf, modes, indexed, paged, all, d, t, r) {
        NotThere(cf, modes, indexed, pagedIndex, paged, all, derived, d, t, r);
      }
    }
    if !exists d, t: nat, r :: Forgotten(cf, modes, indexed, paged, all, d, t, r) {
      AllThere(cf, modes, indexed, pagedIndex, paged, all, derived);
    }
  }

  lemma NotThere(cf: nat, modes: nat -> Keys.Mode, indexed: nat -> bool,
                 pagedIndex: set<Key>, paged: set<Key>, all: set<Key>, derived: set<Key>, d: Keys.Datom, t: nat, r: bool)
    requires 1 <= cf < 4 && Mirrors(cf, modes, indexed, pagedIndex, paged)
    requires forall k :: k in derived <==> exists d, t: nat, r :: Restored(cf, modes, indexed, all, d, t, r, k)
    requires Forgotten(cf, modes, indexed, paged, all, d, t, r)
    ensures Keys.VersionKey(cf, d, t, r) !in pagedIndex + derived
  {
    hide Keys.VersionKey; hide Carries;
    var k := Keys.VersionKey(cf, d, t, r);
    if k in pagedIndex {
      var e, u: nat, q :| MirrorOf(cf, modes, indexed, paged, e, u, q, k);
      OneVersion(cf, d, t, r, e, u, q);
    }
    if k in derived {
      var e, u: nat, q :| Restored(cf, modes, indexed, all, e, u, q, k);
      OneVersion(cf, d, t, r, e, u, q);
    }
  }

  lemma AllThere(cf: nat, modes: nat -> Keys.Mode, indexed: nat -> bool,
                 pagedIndex: set<Key>, paged: set<Key>, all: set<Key>, derived: set<Key>)
    requires 1 <= cf < 4 && Mirrors(cf, modes, indexed, pagedIndex, paged) && paged <= all
    requires forall k :: k in derived <==> exists d, t: nat, r :: Restored(cf, modes, indexed, all, d, t, r, k)
    requires !exists d, t: nat, r :: Forgotten(cf, modes, indexed, paged, all, d, t, r)
    ensures Mirrors(cf, modes, indexed, pagedIndex + derived, all)
  {
    hide Keys.VersionKey; hide Carries;
    forall k | k in pagedIndex + derived
      ensures exists d, t: nat, r :: MirrorOf(cf, modes, indexed, all, d, t, r, k)
    {
      if k in pagedIndex {
        var d, t: nat, r :| MirrorOf(cf, modes, indexed, paged, d, t, r, k);
        assert MirrorOf(cf, modes, indexed, all, d, t, r, k);
      } else {
        var d, t: nat, r :| Restored(cf, modes, indexed, all, d, t, r, k);
      }
    }
    forall d, t: nat, r | Carried(cf, modes, indexed, all, d, t, r)
      ensures Keys.VersionKey(cf, d, t, r) in pagedIndex + derived
    {
      if Keys.VersionKey(0, d, t, r) in paged {
        assert Carried(cf, modes, indexed, paged, d, t, r);
      } else {
        assert !Forgotten(cf, modes, indexed, paged, all, d, t, r);
        assert Restored(cf, modes, indexed, all, d, t, r, Keys.VersionKey(cf, d, t, r));
      }
    }
  }

  /** A reference asserted before a flush and retracted after it: the restart leaves its assertion alone in the
      reverse index, which shows the reference although the datom is gone. */
  lemma RetractedReferenceShows(modes: nat -> Keys.Mode, indexed: nat -> bool, d: Keys.Datom, t: nat, u: nat)
    requires WfDatom(modes, d) && modes(d.attr).RefMode? && t < u < Keys.TIME_LIMIT
    ensures
      var paged, index := {Keys.VersionKey(0, d, t, false)}, {Keys.VersionKey(3, d, t, false)};
      var all := paged + {Keys.VersionKey(0, d, u, true)};
      && Mirrors(3, modes, indexed, index, paged)
      && Forgotten(3, modes, indexed, paged, all, d, u, true)
      && (forall k :: Restored(3, modes, indexed, all, d, t, false, k) ==> k in index)
      && Active(all) == {} && Active(index) == index
  {
    hide Keys.VersionKey; hide Less; hide Keys.Encodes;
    var o, n := Keys.VersionKey(0, d, t, false), Keys.VersionKey(0, d, u, true);
    OneMirrors(3, modes, indexed, d, t, false, {Keys.VersionKey(3, d, t, false)}, {o});
    if o == n {
      OneVersion(0, d, t, false, d, u, true);
    }
    LaterWins(modes, d, t, u);
    AloneActive(modes, d, t);
  }

  lemma AloneActive(modes: nat -> Keys.Mode, d: Keys.Datom, t: nat)
    requires WfDatom(modes, d) && modes(d.attr).RefMode? && t < Keys.TIME_LIMIT
    ensures Active({Keys.VersionKey(3, d, t, false)}) == {Keys.VersionKey(3, d, t, false)}
  {
    hide Keys.VersionKey; hide Less; hide Keys.Encodes;
    StoredAs(3, modes, d, t, false);
    VersionParts(3, modes, d, t, false, Keys.VersionKey(3, d, t, false));
  }

  lemma LaterWins(modes: nat -> Keys.Mode, d: Keys.Datom, t: nat, u: nat)
    requires WfDatom(modes, d) && t < u < Keys.TIME_LIMIT
    ensures Active({Keys.VersionKey(0, d, t, false)} + {Keys.VersionKey(0, d, u, true)}) == {}
  {
    hide Keys.VersionKey; hide Less; hide Keys.Encodes;
    var o, n := Keys.VersionKey(0, d, t, false), Keys.VersionKey(0, d, u, true);
    VersionParts(0, modes, d, t, false, o);
    VersionParts(0, modes, d, u, true, n);
    Keys.SuffixOrder(t, false, u, true);
    VersionOrder(o, n);
    LessAsymmetricIf(o, n);
    assert n in {o} + {n} && SameDatom(n, o) && Less(o, n) && !LessEq(n, o);
  }
}
