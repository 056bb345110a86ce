/** Saving values: a single-valued attribute's active values are retracted and the new one asserted, all with
    the transaction's time.  What one save and what a whole transaction leave active. */
module Saves {
  import opened Bytes
  import opened Versions
  import opened Hydrated
  import Keys

  function AttrPrefix(d: Keys.Datom): (p: Key)
    requires Keys.WfIds(d)
    ensures |p| == 12
  {
    Keys.EncodeInt(d.eid) + Keys.BigEndian(d.attr, 4)
  }

  /** The retraction of a stored key at a time. */
  function RetractionOf(k: Key, t: nat): (r: Key)
    requires Versioned(k) && t < Keys.TIME_LIMIT
    ensures SameDatom(r, k)
  {
    LogicalOf(k) + Keys.BigEndian(Keys.EncodeSuffix(t, true), 8)
  }

  /** No version below the prefix is later than the retractions of time t. */
  ghost predicate NoneLater(s: set<Key>, p: Key, t: nat)
    requires t < Keys.TIME_LIMIT
  {
    forall x :: x in s && p <= x && Versioned(x) ==> LessEq(x, RetractionOf(x, t))
  }

  /** The condition under which a save holds: the value is not active already, and its datom has not been
      retracted at this very time. */
  ghost predicate SaveHolds(s: set<Key>, d: Keys.Datom, t: nat)
    requires Keys.WfIds(d) && t < Keys.TIME_LIMIT
  {
    !HasActive(s, Keys.VersionKey(0, d, t, false)) && Keys.VersionKey(0, d, t, true) !in s
  }

  /** The versions of one time: an assertion, directly followed by its retraction. */
  lemma VersionPair(d: Keys.Datom, t: nat)
    requires Keys.WfIds(d) && t < Keys.TIME_LIMIT
    ensures
      var n, r := Keys.VersionKey(0, d, t, false), Keys.VersionKey(0, d, t, true);
      && Versioned(n) && !Retracted(n) && r == RetractionOf(n, t) && SameDatom(r, n) && Retracted(r)
      && Less(n, r) && AttrPrefix(d) <= n && AttrPrefix(d) <= LogicalOf(n)
  {
    hide Keys.EncodeInt; hide Less;
    var modes := (a: nat) => Keys.FixedMode;
    var n, r := Keys.VersionKey(0, d, t, false), Keys.VersionKey(0, d, t, true);
    var l := Keys.Logical(0, d);
    SuffixParity(l, t, false);
    SuffixParity(l, t, true);
    assert LogicalOf(n) == l == LogicalOf(r);
    Keys.SuffixOrder(t, false, t, true);
    LessCommonPrefix(l, Keys.BigEndian(Keys.EncodeSuffix(t, false), 8), Keys.BigEndian(Keys.EncodeSuffix(t, true), 8));
    assert l == AttrPrefix(d) + d.value;
  }

  lemma SuffixParity(l: Key, t: nat, retracted: bool)
    requires t < Keys.TIME_LIMIT
    ensures
      var k := l + Keys.BigEndian(Keys.EncodeSuffix(t, retracted), 8);
      Versioned(k) && LogicalOf(k) == l && Retracted(k) == retracted
  {
    Keys.SuffixValue(t);
    var sf := Keys.EncodeSuffix(t, retracted);
    var s := Keys.BigEndian(sf, 8);
    assert s[7] == sf % 256;
    assert (sf % 256) % 2 == sf % 2;
  }

  /** Nothing lies between the assertion and the retraction of one time. */
  lemma NothingBetween(d: Keys.Datom, t: nat, x: Key)
    requires Keys.WfIds(d) && t < Keys.TIME_LIMIT
    requires SameDatom(x, Keys.VersionKey(0, d, t, false))
    requires Less(Keys.VersionKey(0, d, t, false), x) && LessEq(x, Keys.VersionKey(0, d, t, true))
    ensures x == Keys.VersionKey(0, d, t, true)
  {
    hide Keys.BigEndian; hide Less; hide Keys.Logical;
    var n, r := Keys.VersionKey(0, d, t, false), Keys.VersionKey(0, d, t, true);
    var f, u := Keys.EncodeSuffix(t, false), Keys.EncodeSuffix(t, true);
    var l := Keys.Logical(0, d);
    assert LogicalOf(n) == l && SuffixOf(n) == Keys.BigEndian(f, 8);
    assert LogicalOf(r) == l && SuffixOf(r) == Keys.BigEndian(u, 8);
    VersionOrder(n, x);
    VersionOrder(x, r);
    Keys.SuffixValue(t);
    Keys.Pow256Eight();
    Keys.BigRoundTrip(f, 8);
    Keys.BigRoundTrip(u, 8);
    Keys.OrderIsNumeric(SuffixOf(n), SuffixOf(x));
    Keys.OrderIsNumeric(SuffixOf(x), SuffixOf(r));
    assert x == LogicalOf(x) + SuffixOf(x) && r == LogicalOf(r) + SuffixOf(r);
  }

  /** The retractions of the active keys below the prefix. */
  ghost function Retractions(s: set<Key>, p: Key, t: nat): set<Key>
    requires t < Keys.TIME_LIMIT
  {
    set x | x in Active(WithPrefix(s, p)) && Versioned(x) :: RetractionOf(x, t)
  }

  ghost function AfterSave(s: set<Key>, d: Keys.Datom, t: nat): set<Key>
    requires Keys.WfIds(d) && t < Keys.TIME_LIMIT
  {
    s + Retractions(s, AttrPrefix(d), t) + {Keys.VersionKey(0, d, t, false)}
  }

  /** Whatever was active below the prefix is not any more. */
  lemma OldValuesGone(s: set<Key>, d: Keys.Datom, t: nat, k: Key)
    requires Keys.WfIds(d) && t < Keys.TIME_LIMIT && NoneLater(s, AttrPrefix(d), t)
    requires forall x :: x in s ==> |x| >= 20
    requires k in Active(WithPrefix(AfterSave(s, d, t), AttrPrefix(d)))
    ensures k == Keys.VersionKey(0, d, t, false)
  {
    hide Less; hide Keys.VersionKey; hide AttrPrefix;
    var p := AttrPrefix(d);
    var all := WithPrefix(AfterSave(s, d, t), p);
    if k in Retractions(s, p, t) {
      var x :| x in Active(WithPrefix(s, p)) && Versioned(x) && k == RetractionOf(x, t);
      SuffixParity(LogicalOf(x), t, true);
    } else if k in s {
      RetractedBy(s, p, t, k, all);
    }
  }

  /** An active key is followed by its retraction, so it is not the newest once that is stored. */
  lemma RetractedBy(s: set<Key>, p: Key, t: nat, k: Key, all: set<Key>)
    requires t < Keys.TIME_LIMIT && NoneLater(s, p, t) && k in s && |k| >= 20 && |p| == 12 && p <= k
    requires WithPrefix(s, p) <= all && WithPrefix(Retractions(s, p, t), p) <= all
    ensures k !in Active(all)
  {
    hide Less;
    if k in Active(WithPrefix(s, p)) {
      var r := RetractionOf(k, t);
      SuffixParity(LogicalOf(k), t, true);
      assert r in Retractions(s, p, t);
      PrefixOfRetraction(p, k, t);
      assert r in all;
      LessAsymmetricIf(k, r);
    } else {
      assert Newest(all, k) ==> Newest(WithPrefix(s, p), k);
    }
  }

  /** The retraction of a key below the attribute's prefix is below it too. */
  lemma PrefixOfRetraction(p: Key, k: Key, t: nat)
    requires Versioned(k) && p <= k && t < Keys.TIME_LIMIT
    ensures |p| <= |k| - 8 ==> p <= RetractionOf(k, t)
  {
    if |p| <= |k| - 8 {
      assert p <= LogicalOf(k);
    }
  }

  /** A save makes its value the only active one of the attribute if and only if it was not active already
      and its datom was not retracted at the same time; otherwise the attribute is left without a value. */
  lemma SaveExact(s: set<Key>, d: Keys.Datom, t: nat)
    requires Keys.WfIds(d) && t < Keys.TIME_LIMIT && NoneLater(s, AttrPrefix(d), t)
    requires forall x :: x in s ==> |x| >= 20
    ensures Active(WithPrefix(AfterSave(s, d, t), AttrPrefix(d)))
      == if SaveHolds(s, d, t) then {Keys.VersionKey(0, d, t, false)} else {}
  {
    hide Less; hide Keys.VersionKey; hide AttrPrefix; hide Active; hide AfterSave;
    var n := Keys.VersionKey(0, d, t, false);
    var all := WithPrefix(AfterSave(s, d, t), AttrPrefix(d));
    forall k | k in Active(all)
      ensures k == n
    {
      OldValuesGone(s, d, t, k);
    }
    NewValueStands(s, d, t);
  }

  lemma NewValueStands(s: set<Key>, d: Keys.Datom, t: nat)
    requires Keys.WfIds(d) && t < Keys.TIME_LIMIT && NoneLater(s, AttrPrefix(d), t)
    requires forall x :: x in s ==> |x| >= 20
    ensures Keys.VersionKey(0, d, t, false) in Active(WithPrefix(AfterSave(s, d, t), AttrPrefix(d))) <==> SaveHolds(s, d, t)
  {
    hide Less; hide Keys.VersionKey; hide AttrPrefix;
    var p, n, r := AttrPrefix(d), Keys.VersionKey(0, d, t, false), Keys.VersionKey(0, d, t, true);
    var all := WithPrefix(AfterSave(s, d, t), p);
    VersionPair(d, t);
    RetractionStored(s, d, t);
    if r in all {
      LessAsymmetricIf(n, r);
      LessIrreflexive(n);
    } else {
      forall x | x in all && SameDatom(x, n)
        ensures LessEq(x, n)
      {
        if x in s {
          assert RetractionOf(x, t) == r;
          LessTotal(x, n);
          if Less(n, x) {
            NothingBetween(d, t, x);
          }
        }
      }
    }
  }

  /** After the save the retraction of the saved datom is stored exactly when the save does not hold. */
  lemma RetractionStored(s: set<Key>, d: Keys.Datom, t: nat)
    requires Keys.WfIds(d) && t < Keys.TIME_LIMIT
    requires forall x :: x in s ==> |x| >= 20
    ensures Keys.VersionKey(0, d, t, true) in WithPrefix(AfterSave(s, d, t), AttrPrefix(d)) <==> !SaveHolds(s, d, t)
  {
    hide Less; hide Keys.VersionKey; hide AttrPrefix; hide Active;
    var p, n, r := AttrPrefix(d), Keys.VersionKey(0, d, t, false), Keys.VersionKey(0, d, t, true);
    VersionPair(d, t);
    assert p <= r by {
      assert p <= LogicalOf(n) == LogicalOf(r);
    }
    ActivePart(s, p, n);
    if HasActive(s, n) {
      var x :| x in Active(s) && SameDatom(x, n);
      assert RetractionOf(x, t) == r;
      assert r in Retractions(s, p, t);
    }
    if r in Retractions(s, p, t) {
      var x :| x in Active(WithPrefix(s, p)) && Versioned(x) && r == RetractionOf(x, t);
      assert SameDatom(x, n);
    }
  }

  /** The active versions of a datom of the attribute are the same below the prefix and overall. */
  lemma ActivePart(s: set<Key>, p: Key, n: Key)
    requires Versioned(n) && p <= LogicalOf(n) && forall x :: x in s ==> |x| >= 20
    ensures forall x :: SameDatom(x, n) ==> (x in Active(WithPrefix(s, p)) <==> x in Active(s))
  {
    hide Less;
    forall x | SameDatom(x, n)
      ensures x in Active(WithPrefix(s, p)) <==> x in Active(s)
    {
      assert forall y :: SameDatom(y, x) ==> p <= y by {
        forall y | SameDatom(y, x) ensures p <= y {
          assert p == LogicalOf(n)[..|p|] == LogicalOf(y)[..|p|] == y[..|p|];
        }
      }
      if x in s {
        assert Newest(WithPrefix(s, p), x) <==> Newest(s, x);
      }
    }
  }

  /** Saving the value an attribute already has leaves the attribute without a value. */
  lemma ResaveLosesValue(d: Keys.Datom, t0: nat, t: nat)
    requires Keys.WfIds(d) && t0 < t < Keys.TIME_LIMIT
    ensures
      var s := {Keys.VersionKey(0, d, t0, false)};
      && Active(WithPrefix(s, AttrPrefix(d))) == s
      && Active(WithPrefix(AfterSave(s, d, t), AttrPrefix(d))) == {}
  {
    hide Less; hide Keys.VersionKey; hide AttrPrefix; hide AfterSave;
    var p, o, n := AttrPrefix(d), Keys.VersionKey(0, d, t0, false), Keys.VersionKey(0, d, t, false);
    var s := {o};
    VersionPair(d, t0);
    VersionPair(d, t);
    TwoTimes(d, t0, t);
    assert WithPrefix(s, p) == s;
    assert Newest(s, o);
    assert o in Active(s);
    SaveExact(s, d, t);
  }

  lemma TwoTimes(d: Keys.Datom, t0: nat, t: nat)
    requires Keys.WfIds(d) && t0 < t < Keys.TIME_LIMIT
    ensures
      var o, n := Keys.VersionKey(0, d, t0, false), Keys.VersionKey(0, d, t, false);
      SameDatom(o, n) && Less(o, RetractionOf(o, t)) && |o| >= 20
  {
    hide Keys.Logical; hide Less; hide Keys.BigEndian;
    var l := Keys.Logical(0, d);
    Keys.SuffixOrder(t0, false, t, true);
    LessCommonPrefix(l, Keys.BigEndian(Keys.EncodeSuffix(t0, false), 8), Keys.BigEndian(Keys.EncodeSuffix(t, true), 8));
    assert LogicalOf(Keys.VersionKey(0, d, t0, false)) == l == LogicalOf(Keys.VersionKey(0, d, t, false));
  }

  // ---- transactions ----

  /** One operation of a transaction; entities, attributes and values are resolved. */
  datatype TxOp = TxOp(d: Keys.Datom, retract: bool)

  /** Every version below the prefix is older than the time. */
  ghost predicate AllOlder(s: set<Key>, p: Key, t: nat)
    requires t < Keys.TIME_LIMIT
  {
    forall x :: x in s && p <= x && Versioned(x) ==> Less(x, LogicalOf(x) + Keys.BigEndian(Keys.EncodeSuffix(t, false), 8))
  }

  /** The datom is active. */
  ghost predicate Present(s: set<Key>, d: Keys.Datom)
    requires Keys.WfIds(d)
  {
    exists x :: x in Active(s) && LogicalOf(x) == Keys.Logical(0, d)
  }

  ghost predicate WfTx(s: set<Key>, ops: seq<TxOp>, t: nat)
  {
    && t < Keys.TIME_LIMIT && (forall x :: x in s ==> |x| >= 20)
    && forall op :: op in ops ==> Keys.WfIds(op.d) && AllOlder(s, AttrPrefix(op.d), t)
  }

  /** An assertion remains if its datom is not active before the transaction. */
  ghost predicate Remains(s: set<Key>, op: TxOp)
    requires Keys.WfIds(op.d)
  {
    !op.retract && !Present(s, op.d)
  }

  /** The assertions that remain, the retractions of the values they replace and the retractions asked for.
      Every operation looks at the state before the transaction. */
  ghost function Asserted(s: set<Key>, ops: seq<TxOp>, t: nat): (ks: set<Key>)
    requires WfTx(s, ops, t)
  {
    set op | op in ops && Remains(s, op) :: Keys.VersionKey(0, op.d, t, false)
  }

  ghost function Replaced(s: set<Key>, ops: seq<TxOp>, many: nat -> bool, t: nat): (ks: set<Key>)
    requires WfTx(s, ops, t)
  {
    set op, x | op in ops && Remains(s, op) && !many(op.d.attr) && x in Retractions(s, AttrPrefix(op.d), t) :: x
  }

  ghost function Withdrawn(s: set<Key>, ops: seq<TxOp>, t: nat): (ks: set<Key>)
    requires WfTx(s, ops, t)
  {
    set op | op in ops && op.retract :: Keys.VersionKey(0, op.d, t, true)
  }

  ghost function AfterTx(s: set<Key>, ops: seq<TxOp>, many: nat -> bool, t: nat): (r: set<Key>)
    requires WfTx(s, ops, t)
  {
    s + Asserted(s, ops, t) + Replaced(s, ops, many, t) + Withdrawn(s, ops, t)
  }

  /** Some remaining operation replaces the values of the attribute. */
  ghost predicate Replaces(s: set<Key>, ops: seq<TxOp>, many: nat -> bool, t: nat, p: Key)
    requires WfTx(s, ops, t)
  {
    exists op :: op in ops && Remains(s, op) && !many(op.d.attr) && AttrPrefix(op.d) == p
  }

  /** With at most the two versions of time t added, the newest version of a datom is the retraction if it is
      there, else the assertion if it is there, else what it was. */
  lemma AtTime(s: set<Key>, all: set<Key>, d: Keys.Datom, t: nat, k: Key)
    requires Keys.WfIds(d) && t < Keys.TIME_LIMIT && AllOlder(s, AttrPrefix(d), t) && s <= all
    requires forall x :: x in all && x !in s && SameDatom(x, Keys.VersionKey(0, d, t, false)) ==>
      x == Keys.VersionKey(0, d, t, false) || x == Keys.VersionKey(0, d, t, true)
    requires SameDatom(k, Keys.VersionKey(0, d, t, false))
    ensures
      var n, r := Keys.VersionKey(0, d, t, false), Keys.VersionKey(0, d, t, true);
      && n !in s && r !in s
      && (k in Active(all) <==> r !in all && if n in all then k == n else k in Active(s))
  {
    hide Less; hide Keys.VersionKey; hide AttrPrefix;
    var n, r := Keys.VersionKey(0, d, t, false), Keys.VersionKey(0, d, t, true);
    VersionPair(d, t);
    forall x | x in s && SameDatom(x, n)
      ensures Less(x, n) && Less(x, r) && x != n && x != r
    {
      OlderThanBoth(s, d, t, x);
    }
    LessAsymmetricIf(n, r);
    LessIrreflexive(n);
    if r in all {
      assert Newest(all, r);
      if k in Active(all) {
        LessAsymmetricIf(k, r);
      }
    } else if n in all {
      assert Newest(all, n);
      if k in Active(all) {
        ActiveOnce(all, k, n);
      }
    } else if k in s {
      assert Newest(all, k) <==> Newest(s, k);
    }
  }

  lemma OlderThanBoth(s: set<Key>, d: Keys.Datom, t: nat, x: Key)
    requires Keys.WfIds(d) && t < Keys.TIME_LIMIT && AllOlder(s, AttrPrefix(d), t)
    requires x in s && SameDatom(x, Keys.VersionKey(0, d, t, false))
    ensures
      var n, r := Keys.VersionKey(0, d, t, false), Keys.VersionKey(0, d, t, true);
      Less(x, n) && Less(x, r) && x != n && x != r
  {
    hide Less; hide AttrPrefix; hide Keys.BigEndian; hide Keys.Logical;
    var n, r := Keys.VersionKey(0, d, t, false), Keys.VersionKey(0, d, t, true);
    VersionPair(d, t);
    assert LogicalOf(n) == Keys.Logical(0, d);
    assert AttrPrefix(d) <= x by { assert AttrPrefix(d) <= LogicalOf(n) == LogicalOf(x); }
    assert Less(x, n);
    LessTransitive(x, n, r);
    LessIrreflexive(n);
    LessIrreflexive(r);
  }

  /** The datom a key below an attribute's prefix is a version of. */
  function DatomAt(d: Keys.Datom, k: Key): (e: Keys.Datom)
    requires Keys.WfIds(d) && |k| >= 20
    ensures Keys.WfIds(e) && AttrPrefix(e) == AttrPrefix(d)
  {
    Keys.Datom(d.eid, d.attr, k[12..|k| - 8])
  }

  /** The retraction the write path builds from a found key is the key's retraction. */
  lemma RebuiltRetracts(d: Keys.Datom, k: Key, t: nat)
    requires Keys.WfIds(d) && t < Keys.TIME_LIMIT && |k| >= 20 && AttrPrefix(d) <= k
    ensures Keys.VersionKey(0, DatomAt(d, k), t, true) == RetractionOf(k, t)
  {
    hide Keys.BigEndian; hide Keys.EncodeInt;
    assert LogicalOf(k) == AttrPrefix(d) + k[12..|k| - 8];
  }

  lemma DatomAtIs(d: Keys.Datom, t: nat, k: Key)
    requires Keys.WfIds(d) && |k| >= 20 && AttrPrefix(d) <= k && t < Keys.TIME_LIMIT
    ensures LogicalOf(k) == Keys.Logical(0, DatomAt(d, k))
    ensures SameDatom(k, Keys.VersionKey(0, DatomAt(d, k), t, false))
  {
    hide Keys.BigEndian; hide Keys.EncodeInt;
    assert LogicalOf(k) == AttrPrefix(d) + k[12..|k| - 8];
    assert LogicalOf(Keys.VersionKey(0, DatomAt(d, k), t, false)) == Keys.Logical(0, DatomAt(d, k));
  }

  /** What a transaction adds to a datom is its two versions of time t at most. */
  lemma AddedAtTime(s: set<Key>, ops: seq<TxOp>, many: nat -> bool, t: nat, d: Keys.Datom, x: Key)
    requires WfTx(s, ops, t) && Keys.WfIds(d)
    requires x in AfterTx(s, ops, many, t) && x !in s && SameDatom(x, Keys.VersionKey(0, d, t, false))
    ensures x == Keys.VersionKey(0, d, t, false) || x == Keys.VersionKey(0, d, t, true)
  {
    hide Keys.BigEndian; hide Keys.Logical; hide Less; hide AttrPrefix; hide Remains; hide AllOlder; hide Active;
    var n := Keys.VersionKey(0, d, t, false);
    assert LogicalOf(n) == Keys.Logical(0, d);
    if x in Asserted(s, ops, t) {
      var op :| op in ops && Remains(s, op) && x == Keys.VersionKey(0, op.d, t, false);
      assert LogicalOf(x) == Keys.Logical(0, op.d);
    } else if x in Withdrawn(s, ops, t) {
      var op :| op in ops && op.retract && x == Keys.VersionKey(0, op.d, t, true);
      assert LogicalOf(x) == Keys.Logical(0, op.d);
    } else {
      var op, y :| op in ops && Remains(s, op) && y in Retractions(s, AttrPrefix(op.d), t) && x == y;
      var z := RetractionFrom(s, AttrPrefix(op.d), t, y);
      assert LogicalOf(x) == LogicalOf(z);
    }
  }

  lemma RetractionFrom(s: set<Key>, p: Key, t: nat, y: Key) returns (z: Key)
    requires t < Keys.TIME_LIMIT && y in Retractions(s, p, t)
    ensures z in Active(WithPrefix(s, p)) && Versioned(z) && y == RetractionOf(z, t)
  {
    z :| z in Active(WithPrefix(s, p)) && Versioned(z) && y == RetractionOf(z, t);
  }

  lemma Parities(s: set<Key>, ops: seq<TxOp>, many: nat -> bool, t: nat)
    requires WfTx(s, ops, t)
    ensures forall x :: x in Asserted(s, ops, t) ==> Versioned(x) && !Retracted(x)
    ensures forall x :: x in Replaced(s, ops, many, t) + Withdrawn(s, ops, t) ==> Versioned(x) && Retracted(x)
  {
    hide Keys.BigEndian; hide Keys.Logical; hide Less; hide AttrPrefix; hide Active; hide Keys.VersionKey;
    hide Remains; hide AllOlder;
    forall op | op in ops
      ensures Versioned(Keys.VersionKey(0, op.d, t, false)) && !Retracted(Keys.VersionKey(0, op.d, t, false))
      ensures Versioned(Keys.VersionKey(0, op.d, t, true)) && Retracted(Keys.VersionKey(0, op.d, t, true))
    {
      VersionPair(op.d, t);
    }
    forall x | x in Replaced(s, ops, many, t)
      ensures Versioned(x) && Retracted(x)
    {
      var op, y :| op in ops && Remains(s, op) && y in Retractions(s, AttrPrefix(op.d), t) && x == y;
      var z := RetractionFrom(s, AttrPrefix(op.d), t, y);
      SuffixParity(LogicalOf(z), t, true);
    }
  }

  /** A datom's retraction of time t is added if it is asked for, or if the datom is active and another value
      of its attribute replaces it. */
  lemma RetractionAdded(s: set<Key>, ops: seq<TxOp>, many: nat -> bool, t: nat, d: Keys.Datom)
    requires WfTx(s, ops, t) && Keys.WfIds(d) && AllOlder(s, AttrPrefix(d), t)
    ensures
      var n, r := Keys.VersionKey(0, d, t, false), Keys.VersionKey(0, d, t, true);
      && n !in s && r !in s && r !in Asserted(s, ops, t)
      && (r in Replaced(s, ops, many, t) <==> HasActive(s, n) && Replaces(s, ops, many, t, AttrPrefix(d)))
  {
    hide Keys.BigEndian; hide Keys.Logical; hide Less; hide AttrPrefix; hide Remains; hide Active;
    hide Keys.VersionKey;
    var n, r, p := Keys.VersionKey(0, d, t, false), Keys.VersionKey(0, d, t, true), AttrPrefix(d);
    VersionPair(d, t);
    NotYet(s, d, t);
    ActivePart(s, p, n);
    Parities(s, ops, many, t);
    if r in Replaced(s, ops, many, t) {
      var op, y :| op in ops && Remains(s, op) && !many(op.d.attr) && y in Retractions(s, AttrPrefix(op.d), t) && r == y;
      var z := RetractionFrom(s, AttrPrefix(op.d), t, y);
      SamePrefix(s, op.d, d, t, z);
      assert HasActive(s, n);
    }
    if HasActive(s, n) && Replaces(s, ops, many, t, p) {
      var x :| x in Active(s) && SameDatom(x, n);
      var op :| op in ops && Remains(s, op) && !many(op.d.attr) && AttrPrefix(op.d) == p;
      assert x in Active(WithPrefix(s, p)) && r == RetractionOf(x, t);
      assert r in Retractions(s, AttrPrefix(op.d), t);
      assert r in Replaced(s, ops, many, t);
    }
  }

  lemma NotYet(s: set<Key>, d: Keys.Datom, t: nat)
    requires Keys.WfIds(d) && t < Keys.TIME_LIMIT && AllOlder(s, AttrPrefix(d), t)
    ensures Keys.VersionKey(0, d, t, false) !in s && Keys.VersionKey(0, d, t, true) !in s
  {
    hide Less; hide Keys.VersionKey; hide AttrPrefix;
    var n, r := Keys.VersionKey(0, d, t, false), Keys.VersionKey(0, d, t, true);
    VersionPair(d, t);
    if n in s {
      OlderThanBoth(s, d, t, n);
    }
    if r in s {
      OlderThanBoth(s, d, t, r);
    }
  }

  /** A key whose retraction is a datom's retraction belongs to that datom's attribute. */
  lemma SamePrefix(s: set<Key>, e: Keys.Datom, d: Keys.Datom, t: nat, z: Key)
    requires Keys.WfIds(e) && Keys.WfIds(d) && t < Keys.TIME_LIMIT && forall x :: x in s ==> |x| >= 20
    requires z in Active(WithPrefix(s, AttrPrefix(e))) && RetractionOf(z, t) == Keys.VersionKey(0, d, t, true)
    ensures AttrPrefix(e) == AttrPrefix(d) && SameDatom(z, Keys.VersionKey(0, d, t, false))
  {
    hide Less; hide Keys.VersionKey; hide AttrPrefix;
    VersionPair(d, t);
    assert AttrPrefix(e) == z[..12] == LogicalOf(z)[..12];
  }

  /** Exactly what a transaction leaves active of an attribute: nothing of what was there if an operation
      replaces it, else what is not withdrawn, and every remaining assertion that is not withdrawn. */
  lemma TransactionExact(s: set<Key>, ops: seq<TxOp>, many: nat -> bool, t: nat, d: Keys.Datom, k: Key)
    requires WfTx(s, ops, t) && Keys.WfIds(d) && AllOlder(s, AttrPrefix(d), t)
    ensures k in Active(WithPrefix(AfterTx(s, ops, many, t), AttrPrefix(d))) <==>
      && AttrPrefix(d) <= k && |k| >= 20
      && RetractionOf(k, t) !in Withdrawn(s, ops, t)
      && (k in Asserted(s, ops, t) || (k in Active(s) && !Replaces(s, ops, many, t, AttrPrefix(d))))
  {
    hide Less; hide AttrPrefix; hide Keys.VersionKey; hide Keys.Logical; hide Remains; hide Replaces; hide AllOlder;
    hide Active; hide RetractionOf;
    var all, p := AfterTx(s, ops, many, t), AttrPrefix(d);
    LongKeys(s, ops, many, t);
    if p <= k && |k| >= 20 {
      var e := DatomAt(d, k);
      var n, r := Keys.VersionKey(0, e, t, false), Keys.VersionKey(0, e, t, true);
      DatomAtIs(d, t, k);
      VersionPair(e, t);
      ActivePart(all, p, n);
      forall x | x in all && x !in s && SameDatom(x, n)
        ensures x == n || x == r
      {
        AddedAtTime(s, ops, many, t, e, x);
      }
      AtTime(s, all, e, t, k);
      RetractionAdded(s, ops, many, t, e);
      AssertionAdded(s, ops, many, t, e, k);
      assert RetractionOf(k, t) == r by { RetractionSame(k, n, t); }
    } else if k in Active(WithPrefix(all, p)) {
      ActiveIn(WithPrefix(all, p), k);
    }
  }

  lemma RetractionSame(k: Key, n: Key, t: nat)
    requires SameDatom(k, n) && t < Keys.TIME_LIMIT
    ensures RetractionOf(k, t) == RetractionOf(n, t)
  {
  }

  lemma ActiveIn(s: set<Key>, k: Key)
    requires k in Active(s)
    ensures k in s
  {
  }

  lemma LongKeys(s: set<Key>, ops: seq<TxOp>, many: nat -> bool, t: nat)
    requires WfTx(s, ops, t)
    ensures forall x :: x in AfterTx(s, ops, many, t) ==> |x| >= 20
  {
    hide Less; hide Remains; hide Active; hide AllOlder; hide AttrPrefix;
    forall x | x in Replaced(s, ops, many, t)
      ensures |x| >= 20
    {
      var op, y :| op in ops && Remains(s, op) && y in Retractions(s, AttrPrefix(op.d), t) && x == y;
      var z := RetractionFrom(s, AttrPrefix(op.d), t, y);
      ActiveIn(WithPrefix(s, AttrPrefix(op.d)), z);
    }
  }

  /** An assertion of time t is added only where nothing was active. */
  lemma AssertionAdded(s: set<Key>, ops: seq<TxOp>, many: nat -> bool, t: nat, d: Keys.Datom, k: Key)
    requires WfTx(s, ops, t) && Keys.WfIds(d) && AllOlder(s, AttrPrefix(d), t)
    requires SameDatom(k, Keys.VersionKey(0, d, t, false))
    ensures
      var n := Keys.VersionKey(0, d, t, false);
      && (n in AfterTx(s, ops, many, t) <==> n in Asserted(s, ops, t))
      && (n in Asserted(s, ops, t) ==> !HasActive(s, n))
      && (k in Asserted(s, ops, t) ==> k == n)
  {
    hide Keys.BigEndian; hide Keys.Logical; hide Less; hide AttrPrefix; hide Active;
    var n := Keys.VersionKey(0, d, t, false);
    VersionPair(d, t);
    NotYet(s, d, t);
    assert LogicalOf(n) == Keys.Logical(0, d);
    if k in Asserted(s, ops, t) {
      var op :| op in ops && Remains(s, op) && k == Keys.VersionKey(0, op.d, t, false);
      assert LogicalOf(k) == Keys.Logical(0, op.d);
    }
    if n in Asserted(s, ops, t) {
      var op :| op in ops && Remains(s, op) && n == Keys.VersionKey(0, op.d, t, false);
      assert LogicalOf(n) == Keys.Logical(0, op.d);
    }
    Parities(s, ops, many, t);
  }

  /** Two remaining operations that are not withdrawn give one entity and attribute different values. */
  ghost predicate Clash(s: set<Key>, ops: seq<TxOp>, t: nat, d: Keys.Datom)
    requires WfTx(s, ops, t) && Keys.WfIds(d)
  {
    exists a, b :: Stands(s, ops, t, d, a) && Stands(s, ops, t, d, b) && a.d.value != b.d.value
  }

  ghost predicate Stands(s: set<Key>, ops: seq<TxOp>, t: nat, d: Keys.Datom, op: TxOp)
    requires WfTx(s, ops, t) && Keys.WfIds(d)
  {
    && op in ops && Remains(s, op) && AttrPrefix(op.d) == AttrPrefix(d)
    && Keys.VersionKey(0, op.d, t, true) !in Withdrawn(s, ops, t)
  }

  ghost predicate AtMostOne(ks: set<Key>)
  {
    forall x, y :: x in ks && y in ks ==> x == y
  }

  /** A single-valued attribute that a transaction writes has at most one value after it if and only if no two
      remaining operations give it different ones. */
  lemma OneValueExact(s: set<Key>, ops: seq<TxOp>, many: nat -> bool, t: nat, d: Keys.Datom)
    requires WfTx(s, ops, t) && Keys.WfIds(d) && AllOlder(s, AttrPrefix(d), t)
    requires Replaces(s, ops, many, t, AttrPrefix(d))
    ensures AtMostOne(Active(WithPrefix(AfterTx(s, ops, many, t), AttrPrefix(d)))) <==> !Clash(s, ops, t, d)
  {
    hide Less; hide AttrPrefix; hide Keys.VersionKey; hide Active; hide Remains; hide AllOlder; hide AfterTx;
    hide Replaces; hide Withdrawn;
    var act := Active(WithPrefix(AfterTx(s, ops, many, t), AttrPrefix(d)));
    if Clash(s, ops, t, d) {
      var a, b :| Stands(s, ops, t, d, a) && Stands(s, ops, t, d, b) && a.d.value != b.d.value;
      StandsActive(s, ops, many, t, d, a);
      StandsActive(s, ops, many, t, d, b);
      ValueOfKey(a.d, t);
      ValueOfKey(b.d, t);
    } else {
      forall x, y | x in act && y in act
        ensures x == y
      {
        var a := ActiveStands(s, ops, many, t, d, x);
        var b := ActiveStands(s, ops, many, t, d, y);
        assert a.d.value == b.d.value;
        SameAttr(a.d, b.d);
      }
    }
  }

  lemma ValueOfKey(d: Keys.Datom, t: nat)
    requires Keys.WfIds(d) && t < Keys.TIME_LIMIT
    ensures
      var n := Keys.VersionKey(0, d, t, false);
      |n| >= 20 && n[12..|n| - 8] == d.value
  {
  }

  /** The prefix tells entity and attribute. */
  lemma SameAttr(a: Keys.Datom, b: Keys.Datom)
    requires Keys.WfIds(a) && Keys.WfIds(b) && AttrPrefix(a) == AttrPrefix(b)
    ensures a.eid == b.eid && a.attr == b.attr
  {
    hide Keys.EncodeInt; hide Keys.BigEndian; hide Less;
    assert Keys.EncodeInt(a.eid) == AttrPrefix(a)[..8] == Keys.EncodeInt(b.eid);
    Keys.EncodeIntOrder(a.eid, b.eid);
    assert Keys.BigEndian(a.attr, 4) == AttrPrefix(a)[8..] == Keys.BigEndian(b.attr, 4);
    Keys.Pow256Eight();
    Keys.BigRoundTrip(a.attr, 4);
    Keys.BigRoundTrip(b.attr, 4);
  }

  lemma StandsActive(s: set<Key>, ops: seq<TxOp>, many: nat -> bool, t: nat, d: Keys.Datom, op: TxOp)
    requires WfTx(s, ops, t) && Keys.WfIds(d) && AllOlder(s, AttrPrefix(d), t) && Stands(s, ops, t, d, op)
    ensures Keys.VersionKey(0, op.d, t, false) in Active(WithPrefix(AfterTx(s, ops, many, t), AttrPrefix(d)))
  {
    hide Less; hide AttrPrefix; hide Keys.VersionKey; hide Active; hide Remains; hide AllOlder; hide AfterTx;
    hide Withdrawn; hide RetractionOf;
    var n := Keys.VersionKey(0, op.d, t, false);
    VersionPair(op.d, t);
    ValueOfKey(op.d, t);
    TransactionExact(s, ops, many, t, d, n);
  }

  lemma ActiveStands(s: set<Key>, ops: seq<TxOp>, many: nat -> bool, t: nat, d: Keys.Datom, k: Key) returns (op: TxOp)
    requires WfTx(s, ops, t) && Keys.WfIds(d) && AllOlder(s, AttrPrefix(d), t) && Replaces(s, ops, many, t, AttrPrefix(d))
    requires k in Active(WithPrefix(AfterTx(s, ops, many, t), AttrPrefix(d)))
    ensures Stands(s, ops, t, d, op) && k == Keys.VersionKey(0, op.d, t, false)
  {
    hide Less; hide AttrPrefix; hide Keys.VersionKey; hide Active; hide Remains; hide AllOlder; hide AfterTx;
    hide Withdrawn; hide RetractionOf; hide Replaces;
    TransactionExact(s, ops, many, t, d, k);
    op :| op in ops && Remains(s, op) && k == Keys.VersionKey(0, op.d, t, false);
    VersionPair(op.d, t);
    ValueOfKey(op.d, t);
    assert AttrPrefix(op.d) == k[..12] == AttrPrefix(d);
  }

  /** Two values for one single-valued attribute in one transaction both stay, whatever was there. */
  lemma TwoValuesStay(s: set<Key>, a: Keys.Datom, b: Keys.Datom, many: nat -> bool, t: nat)
    requires WfTx(s, [TxOp(a, false), TxOp(b, false)], t) && a.eid == b.eid && a.attr == b.attr && a.value != b.value
    requires !Present(s, a) && !Present(s, b)
    ensures
      var ops := [TxOp(a, false), TxOp(b, false)];
      var act := Active(WithPrefix(AfterTx(s, ops, many, t), AttrPrefix(a)));
      var x, y := Keys.VersionKey(0, a, t, false), Keys.VersionKey(0, b, t, false);
      x in act && y in act && x != y
  {
    hide Less; hide AttrPrefix; hide Keys.VersionKey; hide Active; hide Present; hide AllOlder; hide AfterTx;
    var ops := [TxOp(a, false), TxOp(b, false)];
    assert AttrPrefix(a) == AttrPrefix(b) by { OnePrefix(a, b); }
    assert ops[0] in ops && ops[1] in ops;
    assert Withdrawn(s, ops, t) == {};
    StandsActive(s, ops, many, t, a, ops[0]);
    StandsActive(s, ops, many, t, a, ops[1]);
    ValueOfKey(a, t);
    ValueOfKey(b, t);
  }

  lemma OnePrefix(a: Keys.Datom, b: Keys.Datom)
    requires Keys.WfIds(a) && Keys.WfIds(b) && a.eid == b.eid && a.attr == b.attr
    ensures AttrPrefix(a) == AttrPrefix(b)
  {
  }
}
