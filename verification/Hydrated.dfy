/** The read cache of hydrated entities: the complete active datom keys of an entity packed into one
    flat buffer, kept current by mirroring every write. */
module Hydrated {
  import opened Bytes
  import opened Versions
  import Keys

  // ---- packed keys ----

  /** Keys back to back, with the offset each starts at. */
  datatype Flat = Flat(buf: Key, offs: seq<int>)

  ghost predicate Packs(f: Flat, keys: seq<Key>)
  {
    && f.buf == Flatten(keys)
    && |f.offs| == |keys|
    && forall i :: 0 <= i < |keys| ==> f.offs[i] == |Flatten(keys[..i])|
  }

  function KeyStart(f: Flat, i: nat): (n: int)
    requires i < |f.offs|
  {
    f.offs[i]
  }

  function KeyEnd(f: Flat, i: nat): (n: int)
    requires i < |f.offs|
  {
    if i + 1 < |f.offs| then f.offs[i + 1] else |f.buf|
  }

  /** Offsets delimit exactly the packed keys. */
  lemma PackedAt(f: Flat, keys: seq<Key>, i: nat)
    requires Packs(f, keys) && i < |keys|
    ensures 0 <= KeyStart(f, i) <= KeyEnd(f, i) <= |f.buf|
    ensures f.buf[KeyStart(f, i)..KeyEnd(f, i)] == keys[i]
    ensures f.buf == f.buf[..KeyStart(f, i)] + keys[i] + f.buf[KeyEnd(f, i)..]
    ensures f.buf[..KeyStart(f, i)] == Flatten(keys[..i]) && f.buf[KeyEnd(f, i)..] == Flatten(keys[i + 1..])
  {
    hide Flatten;
    FlattenCut(keys, i);
    assert keys[..|keys|] == keys;
    assert KeyEnd(f, i) == |Flatten(keys[..i + 1])|;
    var a, b := Flatten(keys[..i]), Flatten(keys[i + 1..]);
    assert f.buf == a + keys[i] + b;
    assert f.buf[..|a|] == a && f.buf[|a|..|a| + |keys[i]|] == keys[i] && f.buf[|a| + |keys[i]|..] == b;
  }

  method KeyAt(f: Flat, i: nat, ghost keys: seq<Key>) returns (k: Key)
    requires Packs(f, keys) && i < |keys|
    ensures k == keys[i]
  {
    PackedAt(f, keys, i);
    k := f.buf[KeyStart(f, i)..KeyEnd(f, i)];
  }

  /** Adds `delta` to every offset from position `from` on. */
  method ShiftOffsets(offs: seq<int>, from: nat, delta: int) returns (out: seq<int>)
    requires from <= |offs|
    ensures |out| == |offs|
    ensures forall i :: 0 <= i < |offs| ==> out[i] == if i < from then offs[i] else offs[i] + delta
  {
    out := offs;
    for j := from to |offs|
      invariant |out| == |offs|
      invariant forall i :: 0 <= i < |offs| ==> out[i] == if from <= i < j then offs[i] + delta else offs[i]
    {
      out := out[j := out[j] + delta];
    }
  }

  method ReplaceKeyAt(f: Flat, pos: nat, key: Key, ghost keys: seq<Key>) returns (out: Flat)
    requires Packs(f, keys) && pos < |keys|
    ensures Packs(out, keys[pos := key])
  {
    hide Flatten;
    PackedAt(f, keys, pos);
    var start, next := KeyStart(f, pos), KeyEnd(f, pos);
    var delta := |key| - (next - start);
    var offs := ShiftOffsets(f.offs, pos + 1, delta);
    out := Flat(f.buf[..start] + key + f.buf[next..], offs);
    PackReplaced(f, keys, pos, key);
  }

  lemma PackReplaced(f: Flat, keys: seq<Key>, pos: nat, key: Key)
    requires Packs(f, keys) && pos < |keys|
    ensures 0 <= KeyStart(f, pos) <= KeyEnd(f, pos) <= |f.buf|
    ensures
      var all := keys[pos := key];
      && Flatten(all) == f.buf[..KeyStart(f, pos)] + key + f.buf[KeyEnd(f, pos)..]
      && forall i :: 0 <= i < |all| ==>
        |Flatten(all[..i])| == if i <= pos then f.offs[i] else f.offs[i] + |key| - |keys[pos]|
  {
    hide Flatten;
    var all := keys[pos := key];
    PackedAt(f, keys, pos);
    FlattenCut(all, pos);
    assert all[..pos] == keys[..pos] && all[pos + 1..] == keys[pos + 1..];
    forall i | 0 <= i < |all|
      ensures |Flatten(all[..i])| == if i <= pos then f.offs[i] else f.offs[i] + |key| - |keys[pos]|
    {
      if i <= pos {
        assert all[..i] == keys[..i];
      } else {
        FlattenCut(all[..i], pos);
        FlattenCut(keys[..i], pos);
        assert all[..i][..pos] == keys[..i][..pos] && all[..i][pos + 1..] == keys[..i][pos + 1..];
      }
    }
  }

  method InsertKeyAt(f: Flat, idx: nat, key: Key, ghost keys: seq<Key>) returns (out: Flat)
    requires Packs(f, keys) && idx <= |keys|
    ensures Packs(out, keys[..idx] + [key] + keys[idx..])
  {
    hide Flatten;
    var ins := |f.buf|;
    if idx < |f.offs| {
      PackedAt(f, keys, idx);
      ins := KeyStart(f, idx);
    }
    PackInserted(f, keys, idx, key, ins);
    var moved := f.offs[..idx] + [ins] + f.offs[idx..];
    var offs := ShiftOffsets(moved, idx + 1, |key|);
    out := Flat(f.buf[..ins] + key + f.buf[ins..], offs);
  }

  lemma PackInserted(f: Flat, keys: seq<Key>, idx: nat, key: Key, ins: int)
    requires Packs(f, keys) && idx <= |keys|
    requires ins == if idx < |keys| then f.offs[idx] else |f.buf|
    ensures 0 <= ins <= |f.buf|
    ensures
      var all := keys[..idx] + [key] + keys[idx..];
      && Flatten(all) == f.buf[..ins] + key + f.buf[ins..]
      && (forall i :: 0 <= i < idx ==> |Flatten(all[..i])| == f.offs[i])
      && |Flatten(all[..idx])| == ins
      && (forall i :: idx < i < |all| ==> |Flatten(all[..i])| == f.offs[i - 1] + |key|)
  {
    hide Flatten;
    var all := keys[..idx] + [key] + keys[idx..];
    assert keys[..|keys|] == keys;
    assert keys == keys[..idx] + keys[idx..];
    FlattenConcat(keys[..idx], keys[idx..]);
    assert ins == |Flatten(keys[..idx])|;
    FlattenCut(all, idx);
    assert all[..idx] == keys[..idx] && all[idx + 1..] == keys[idx..];
    forall i | 0 <= i < idx
      ensures |Flatten(all[..i])| == f.offs[i]
    {
      assert all[..i] == keys[..i];
    }
    forall i | idx < i < |all|
      ensures |Flatten(all[..i])| == f.offs[i - 1] + |key|
    {
      FlattenCut(all[..i], idx);
      assert all[..i][..idx] == keys[..idx] && all[..i][idx + 1..] == keys[idx..i - 1];
      assert keys[..i - 1] == keys[..idx] + keys[idx..i - 1];
      FlattenConcat(keys[..idx], keys[idx..i - 1]);
    }
  }

  method RemoveKeyAt(f: Flat, pos: nat, ghost keys: seq<Key>) returns (out: Flat, oldLen: nat)
    requires Packs(f, keys) && pos < |keys|
    ensures Packs(out, keys[..pos] + keys[pos + 1..]) && oldLen == |keys[pos]|
  {
    hide Flatten;
    PackedAt(f, keys, pos);
    var start, next := KeyStart(f, pos), KeyEnd(f, pos);
    oldLen := next - start;
    PackRemoved(f, keys, pos);
    var moved := f.offs[..pos] + f.offs[pos + 1..];
    var offs := ShiftOffsets(moved, pos, start - next);
    out := Flat(f.buf[..start] + f.buf[next..], offs);
  }

  lemma PackRemoved(f: Flat, keys: seq<Key>, pos: nat)
    requires Packs(f, keys) && pos < |keys|
    ensures 0 <= KeyStart(f, pos) <= KeyEnd(f, pos) <= |f.buf|
    ensures
      var all := keys[..pos] + keys[pos + 1..];
      && Flatten(all) == f.buf[..KeyStart(f, pos)] + f.buf[KeyEnd(f, pos)..]
      && (forall i :: 0 <= i < pos ==> |Flatten(all[..i])| == f.offs[i])
      && (forall i :: pos <= i < |all| ==> |Flatten(all[..i])| == f.offs[i + 1] - |keys[pos]|)
  {
    hide Flatten;
    var all := keys[..pos] + keys[pos + 1..];
    PackedAt(f, keys, pos);
    FlattenConcat(keys[..pos], keys[pos + 1..]);
    forall i | 0 <= i < pos
      ensures |Flatten(all[..i])| == f.offs[i]
    {
      assert all[..i] == keys[..i];
    }
    forall i | pos <= i < |all|
      ensures |Flatten(all[..i])| == f.offs[i + 1] - |keys[pos]|
    {
      FlattenCut(keys[..i + 1], pos);
      assert keys[..i + 1][..pos] == keys[..pos] && keys[..i + 1][pos + 1..] == keys[pos + 1..i + 1];
      assert all[..i] == keys[..pos] + keys[pos + 1..i + 1];
      FlattenConcat(keys[..pos], keys[pos + 1..i + 1]);
    }
  }

  // ---- mirroring a write ----

  /** The keys are the active datoms of a set, in order. */
  ghost predicate Current(keys: seq<Key>, s: set<Key>)
  {
    Ascending(keys) && Elems(keys) == Active(s)
  }

  /** Datom keys: an entity, an attribute, a value and a version, ordered by datom. */
  ghost predicate Datoms(s: set<Key>)
  {
    ByDatom(s) && forall k :: k in s ==> |k| >= 20
  }

  /** No version of the key's datom in the set is newer. */
  ghost predicate NotOlder(s: set<Key>, key: Key)
  {
    forall x :: x in s && SameDatom(x, key) ==> LessEq(x, key)
  }

  /** Some version of the key's datom is active. */
  ghost predicate HasActive(s: set<Key>, key: Key)
  {
    exists x :: x in Active(s) && SameDatom(x, key)
  }

  /** The writes a cache entry can follow: versions that are not older than what is there, and
      retractions of what is not active anyway. */
  ghost predicate Mirrored(s: set<Key>, key: Key)
  {
    NotOlder(s, key) || (Versioned(key) && Retracted(key) && !HasActive(s, key))
  }

  /** What the cache makes of its keys when it hears of a write: the write is what it answers for its datom. */
  ghost function MirrorKey(ks: set<Key>, key: Key): (r: set<Key>)
    requires Versioned(key)
  {
    (set k | k in ks && !SameDatom(k, key)) + if Retracted(key) then {} else {key}
  }

  ghost function MirrorAll(ks: set<Key>, writes: seq<Key>): (r: set<Key>)
    requires forall w :: w in writes ==> Versioned(w)
  {
    if writes == [] then ks
    else
      var front, last := writes[..|writes| - 1], writes[|writes| - 1];
      assert last in writes && forall w :: w in front ==> w in writes;
      MirrorKey(MirrorAll(ks, front), last)
  }

  /** A version that is not older replaces whatever was active of its datom, if it is an assertion. */
  lemma ActiveAdds(s: set<Key>, key: Key)
    requires Versioned(key) && NotOlder(s, key)
    ensures forall k :: k in Active(s + {key}) <==> (k == key && !Retracted(key)) || (k in Active(s) && !SameDatom(k, key))
  {
    hide Less;
    var t := s + {key};
    forall k
      ensures k in Active(t) <==> (k == key && !Retracted(key)) || (k in Active(s) && !SameDatom(k, key))
    {
      if k == key {
        assert Newest(t, key);
      } else if k in s && SameDatom(k, key) {
        LessAsymmetric(k, key);
        assert key in t;
        assert !Newest(t, k);
      } else if k in s && Versioned(k) {
        assert Newest(t, k) <==> Newest(s, k);
      }
    }
  }

  /** An older version changes nothing that is active. */
  lemma OlderAddsNothing(s: set<Key>, key: Key)
    requires Versioned(key) && !NotOlder(s, key)
    ensures Active(s + {key}) == Active(s) && key !in Active(s)
  {
    hide Less;
    var x :| x in s && SameDatom(x, key) && !LessEq(x, key);
    LessTotal(x, key);
    LessAsymmetric(key, x);
    var t := s + {key};
    assert x in t && !Newest(t, key) && !Newest(s, key);
    forall k | k in s && Versioned(k)
      ensures Newest(t, k) <==> Newest(s, k)
    {
      if Newest(s, k) && SameDatom(key, k) {
        assert LessEq(x, k);
        if x != k {
          LessTransitive(key, x, k);
        }
      }
    }
  }

  /** A datom has one active version at most. */
  lemma ActiveOnce(s: set<Key>, a: Key, b: Key)
    requires a in Active(s) && b in Active(s) && SameDatom(a, b)
    ensures a == b
  {
    LessAsymmetricIf(a, b);
  }

  /** Keys of different datoms are ordered by their logical keys. */
  lemma DatomsApart(s: set<Key>, a: Key, b: Key)
    requires ByDatom(s) && a in s && b in s && Versioned(a) && Versioned(b) && !SameDatom(a, b)
    ensures Less(a, b) <==> Less(LogicalOf(a), LogicalOf(b))
  {
    hide Less;
  }

  /** Mirroring a write leaves the active keys of the set with the write if and only if the write is one the
      cache can follow. */
  lemma MirrorExact(s: set<Key>, key: Key)
    requires Versioned(key)
    ensures MirrorKey(Active(s), key) == Active(s + {key}) <==> Mirrored(s, key)
  {
    hide Less; hide Active;
    if NotOlder(s, key) {
      ActiveAdds(s, key);
    } else {
      OlderAddsNothing(s, key);
      if Retracted(key) {
        MirrorDrops(Active(s), key);
      } else {
        assert key in MirrorKey(Active(s), key);
      }
    }
  }

  lemma MirrorDrops(ks: set<Key>, key: Key)
    requires Versioned(key) && Retracted(key)
    ensures MirrorKey(ks, key) == ks <==> !exists x :: x in ks && SameDatom(x, key)
  {
    if x :| x in ks && SameDatom(x, key) {
      assert x !in MirrorKey(ks, key);
    }
  }

  /** Writes of the datom of write i end with it. */
  ghost predicate LastOfDatom(writes: seq<Key>, i: int)
  {
    0 <= i < |writes| && forall j :: i < j < |writes| ==> !SameDatom(writes[j], writes[i])
  }

  /** Together with what is stored the last write of every datom is one the cache can follow. */
  ghost predicate Followed(s: set<Key>, writes: seq<Key>)
  {
    forall i :: LastOfDatom(writes, i) ==> Mirrored(s + Elems(writes), writes[i])
  }

  ghost predicate IsLastAssertion(writes: seq<Key>, k: Key)
  {
    Versioned(k) && !Retracted(k) && exists i :: LastOfDatom(writes, i) && writes[i] == k
  }

  ghost predicate Untouched(writes: seq<Key>, k: Key)
  {
    forall j :: 0 <= j < |writes| ==> !SameDatom(k, writes[j])
  }

  /** After any writes, in any order, the cache answers with the last write of every datom. */
  lemma {:induction false} MirrorAllIs(ks: set<Key>, writes: seq<Key>, k: Key)
    requires forall w :: w in writes ==> Versioned(w)
    ensures k in MirrorAll(ks, writes) <==> IsLastAssertion(writes, k) || (k in ks && Untouched(writes, k))
  {
    hide IsLastAssertion; hide Untouched;
    if writes == [] {
      NothingWritten(k);
    } else {
      var n := |writes| - 1;
      var front, last := writes[..n], writes[n];
      assert last in writes && forall w :: w in front ==> w in writes;
      MirrorAllIs(ks, front, k);
      OneMoreWrite(front, last, k);
      assert writes == front + [last];
    }
  }

  lemma NothingWritten(k: Key)
    ensures !IsLastAssertion([], k) && Untouched([], k)
  {
  }

  lemma OneMoreWrite(front: seq<Key>, last: Key, k: Key)
    requires Versioned(last)
    ensures IsLastAssertion(front + [last], k)
      <==> (k == last && !Retracted(last)) || (IsLastAssertion(front, k) && !SameDatom(k, last))
    ensures Untouched(front + [last], k) <==> Untouched(front, k) && !SameDatom(k, last)
  {
    var writes, n := front + [last], |front|;
    assert forall i :: 0 <= i < n ==> writes[i] == front[i];
    assert writes[n] == last;
    if k == last && !Retracted(last) {
      assert LastOfDatom(writes, n);
    }
    forall i | 0 <= i < n
      ensures LastOfDatom(writes, i) <==> LastOfDatom(front, i) && !SameDatom(last, front[i])
    {
    }
    if IsLastAssertion(front, k) && !SameDatom(k, last) {
      var i :| LastOfDatom(front, i) && front[i] == k;
      assert LastOfDatom(writes, i);
    }
  }

  /** Any two of a datom's writes: the later one is last or followed by a last one. */
  lemma {:induction false} SomeLast(writes: seq<Key>, j: nat) returns (i: nat)
    requires j < |writes| && forall w :: w in writes ==> Versioned(w)
    ensures j <= i && LastOfDatom(writes, i) && SameDatom(writes[i], writes[j])
    decreases |writes| - j
  {
    assert writes[j] in writes;
    if LastOfDatom(writes, j) {
      i := j;
    } else {
      var n :| j < n < |writes| && SameDatom(writes[n], writes[j]);
      i := SomeLast(writes, n);
    }
  }

  /** A whole batch leaves the active keys if and only if the last write of every datom can be followed. */
  lemma BatchExact(s: set<Key>, writes: seq<Key>)
    requires forall w :: w in writes ==> Versioned(w)
    ensures MirrorAll(Active(s), writes) == Active(s + Elems(writes)) <==> Followed(s, writes)
  {
    hide Less; hide Active; hide Mirrored; hide MirrorAll;
    var all := s + Elems(writes);
    if Followed(s, writes) {
      forall k
        ensures k in MirrorAll(Active(s), writes) <==> k in Active(all)
      {
        MirrorAllIs(Active(s), writes, k);
        SameActive(s, writes, k);
      }
    } else {
      var i :| LastOfDatom(writes, i) && !Mirrored(all, writes[i]);
      Differs(s, writes, i);
    }
  }

  /** For a last write that cannot be followed the answers differ. */
  lemma Differs(s: set<Key>, writes: seq<Key>, i: nat)
    requires forall w :: w in writes ==> Versioned(w)
    requires LastOfDatom(writes, i) && !Mirrored(s + Elems(writes), writes[i])
    ensures MirrorAll(Active(s), writes) != Active(s + Elems(writes))
  {
    hide Less; hide MirrorAll;
    var all, w := s + Elems(writes), writes[i];
    assert w in writes && w in all;
    if Retracted(w) {
      var x :| x in Active(all) && SameDatom(x, w);
      MirrorAllIs(Active(s), writes, x);
      LastTwice(writes, i, x);
      assert x !in MirrorAll(Active(s), writes);
    } else {
      MirrorAllIs(Active(s), writes, w);
      assert w !in Active(all);
    }
  }

  lemma LastTwice(writes: seq<Key>, i: nat, x: Key)
    requires LastOfDatom(writes, i) && SameDatom(x, writes[i]) && Retracted(writes[i])
    ensures !IsLastAssertion(writes, x) && !Untouched(writes, x)
  {
    forall j | LastOfDatom(writes, j) && writes[j] == x
      ensures j == i
    {
    }
  }

  /** If every last write can be followed, what the cache answers is active and the reverse. */
  lemma SameActive(s: set<Key>, writes: seq<Key>, k: Key)
    requires (forall w :: w in writes ==> Versioned(w)) && Followed(s, writes)
    ensures k in Active(s + Elems(writes)) <==> IsLastAssertion(writes, k) || (k in Active(s) && Untouched(writes, k))
  {
    hide Less;
    var all := s + Elems(writes);
    if exists j :: 0 <= j < |writes| && SameDatom(k, writes[j]) {
      var j :| 0 <= j < |writes| && SameDatom(k, writes[j]);
      var i := SomeLast(writes, j);
      var w := writes[i];
      assert w in writes && w in all && Mirrored(all, w);
      if k in Active(all) {
        LastIsActive(all, w, k);
      }
      forall n | LastOfDatom(writes, n) && writes[n] == k
        ensures n == i
      {
      }
    } else {
      forall x | x in Elems(writes)
        ensures !SameDatom(x, k)
      {
        var j :| 0 <= j < |writes| && writes[j] == x;
      }
      assert k in s && Versioned(k) ==> (Newest(all, k) <==> Newest(s, k));
      forall i | 0 <= i < |writes|
        ensures writes[i] != k
      {
        assert writes[i] in writes;
      }
    }
  }

  lemma LastIsActive(all: set<Key>, w: Key, k: Key)
    requires w in all && Mirrored(all, w) && k in Active(all) && SameDatom(k, w)
    ensures k == w
  {
    hide Less;
    assert HasActive(all, w);
    LessAsymmetricIf(k, w);
  }

  // ---- the keys of one entity ----

  /** Assertions of distinct datoms, in order. */
  ghost predicate Tidy(keys: seq<Key>, known: set<Key>)
  {
    && Ascending(keys) && Elems(keys) <= known
    && (forall k :: k in keys ==> Versioned(k) && !Retracted(k))
    && forall i, j :: 0 <= i < j < |keys| ==> !SameDatom(keys[i], keys[j])
  }

  lemma CurrentTidy(keys: seq<Key>, s: set<Key>)
    requires Current(keys, s)
    ensures Tidy(keys, s)
  {
    hide Less;
    forall k | k in keys
      ensures k in Active(s)
    {
      assert k in Elems(keys);
    }
    forall i, j | 0 <= i < j < |keys|
      ensures !SameDatom(keys[i], keys[j])
    {
      assert keys[i] in keys && keys[j] in keys;
      LessIrreflexive(keys[i]);
      if SameDatom(keys[i], keys[j]) {
        ActiveOnce(s, keys[i], keys[j]);
      }
    }
  }

  ghost predicate LogicalsAscend(keys: seq<Key>)
  {
    && (forall k :: k in keys ==> Versioned(k))
    && forall i, j :: 0 <= i < j < |keys| ==> Less(LogicalOf(keys[i]), LogicalOf(keys[j]))
  }

  lemma TidyLogicals(keys: seq<Key>, known: set<Key>)
    requires Tidy(keys, known) && ByDatom(known)
    ensures LogicalsAscend(keys) && Ascending(keys)
  {
    hide Less;
    forall i, j | 0 <= i < j < |keys|
      ensures Less(LogicalOf(keys[i]), LogicalOf(keys[j]))
    {
      assert keys[i] in Elems(keys) && keys[j] in Elems(keys) && keys[i] in keys && keys[j] in keys;
      DatomsApart(known, keys[i], keys[j]);
    }
  }

  /** Binary search for the stored version of a key's datom. */
  method FindKeyPos(f: Flat, key: Key, ghost keys: seq<Key>) returns (pos: int)
    requires Packs(f, keys) && LogicalsAscend(keys) && Versioned(key)
    ensures -1 <= pos < |keys|
    ensures pos >= 0 ==> SameDatom(keys[pos], key)
    ensures pos < 0 ==> forall i :: 0 <= i < |keys| ==> !SameDatom(keys[i], key)
  {
    hide Less; hide Flatten;
    var target := LogicalOf(key);
    var lo, hi := 0, |f.offs|;
    while lo < hi
      invariant 0 <= lo <= hi <= |keys|
      invariant forall i :: 0 <= i < lo ==> Less(LogicalOf(keys[i]), target)
      invariant forall i :: hi <= i < |keys| ==> !Less(LogicalOf(keys[i]), target)
    {
      var mid := (lo + hi) / 2;
      var k := KeyAt(f, mid, keys);
      var c := CmpSeq(LogicalOf(k), target);
      if c < 0 {
        forall i | 0 <= i < mid ensures Less(LogicalOf(keys[i]), target) {
          LessTransitive(LogicalOf(keys[i]), LogicalOf(k), target);
        }
        lo := mid + 1;
      } else {
        forall i | mid < i < |keys| ensures !Less(LogicalOf(keys[i]), target) {
          AboveStays(target, LogicalOf(k), LogicalOf(keys[i]));
        }
        hi := mid;
      }
    }
    pos := -1;
    if lo < |f.offs| {
      var k := KeyAt(f, lo, keys);
      var c := CmpSeq(LogicalOf(k), target);
      if c == 0 {
        pos := lo;
      } else {
        forall i | lo < i < |keys| ensures LogicalOf(keys[i]) != target {
          LessAsymmetricIf(LogicalOf(keys[i]), LogicalOf(k));
        }
      }
    }
    if pos < 0 {
      forall i | 0 <= i < lo ensures LogicalOf(keys[i]) != target {
        LessIrreflexive(target);
      }
    }
  }

  lemma AboveStays(target: Key, a: Key, b: Key)
    requires !Less(a, target) && Less(a, b)
    ensures !Less(b, target)
  {
    if Less(b, target) {
      LessTransitive(a, b, target);
    }
  }

  /** Where a new key goes: walking down from the end past the greater ones. */
  method InsertIndex(f: Flat, key: Key, ghost keys: seq<Key>) returns (idx: nat)
    requires Packs(f, keys) && Ascending(keys) && key !in keys
    ensures idx <= |keys|
    ensures forall i :: 0 <= i < idx ==> Less(keys[i], key)
    ensures forall i :: idx <= i < |keys| ==> Less(key, keys[i])
  {
    hide Less; hide Flatten;
    idx := |f.offs|;
    var going := true;
    while idx > 0 && going
      invariant idx <= |keys|
      invariant forall i :: idx <= i < |keys| ==> Less(key, keys[i])
      invariant !going ==> idx > 0 && Less(keys[idx - 1], key)
      decreases idx, going
    {
      var k := KeyAt(f, idx - 1, keys);
      assert k in keys;
      var c := CmpSeq(k, key);
      if c > 0 {
        idx := idx - 1;
      } else {
        going := false;
      }
    }
    if idx > 0 {
      forall i | 0 <= i < idx - 1 ensures Less(keys[i], key) {
        LessTransitive(keys[i], keys[idx - 1], key);
      }
    }
  }

  /** Replacing the version of a datom keeps the order. */
  lemma TidyReplace(keys: seq<Key>, known: set<Key>, pos: nat, key: Key)
    requires Tidy(keys, known) && ByDatom(known + {key}) && Versioned(key) && !Retracted(key)
    requires pos < |keys| && SameDatom(keys[pos], key)
    ensures Tidy(keys[pos := key], known + {key})
    ensures Elems(keys[pos := key]) == MirrorKey(Elems(keys), key)
  {
    hide Less;
    var all := keys[pos := key];
    forall i | 0 <= i < |keys| && i != pos
      ensures keys[i] in Elems(keys) && !SameDatom(keys[i], key) && !SameDatom(key, keys[i])
      ensures Less(keys[i], key) <==> Less(keys[i], keys[pos])
      ensures Less(key, keys[i]) <==> Less(keys[pos], keys[i])
    {
      OthersApart(keys, known, pos, i, key);
    }
    forall k
      ensures k in Elems(all) <==> k in MirrorKey(Elems(keys), key)
    {
      if k in Elems(keys) && !SameDatom(k, key) {
        var i :| 0 <= i < |keys| && keys[i] == k;
        assert all[i] == k;
      }
      if k == key {
        assert all[pos] == k;
      }
      if k in all {
        var i :| 0 <= i < |all| && all[i] == k;
      }
    }
  }

  /** Other stored keys lie on the same side of a datom's old and new version. */
  lemma OthersApart(keys: seq<Key>, known: set<Key>, pos: nat, i: nat, key: Key)
    requires Tidy(keys, known) && Versioned(key) && ByDatom(known + {key})
    requires pos < |keys| && SameDatom(keys[pos], key) && i < |keys| && i != pos
    ensures keys[i] in Elems(keys) && !SameDatom(keys[i], key) && !SameDatom(key, keys[i])
    ensures Less(keys[i], key) <==> Less(keys[i], keys[pos])
    ensures Less(key, keys[i]) <==> Less(keys[pos], keys[i])
  {
    hide Less;
    var t := known + {key};
    assert keys[i] in keys && keys[pos] in keys && keys[i] in Elems(keys) && keys[pos] in Elems(keys);
    assert !SameDatom(keys[i], keys[pos]) by {
      if i < pos {
        assert !SameDatom(keys[i], keys[pos]);
      } else {
        assert !SameDatom(keys[pos], keys[i]);
      }
    }
    assert keys[i] in t && keys[pos] in t && key in t;
    DatomsApart(t, keys[i], key);
    DatomsApart(t, keys[i], keys[pos]);
    DatomsApart(t, key, keys[i]);
    DatomsApart(t, keys[pos], keys[i]);
  }

  lemma TidyInsert(keys: seq<Key>, known: set<Key>, idx: nat, key: Key)
    requires Tidy(keys, known) && Versioned(key) && !Retracted(key)
    requires idx <= |keys| && forall i :: 0 <= i < |keys| ==> !SameDatom(keys[i], key)
    requires forall i :: 0 <= i < idx ==> Less(keys[i], key)
    requires forall i :: idx <= i < |keys| ==> Less(key, keys[i])
    ensures Tidy(keys[..idx] + [key] + keys[idx..], known + {key})
    ensures Elems(keys[..idx] + [key] + keys[idx..]) == MirrorKey(Elems(keys), key)
  {
    hide Less; hide SameDatom; hide Ascending;
    var all := keys[..idx] + [key] + keys[idx..];
    InsertAscends(keys, idx, key);
    InsertDistinct(keys, idx, key);
    NoneDropped(keys, key);
    assert Elems(all) == Elems(keys) + {key};
  }

  lemma InsertDistinct(keys: seq<Key>, idx: nat, key: Key)
    requires forall i, j :: 0 <= i < j < |keys| ==> !SameDatom(keys[i], keys[j])
    requires idx <= |keys| && forall i :: 0 <= i < |keys| ==> !SameDatom(keys[i], key)
    ensures
      var all := keys[..idx] + [key] + keys[idx..];
      forall i, j :: 0 <= i < j < |all| ==> !SameDatom(all[i], all[j])
  {
    var all := keys[..idx] + [key] + keys[idx..];
    forall i, j | 0 <= i < j < |all|
      ensures !SameDatom(all[i], all[j])
    {
      assert all[i] == if i < idx then keys[i] else if i == idx then key else keys[i - 1];
      assert all[j] == if j < idx then keys[j] else if j == idx then key else keys[j - 1];
      if i == idx {
        assert !SameDatom(keys[j - 1], key);
      }
    }
  }

  /** Where no version of the datom is stored, mirroring drops nothing. */
  lemma NoneDropped(keys: seq<Key>, key: Key)
    requires Versioned(key) && forall i :: 0 <= i < |keys| ==> !SameDatom(keys[i], key)
    ensures MirrorKey(Elems(keys), key) == Elems(keys) + if Retracted(key) then {} else {key}
  {
    forall k | k in Elems(keys)
      ensures !SameDatom(k, key)
    {
      var i :| 0 <= i < |keys| && keys[i] == k;
    }
  }

  lemma InsertAscends(keys: seq<Key>, idx: nat, key: Key)
    requires Ascending(keys) && idx <= |keys|
    requires forall i :: 0 <= i < idx ==> Less(keys[i], key)
    requires forall i :: idx <= i < |keys| ==> Less(key, keys[i])
    ensures var all := keys[..idx] + [key] + keys[idx..];
      Ascending(all) && forall k :: k in all <==> k in keys || k == key
  {
    hide Less;
    var all := keys[..idx] + [key] + keys[idx..];
    forall i, j | 0 <= i < j < |all|
      ensures Less(all[i], all[j])
    {
      assert all[i] == if i < idx then keys[i] else if i == idx then key else keys[i - 1];
      assert all[j] == if j < idx then keys[j] else if j == idx then key else keys[j - 1];
    }
    assert keys == keys[..idx] + keys[idx..];
  }

  lemma TidyRemove(keys: seq<Key>, known: set<Key>, pos: nat, key: Key)
    requires Tidy(keys, known) && Versioned(key) && Retracted(key) && ByDatom(known + {key})
    requires pos < |keys| && SameDatom(keys[pos], key)
    ensures Tidy(keys[..pos] + keys[pos + 1..], known + {key})
    ensures Elems(keys[..pos] + keys[pos + 1..]) == MirrorKey(Elems(keys), key)
  {
    hide Less;
    var all := keys[..pos] + keys[pos + 1..];
    DropAscends(keys, pos);
    forall i, j | 0 <= i < j < |all|
      ensures !SameDatom(all[i], all[j])
    {
      assert all[i] == keys[if i < pos then i else i + 1] && all[j] == keys[if j < pos then j else j + 1];
    }
    forall k | k in Elems(keys)
      ensures SameDatom(k, key) <==> k == keys[pos]
    {
      var i :| 0 <= i < |keys| && keys[i] == k;
      if i != pos {
        OthersApart(keys, known, pos, i, key);
      }
    }
  }

  lemma DropAscends(keys: seq<Key>, pos: nat)
    requires Ascending(keys) && pos < |keys|
    ensures var all := keys[..pos] + keys[pos + 1..];
      Ascending(all) && forall k :: k in all <==> k in keys && k != keys[pos]
  {
    hide Less;
    var all := keys[..pos] + keys[pos + 1..];
    assert forall i :: 0 <= i < |all| ==> all[i] == if i < pos then keys[i] else keys[i + 1];
    AscendingDistinct(keys);
    forall k | k in keys && k != keys[pos]
      ensures k in all
    {
      var i :| 0 <= i < |keys| && keys[i] == k;
      assert all[if i < pos then i else i - 1] == k;
    }
  }

  /** Applies one write to an entity's keys; `delta` is the change in bytes.  Whatever the order of writes,
      the write is then what the keys answer for its datom. */
  method ApplyToEntry(f: Flat, key: Key, ghost keys: seq<Key>, ghost known: set<Key>)
    returns (out: Flat, delta: int, ghost keys': seq<Key>)
    requires Packs(f, keys) && Tidy(keys, known) && Datoms(known + {key})
    ensures Packs(out, keys') && Tidy(keys', known + {key})
    ensures Versioned(key) && Elems(keys') == MirrorKey(Elems(keys), key)
    ensures delta == |out.buf| - |f.buf|
  {
    hide Less; hide Flatten; hide Packs; hide SameDatom; hide ByDatom; hide Tidy; hide MirrorKey;
    SubsetDatoms(known, key);
    TidyLogicals(keys, known);
    var pos := FindKeyPos(f, key, keys);
    if !Retracted(key) {
      if pos >= 0 {
        PackedSizes(f, keys, pos);
        out := ReplaceKeyAt(f, pos, key, keys);
        keys' := keys[pos := key];
        TidyReplace(keys, known, pos, key);
        ReplacedSize(f, out, keys, pos, key);
        delta := |key| - (KeyEnd(f, pos) - KeyStart(f, pos));
      } else {
        NotStored(keys, key);
        var idx := InsertIndex(f, key, keys);
        out := InsertKeyAt(f, idx, key, keys);
        keys' := keys[..idx] + [key] + keys[idx..];
        TidyInsert(keys, known, idx, key);
        InsertedSize(f, out, keys, idx, key);
        delta := |key|;
      }
    } else if pos >= 0 {
      var oldLen;
      out, oldLen := RemoveKeyAt(f, pos, keys);
      keys' := keys[..pos] + keys[pos + 1..];
      TidyRemove(keys, known, pos, key);
      RemovedSize(f, out, keys, pos);
      delta := -(oldLen as int);
    } else {
      out, delta, keys' := f, 0, keys;
      NoneDropped(keys, key);
      TidyGrows(keys, known, key);
    }
  }

  lemma TidyGrows(keys: seq<Key>, known: set<Key>, key: Key)
    requires Tidy(keys, known)
    ensures Tidy(keys, known + {key})
  {
  }

  lemma NotStored(keys: seq<Key>, key: Key)
    requires Versioned(key) && forall i :: 0 <= i < |keys| ==> !SameDatom(keys[i], key)
    ensures key !in keys
  {
  }

  lemma SubsetDatoms(s: set<Key>, key: Key)
    requires Datoms(s + {key})
    ensures ByDatom(s) && ByDatom(s + {key}) && Versioned(key) && |key| >= 20
  {
    assert key in s + {key};
    assert forall k :: k in s ==> k in s + {key};
  }

  lemma PackedSizes(f: Flat, keys: seq<Key>, pos: nat)
    requires Packs(f, keys) && pos < |keys|
    ensures pos < |f.offs| && KeyEnd(f, pos) - KeyStart(f, pos) == |keys[pos]|
  {
    hide Flatten;
    PackedAt(f, keys, pos);
  }

  lemma ReplacedSize(f: Flat, out: Flat, keys: seq<Key>, pos: nat, key: Key)
    requires Packs(f, keys) && pos < |keys| && Packs(out, keys[pos := key])
    ensures |out.buf| == |f.buf| + |key| - |keys[pos]|
  {
    hide Flatten;
    PackedAt(f, keys, pos);
    PackReplaced(f, keys, pos, key);
  }

  lemma InsertedSize(f: Flat, out: Flat, keys: seq<Key>, idx: nat, key: Key)
    requires Packs(f, keys) && idx <= |keys| && Packs(out, keys[..idx] + [key] + keys[idx..])
    ensures |out.buf| == |f.buf| + |key|
  {
    hide Flatten;
    PackInserted(f, keys, idx, key, if idx < |keys| then f.offs[idx] else |f.buf|);
  }

  lemma RemovedSize(f: Flat, out: Flat, keys: seq<Key>, pos: nat)
    requires Packs(f, keys) && pos < |keys| && Packs(out, keys[..pos] + keys[pos + 1..])
    ensures |out.buf| == |f.buf| - |keys[pos]|
  {
    hide Flatten;
    PackedAt(f, keys, pos);
    PackRemoved(f, keys, pos);
  }

  // ---- reads ----

  /** The first stored key at or above the target. */
  method LowerBound(f: Flat, target: Key, ghost keys: seq<Key>) returns (lo: nat)
    requires Packs(f, keys) && Ascending(keys)
    ensures lo <= |keys|
    ensures forall i :: 0 <= i < lo ==> Less(keys[i], target)
    ensures forall i :: lo <= i < |keys| ==> LessEq(target, keys[i])
  {
    hide Less; hide Flatten;
    lo := 0;
    var hi := |f.offs|;
    while lo < hi
      invariant lo <= hi <= |keys|
      invariant forall i :: 0 <= i < lo ==> Less(keys[i], target)
      invariant forall i :: hi <= i < |keys| ==> LessEq(target, keys[i])
    {
      var mid := (lo + hi) / 2;
      var k := KeyAt(f, mid, keys);
      var c := CmpSeq(k, target);
      if c < 0 {
        forall i | 0 <= i < mid ensures Less(keys[i], target) { LessTransitive(keys[i], k, target); }
        lo := mid + 1;
      } else {
        forall i | mid < i < |keys| ensures LessEq(target, keys[i]) {
          if c > 0 { LessTransitive(target, k, keys[i]); }
        }
        hi := mid;
      }
    }
  }

  /** What a prefix starts is never below the prefix. */
  lemma PrefixNotBelow(p: Key, k: Key)
    requires Less(k, p)
    ensures !(p <= k)
  {
    if p <= k {
      LessAsymmetricIf(k, p);
      LessIrreflexive(p);
      if p != k {
        PrefixLess(p, k);
      }
    }
  }

  /** Keys from a prefix up to one of its extensions have the prefix. */
  lemma FromPrefix(p: Key, k: Key, y: Key)
    requires LessEq(p, k) && Less(k, y) && p <= y
    ensures p <= k
  {
    if p != k {
      assert p == p + [] && y == p + y[|p|..];
      BetweenPrefixed(p, [], k, y[|p|..]);
    }
  }

  /** The stored keys with a prefix: from the lower bound on until one does not match. */
  method RangeOf(f: Flat, prefix: Key, ghost keys: seq<Key>) returns (out: seq<Key>)
    requires Packs(f, keys) && Ascending(keys)
    ensures out == KeysWithPrefix(keys, prefix)
  {
    hide Less; hide Flatten; hide KeysWithPrefix; hide Packs;
    var lo := LowerBound(f, prefix, keys);
    NoneBelow(keys, lo, prefix);
    out := [];
    var i := lo;
    var matching := true;
    Sizes(f, keys);
    while i < |f.offs| && matching
      invariant lo <= i <= |keys|
      invariant out == KeysWithPrefix(keys[..i], prefix)
      invariant !matching ==> i < |keys| && !(prefix <= keys[i])
      decreases |keys| - i, matching
    {
      var k := KeyAt(f, i, keys);
      if |k| >= |prefix| && k[..|prefix|] == prefix {
        OneMore(keys, i, prefix);
        out := out + [k];
        i := i + 1;
      } else {
        matching := false;
      }
    }
    NoneAbove(keys, i, prefix);
  }

  /** The stored keys from a target on. */
  method TailOf(f: Flat, target: Key, ghost keys: seq<Key>) returns (out: seq<Key>)
    requires Packs(f, keys) && Ascending(keys)
    ensures Ascending(out) && forall k :: k in out <==> k in keys && LessEq(target, k)
  {
    hide Packs; hide Less;
    Sizes(f, keys);
    var lo := LowerBound(f, target, keys);
    out := [];
    for i := lo to |f.offs|
      invariant out == keys[lo..i]
    {
      var k := KeyAt(f, i, keys);
      out := out + [k];
    }
    FromTarget(keys, lo, target);
  }

  lemma Sizes(f: Flat, keys: seq<Key>)
    requires Packs(f, keys)
    ensures |f.offs| == |keys|
  {
  }

  lemma OneMore(keys: seq<Key>, i: nat, p: Key)
    requires i < |keys| && p <= keys[i]
    ensures KeysWithPrefix(keys[..i + 1], p) == KeysWithPrefix(keys[..i], p) + [keys[i]]
  {
    assert keys[..i + 1] == keys[..i] + [keys[i]];
    KeysWithPrefixConcat(keys[..i], [keys[i]], p);
    var one := [keys[i]];
    assert one[1..] == [];
  }

  lemma NoneBelow(keys: seq<Key>, lo: nat, p: Key)
    requires lo <= |keys| && forall i :: 0 <= i < lo ==> Less(keys[i], p)
    ensures KeysWithPrefix(keys[..lo], p) == []
  {
    forall k | k in keys[..lo]
      ensures !(p <= k)
    {
      PrefixNotBelow(p, k);
    }
    KeysWithPrefixNone(keys[..lo], p);
  }

  lemma NoneAbove(keys: seq<Key>, i: nat, p: Key)
    requires Ascending(keys) && i <= |keys|
    requires i < |keys| ==> LessEq(p, keys[i]) && !(p <= keys[i])
    ensures KeysWithPrefix(keys, p) == KeysWithPrefix(keys[..i], p)
  {
    forall k | k in keys[i..]
      ensures !(p <= k)
    {
      var j :| 0 <= j < |keys| - i && keys[i..][j] == k;
      assert keys[i + j] == k;
      if j > 0 && p <= k {
        FromPrefix(p, keys[i], k);
      }
    }
    KeysWithPrefixNone(keys[i..], p);
    assert keys == keys[..i] + keys[i..];
    KeysWithPrefixConcat(keys[..i], keys[i..], p);
  }

  // ---- the set of hydrated entities ----

  /** An entity's packed keys and the bytes accounted for them. */
  datatype Entry = Entry(flat: Flat, bytes: int)

  /** The stored keys of an entity. */
  ghost function Group(store: set<Key>, eid: int): set<Key>
    requires Keys.IsInt64(eid)
  {
    WithPrefix(store, Keys.EncodeInt(eid))
  }

  /** An entry packs assertions of distinct datoms of its entity. */
  ghost predicate EntryOk(en: Entry, keys: seq<Key>, s: set<Key>)
  {
    Packs(en.flat, keys) && Tidy(keys, s) && en.bytes == |en.flat.buf|
  }

  ghost function SumBytes(order: seq<int>, index: map<int, Entry>): int
  {
    if order == [] then 0
    else
      var last := order[|order| - 1];
      SumBytes(order[..|order| - 1], index) + (if last in index then index[last].bytes else 0)
  }

  ghost predicate DistinctEids(order: seq<int>)
  {
    forall i, j :: 0 <= i < j < |order| ==> order[i] != order[j]
  }

  /** Every entry packs its keys; the order of use lists each entity once. */
  ghost predicate WfSet(index: map<int, Entry>, order: seq<int>, keysOf: map<int, seq<Key>>, known: set<Key>)
  {
    && DistinctEids(order) && (forall e :: e in order <==> e in index)
    && keysOf.Keys == index.Keys
    && (forall e :: e in index ==> Keys.IsInt64(e) && EntryOk(index[e], keysOf[e], Group(known, e)))
    && Datoms(known)
  }

  function Without(order: seq<int>, eid: int): (r: seq<int>)
  {
    if order == [] then []
    else (if order[0] == eid then [] else [order[0]]) + Without(order[1..], eid)
  }

  lemma {:induction false} WithoutKeeps(order: seq<int>, eid: int, index: map<int, Entry>)
    requires DistinctEids(order)
    ensures DistinctEids(Without(order, eid))
    ensures forall e :: e in Without(order, eid) <==> e in order && e != eid
    ensures SumBytes(order, index)
      == SumBytes(Without(order, eid), index) + if eid in order && eid in index then index[eid].bytes else 0
  {
    if order != [] {
      var rest := order[1..];
      WithoutKeeps(rest, eid, index);
      assert order == [order[0]] + rest;
      SumFront(order[0], rest, index);
      var less := Without(rest, eid);
      HeadOnce(order);
      if order[0] != eid {
        SumFront(order[0], less, index);
        FrontDistinct(order[0], less);
      } else {
        assert Without(order, eid) == less;
      }
    }
  }

  lemma {:induction false} WithoutAbsent(order: seq<int>, eid: int)
    requires eid !in order
    ensures Without(order, eid) == order
  {
    if order != [] {
      WithoutAbsent(order[1..], eid);
    }
  }

  lemma {:induction false} WithoutLast(order: seq<int>)
    requires DistinctEids(order) && order != []
    ensures Without(order, order[|order| - 1]) == order[..|order| - 1]
  {
    var last := order[|order| - 1];
    if |order| > 1 {
      HeadOnce(order);
      assert order[1..][|order| - 2] == last && order[0] != last;
      WithoutLast(order[1..]);
      assert order[..|order| - 1] == [order[0]] + order[1..][..|order| - 2];
    } else {
      assert order[1..] == [];
    }
  }

  lemma HeadOnce(order: seq<int>)
    requires DistinctEids(order) && order != []
    ensures order[0] !in order[1..] && DistinctEids(order[1..])
  {
    forall j | 0 <= j < |order| - 1
      ensures order[1..][j] != order[0]
    {
      assert order[1..][j] == order[j + 1];
    }
  }

  lemma FrontDistinct(e: int, rest: seq<int>)
    requires DistinctEids(rest) && e !in rest
    ensures DistinctEids([e] + rest)
  {
    var s := [e] + rest;
    forall i, j | 0 <= i < j < |s|
      ensures s[i] != s[j]
    {
      assert s[j] == rest[j - 1] && (i > 0 ==> s[i] == rest[i - 1]);
    }
  }

  lemma {:induction false} SumFront(e: int, rest: seq<int>, index: map<int, Entry>)
    ensures SumBytes([e] + rest, index) == SumBytes(rest, index) + if e in index then index[e].bytes else 0
  {
    var s := [e] + rest;
    if rest == [] {
      assert s[..|s| - 1] == [];
    } else {
      assert s[..|s| - 1] == [e] + rest[..|rest| - 1];
      SumFront(e, rest[..|rest| - 1], index);
    }
  }

  lemma {:induction false} SumChange(order: seq<int>, a: map<int, Entry>, b: map<int, Entry>)
    requires forall e :: e in order ==> (e in a <==> e in b) && (e in a ==> a[e].bytes == b[e].bytes)
    ensures SumBytes(order, a) == SumBytes(order, b)
  {
    if order != [] {
      var front, last := order[..|order| - 1], order[|order| - 1];
      assert last in order && forall e :: e in front ==> e in order;
      SumChange(front, a, b);
    }
  }

  class Set {
    const maxBytes: int
    var index: map<int, Entry>
    /** Entities in order of use, the most recent first. */
    var order: seq<int>
    var curBytes: int

    /** The keys each entry packs, and every datom key heard of so far. */
    ghost var keysOf: map<int, seq<Key>>
    ghost var known: set<Key>

    ghost predicate Valid()
      reads this
    {
      WfSet(index, order, keysOf, known) && curBytes == SumBytes(order, index)
    }

    /** The entity's entry is exactly its active keys in a store. */
    ghost predicate Fresh(eid: int, s: set<Key>)
      reads this`keysOf
    {
      Keys.IsInt64(eid) && eid in keysOf && Current(keysOf[eid], Group(s, eid))
    }

    constructor (budget: int, ghost written: set<Key>)
      requires Datoms(written)
      ensures Valid() && known == written && index == map[] && keysOf == map[] && maxBytes == budget
    {
      maxBytes := budget;
      index, order, curBytes := map[], [], 0;
      keysOf, known := map[], written;
    }

    /** Membership; a hit becomes the most recently used. */
    method ProbeComplete(eid: int) returns (ok: bool)
      requires Valid()
      modifies this`order
      ensures Valid() && (ok <==> eid in index)
      ensures order == if ok then [eid] + Without(old(order), eid) else old(order)
    {
      hide EntryOk; hide Group; hide Datoms; hide SumBytes; hide Without; hide DistinctEids;
      ok := eid in index;
      if ok {
        Moved(order, eid, index);
        order := [eid] + Without(order, eid);
      }
    }

    /** The stored keys of a hydrated entity below a prefix.  If the entry is fresh that is what an active
        scan of the store finds, as long as the prefix does not reach into a version; for the whole entity
        it is that only if the entry is fresh. */
    method LookupRange(eid: int, prefix: Key, ghost s: set<Key>) returns (out: seq<Key>)
      requires Valid() && eid in index && s <= known
      requires Keys.IsInt64(eid) && Keys.EncodeInt(eid) <= prefix
      ensures out == KeysWithPrefix(keysOf[eid], prefix) && Ascending(out)
      ensures Fresh(eid, s) && AboveVersions(s, prefix) ==> Elems(out) == Active(WithPrefix(s, prefix))
      ensures prefix == Keys.EncodeInt(eid) ==> (Fresh(eid, s) <==> Elems(out) == Active(WithPrefix(s, prefix)))
    {
      hide Keys.EncodeInt; hide Packs; hide Active; hide KeysWithPrefix; hide AboveVersions; hide WithPrefix;
      hide Current;
      assert EntryOk(index[eid], keysOf[eid], Group(known, eid));
      out := RangeOf(index[eid].flat, prefix, keysOf[eid]);
      KeysWithPrefixAscending(keysOf[eid], prefix);
      WholeEntity(keysOf[eid], known, s, eid);
      if Fresh(eid, s) {
        RangeIsScan(keysOf[eid], s, eid, prefix);
      }
    }

    /** The stored keys of a hydrated entity from a target on. */
    method KeysFrom(eid: int, target: Key) returns (out: seq<Key>)
      requires Valid() && eid in index
      ensures Ascending(out) && forall k :: k in out <==> k in keysOf[eid] && LessEq(target, k)
    {
      hide Packs; hide Active; hide Group;
      assert EntryOk(index[eid], keysOf[eid], Group(known, eid));
      out := TailOf(index[eid].flat, target, keysOf[eid]);
    }

    /** Marks an entity as hydrated without datoms, which is right if and only if it has no active ones. */
    method HydrateEmpty(eid: int, ghost s: set<Key>)
      requires Valid() && Keys.IsInt64(eid)
      modifies this`index, this`order, this`keysOf
      ensures Valid() && index.Keys == old(index.Keys) + {eid}
      ensures keysOf == if eid in old(index) then old(keysOf) else old(keysOf)[eid := []]
      ensures eid !in old(index) ==> (Fresh(eid, s) <==> Active(Group(s, eid)) == {})
      ensures order == [eid] + if eid in old(index) then Without(old(order), eid) else old(order)
    {
      hide Packs; hide Group; hide Datoms; hide SumBytes; hide Without; hide DistinctEids; hide Flatten; hide Tidy;
      hide Active;
      if eid in index {
        Moved(order, eid, index);
        order := [eid] + Without(order, eid);
        return;
      }
      NothingPacked();
      NothingTidy(Group(known, eid));
      Added(order, eid, index, Entry(Flat([], []), 0));
      index := index[eid := Entry(Flat([], []), 0)];
      keysOf := keysOf[eid := []];
      order := [eid] + order;
    }

    /** Mirrors one datom write: it becomes what the entity's entry answers for its datom, and nothing else
        changes. */
    method ApplyKey(key: Key)
      requires Valid()
      requires |key| >= 20 ==> Datoms(known + {key})
      modifies this`index, this`curBytes, this`keysOf, this`known
      ensures Valid() && index.Keys == old(index.Keys)
      ensures known == if |key| >= 20 then old(known) + {key} else old(known)
      ensures forall e :: e in index ==>
        if |key| >= 20 && e == Keys.DecodeInt(key[..8]) then Elems(keysOf[e]) == MirrorKey(old(Elems(keysOf[e])), key)
        else keysOf[e] == old(keysOf)[e]
    {
      hide SumBytes; hide DistinctEids; hide Packs; hide Datoms; hide Group; hide Tidy; hide MirrorKey;
      hide Keys.DecodeInt;
      if |key| < 20 {
        return;
      }
      var eid := Keys.DecodeInt(key[..8]);
      KeyEid(key, eid);
      Regroup(index, keysOf, known, key, eid);
      if eid in index {
        assert EntryOk(index[eid], keysOf[eid], Group(known, eid));
        var en := index[eid];
        var flat, delta;
        ghost var keys';
        flat, delta, keys' := ApplyToEntry(en.flat, key, keysOf[eid], Group(known, eid));
        SumUpdate(order, index, eid, Entry(flat, en.bytes + delta));
        curBytes := curBytes + delta;
        index := index[eid := Entry(flat, en.bytes + delta)];
        keysOf := keysOf[eid := keys'];
      }
      known := known + {key};
    }

    /** Mirrors the datoms of a batch.  Whatever their order, an entry becomes the last write of every datom;
        one that was fresh stays fresh if and only if the last write of each of its datoms can be followed. */
    method ApplyAll(writes: seq<Key>, ghost s: set<Key>)
      requires Valid() && Datoms(known + Elems(writes))
      modifies this`index, this`curBytes, this`keysOf, this`known
      ensures Valid() && index.Keys == old(index.Keys) && known == old(known) + Elems(writes)
      ensures forall w :: w in writes ==> Versioned(w)
      ensures forall e :: e in index ==>
        Keys.IsInt64(e) && Elems(keysOf[e]) == MirrorAll(old(Elems(keysOf[e])), OfEntity(writes, e))
      ensures forall e :: e in index && old(Fresh(e, s)) ==>
        (Fresh(e, s + Elems(writes)) <==> Followed(Group(s, e), OfEntity(writes, e)))
    {
      hide Datoms; hide MirrorKey; hide MirrorAll; hide Group; hide Followed; hide Current; hide OfEntity; hide Valid;
      ghost var before := keysOf;
      LongWrites(known, writes);
      Entries();
      NoWrites(before);
      for i := 0 to |writes|
        invariant Valid() && index.Keys == old(index.Keys) && known == old(known) + Elems(writes[..i])
        invariant keysOf.Keys == before.Keys == index.Keys && forall e :: e in index ==> Keys.IsInt64(e)
        invariant AllMirrored(before, keysOf, writes[..i])
      {
        assert writes[i] in writes;
        assert writes[..i + 1] == writes[..i] + [writes[i]];
        FirstWrites(old(known), writes, i);
        ghost var mid := keysOf;
        ApplyKey(writes[i]);
        Entries();
        NextMirrored(before, mid, keysOf, writes[..i], writes[i]);
      }
      assert writes[..|writes|] == writes;
      Entries();
      FreshBatch(before, keysOf, s, writes);
    }

    lemma Entries()
      requires Valid()
      ensures keysOf.Keys == index.Keys
      ensures forall e :: e in index ==> Keys.IsInt64(e) && Ascending(keysOf[e])
    {
      hide Packs; hide Less; hide Group;
      forall e | e in index
        ensures Ascending(keysOf[e])
      {
        assert EntryOk(index[e], keysOf[e], Group(known, e));
      }
    }

    method Evict(eid: int)
      requires Valid()
      modifies this`index, this`order, this`curBytes, this`keysOf
      ensures Valid() && index == old(index) - {eid} && keysOf == old(keysOf) - {eid}
    {
      hide EntryOk; hide Group; hide Datoms; hide SumBytes; hide Without; hide DistinctEids;
      if eid in index {
        Dropped(order, eid, index);
        curBytes := curBytes - index[eid].bytes;
        index := index - {eid};
        keysOf := keysOf - {eid};
        order := Without(order, eid);
      }
    }

    /** Drops the least recently used entities until `incoming` bytes fit: a tail of the order of use,
        and no longer a tail than needed. */
    method EvictLruUntilFits(incoming: int)
      requires Valid()
      modifies this`index, this`order, this`curBytes, this`keysOf
      ensures Valid() && order <= old(order)
      ensures curBytes + incoming <= maxBytes || index == map[]
      ensures |order| < |old(order)| ==>
        SumBytes(old(order)[..|order| + 1], old(index)) + incoming > maxBytes
      ensures forall e :: e in index ==> e in old(index) && index[e] == old(index)[e] && keysOf[e] == old(keysOf)[e]
    {
      hide EntryOk; hide Group; hide Datoms; hide SumBytes; hide Without; hide DistinctEids;
      while curBytes + incoming > maxBytes && |order| > 0
        invariant Valid() && order <= old(order)
        invariant |order| < |old(order)| ==>
          SumBytes(old(order)[..|order| + 1], old(index)) + incoming > maxBytes
        invariant forall e :: e in index ==> e in old(index) && index[e] == old(index)[e] && keysOf[e] == old(keysOf)[e]
        decreases |order|
      {
        var victim := order[|order| - 1];
        assert victim in order;
        Dropped(order, victim, index);
        WithoutLast(order);
        assert order[..|order| - 1] <= old(order) && old(order)[..|order|] == order;
        SumChange(order, index, old(index));
        curBytes := curBytes - index[victim].bytes;
        index := index - {victim};
        keysOf := keysOf - {victim};
        order := Without(order, victim);
      }
      if |order| == 0 {
        assert index.Keys == {} by {
          assert forall e :: e in index ==> e in order;
        }
      }
    }

    /** Installs the complete active keys of an entity, if they fit the budget at all. */
    method Hydrate(eid: int, keys: seq<Key>, ghost s: set<Key>)
      requires Valid() && Keys.IsInt64(eid) && s <= known
      requires Current(keys, Group(s, eid))
      modifies this`index, this`order, this`curBytes, this`keysOf
      ensures Valid()
      ensures eid in index <==> eid in old(index) || |Flatten(keys)| <= maxBytes
      ensures eid in old(index) ==> index == old(index) && keysOf == old(keysOf)
      ensures eid !in old(index) && eid in index ==> keysOf[eid] == keys && Fresh(eid, s)
      ensures forall e :: e in index && e != eid ==> e in old(index) && keysOf[e] == old(keysOf)[e]
      ensures eid in old(index) ==> order == [eid] + Without(old(order), eid)
      ensures eid !in old(index) && eid in index ==> order != [] && order[0] == eid && order[1..] <= old(order)
      ensures eid !in index ==> index == old(index) && order == old(order)
    {
      hide Packs; hide Current; hide Group; hide Datoms; hide SumBytes; hide Without; hide DistinctEids;
      hide Flatten; hide Tidy;
      if eid in index {
        Moved(order, eid, index);
        order := [eid] + Without(order, eid);
        return;
      }
      var flat := PackAll(keys);
      var total := |flat.buf|;
      if total > maxBytes {
        return;
      }
      EvictLruUntilFits(total);
      Added(order, eid, index, Entry(flat, total));
      CurrentTidy(keys, Group(s, eid));
      TidyIn(keys, s, known, eid);
      index := index[eid := Entry(flat, total)];
      keysOf := keysOf[eid := keys];
      order := [eid] + order;
      curBytes := curBytes + total;
    }

    method Clear()
      requires Valid()
      modifies this`index, this`order, this`curBytes, this`keysOf
      ensures Valid() && index == map[]
    {
      index, order, curBytes, keysOf := map[], [], 0, map[];
    }
  }

  lemma NothingTidy(s: set<Key>)
    ensures Tidy([], s)
  {
  }

  lemma TidyIn(keys: seq<Key>, s: set<Key>, known: set<Key>, eid: int)
    requires Keys.IsInt64(eid) && Tidy(keys, Group(s, eid)) && s <= known
    ensures Tidy(keys, Group(known, eid))
  {
  }

  lemma FromTarget(keys: seq<Key>, lo: nat, target: Key)
    requires Ascending(keys) && lo <= |keys|
    requires forall i :: 0 <= i < lo ==> Less(keys[i], target)
    requires forall i :: lo <= i < |keys| ==> LessEq(target, keys[i])
    ensures Ascending(keys[lo..]) && forall k :: k in keys[lo..] <==> k in keys && LessEq(target, k)
  {
    hide Less;
    forall k | k in keys && LessEq(target, k)
      ensures k in keys[lo..]
    {
      var i :| 0 <= i < |keys| && keys[i] == k;
      LessAsymmetricIf(k, target);
      LessIrreflexive(k);
      assert lo <= i;
      assert keys[lo..][i - lo] == k;
    }
  }

  /** Packs keys one after the other. */
  method PackAll(keys: seq<Key>) returns (f: Flat)
    ensures Packs(f, keys) && f.buf == Flatten(keys)
  {
    hide Flatten;
    f := Flat([], []);
    NothingPacked();
    for i := 0 to |keys|
      invariant Packs(f, keys[..i])
    {
      PackOne(f, keys, i);
      f := Flat(f.buf + keys[i], f.offs + [|f.buf|]);
    }
    assert keys[..|keys|] == keys;
  }

  lemma NothingPacked()
    ensures Packs(Flat([], []), [])
  {
  }

  lemma PackOne(f: Flat, keys: seq<Key>, i: nat)
    requires i < |keys| && Packs(f, keys[..i])
    ensures Packs(Flat(f.buf + keys[i], f.offs + [|f.buf|]), keys[..i + 1])
  {
    hide Flatten;
    FlattenCut(keys, i);
    forall j | 0 <= j < i + 1
      ensures (f.offs + [|f.buf|])[j] == |Flatten(keys[..i + 1][..j])|
    {
      assert keys[..i + 1][..j] == keys[..j];
      if j < i {
        assert keys[..i][..j] == keys[..j];
      }
    }
  }

  lemma Moved(order: seq<int>, eid: int, index: map<int, Entry>)
    requires DistinctEids(order) && eid in order && eid in index
    ensures DistinctEids([eid] + Without(order, eid))
    ensures forall e :: e in [eid] + Without(order, eid) <==> e in order
    ensures SumBytes([eid] + Without(order, eid), index) == SumBytes(order, index)
  {
    hide SumBytes; hide Without;
    WithoutKeeps(order, eid, index);
    SumFront(eid, Without(order, eid), index);
    FrontDistinct(eid, Without(order, eid));
  }

  lemma Dropped(order: seq<int>, eid: int, index: map<int, Entry>)
    requires DistinctEids(order) && eid in order && eid in index
    ensures DistinctEids(Without(order, eid)) && |Without(order, eid)| < |order|
    ensures forall e :: e in Without(order, eid) <==> e in order && e != eid
    ensures SumBytes(Without(order, eid), index - {eid}) == SumBytes(order, index) - index[eid].bytes
  {
    WithoutKeeps(order, eid, index);
    WithoutShorter(order, eid);
    hide SumBytes; hide Without;
    SumChange(Without(order, eid), index, index - {eid});
  }

  lemma {:induction false} WithoutShorter(order: seq<int>, eid: int)
    ensures |Without(order, eid)| <= |order|
    ensures eid in order ==> |Without(order, eid)| < |order|
  {
    if order != [] {
      WithoutShorter(order[1..], eid);
    }
  }

  lemma Added(order: seq<int>, eid: int, index: map<int, Entry>, en: Entry)
    requires DistinctEids(order) && eid !in order
    ensures DistinctEids([eid] + order)
    ensures SumBytes([eid] + order, index[eid := en]) == SumBytes(order, index) + en.bytes
  {
    hide SumBytes;
    FrontDistinct(eid, order);
    SumFront(eid, order, index[eid := en]);
    SumChange(order, index, index[eid := en]);
  }

  lemma SumUpdate(order: seq<int>, index: map<int, Entry>, eid: int, en: Entry)
    requires DistinctEids(order) && eid in order && eid in index
    ensures SumBytes(order, index[eid := en]) == SumBytes(order, index) - index[eid].bytes + en.bytes
  {
    hide SumBytes; hide Without;
    WithoutKeeps(order, eid, index);
    WithoutKeeps(order, eid, index[eid := en]);
    SumChange(Without(order, eid), index, index[eid := en]);
  }

  /** The first eight bytes name the entity. */
  lemma KeyEid(key: Key, eid: int)
    requires |key| >= 8 && eid == Keys.DecodeInt(key[..8])
    ensures Keys.IsInt64(eid) && Keys.EncodeInt(eid) <= key
  {
    Keys.ReadBigBound(key[..8]);
    Keys.Pow256Eight();
    Keys.ReadWrite(key[..8]);
  }

  /** A write joins the group of its own entity only. */
  lemma Regroup(index: map<int, Entry>, keysOf: map<int, seq<Key>>, known: set<Key>, key: Key, eid: int)
    requires keysOf.Keys == index.Keys && |key| >= 20
    requires forall e :: e in index ==> Keys.IsInt64(e) && EntryOk(index[e], keysOf[e], Group(known, e))
    requires Keys.IsInt64(eid) && Keys.EncodeInt(eid) <= key && Datoms(known + {key})
    ensures Group(known + {key}, eid) == Group(known, eid) + {key}
    ensures Datoms(Group(known, eid) + {key})
    ensures forall e :: e in index && e != eid ==> EntryOk(index[e], keysOf[e], Group(known + {key}, e))
  {
    hide Keys.EncodeInt; hide EntryOk; hide Less;
    forall e | e in index && e != eid
      ensures EntryOk(index[e], keysOf[e], Group(known + {key}, e))
    {
      OtherGroup(known, key, eid, e);
    }
  }

  lemma OtherGroup(s: set<Key>, key: Key, eid: int, e: int)
    requires Keys.IsInt64(eid) && Keys.EncodeInt(eid) <= key && Keys.IsInt64(e) && e != eid
    ensures Group(s + {key}, e) == Group(s, e)
  {
    hide Keys.EncodeInt;
    Keys.EncodeIntOrder(e, eid);
    assert Keys.EncodeInt(e) != Keys.EncodeInt(eid);
    assert Keys.EncodeInt(eid) == key[..8];
  }

  /** The writes of one entity. */
  ghost function OfEntity(writes: seq<Key>, eid: int): (ws: seq<Key>)
    requires Keys.IsInt64(eid)
    ensures forall w :: w in ws <==> w in writes && Keys.EncodeInt(eid) <= w
  {
    if writes == [] then []
    else
      var front, last := writes[..|writes| - 1], writes[|writes| - 1];
      assert writes == front + [last];
      OfEntity(front, eid) + if Keys.EncodeInt(eid) <= last then [last] else []
  }

  lemma LongWrites(known: set<Key>, writes: seq<Key>)
    requires Datoms(known + Elems(writes))
    ensures forall w :: w in writes ==> |w| >= 20
  {
    assert forall w :: w in writes ==> w in known + Elems(writes);
  }

  lemma FirstWrites(known: set<Key>, writes: seq<Key>, i: nat)
    requires Datoms(known + Elems(writes)) && i < |writes|
    ensures Datoms(known + Elems(writes[..i]) + {writes[i]})
    ensures Elems(writes[..i + 1]) == Elems(writes[..i]) + {writes[i]}
  {
    hide Less;
    assert writes[..i + 1] == writes[..i] + [writes[i]];
    assert known + Elems(writes[..i]) + {writes[i]} <= known + Elems(writes);
  }

  ghost predicate AllMirrored(before: map<int, seq<Key>>, after: map<int, seq<Key>>, writes: seq<Key>)
  {
    && before.Keys == after.Keys && (forall w :: w in writes ==> Versioned(w))
    && forall e :: e in after ==> Keys.IsInt64(e) && Elems(after[e]) == MirrorAll(Elems(before[e]), OfEntity(writes, e))
  }

  lemma NoWrites(before: map<int, seq<Key>>)
    requires forall e :: e in before ==> Keys.IsInt64(e)
    ensures AllMirrored(before, before, [])
  {
  }

  lemma NextMirrored(before: map<int, seq<Key>>, mid: map<int, seq<Key>>, after: map<int, seq<Key>>, writes: seq<Key>, key: Key)
    requires AllMirrored(before, mid, writes) && |key| >= 20 && after.Keys == mid.Keys
    requires forall e :: e in after ==>
      if e == Keys.DecodeInt(key[..8]) then Elems(after[e]) == MirrorKey(Elems(mid[e]), key) else after[e] == mid[e]
    ensures AllMirrored(before, after, writes + [key])
  {
    hide MirrorKey; hide Keys.EncodeInt; hide Keys.DecodeInt;
    var more := writes + [key];
    assert more[..|more| - 1] == writes;
    forall e | e in after
      ensures Elems(after[e]) == MirrorAll(Elems(before[e]), OfEntity(more, e))
    {
      var ws := OfEntity(writes, e);
      EntityOfKey(key, e);
      if e == Keys.DecodeInt(key[..8]) {
        assert OfEntity(more, e) == ws + [key];
        assert (ws + [key])[..|ws|] == ws;
      } else {
        assert OfEntity(more, e) == ws;
      }
    }
  }

  lemma EntityOfKey(key: Key, e: int)
    requires |key| >= 20 && Keys.IsInt64(e)
    ensures Keys.EncodeInt(e) <= key <==> e == Keys.DecodeInt(key[..8])
  {
    hide Keys.EncodeInt; hide Keys.DecodeInt;
    var eid := Keys.DecodeInt(key[..8]);
    KeyEid(key, eid);
    Keys.EncodeIntOrder(e, eid);
    if Keys.EncodeInt(e) <= key {
      assert Keys.EncodeInt(e) == key[..8] == Keys.EncodeInt(eid);
    }
  }

  /** What a batch does to every entry that was fresh. */
  lemma FreshBatch(before: map<int, seq<Key>>, after: map<int, seq<Key>>, s: set<Key>, writes: seq<Key>)
    requires AllMirrored(before, after, writes) && forall e :: e in after ==> Ascending(after[e])
    ensures forall e :: e in after && Keys.IsInt64(e) && Current(before[e], Group(s, e)) ==>
      (Current(after[e], Group(s + Elems(writes), e)) <==> Followed(Group(s, e), OfEntity(writes, e)))
  {
    hide Keys.EncodeInt; hide Active; hide MirrorAll; hide Followed; hide OfEntity;
    forall e | e in after && Keys.IsInt64(e) && Current(before[e], Group(s, e))
      ensures Current(after[e], Group(s + Elems(writes), e)) <==> Followed(Group(s, e), OfEntity(writes, e))
    {
      assert Group(s + Elems(writes), e) == Group(s, e) + Elems(OfEntity(writes, e));
      BatchExact(Group(s, e), OfEntity(writes, e));
    }
  }

  /** What one write does to an entry that was fresh: it stays fresh if and only if the write belongs to
      another entity or is one the cache can follow. */
  lemma FreshExact(keys: seq<Key>, keys': seq<Key>, s: set<Key>, key: Key, eid: int)
    requires |key| >= 20 && Keys.IsInt64(eid) && Current(keys, Group(s, eid)) && Ascending(keys')
    requires Elems(keys') == if Keys.EncodeInt(eid) <= key then MirrorKey(Elems(keys), key) else Elems(keys)
    ensures Current(keys', Group(s + {key}, eid)) <==> !(Keys.EncodeInt(eid) <= key) || Mirrored(s, key)
  {
    hide Keys.EncodeInt; hide Mirrored; hide Active; hide MirrorKey;
    if Keys.EncodeInt(eid) <= key {
      assert Group(s + {key}, eid) == Group(s, eid) + {key};
      MirrorExact(Group(s, eid), key);
      GroupMirrored(s, key, eid);
    } else {
      assert Group(s + {key}, eid) == Group(s, eid);
    }
  }

  /** Versions of a datom belong to one entity. */
  lemma GroupMirrored(store: set<Key>, key: Key, eid: int)
    requires |key| >= 20 && Keys.IsInt64(eid) && Keys.EncodeInt(eid) <= key
    ensures Mirrored(Group(store, eid), key) <==> Mirrored(store, key)
  {
    hide Keys.EncodeInt; hide Less;
    var mine, e := Group(store, eid), Keys.EncodeInt(eid);
    forall x | x in store && SameDatom(x, key)
      ensures x in mine
    {
      assert e == key[..8] == LogicalOf(key)[..8] == LogicalOf(x)[..8] == x[..8];
    }
    forall x | SameDatom(x, key)
      ensures x in Active(mine) <==> x in Active(store)
    {
      if x in store {
        assert Newest(mine, x) <==> Newest(store, x);
      }
    }
  }

  /** Below the entity's own prefix lie all its keys. */
  lemma WholeEntity(keys: seq<Key>, known: set<Key>, s: set<Key>, eid: int)
    requires Keys.IsInt64(eid) && Tidy(keys, Group(known, eid))
    ensures
      var p := Keys.EncodeInt(eid);
      Elems(KeysWithPrefix(keys, p)) == Active(WithPrefix(s, p)) <==> Current(keys, Group(s, eid))
  {
    hide Keys.EncodeInt; hide Active; hide KeysWithPrefix;
    var p := Keys.EncodeInt(eid);
    forall k
      ensures k in Elems(KeysWithPrefix(keys, p)) <==> k in Elems(keys)
    {
      assert k in keys <==> k in Elems(keys);
    }
  }

  lemma RangeIsScan(keys: seq<Key>, s: set<Key>, eid: int, prefix: Key)
    requires Keys.IsInt64(eid) && Current(keys, Group(s, eid)) && Keys.EncodeInt(eid) <= prefix
    ensures AboveVersions(s, prefix) ==> Elems(KeysWithPrefix(keys, prefix)) == Active(WithPrefix(s, prefix))
  {
    hide Keys.EncodeInt; hide KeysWithPrefix; hide Less; hide Active;
    if AboveVersions(s, prefix) {
      var mine := Group(s, eid);
      assert WithPrefix(mine, prefix) == WithPrefix(s, prefix);
      assert AboveVersions(mine, prefix);
      ActiveBelowPrefix(mine, prefix);
      forall k
        ensures k in Elems(KeysWithPrefix(keys, prefix)) <==> k in WithPrefix(Active(mine), prefix)
      {
        assert k in keys <==> k in Elems(keys);
      }
    }
  }

  // ---- losing datoms ----

  /** Of every datom of a finite set some version is the newest. */
  lemma {:induction false} NewestExists(s: set<Key>, k: Key) returns (m: Key)
    requires k in s && Versioned(k)
    ensures Newest(s, m) && SameDatom(m, k) && LessEq(k, m)
    decreases |s|
  {
    hide Less;
    if Newest(s, k) {
      m := k;
    } else {
      var x :| x in s && SameDatom(x, k) && !LessEq(x, k);
      LessTotal(x, k);
      var rest := s - {k};
      m := NewestExists(rest, x);
      if m != x {
        LessTransitive(k, x, m);
      }
      forall y | y in s && SameDatom(y, m)
        ensures LessEq(y, m)
      {
        if y != k {
          assert y in rest;
        }
      }
    }
  }

  /** The keys that are gone were not the newest of their datoms, or retractions of what is not active
      without them either. */
  ghost predicate LossUnseen(s: set<Key>, left: set<Key>)
  {
    forall k :: k in s && k !in left && Newest(s, k) ==> Retracted(k) && !HasActive(left, k)
  }

  /** Losing datoms changes what is active unless the loss is unseen. */
  lemma LossExact(s: set<Key>, left: set<Key>)
    requires left <= s
    ensures Active(left) == Active(s) <==> LossUnseen(s, left)
  {
    hide Less;
    if LossUnseen(s, left) {
      forall k
        ensures k in Active(left) <==> k in Active(s)
      {
        if k in Active(left) {
          var m := NewestExists(s, k);
          assert HasActive(left, m);
          LessAsymmetricIf(m, k);
        }
      }
    }
    if Active(left) == Active(s) {
      forall k | k in s && k !in left && Newest(s, k)
        ensures Retracted(k) && !HasActive(left, k)
      {
        assert k !in Active(left);
        forall x | x in Active(left)
          ensures !SameDatom(x, k)
        {
          if SameDatom(x, k) {
            LessAsymmetricIf(x, k);
          }
        }
      }
    }
  }

  // ---- keys of real datoms ----

  /** Whatever datoms are written, empty strings included, their keys meet what the cache and the active
      scan rely on. */
  lemma DatomKeysAreDatoms(modes: nat -> Keys.Mode, s: set<Key>)
    requires forall k :: k in s ==> IsStoredKey(0, modes, k)
    ensures Datoms(s)
  {
    StoredKeysByDatom(0, modes, s);
  }
}
