/** The run-ladder memtable: a delta buffer, sorted runs, and the runs being flushed. */
module Runs {
  import opened Bytes

  datatype Option<+T> = None | Some(value: T)

  /** One write: a key with a value, or a tombstone. */
  datatype Rec = Rec(key: Key, deleted: bool, value: seq<byte>)

  type Run = seq<Rec>

  /** The last write of a key in a sequence of writes. */
  function Latest(recs: seq<Rec>, k: Key): (r: Option<Rec>)
    ensures r.Some? ==> r.value in recs && r.value.key == k
    ensures r.None? <==> forall x :: x in recs ==> x.key != k
  {
    if recs == [] then None
    else
      var last := recs[|recs| - 1];
      if last.key == k then Some(last) else Latest(recs[..|recs| - 1], k)
  }

  function Concat(runs: seq<Run>): (s: seq<Rec>)
  {
    if runs == [] then [] else Concat(runs[..|runs| - 1]) + runs[|runs| - 1]
  }

  ghost predicate Sorted(r: Run)
  {
    forall i, j :: 0 <= i < j < |r| ==> Less(r[i].key, r[j].key)
  }

  ghost predicate AllSorted(runs: seq<Run>)
  {
    forall r :: r in runs ==> Sorted(r)
  }

  /** `b` answers every lookup as `a` does. */
  ghost predicate SameLookups(a: seq<Rec>, b: seq<Rec>)
  {
    forall k :: Latest(a, k) == Latest(b, k)
  }

  ghost function KeySet(recs: seq<Rec>): set<Key>
  {
    set r | r in recs :: r.key
  }

  lemma SameLookupsSameKeys(a: seq<Rec>, b: seq<Rec>)
    requires SameLookups(a, b)
    ensures KeySet(a) == KeySet(b)
  {
    forall k
      ensures k in KeySet(a) <==> k in KeySet(b)
    {
      assert Latest(a, k) == Latest(b, k);
    }
  }

  lemma {:induction false} LatestConcat(a: seq<Rec>, b: seq<Rec>, k: Key)
    ensures Latest(a + b, k) == if Latest(b, k).Some? then Latest(b, k) else Latest(a, k)
    decreases |b|
  {
    if b == [] {
      assert a + b == a;
    } else {
      assert (a + b)[..|a + b| - 1] == a + b[..|b| - 1];
      LatestConcat(a, b[..|b| - 1], k);
    }
  }

  lemma SameLookupsConcat(a: seq<Rec>, a': seq<Rec>, b: seq<Rec>, b': seq<Rec>)
    requires SameLookups(a, a') && SameLookups(b, b')
    ensures SameLookups(a + b, a' + b')
  {
    forall k
      ensures Latest(a + b, k) == Latest(a' + b', k)
    {
      LatestConcat(a, b, k);
      LatestConcat(a', b', k);
    }
  }

  lemma {:induction false} LatestAt(recs: seq<Rec>, i: nat)
    requires i < |recs|
    requires forall j :: i < j < |recs| ==> recs[j].key != recs[i].key
    ensures Latest(recs, recs[i].key) == Some(recs[i])
    decreases |recs|
  {
    if i < |recs| - 1 {
      assert recs[|recs| - 1].key != recs[i].key;
      LatestAt(recs[..|recs| - 1], i);
    }
  }

  lemma SortedLatest(r: Run, i: nat)
    requires Sorted(r) && i < |r|
    ensures Latest(r, r[i].key) == Some(r[i])
  {
    forall j | i < j < |r|
      ensures r[j].key != r[i].key
    {
      LessIrreflexive(r[i].key);
    }
    LatestAt(r, i);
  }

  // ---- sorting and keeping the last write of every key ----

  /** The order the delta buffer and the runs are sorted in: by key, then by age. */
  ghost predicate Before(recs: seq<Rec>, rank: seq<int>, a: nat, b: nat)
    requires a < |recs| && b < |recs| && |rank| == |recs|
  {
    Less(recs[a].key, recs[b].key) || (recs[a].key == recs[b].key && rank[a] < rank[b])
  }

  ghost predicate Ordered(recs: seq<Rec>, rank: seq<int>, order: seq<nat>)
    requires |rank| == |recs|
  {
    && (forall p :: 0 <= p < |order| ==> order[p] < |recs|)
    && forall p, q :: 0 <= p < q < |order| ==> Before(recs, rank, order[p], order[q])
  }

  /** Writes of the same key are ranked by age. */
  ghost predicate RankedByAge(recs: seq<Rec>, rank: seq<int>)
  {
    && |rank| == |recs|
    && forall a, b :: 0 <= a < b < |recs| && recs[a].key == recs[b].key ==> rank[a] < rank[b]
  }

  lemma BeforeTransitive(recs: seq<Rec>, rank: seq<int>, a: nat, b: nat, c: nat)
    requires a < |recs| && b < |recs| && c < |recs| && |rank| == |recs|
    requires Before(recs, rank, a, b) && Before(recs, rank, b, c)
    ensures Before(recs, rank, a, c)
  {
    if Less(recs[a].key, recs[b].key) && Less(recs[b].key, recs[c].key) {
      LessTransitive(recs[a].key, recs[b].key, recs[c].key);
    }
  }

  lemma BeforeTotal(recs: seq<Rec>, rank: seq<int>, a: nat, b: nat)
    requires RankedByAge(recs, rank) && a < |recs| && b < |recs| && a != b
    ensures Before(recs, rank, a, b) || Before(recs, rank, b, a)
  {
    LessTotal(recs[a].key, recs[b].key);
  }

  /** Sorts the indices of the records by key and age. */
  method SortOrder(recs: seq<Rec>, rank: seq<int>) returns (order: seq<nat>)
    requires RankedByAge(recs, rank)
    ensures Ordered(recs, rank, order)
    ensures forall i: nat :: i in order <==> i < |recs|
  {
    order := [];
    for n := 0 to |recs|
      invariant Ordered(recs, rank, order)
      invariant forall i: nat :: i in order <==> i < n
    {
      order := InsertIndex(recs, rank, order, n);
    }
  }

  method InsertIndex(recs: seq<Rec>, rank: seq<int>, order: seq<nat>, x: nat) returns (out: seq<nat>)
    requires RankedByAge(recs, rank) && x < |recs|
    requires Ordered(recs, rank, order) && x !in order
    ensures Ordered(recs, rank, out)
    ensures forall i: nat :: i in out <==> i in order || i == x
  {
    var p := |order|;
    while p > 0
      invariant 0 <= p <= |order|
      invariant forall q :: p <= q < |order| ==> Before(recs, rank, x, order[q])
    {
      var y := order[p - 1];
      assert y in order;
      var c := CmpSeq(recs[x].key, recs[y].key);
      if !(c < 0 || (c == 0 && rank[x] < rank[y])) {
        BeforeTotal(recs, rank, x, y);
        break;
      }
      p := p - 1;
    }
    assert p > 0 ==> Before(recs, rank, order[p - 1], x);
    out := order[..p] + [x] + order[p..];
    OrderedInsert(recs, rank, order, p, x);
    assert forall i: nat :: i in order <==> i in order[..p] || i in order[p..];
  }

  lemma OrderedInsert(recs: seq<Rec>, rank: seq<int>, order: seq<nat>, p: nat, x: nat)
    requires |rank| == |recs| && x < |recs| && p <= |order|
    requires Ordered(recs, rank, order)
    requires p > 0 ==> Before(recs, rank, order[p - 1], x)
    requires forall q :: p <= q < |order| ==> Before(recs, rank, x, order[q])
    ensures Ordered(recs, rank, order[..p] + [x] + order[p..])
  {
    var out := order[..p] + [x] + order[p..];
    forall a, b | 0 <= a < b < |out|
      ensures Before(recs, rank, out[a], out[b])
    {
      if b == p && a < p - 1 {
        BeforeTransitive(recs, rank, order[a], order[p - 1], x);
      }
    }
  }

  /** The records sorted by key with only the last write of each key kept. */
  method SortDedup(recs: seq<Rec>, rank: seq<int>) returns (records: Run)
    requires RankedByAge(recs, rank)
    ensures Sorted(records) && SameLookups(records, recs)
  {
    var order := SortOrder(recs, rank);
    records := [];
    var i := 0;
    while i < |order|
      invariant 0 <= i <= |order|
      invariant Deduped(recs, order, i, records)
    {
      var j := i;
      while j + 1 < |order| && recs[order[j]].key == recs[order[j + 1]].key
        invariant i <= j < |order|
        invariant forall q :: i <= q <= j ==> recs[order[q]].key == recs[order[i]].key
      {
        j := j + 1;
      }
      DedupStep(recs, rank, order, i, j, records);
      records := records + [recs[order[j]]];
      i := j + 1;
    }
    DedupDone(recs, order, records);
  }

  /** The groups of equal keys in order[..i] have each left their last write in `records`. */
  ghost predicate Deduped(recs: seq<Rec>, order: seq<nat>, i: nat, records: Run)
    requires i <= |order| && forall p :: 0 <= p < |order| ==> order[p] < |recs|
  {
    && Sorted(records)
    && (forall r :: r in records ==> Latest(recs, r.key) == Some(r))
    && (forall q :: 0 <= q < i ==> Latest(recs, recs[order[q]].key).Some? && Latest(recs, recs[order[q]].key).value in records)
    && (i < |order| ==> forall r :: r in records ==> Less(r.key, recs[order[i]].key))
  }

  lemma DedupStep(recs: seq<Rec>, rank: seq<int>, order: seq<nat>, i: nat, j: nat, records: Run)
    requires RankedByAge(recs, rank) && Ordered(recs, rank, order)
    requires forall x: nat :: x in order <==> x < |recs|
    requires i <= j < |order| && Deduped(recs, order, i, records)
    requires forall q :: i <= q <= j ==> recs[order[q]].key == recs[order[i]].key
    requires j + 1 < |order| ==> recs[order[j]].key != recs[order[j + 1]].key
    ensures Deduped(recs, order, j + 1, records + [recs[order[j]]])
  {
    hide Latest;
    var win := recs[order[j]];
    LastOfGroup(recs, rank, order, j);
    var out := records + [win];
    forall a, b | 0 <= a < b < |out|
      ensures Less(out[a].key, out[b].key)
    {
      if b == |records| {
        assert out[a] in records;
      }
    }
    if j + 1 < |order| {
      var next := recs[order[j + 1]].key;
      assert Before(recs, rank, order[j], order[j + 1]);
      forall r | r in out
        ensures Less(r.key, next)
      {
        if r in records {
          LessTransitive(r.key, win.key, next);
        }
      }
    }
  }

  /** The last of a group of equal keys in the sorted order is the last write of that key. */
  lemma LastOfGroup(recs: seq<Rec>, rank: seq<int>, order: seq<nat>, j: nat)
    requires RankedByAge(recs, rank) && Ordered(recs, rank, order)
    requires forall x: nat :: x in order <==> x < |recs|
    requires j < |order| && (j + 1 < |order| ==> recs[order[j]].key != recs[order[j + 1]].key)
    ensures Latest(recs, recs[order[j]].key) == Some(recs[order[j]])
  {
    hide Latest;
    var a := order[j];
    forall b | a < b < |recs|
      ensures recs[b].key != recs[a].key
    {
      assert b in order;
      var q :| 0 <= q < |order| && order[q] == b;
      LessIrreflexive(recs[a].key);
      if q < j {
        assert Before(recs, rank, b, a);
      } else {
        assert Before(recs, rank, a, order[j + 1]);
        if q > j + 1 && recs[order[j + 1]].key != recs[b].key {
          assert Before(recs, rank, order[j + 1], b);
          LessTransitive(recs[a].key, recs[order[j + 1]].key, recs[b].key);
        }
      }
    }
    LatestAt(recs, a);
  }

  lemma DedupDone(recs: seq<Rec>, order: seq<nat>, records: Run)
    requires forall x: nat :: x in order <==> x < |recs|
    requires forall p :: 0 <= p < |order| ==> order[p] < |recs|
    requires Deduped(recs, order, |order|, records)
    ensures SameLookups(records, recs)
  {
    forall k
      ensures Latest(records, k) == Latest(recs, k)
    {
      if Latest(recs, k).Some? {
        var r := Latest(recs, k).value;
        var x: nat :| x < |recs| && recs[x] == r;
        assert x in order;
        var q :| 0 <= q < |order| && order[q] == x;
        var i :| 0 <= i < |records| && records[i] == r;
        SortedLatest(records, i);
      }
    }
  }
}

module MemTables {
  import opened Bytes
  import opened Runs

  const MAX_ACTIVE_RUNS := 8
  const MAX_BUF_ENTRIES := 65536

  /** A key-only write to a column family. */
  datatype CfKey = CfKey(cf: nat, key: Key)

  datatype KvLookup = KvAbsent | KvDeleted | KvValue

  /** What a lookup reports for the last write of the key. */
  function Status(r: Option<Rec>): (s: KvLookup)
  {
    if r.None? then KvAbsent else if r.value.deleted then KvDeleted else KvValue
  }

  /** The writes a batch makes to one column family. */
  function BatchRecs(entries: seq<CfKey>, cf: nat): (recs: seq<Rec>)
  {
    if entries == [] then []
    else
      var last := entries[|entries| - 1];
      BatchRecs(entries[..|entries| - 1], cf) + if last.cf == cf then [Rec(last.key, false, [])] else []
  }

  /** What reading a value comes to: none, the value, or a fault of the program. */
  datatype ValueRead = NoValue | FaultValue | ValueRead(value: seq<byte>)

  /** The column families from this one on store values. */
  const FIRST_VALUE_CF := 10

  class MemTable {
    const numCf: nat
    var gen: nat
    var buf: seq<seq<Rec>>
    var runs: seq<seq<Run>>
    var draining: seq<seq<Run>>

    /** The writes since the last freeze, and the writes frozen for the flush in flight, per column family. */
    ghost var live: seq<seq<Rec>>
    ghost var frozen: seq<seq<Rec>>

    ghost predicate Shape()
      reads this
    {
      |buf| == |runs| == |draining| == |live| == |frozen| == numCf
    }

    ghost predicate Valid()
      reads this
    {
      Shape() && forall cf :: 0 <= cf < numCf ==> ValidCf(cf)
    }

    ghost predicate ValidCf(cf: nat)
      requires Shape() && cf < numCf
      reads this
    {
      WfLadder(buf[cf], runs[cf], draining[cf], live[cf], frozen[cf])
    }

    constructor (n: nat)
      requires n > 0
      ensures Valid() && numCf == n && |live| == |frozen| == n
      ensures forall cf :: 0 <= cf < n ==> live[cf] == [] && frozen[cf] == [] && buf[cf] == [] && runs[cf] == draining[cf] == []
      ensures gen == 0
    {
      numCf := n;
      gen := 0;
      buf := seq(n, _ => []);
      runs := seq(n, _ => []);
      draining := seq(n, _ => []);
      live := seq(n, _ => []);
      frozen := seq(n, _ => []);
    }

    /** Sorts the delta buffer into a new run; every lookup keeps its answer. */
    method Materialize(cf: nat)
      requires Valid() && cf < numCf
      modifies this`buf, this`runs, this`gen
      ensures Valid()
      ensures buf == old(buf)[cf := []]
      ensures |runs| == numCf && forall c :: 0 <= c < numCf && c != cf ==> runs[c] == old(runs[c])
      ensures old(buf[cf]) == [] ==> runs == old(runs) && gen == old(gen)
      ensures old(buf[cf]) != [] ==> |runs[cf]| == |old(runs[cf])| + 1 && old(runs[cf]) <= runs[cf] && gen == old(gen) + 1
    {
      hide WfLadder;
      if buf[cf] == [] {
        assert buf[cf := []] == buf;
        return;
      }
      var rank := seq(|buf[cf]|, i => i);
      var records := SortDedup(buf[cf], rank);
      assert ValidCf(cf);
      LadderMaterialized(buf[cf], runs[cf], draining[cf], live[cf], frozen[cf], records);
      runs := runs[cf := runs[cf] + [records]];
      buf := buf[cf := []];
      gen := gen + 1;
      assert ValidCf(cf);
      assert forall c :: 0 <= c < numCf && c != cf ==> ValidCf(c) == old(ValidCf(c));
    }

    /** Merges the runs into one once there are more than eight. */
    method MaybeMerge(cf: nat)
      requires Valid() && cf < numCf
      modifies this`runs, this`gen
      ensures Valid()
      ensures |runs| == numCf && forall c :: 0 <= c < numCf && c != cf ==> runs[c] == old(runs[c])
      ensures |old(runs[cf])| <= 8 ==> runs == old(runs) && gen == old(gen)
      ensures |old(runs[cf])| > 8 ==> |runs[cf]| == 1 && gen == old(gen) + 1
    {
      hide WfLadder;
      if |runs[cf]| <= MAX_ACTIVE_RUNS {
        return;
      }
      assert ValidCf(cf);
      var merged, origin := Gather(runs[cf], buf[cf], draining[cf], live[cf], frozen[cf]);
      var records := SortDedup(merged, origin);
      LadderMerged(buf[cf], runs[cf], draining[cf], live[cf], frozen[cf], records);
      runs := runs[cf := [records]];
      gen := gen + 1;
      assert ValidCf(cf);
      assert forall c :: 0 <= c < numCf && c != cf ==> ValidCf(c) == old(ValidCf(c));
    }

    /** Appends one write; the buffer is sorted into a run when it is full. */
    method AppendRec(cf: nat, rec: Rec)
      requires Valid() && cf < numCf
      modifies this`buf, this`runs, this`gen, this`live
      ensures Valid()
      ensures live == old(live)[cf := old(live[cf]) + [rec]]
      ensures |old(buf[cf])| + 1 < 65536 ==> buf == old(buf)[cf := old(buf[cf]) + [rec]] && runs == old(runs) && gen == old(gen)
      ensures |old(buf[cf])| + 1 >= 65536 ==> buf == old(buf)[cf := []] && |runs[cf]| <= 8 && gen > old(gen)
    {
      hide WfLadder;
      assert ValidCf(cf);
      LadderAppended(buf[cf], runs[cf], draining[cf], live[cf], frozen[cf], rec);
      buf := buf[cf := buf[cf] + [rec]];
      live := live[cf := live[cf] + [rec]];
      assert ValidCf(cf);
      assert forall c :: 0 <= c < numCf && c != cf ==> ValidCf(c) == old(ValidCf(c));
      if |buf[cf]| >= MAX_BUF_ENTRIES {
        Materialize(cf);
        MaybeMerge(cf);
      }
    }

    method Put(cf: nat, key: Key)
      requires Valid() && cf < numCf
      modifies this`buf, this`runs, this`gen, this`live
      ensures Valid()
      ensures live == old(live)[cf := old(live[cf]) + [Rec(key, false, [])]]
    {
      AppendRec(cf, Rec(key, false, []));
    }

    method PutKv(cf: nat, key: Key, value: seq<byte>)
      requires Valid() && cf < numCf
      modifies this`buf, this`runs, this`gen, this`live
      ensures Valid()
      ensures live == old(live)[cf := old(live[cf]) + [Rec(key, false, if cf >= 10 then value else [])]]
    {
      AppendRec(cf, Rec(key, false, if cf >= FIRST_VALUE_CF then value else []));
    }

    method DeleteKv(cf: nat, key: Key)
      requires Valid() && cf < numCf
      modifies this`buf, this`runs, this`gen, this`live
      ensures Valid()
      ensures live == old(live)[cf := old(live[cf]) + [Rec(key, true, [])]]
    {
      AppendRec(cf, Rec(key, true, []));
    }

    /** Appends many key-only writes; entries of unknown column families are skipped. */
    method Batch(entries: seq<CfKey>)
      requires Valid()
      modifies this`buf, this`runs, this`gen, this`live
      ensures Valid()
      ensures |live| == numCf
      ensures forall cf :: 0 <= cf < numCf ==> live[cf] == old(live[cf]) + BatchRecs(entries, cf)
    {
      for i := 0 to |entries|
        invariant Valid()
        invariant forall cf :: 0 <= cf < numCf ==> live[cf] == old(live[cf]) + BatchRecs(entries[..i], cf)
      {
        assert entries[..i + 1][..i] == entries[..i];
        if entries[i].cf < numCf {
          AppendRec(entries[i].cf, Rec(entries[i].key, false, []));
        }
      }
      assert entries[..|entries|] == entries;
    }

    /** The immutable runs a scan reads: the draining ones, then the active ones. */
    method SnapshotRuns(cf: nat) returns (out: seq<Run>)
      requires Valid() && cf < numCf
      modifies this`buf, this`runs, this`gen
      ensures Valid()
      ensures AllSorted(out) && SameLookups(Concat(out), frozen[cf] + live[cf])
    {
      Materialize(cf);
      MaybeMerge(cf);
      out := draining[cf] + runs[cf];
      assert ValidCf(cf);
      SnapshotLookups(runs[cf], draining[cf], live[cf], frozen[cf]);
    }

    /** Freezes the live ladder: the buffers become runs, the active runs become the draining ones. */
    method FreezeAllCapture() returns (captured: seq<seq<Run>>)
      requires Valid()
      modifies this
      ensures Valid()
      ensures frozen == old(live) && forall cf :: 0 <= cf < numCf ==> live[cf] == []
      ensures captured == draining && |captured| == numCf && gen > old(gen)
      ensures forall cf :: 0 <= cf < numCf ==> buf[cf] == [] && runs[cf] == [] && |draining[cf]| <= 8
    {
      hide WfLadder;
      for cf := 0 to numCf
        invariant Valid() && live == old(live) && frozen == old(frozen)
        invariant forall c :: 0 <= c < cf ==> buf[c] == [] && |runs[c]| <= 8
        invariant gen >= old(gen)
      {
        Materialize(cf);
        MaybeMerge(cf);
      }
      forall cf | 0 <= cf < numCf
        ensures WfLadder([], [], runs[cf], [], live[cf])
      {
        assert ValidCf(cf);
        LadderFrozen(runs[cf], draining[cf], live[cf], frozen[cf]);
      }
      draining := runs;
      runs := seq(numCf, _ => []);
      buf := seq(numCf, _ => []);
      frozen := live;
      live := seq(numCf, _ => []);
      gen := gen + 1;
      captured := draining;
    }

    /** Drops the draining runs after a flush. */
    method Publish()
      requires Valid()
      modifies this`draining, this`gen, this`frozen
      ensures Valid()
      ensures |frozen| == numCf && forall cf :: 0 <= cf < numCf ==> frozen[cf] == [] && draining[cf] == []
      ensures gen == old(gen) + 1
    {
      hide WfLadder;
      forall cf | 0 <= cf < numCf
        ensures WfLadder(buf[cf], runs[cf], [], live[cf], [])
      {
        assert ValidCf(cf);
        LadderPublished(buf[cf], runs[cf], draining[cf], live[cf], frozen[cf]);
      }
      draining := seq(numCf, _ => []);
      frozen := seq(numCf, _ => []);
      gen := gen + 1;
    }

    /** The newest write of the key in the buffer. */
    method FindBuf(cf: nat, key: Key) returns (res: Option<Rec>)
      requires Shape() && cf < numCf
      ensures res == Latest(buf[cf], key)
    {
      var i := |buf[cf]|;
      while i > 0
        invariant 0 <= i <= |buf[cf]|
        invariant forall j :: i <= j < |buf[cf]| ==> buf[cf][j].key != key
      {
        i := i - 1;
        if buf[cf][i].key == key {
          LatestAt(buf[cf], i);
          return Some(buf[cf][i]);
        }
      }
      return None;
    }

    /** The newest run that holds the key decides. */
    static method FindRuns(rs: seq<Run>, key: Key) returns (res: Option<Rec>)
      requires AllSorted(rs)
      ensures res == Latest(Concat(rs), key)
    {
      hide Latest; hide Concat;
      var i := |rs|;
      assert rs[..|rs|] == rs;
      res := None;
      LatestOfNone(rs, key);
      while i > 0 && res.None?
        invariant 0 <= i <= |rs|
        invariant res.None? ==> Latest(Concat(rs), key) == Latest(Concat(rs[..i]), key)
        invariant res.Some? ==> res == Latest(Concat(rs), key)
        decreases i, res.None?
      {
        LatestOfRuns(rs, i, key);
        assert rs[i - 1] in rs;
        res := FindRun(rs[i - 1], key);
        i := i - 1;
      }
    }

    /** Resolves a key newest first: buffer, runs, draining runs. */
    method LookupRec(cf: nat, key: Key) returns (res: Option<Rec>)
      requires Valid() && cf < numCf
      ensures res == Latest(frozen[cf] + live[cf], key)
    {
      assert ValidCf(cf);
      LatestConcat(frozen[cf], live[cf], key);
      LatestConcat(Concat(runs[cf]), buf[cf], key);
      res := FindBuf(cf, key);
      if res.None? {
        res := FindRuns(runs[cf], key);
      }
      if res.None? {
        res := FindRuns(draining[cf], key);
      }
    }

    method LookupKv(cf: nat, key: Key) returns (res: KvLookup)
      requires Valid() && cf < numCf
      ensures res == Status(Latest(frozen[cf] + live[cf], key))
    {
      var r := LookupRec(cf, key);
      return Status(r);
    }

    /** The value of the last write of the key, unless it is a tombstone.  Records of the column families
        below 10 hold no value, so reading one is a fault. */
    method GetValue(cf: nat, key: Key) returns (res: ValueRead)
      requires Valid() && cf < numCf
      ensures
        var last := Latest(frozen[cf] + live[cf], key);
        res == if last.None? || last.value.deleted then NoValue
               else if cf < 10 then FaultValue
               else ValueRead(last.value.value)
    {
      var status := LookupKv(cf, key);
      if status != KvValue {
        return NoValue;
      }
      assert ValidCf(cf);
      LatestConcat(frozen[cf], live[cf], key);
      LatestConcat(Concat(runs[cf]), buf[cf], key);
      var r := FindBuf(cf, key);
      if r.None? || r.value.deleted {
        r := FindAssertedRun(runs[cf], key);
      }
      if r.None? {
        r := FindAssertedRun(draining[cf], key);
      }
      return if r.None? then NoValue else if cf < FIRST_VALUE_CF then FaultValue else ValueRead(r.value.value);
    }

    /** The newest record of the key that is not a tombstone; where the newest record is none, that record. */
    static method FindAssertedRun(rs: seq<Run>, key: Key) returns (res: Option<Rec>)
      requires AllSorted(rs)
      ensures
        var last := Latest(Concat(rs), key);
        last.None? || !last.value.deleted ==> res == last
      ensures res.Some? ==> !res.value.deleted
    {
      hide Latest; hide Concat;
      var i := |rs|;
      assert rs[..|rs|] == rs;
      ghost var last := Latest(Concat(rs), key);
      res := None;
      while i > 0 && res.None?
        invariant 0 <= i <= |rs|
        invariant res.Some? ==> !res.value.deleted
        invariant last.None? || !last.value.deleted ==>
          last == if res.Some? then res else Latest(Concat(rs[..i]), key)
        decreases i, res.None?
      {
        LatestOfRuns(rs, i, key);
        assert rs[i - 1] in rs;
        var r := FindRun(rs[i - 1], key);
        if r.Some? && !r.value.deleted {
          res := r;
        }
        i := i - 1;
      }
      LatestOfNone(rs, key);
    }

    /** All records of the runs, oldest run first, with the number of the run each comes from. */
    static method Gather(rs: seq<Run>, ghost b: seq<Rec>, ghost d: seq<Run>, ghost l: seq<Rec>, ghost f: seq<Rec>)
      returns (merged: seq<Rec>, origin: seq<int>)
      requires WfLadder(b, rs, d, l, f)
      ensures merged == Concat(rs) && RankedByAge(merged, origin)
    {
      merged, origin := [], [];
      for ri := 0 to |rs|
        invariant merged == Concat(rs[..ri]) && RankedByAge(merged, origin)
        invariant forall i :: 0 <= i < |origin| ==> origin[i] < ri
      {
        assert rs[..ri + 1][..ri] == rs[..ri] && rs[ri] in rs;
        SortedDistinct(rs[ri]);
        merged := merged + rs[ri];
        origin := origin + seq(|rs[ri]|, i => ri);
      }
      assert rs[..|rs|] == rs;
    }
  }

  /** The state of one column family: the runs and the buffer answer every lookup as the live
      writes do, the draining runs as the frozen writes do. */
  ghost predicate WfLadder(buf: seq<Rec>, runs: seq<Run>, draining: seq<Run>, live: seq<Rec>, frozen: seq<Rec>)
  {
    && AllSorted(runs) && AllSorted(draining)
    && SameLookups(Concat(runs) + buf, live)
    && SameLookups(Concat(draining), frozen)
  }

  lemma SortedDistinct(r: Run)
    requires Sorted(r)
    ensures forall i, j :: 0 <= i < j < |r| ==> r[i].key != r[j].key
  {
    forall i, j | 0 <= i < j < |r|
      ensures r[i].key != r[j].key
    {
      LessIrreflexive(r[i].key);
    }
  }

  lemma LadderMaterialized(buf: seq<Rec>, runs: seq<Run>, draining: seq<Run>, live: seq<Rec>, frozen: seq<Rec>, records: Run)
    requires WfLadder(buf, runs, draining, live, frozen)
    requires Sorted(records) && SameLookups(records, buf)
    ensures WfLadder([], runs + [records], draining, live, frozen)
  {
    hide Latest; hide Sorted;
    assert (runs + [records])[..|runs|] == runs;
    assert SameLookups(Concat(runs), Concat(runs));
    SameLookupsConcat(Concat(runs), Concat(runs), records, buf);
    assert Concat(runs + [records]) + [] == Concat(runs) + records;
  }

  lemma LadderMerged(buf: seq<Rec>, runs: seq<Run>, draining: seq<Run>, live: seq<Rec>, frozen: seq<Rec>, records: Run)
    requires WfLadder(buf, runs, draining, live, frozen)
    requires Sorted(records) && SameLookups(records, Concat(runs))
    ensures WfLadder(buf, [records], draining, live, frozen)
  {
    hide Latest; hide Sorted;
    assert [records][..0] == [] && Concat([records]) == [] + records == records;
    assert SameLookups(buf, buf);
    SameLookupsConcat(records, Concat(runs), buf, buf);
  }

  lemma LadderAppended(buf: seq<Rec>, runs: seq<Run>, draining: seq<Run>, live: seq<Rec>, frozen: seq<Rec>, rec: Rec)
    requires WfLadder(buf, runs, draining, live, frozen)
    ensures WfLadder(buf + [rec], runs, draining, live + [rec], frozen)
  {
    hide Latest;
    assert SameLookups([rec], [rec]);
    SameLookupsConcat(Concat(runs) + buf, live, [rec], [rec]);
    assert Concat(runs) + buf + [rec] == Concat(runs) + (buf + [rec]);
  }

  lemma LadderFrozen(runs: seq<Run>, draining: seq<Run>, live: seq<Rec>, frozen: seq<Rec>)
    requires WfLadder([], runs, draining, live, frozen)
    ensures WfLadder([], [], runs, [], live)
  {
    assert Concat(runs) + [] == Concat(runs);
    assert Concat([]) + [] == [];
  }

  lemma LadderPublished(buf: seq<Rec>, runs: seq<Run>, draining: seq<Run>, live: seq<Rec>, frozen: seq<Rec>)
    requires WfLadder(buf, runs, draining, live, frozen)
    ensures WfLadder(buf, runs, [], live, [])
  {
    assert Concat([]) == [];
  }

  lemma {:induction false} ConcatConcat(a: seq<Run>, b: seq<Run>)
    ensures Concat(a + b) == Concat(a) + Concat(b)
    decreases |b|
  {
    if b == [] {
      assert a + b == a;
    } else {
      var front, last := b[..|b| - 1], b[|b| - 1];
      assert (a + b)[..|a + b| - 1] == a + front && (a + b)[|a + b| - 1] == last;
      ConcatConcat(a, front);
      assert Concat(a) + Concat(front) + last == Concat(a) + (Concat(front) + last);
    }
  }

  lemma SnapshotLookups(runs: seq<Run>, draining: seq<Run>, live: seq<Rec>, frozen: seq<Rec>)
    requires WfLadder([], runs, draining, live, frozen)
    ensures AllSorted(draining + runs) && SameLookups(Concat(draining + runs), frozen + live)
  {
    hide Latest; hide Concat;
    ConcatConcat(draining, runs);
    assert Concat(runs) + [] == Concat(runs);
    SameLookupsConcat(Concat(draining), frozen, Concat(runs), live);
  }

  /** Binary search in one sorted run. */
  method FindRun(r: Run, key: Key) returns (res: Option<Rec>)
    requires Sorted(r)
    ensures res == Latest(r, key)
  {
    var lo, hi := 0, |r|;
    while lo < hi
      invariant 0 <= lo <= hi <= |r|
      invariant forall i :: 0 <= i < lo ==> Less(r[i].key, key)
      invariant forall i :: hi <= i < |r| ==> LessEq(key, r[i].key)
    {
      var mid := (lo + hi) / 2;
      var c := CmpSeq(r[mid].key, key);
      if c < 0 {
        forall i | 0 <= i <= mid
          ensures Less(r[i].key, key)
        {
          if i < mid {
            LessTransitive(r[i].key, r[mid].key, key);
          }
        }
        lo := mid + 1;
      } else {
        forall i | mid <= i < |r|
          ensures LessEq(key, r[i].key)
        {
          if mid < i && key != r[mid].key {
            LessTransitive(key, r[mid].key, r[i].key);
          }
        }
        hi := mid;
      }
    }
    if lo < |r| && r[lo].key == key {
      SortedLatest(r, lo);
      return Some(r[lo]);
    }
    NotInRun(r, key, lo);
    return None;
  }

  lemma NotInRun(r: Run, key: Key, lo: nat)
    requires Sorted(r) && lo <= |r|
    requires forall i :: 0 <= i < lo ==> Less(r[i].key, key)
    requires lo < |r| ==> LessEq(key, r[lo].key) && r[lo].key != key
    ensures Latest(r, key).None?
  {
    forall x | x in r
      ensures x.key != key
    {
      var i :| 0 <= i < |r| && r[i] == x;
      LessIrreflexive(key);
      if i > lo {
        LessTransitive(key, r[lo].key, r[i].key);
      }
    }
  }

  lemma LatestOfRuns(rs: seq<Run>, i: nat, key: Key)
    requires 0 < i <= |rs|
    ensures Latest(Concat(rs[..i]), key)
         == if Latest(rs[i - 1], key).Some? then Latest(rs[i - 1], key) else Latest(Concat(rs[..i - 1]), key)
  {
    assert rs[..i][..i - 1] == rs[..i - 1];
    LatestConcat(Concat(rs[..i - 1]), rs[i - 1], key);
  }

  lemma LatestOfNone(rs: seq<Run>, key: Key)
    ensures Latest(Concat(rs[..0]), key) == None
  {
  }
}
