/** The store as a whole: memtable, page store and write-ahead log, with the three-step flush
    (capture, prepare, publish) running beside the writers. */
module KvStore {
  import opened Bytes
  import Runs
  import MemTables
  import opened Journal
  import Wal
  import Drain
  import Cursor
  import PageTrees
  import PageSplit
  import opened PageStore
  import PageGc

  type CfKey = MemTables.CfKey

  /** What a flush captured under the engine lock. */
  datatype FlushBatch = FlushBatch(captured: seq<seq<Runs.Run>>, baseTrees: seq<CfTree>, sealBoundary: int)

  /** The immutable sources of a key-only scan. */
  datatype ScanSnapshot = ScanSnapshot(tree: CfTree, runs: seq<Runs.Run>)

  ghost function SnapshotKeys(blobs: PageTrees.Blobs, s: ScanSnapshot): set<Key>
  {
    Elems(TreeKeys(blobs, s.tree)) + Runs.KeySet(Runs.Concat(s.runs))
  }

  /** The log position just after record i. */
  ghost function EndOf(recs: seq<CfKey>, i: nat): nat
    requires i < |recs|
  {
    |LogBytes(recs[..i + 1])|
  }

  /** Some record of the key ends after `pos`. */
  ghost predicate Retained(recs: seq<CfKey>, pos: int, k: Key)
  {
    exists i :: 0 <= i < |recs| && recs[i].key == k && EndOf(recs, i) > pos
  }

  /** Every key is in the base or has a record after `pos`. */
  ghost predicate Backed(recs: seq<CfKey>, pos: int, keys: set<Key>, base: set<Key>)
  {
    forall k :: k in keys ==> k in base || Retained(recs, pos, k)
  }

  lemma RetainedGrows(recs: seq<CfKey>, more: seq<CfKey>, pos: int, k: Key)
    requires Retained(recs, pos, k)
    ensures Retained(recs + more, pos, k)
  {
    hide LogBytes;
    var i :| 0 <= i < |recs| && recs[i].key == k && EndOf(recs, i) > pos;
    assert (recs + more)[..i + 1] == recs[..i + 1];
    assert (recs + more)[i].key == k && EndOf(recs + more, i) > pos;
  }

  /** Appended records lie after the old end of the log. */
  lemma AppendedRetained(recs: seq<CfKey>, more: seq<CfKey>, pos: int, j: nat)
    requires pos <= |LogBytes(recs)| && j < |more|
    ensures Retained(recs + more, pos, more[j].key)
  {
    hide LogBytes;
    var i := |recs| + j;
    var all := recs + more;
    assert all[..i + 1] == recs + more[..j + 1];
    LogBytesConcat(recs, more[..j + 1]);
    LogNonempty(more[..j + 1]);
    assert all[i].key == more[j].key && EndOf(all, i) > pos;
  }

  /** Journaling backs the journaled keys and keeps what was backed. */
  lemma BackedGrows(recs: seq<CfKey>, more: seq<CfKey>, pos: int, keys: set<Key>, base: set<Key>)
    requires Backed(recs, pos, keys, base) && pos <= |LogBytes(recs)|
    ensures Backed(recs + more, pos, keys + EntryKeys(more), base)
  {
    hide LogBytes; hide Retained;
    forall k | k in keys + EntryKeys(more)
      ensures k in base || Retained(recs + more, pos, k)
    {
      if k in EntryKeys(more) {
        var e :| e in more && e.key == k;
        var j :| 0 <= j < |more| && more[j] == e;
        AppendedRetained(recs, more, pos, j);
      } else if k !in base {
        RetainedGrows(recs, more, pos, k);
      }
    }
  }

  lemma LogNonempty(recs: seq<CfKey>)
    requires recs != []
    ensures |LogBytes(recs)| > 0
  {
  }

  // ---- the state the invariant speaks about ----

  /** Per column family: what was ever written is what the published tree, the frozen writes and
      the live writes hold together. */
  ghost predicate Visible(written: seq<set<Key>>, blobs: PageTrees.Blobs, trees: seq<CfTree>,
                          frozen: seq<seq<Runs.Rec>>, live: seq<seq<Runs.Rec>>)
  {
    && |written| == |trees| == |frozen| == |live|
    && forall cf :: 0 <= cf < |written| ==> VisibleCf(written[cf], blobs, trees[cf], frozen[cf], live[cf])
  }

  ghost predicate VisibleCf(written: set<Key>, blobs: PageTrees.Blobs, tree: CfTree, frozen: seq<Runs.Rec>, live: seq<Runs.Rec>)
  {
    && written == Elems(TreeKeys(blobs, tree)) + Runs.KeySet(frozen) + Runs.KeySet(live)
    && forall k :: k in written ==> PageTrees.Storable(k)
  }

  /** The prepared trees hold, per column family, the captured base together with the captured runs. */
  ghost predicate Prepared(b: FlushBatch, blobs: PageTrees.Blobs, trees: seq<CfTree>)
  {
    && |trees| == |b.baseTrees| == |b.captured|
    && WfTrees(blobs, trees)
    && forall cf :: 0 <= cf < |trees| ==>
      Elems(TreeKeys(blobs, trees[cf])) == Elems(TreeKeys(blobs, b.baseTrees[cf])) + Runs.KeySet(Runs.Concat(b.captured[cf]))
  }

  /** The column families from this one on hold key-value pairs. */
  const FIRST_KV_CF := MemTables.FIRST_VALUE_CF

  /** No key-value column family has been written. */
  ghost predicate NoPairs(recs: seq<seq<Runs.Rec>>)
  {
    forall cf :: FIRST_KV_CF <= cf < |recs| ==> recs[cf] == []
  }

  lemma AllEmpty(recs: seq<seq<Runs.Rec>>)
    requires forall rs :: rs in recs ==> rs == []
    ensures NoPairs(recs)
  {
    assert forall cf :: 0 <= cf < |recs| ==> recs[cf] in recs;
  }

  /** `name` is the newest root: the one a store opened on these roots loads. */
  ghost predicate IsNewest(roots: map<RootName, seq<CfTree>>, name: RootName)
  {
    name in roots && forall n :: n in roots ==> name <= n
  }

  /** A root named `name` would be the newest. */
  ghost predicate NotOlder(names: set<RootName>, name: RootName)
  {
    forall n :: n in names ==> name <= n
  }

  /** What can happen to a running store; a step whose guard does not hold does nothing. */
  datatype Op =
    | Write(entries: seq<CfKey>)
    | Scan(cf: nat, target: Key)
    | Capture
    | Prepare(now: PageGc.Clock)
    | Publish
    | Abort
    | WalCycle
    | Collect(maxAgeSecs: nat, maxRootCount: int)

  /** The keys a run writes to one column family. */
  ghost function WrittenBy(ops: seq<Op>, cf: nat): set<Key>
  {
    if ops == [] then {}
    else
      var last := ops[|ops| - 1];
      WrittenBy(ops[..|ops| - 1], cf) + if last.Write? then BatchKeys(last.entries, cf) else {}
  }

  /** Batches of the key-only column families with keys the pages can hold, and age limits that do not
      wrap. */
  ghost predicate Acceptable(op: Op)
  {
    && (op.Write? ==> forall e :: e in op.entries ==> e.cf < FIRST_KV_CF && PageTrees.Storable(e.key))
    && (op.Collect? ==> PageGc.MaxAgeUs(op.maxAgeSecs) >= 0)
  }

  /** The roots a run may write. */
  ghost function RootNames(ops: seq<Op>): set<RootName>
  {
    set i | 0 <= i < |ops| && ops[i].Prepare? :: PageGc.MakeRootName(ops[i].now)
  }

  /** The clock never steps back: every root a run writes is at least as new as all roots before it. */
  ghost predicate Advancing(ops: seq<Op>, names: set<RootName>)
  {
    forall i :: 0 <= i < |ops| && ops[i].Prepare? ==>
      NotOlder(names + RootNames(ops[..i]), PageGc.MakeRootName(ops[i].now))
  }

  // ---- what a run should do, on three sets of keys ----

  /** A column family: the keys in the pages, in the captured flush and in the memtable. */
  datatype Shelf = Shelf(paged: set<Key>, frozen: set<Key>, live: set<Key>)

  ghost function ShelfIn(blobs: PageTrees.Blobs, trees: seq<CfTree>, frozen: seq<seq<Runs.Rec>>, live: seq<seq<Runs.Rec>>,
                         cf: nat): (s: Shelf)
  {
    if cf < |trees| && cf < |frozen| && cf < |live| then
      Shelf(Elems(TreeKeys(blobs, trees[cf])), Runs.KeySet(frozen[cf]), Runs.KeySet(live[cf]))
    else
      Shelf({}, {}, {})
  }

  ghost function ShelvesIn(blobs: PageTrees.Blobs, trees: seq<CfTree>, frozen: seq<seq<Runs.Rec>>, live: seq<seq<Runs.Rec>>,
                           n: nat): (ss: seq<Shelf>)
  {
    seq(n, cf requires 0 <= cf => ShelfIn(blobs, trees, frozen, live, cf))
  }

  datatype FlushPhase = Idle | Captured | Merging

  function Shown(s: Shelf): (ks: set<Key>)
  {
    s.paged + s.frozen + s.live
  }

  function NextPhase(op: Op, p: FlushPhase): (p': FlushPhase)
  {
    match op
    case Capture => if p.Idle? then Captured else p
    case Prepare(_) => if p.Captured? then Merging else p
    case Publish => if p.Merging? then Idle else p
    case Abort => if p.Captured? then Idle else p
    case _ => p
  }

  ghost function NextShelf(op: Op, p: FlushPhase, s: Shelf, cf: nat): (s': Shelf)
  {
    match op
    case Write(entries) => s.(live := s.live + BatchKeys(entries, cf))
    case Capture => if p.Idle? then Shelf(s.paged, s.live, {}) else s
    case Publish => if p.Merging? then Shelf(s.paged + s.frozen, {}, s.live) else s
    case Abort => if p.Captured? then Shelf(s.paged, {}, s.live) else s
    case _ => s
  }

  function PhaseAfter(ops: seq<Op>): (p: FlushPhase)
  {
    if ops == [] then Idle else NextPhase(ops[|ops| - 1], PhaseAfter(ops[..|ops| - 1]))
  }

  /** What a run makes of a column family that starts between flushes. */
  ghost function ShelfAfter(ops: seq<Op>, s: Shelf, cf: nat): (s': Shelf)
  {
    if ops == [] then s
    else
      var front, last := ops[..|ops| - 1], ops[|ops| - 1];
      NextShelf(last, PhaseAfter(front), ShelfAfter(front, s, cf), cf)
  }

  ghost function NextShelves(op: Op, p: FlushPhase, ss: seq<Shelf>): (ss': seq<Shelf>)
    ensures |ss'| == |ss|
  {
    seq(|ss|, cf requires 0 <= cf < |ss| => NextShelf(op, p, ss[cf], cf))
  }

  ghost function ShelvesAfter(ops: seq<Op>, ss: seq<Shelf>): (ss': seq<Shelf>)
    ensures |ss'| == |ss|
  {
    seq(|ss|, cf requires 0 <= cf < |ss| => ShelfAfter(ops, ss[cf], cf))
  }

  /** A write does the same in every phase; a step whose guard does not hold changes and loses nothing. */
  lemma StaysPut(op: Op, p: FlushPhase, ss: seq<Shelf>)
    ensures op.Write? ==> NextShelves(op, p, ss) == NextShelves(op, Idle, ss)
    ensures op.Scan? || op.Prepare? || op.WalCycle? || op.Collect? ==> NextShelves(op, p, ss) == ss
    ensures (op.Capture? && !p.Idle?) || (op.Publish? && !p.Merging?) || (op.Abort? && !p.Captured?) ==>
      NextShelves(op, p, ss) == ss
    ensures forall s :: LostAt(op, p, s) == if op.Abort? && p.Captured? then s.frozen else {}
  {
  }

  lemma NothingRun(ss: seq<Shelf>)
    ensures ShelvesAfter([], ss) == ss && ScansExact([], ss, [])
  {
  }

  lemma OneMoreOp(ops: seq<Op>, i: nat, ss: seq<Shelf>, zero: Shelf)
    requires i < |ops| && ss != [] && zero == ss[0]
    ensures PhaseAfter(ops[..i + 1]) == NextPhase(ops[i], PhaseAfter(ops[..i]))
    ensures ShelvesAfter(ops[..i + 1], ss) == NextShelves(ops[i], PhaseAfter(ops[..i]), ShelvesAfter(ops[..i], ss))
    ensures LostBy(ops[..i + 1], zero, 0)
      == LostBy(ops[..i], zero, 0) + LostAt(ops[i], PhaseAfter(ops[..i]), ShelvesAfter(ops[..i], ss)[0])
  {
    hide NextShelf; hide LostAt;
    var front := ops[..i + 1];
    assert front[..|front| - 1] == ops[..i] && front[|front| - 1] == ops[i];
  }

  /** Every scan of a run shows what the run up to it says. */
  ghost predicate ScansExact(ops: seq<Op>, ss: seq<Shelf>, scans: seq<seq<Key>>)
  {
    && |scans| == |ops|
    && forall i :: 0 <= i < |ops| && ops[i].Scan? && ops[i].cf < |ss| ==>
      ScanExact(ops[i], Shown(ShelvesAfter(ops[..i], ss)[ops[i].cf]), scans[i])
  }

  lemma OneMoreScan(ops: seq<Op>, i: nat, ss: seq<Shelf>, scans: seq<seq<Key>>, out: seq<Key>)
    requires i < |ops| && ScansExact(ops[..i], ss, scans)
    requires ops[i].Scan? && ops[i].cf < |ss| ==> ScanExact(ops[i], Shown(ShelvesAfter(ops[..i], ss)[ops[i].cf]), out)
    ensures ScansExact(ops[..i + 1], ss, scans + [out])
  {
    hide ScanExact; hide ShelvesAfter; hide Shown;
    var more, all := ops[..i + 1], scans + [out];
    forall j | 0 <= j < |more| && more[j].Scan? && more[j].cf < |ss|
      ensures ScanExact(more[j], Shown(ShelvesAfter(more[..j], ss)[more[j].cf]), all[j])
    {
      assert more[..j] == ops[..j];
      if j < i {
        assert ops[..i][j] == ops[j] && ops[..i][..j] == ops[..j];
      }
    }
  }

  /** The keys whose flush is given up by a step, and in a run. */
  ghost function LostAt(op: Op, p: FlushPhase, s: Shelf): (ks: set<Key>)
  {
    if op.Abort? && p.Captured? then s.frozen else {}
  }

  ghost function LostBy(ops: seq<Op>, s: Shelf, cf: nat): (ks: set<Key>)
  {
    if ops == [] then {}
    else
      var front, last := ops[..|ops| - 1], ops[|ops| - 1];
      LostBy(front, s, cf) + LostAt(last, PhaseAfter(front), ShelfAfter(front, s, cf))
  }

  /** Nothing is shown that was not written; everything written is shown or its flush was given up. */
  lemma {:induction false} ShownBounds(ops: seq<Op>, s: Shelf, cf: nat)
    requires s.frozen == {}
    ensures PhaseAfter(ops).Idle? ==> ShelfAfter(ops, s, cf).frozen == {}
    ensures Shown(ShelfAfter(ops, s, cf)) <= Shown(s) + WrittenBy(ops, cf)
    ensures Shown(s) + WrittenBy(ops, cf) <= Shown(ShelfAfter(ops, s, cf)) + LostBy(ops, s, cf)
    ensures LostBy(ops, s, cf) <= Shown(s) + WrittenBy(ops, cf)
  {
    hide BatchKeys;
    if ops != [] {
      ShownBounds(ops[..|ops| - 1], s, cf);
    }
  }

  /** Without aborts what is shown is what was there and what the run has written. */
  lemma {:induction false} ShownWithoutAbort(ops: seq<Op>, s: Shelf, cf: nat)
    requires s.frozen == {} && forall op :: op in ops ==> !op.Abort?
    ensures PhaseAfter(ops).Idle? ==> ShelfAfter(ops, s, cf).frozen == {}
    ensures LostBy(ops, s, cf) == {}
    ensures Shown(ShelfAfter(ops, s, cf)) == Shown(s) + WrittenBy(ops, cf)
  {
    hide BatchKeys;
    if ops != [] {
      var front, last := ops[..|ops| - 1], ops[|ops| - 1];
      assert last in ops && forall op :: op in front ==> op in ops;
      ShownWithoutAbort(front, s, cf);
    }
  }

  /** A scan answers with exactly the keys written so far from its target on, in order. */
  ghost predicate ScanExact(op: Op, written: set<Key>, out: seq<Key>)
    requires op.Scan?
  {
    Ascending(out) && forall k :: k in out <==> k in written && LessEq(op.target, k)
  }

  datatype Merge = NoMerge | Merged(trees: seq<CfTree>, root: RootName)

  /** A prepared merge waits to be published. */
  ghost predicate MergeReady(m: Merge, inflight: Option<FlushBatch>, ps: Store)
    reads ps
  {
    m.Merged? ==> inflight.Some? && Prepared(inflight.value, ps.blobs, m.trees)
  }

  /** A store opened on the roots would load the trees that are published, or prepared to be. */
  ghost predicate Anchored(m: Merge, ps: Store)
    reads ps
  {
    match m
    case NoMerge => IsNewest(ps.roots, ps.currentRoot) && ps.roots[ps.currentRoot] == ps.trees
    case Merged(trees, root) => IsNewest(ps.roots, root) && ps.roots[root] == trees
  }

  function PhaseOf(batch: Option<FlushBatch>, m: Merge): (p: FlushPhase)
  {
    if batch.None? then Idle else if m.NoMerge? then Captured else Merging
  }

  /** The log position a flush in flight will make redundant. */
  ghost function SealOf(inflight: Option<FlushBatch>): Option<int>
  {
    if inflight.Some? then Some(inflight.value.sealBoundary) else None
  }

  /** Nothing is lost: every visible or journaled datom is in the pages, in segments of earlier sessions
      or in a record behind the durable position; of the live ones this holds behind the position of
      the flush in flight as well.  Nothing else is in the log. */
  ghost predicate DurableState(recs: seq<CfKey>, earlier: seq<CfKey>, gone: int, durable: int, seal: Option<int>,
                               paged: set<Key>, frozen: set<Key>, live: set<Key>,
                               written: set<Key>, pending: set<Key>, dropped: set<Key>)
  {
    && AllDatoms(recs) && AllDatoms(earlier)
    && EntryKeys(recs) + EntryKeys(earlier) <= written + pending + dropped
    && -1 <= durable <= |LogBytes(recs)| && (gone == 0 || gone <= durable)
    && Backed(recs, durable, written + pending, paged + EntryKeys(earlier))
    && (seal.Some? ==>
          && durable <= seal.value <= |LogBytes(recs)|
          && Backed(recs, seal.value, live + pending, paged + frozen + EntryKeys(earlier)))
  }

  lemma DurableJournal(recs: seq<CfKey>, more: seq<CfKey>, earlier: seq<CfKey>, gone: int, durable: int, seal: Option<int>,
                       paged: set<Key>, frozen: set<Key>, live: set<Key>, written: set<Key>, dropped: set<Key>)
    requires DurableState(recs, earlier, gone, durable, seal, paged, frozen, live, written, {}, dropped)
    requires AllDatoms(more)
    ensures DurableState(recs + more, earlier, gone, durable, seal, paged, frozen, live, written, EntryKeys(more), dropped)
  {
    hide LogBytes; hide Backed; hide EntryKeys;
    Wal.LogPrefix(recs, more);
    EntryKeysConcat(recs, more);
    BackedGrows(recs, more, durable, written + {}, paged + EntryKeys(earlier));
    assert written + {} + EntryKeys(more) == written + EntryKeys(more);
    if seal.Some? {
      BackedGrows(recs, more, seal.value, live + {}, paged + frozen + EntryKeys(earlier));
      assert live + {} + EntryKeys(more) == live + EntryKeys(more);
    }
  }

  lemma DurableApply(recs: seq<CfKey>, earlier: seq<CfKey>, gone: int, durable: int, seal: Option<int>, paged: set<Key>,
                     frozen: set<Key>, live: set<Key>, written: set<Key>, pending: set<Key>, dropped: set<Key>)
    requires DurableState(recs, earlier, gone, durable, seal, paged, frozen, live, written, pending, dropped)
    ensures DurableState(recs, earlier, gone, durable, seal, paged, frozen, live + pending, written + pending, {}, dropped)
  {
    hide LogBytes; hide Backed; hide EntryKeys;
    assert written + pending + {} == written + pending && live + pending + {} == live + pending;
  }

  lemma DurableCapture(recs: seq<CfKey>, earlier: seq<CfKey>, gone: int, durable: int, paged: set<Key>, live: set<Key>,
                       written: set<Key>, dropped: set<Key>)
    requires DurableState(recs, earlier, gone, durable, None, paged, {}, live, written, {}, dropped)
    ensures DurableState(recs, earlier, gone, durable, Some(|LogBytes(recs)|), paged, live, {}, written, {}, dropped)
  {
    hide LogBytes;
  }

  lemma DurableAbort(recs: seq<CfKey>, earlier: seq<CfKey>, gone: int, durable: int, seal: Option<int>, paged: set<Key>,
                     frozen: set<Key>, live: set<Key>, written: set<Key>, dropped: set<Key>)
    requires DurableState(recs, earlier, gone, durable, seal, paged, frozen, live, written, {}, dropped)
    requires written == paged + frozen + live
    ensures DurableState(recs, earlier, gone, durable, None, paged, {}, live, paged + live, {}, dropped + frozen)
  {
    hide LogBytes; hide Retained;
  }

  lemma DurablePublish(recs: seq<CfKey>, earlier: seq<CfKey>, gone: int, durable: int, seal: int, paged: set<Key>,
                       frozen: set<Key>, live: set<Key>, written: set<Key>, pending: set<Key>, dropped: set<Key>)
    requires DurableState(recs, earlier, gone, durable, Some(seal), paged, frozen, live, written, pending, dropped)
    requires written == paged + frozen + live
    ensures DurableState(recs, earlier, gone, seal, None, paged + frozen, {}, live, written, pending, dropped)
  {
    hide LogBytes; hide Retained;
  }

  lemma DurableDelete(recs: seq<CfKey>, earlier: seq<CfKey>, gone: int, gone': int, durable: int, seal: Option<int>, paged: set<Key>,
                      frozen: set<Key>, live: set<Key>, written: set<Key>, pending: set<Key>, dropped: set<Key>)
    requires DurableState(recs, earlier, gone, durable, seal, paged, frozen, live, written, pending, dropped)
    requires gone' == gone || gone' <= durable
    ensures DurableState(recs, earlier, gone', durable, seal, paged, frozen, live, written, pending, dropped)
  {
    hide LogBytes; hide Backed; hide EntryKeys;
  }

  lemma DurableOpen(earlier: seq<CfKey>, paged: set<Key>)
    requires AllDatoms(earlier)
    ensures DurableState([], earlier, 0, -1, None, paged, {}, EntryKeys(earlier), paged + EntryKeys(earlier), {}, {})
  {
  }

  class KVStore {
    const ps: Store
    const mt: MemTables.MemTable
    const wal: Wal.Writer
    var flushActive: bool
    /** Log position up to which the published root makes the log redundant; -1 before the first. */
    var durable: int

    /** The visible keys per column family; the datoms journaled but not yet applied (the engine lock
        is held meanwhile); the flush in flight; the datoms of aborted flushes. */
    ghost var written: seq<set<Key>>
    ghost var pending: set<Key>
    ghost var inflight: Option<FlushBatch>
    ghost var dropped: set<Key>

    /** A column family as three sets of keys. */
    ghost function ShelfOf(cf: nat): (s: Shelf)
      reads ps`blobs, ps`trees, mt`frozen, mt`live
    {
      ShelfIn(ps.blobs, ps.trees, mt.frozen, mt.live, cf)
    }

    ghost function Shelves(): (ss: seq<Shelf>)
      reads ps`blobs, ps`trees, mt`frozen, mt`live
    {
      ShelvesIn(ps.blobs, ps.trees, mt.frozen, mt.live, mt.numCf)
    }

    ghost predicate Parts()
      reads this, ps, mt, wal
    {
      && ps.Valid() && ps.Complete() && mt.Valid() && wal.Valid()
      && wal.buf == [] && !wal.stopped && !ps.readOnly
      && 0 < mt.numCf == ps.numCf && |ps.trees| == mt.numCf
      && (forall name :: name in ps.roots ==> |ps.roots[name]| == mt.numCf)
      && NoPairs(mt.live) && NoPairs(mt.frozen)
    }

    ghost predicate FlushState()
      reads this, ps, mt
    {
      && (flushActive <==> inflight.Some?)
      && (!flushActive ==> forall rs :: rs in mt.frozen ==> rs == [])
      && (inflight.Some? ==> inflight.value.captured == mt.draining && inflight.value.baseTrees == ps.trees)
    }

    ghost predicate Durable()
      requires |ps.trees| > 0 && |mt.frozen| > 0 && |mt.live| > 0 && |written| > 0
      reads this, ps, mt, wal
    {
      DurableState(wal.recs, EarlierRecords(wal), wal.gone, durable, SealOf(inflight),
        Elems(TreeKeys(ps.blobs, ps.trees[0])), Runs.KeySet(mt.frozen[0]), Runs.KeySet(mt.live[0]),
        written[0], pending, dropped)
    }

    ghost predicate Valid()
      reads this, ps, mt, wal
    {
      && Parts()
      && Visible(written, ps.blobs, ps.trees, mt.frozen, mt.live)
      && FlushState()
      && Durable()
    }

    /** A store over opened pages, a memtable with the replayed datoms and a freshly attached log. */
    constructor (pages: Store, table: MemTables.MemTable, log: Wal.Writer)
      requires pages.Valid() && pages.Complete() && table.Valid() && log.Valid()
      requires 0 < table.numCf == pages.numCf && |pages.trees| == table.numCf && !pages.readOnly
      requires forall name :: name in pages.roots ==> |pages.roots[name]| == table.numCf
      requires forall cf :: 0 < cf < table.numCf ==> table.live[cf] == []
      requires forall rs :: rs in table.frozen ==> rs == []
      requires log.recs == [] && log.gone == 0 && log.buf == [] && !log.stopped
      requires AllDatoms(EarlierRecords(log)) && Runs.KeySet(table.live[0]) == EntryKeys(EarlierRecords(log))
      ensures Valid() && pending == {} && dropped == {} && inflight == None && ps == pages && mt == table && wal == log
      ensures |written| == mt.numCf
      ensures written[0] == Elems(TreeKeys(ps.blobs, ps.trees[0])) + EntryKeys(EarlierRecords(log))
      ensures forall cf :: 0 < cf < mt.numCf ==> written[cf] == Elems(TreeKeys(ps.blobs, ps.trees[cf]))
    {
      ps, mt, wal := pages, table, log;
      flushActive := false;
      durable := -1;
      written := seq(|pages.trees|, i requires 0 <= i < |pages.trees| && i < |table.live| reads pages, table =>
        Elems(TreeKeys(pages.blobs, pages.trees[i])) + Runs.KeySet(table.live[i]));
      pending, dropped := {}, {};
      inflight := None;
      new;
      hide LogBytes; hide Wal.ReplaySegments; hide TreeKeys; hide Runs.KeySet; hide Wal.Writer.Valid;
      hide MemTables.WfLadder;
      hide DurableState; hide EntryKeys; hide Store.Valid;
      EmptyKeys();
      DatomsStorable(EarlierRecords(wal));
      forall cf | 0 <= cf < |written|
        ensures VisibleCf(written[cf], ps.blobs, ps.trees[cf], mt.frozen[cf], mt.live[cf])
      {
        assert ps.trees[cf] in ps.trees && mt.frozen[cf] in mt.frozen;
        PageKeysStorable(ps.blobs, ps.trees[cf]);
      }
      AllEmpty(mt.frozen);
      DurableOpen(EarlierRecords(wal), Elems(TreeKeys(ps.blobs, ps.trees[0])));
    }

    /** Appends datoms to the log; the engine lock is held until they are applied. */
    method JournalOnly(entries: seq<CfKey>)
      requires Valid() && pending == {}
      requires AllDatoms(entries)
      modifies this`pending, wal
      ensures Valid()
      ensures pending == EntryKeys(entries)
      ensures wal.recs == old(wal.recs) + entries && wal.gone == old(wal.gone)
    {
      hide Store.Valid; hide Store.Complete; hide MemTables.MemTable.Valid; hide TreeKeys; hide Runs.KeySet;
      hide Wal.Writer.Valid; hide Wal.Drained; hide Wal.OlderKept; hide EntryKeys;
      hide NoPairs; hide Wal.ReplaySegments;
      Sizes();
      hide Visible; hide LogBytes; hide DurableState;
      ghost var recs := wal.recs;
      DurableJournal(recs, entries, EarlierRecords(wal), wal.gone, durable, SealOf(inflight),
        Elems(TreeKeys(ps.blobs, ps.trees[0])), Runs.KeySet(mt.frozen[0]), Runs.KeySet(mt.live[0]), written[0], dropped);
      assert recs + [] == recs;
      if entries != [] {
        wal.Sink(entries);
      }
      pending := EntryKeys(entries);
    }

    /** Applies a batch to the memtable; its datoms are the journaled ones. */
    method ApplyBatch(entries: seq<CfKey>)
      requires Valid()
      requires forall e :: e in entries ==> e.cf < FIRST_KV_CF && PageTrees.Storable(e.key)
      requires pending == BatchKeys(entries, 0)
      modifies this`pending, this`written, mt
      ensures Valid() && pending == {}
      ensures |written| == mt.numCf
      ensures forall cf :: 0 <= cf < mt.numCf ==> written[cf] == old(written[cf]) + BatchKeys(entries, cf)
      ensures Shelves() == NextShelves(Write(entries), Idle, old(Shelves()))
    {
      hide Store.Valid; hide Store.Complete; hide Wal.Writer.Valid; hide TreeKeys; hide MemTables.MemTable.Valid;
      hide LogBytes; hide MemTables.BatchRecs; hide Visible; hide NoPairs; hide Runs.KeySet;
      hide BatchKeys; hide DurableState; hide Wal.ReplaySegments; hide EntryKeys;
      Sizes();
      ghost var before := written;
      ghost var live0 := mt.live;
      DurableApply(wal.recs, EarlierRecords(wal), wal.gone, durable, SealOf(inflight),
        Elems(TreeKeys(ps.blobs, ps.trees[0])), Runs.KeySet(mt.frozen[0]), Runs.KeySet(mt.live[0]), written[0], pending, dropped);
      mt.Batch(entries);
      written := seq(mt.numCf, cf requires 0 <= cf < mt.numCf => before[cf] + BatchKeys(entries, cf));
      pending := {};
      BatchVisible(before, written, ps.blobs, ps.trees, mt.frozen, live0, mt.live, entries);
      LiveGrows(live0[0], entries, mt.live[0], 0);
      ShelvesGrow(ps.blobs, ps.trees, mt.frozen, live0, mt.live, entries, mt.numCf);
    }

    /** The engine's write path: journal the datoms, then apply every entry. */
    method BatchWrite(entries: seq<CfKey>)
      requires Valid() && pending == {}
      requires forall e :: e in entries ==> e.cf < FIRST_KV_CF && PageTrees.Storable(e.key)
      modifies this`pending, this`written, mt, wal
      ensures Valid() && pending == {}
      ensures |written| == mt.numCf
      ensures forall cf :: 0 <= cf < mt.numCf ==> written[cf] == old(written[cf]) + BatchKeys(entries, cf)
      ensures wal.recs == old(wal.recs) + Datoms(entries)
      ensures Shelves() == NextShelves(Write(entries), Idle, old(Shelves()))
    {
      hide Valid; hide Shelves; hide NextShelves;
      JournalOnly(Datoms(entries));
      DatomKeys(entries);
      ApplyBatch(entries);
    }

    /** Freezes the memtable and notes the log position the flush will make redundant. */
    method CaptureFlush() returns (res: Option<FlushBatch>)
      requires Valid() && pending == {}
      modifies this`flushActive, this`inflight, mt, wal`sealBoundary
      ensures Valid()
      ensures res.None? <==> old(flushActive)
      ensures res.Some? ==> inflight == res
      ensures res.None? ==> inflight == old(inflight)
      ensures res.Some? ==> res.value.sealBoundary == wal.sealBoundary == |LogBytes(wal.recs)|
      ensures res.Some? ==> mt.frozen == old(mt.live) && forall cf :: 0 <= cf < mt.numCf ==> mt.live[cf] == []
      ensures Shelves() == if res.Some? then NextShelves(Capture, Idle, old(Shelves())) else old(Shelves())
    {
      hide LogBytes; hide Visible; hide TreeKeys; hide WfTrees; hide MemTables.WfLadder;
      hide Wal.Writer.Valid; hide Store.Valid; hide Runs.KeySet; hide DurableState; hide Wal.ReplaySegments;
      hide EntryKeys;
      if flushActive {
        return None;
      }
      Sizes();
      EmptyKeys();
      CaptureVisible(written, ps.blobs, ps.trees, mt.frozen, mt.live);
      assert mt.frozen[0] in mt.frozen;
      DurableCapture(wal.recs, EarlierRecords(wal), wal.gone, durable, Elems(TreeKeys(ps.blobs, ps.trees[0])),
        Runs.KeySet(mt.live[0]), written[0], dropped);
      flushActive := true;
      var captured := mt.FreezeAllCapture();
      var boundary := wal.Seal();
      var b := FlushBatch(captured, ps.trees, boundary);
      inflight := Some(b);
      assert mt.live == Nothing(|mt.live|);
      return Some(b);
    }

    /** Gives a flush up: what was frozen and is neither in the pages nor written again is no longer
        visible. */
    method AbortFlush()
      requires Valid() && pending == {} && flushActive
      modifies this`flushActive, this`inflight, this`written, this`dropped, mt
      ensures Valid() && !flushActive && inflight == None && pending == {}
      ensures |written| == mt.numCf
      ensures Shelves() == NextShelves(Abort, Captured, old(Shelves()))
      ensures dropped == old(dropped) + old(ShelfOf(0)).frozen
    {
      hide LogBytes; hide Visible; hide TreeKeys; hide WfTrees; hide MemTables.WfLadder;
      hide Wal.Writer.Valid; hide Store.Valid; hide Runs.KeySet; hide DurableState; hide Wal.ReplaySegments;
      hide EntryKeys;
      Sizes();
      EmptyKeys();
      ghost var before := written;
      ZeroVisible(written, ps.blobs, ps.trees, mt.frozen, mt.live);
      DurableAbort(wal.recs, EarlierRecords(wal), wal.gone, durable, SealOf(inflight), Elems(TreeKeys(ps.blobs, ps.trees[0])),
        Runs.KeySet(mt.frozen[0]), Runs.KeySet(mt.live[0]), written[0], dropped);
      dropped := dropped + Runs.KeySet(mt.frozen[0]);
      written := seq(mt.numCf, cf requires 0 <= cf < mt.numCf && cf < |ps.trees| && cf < |mt.live| reads ps, mt =>
        Elems(TreeKeys(ps.blobs, ps.trees[cf])) + Runs.KeySet(mt.live[cf]));
      AbortVisible(before, written, ps.blobs, ps.trees, mt.frozen, mt.live);
      mt.Publish();
      flushActive := false;
      inflight := None;
      assert mt.frozen == Nothing(|mt.frozen|);
    }

    /** Drains the captured runs and writes the merged trees; nothing readers see changes. */
    method PrepareFlush(b: FlushBatch, newRoot: RootName) returns (trees: seq<CfTree>)
      requires Valid() && inflight == Some(b)
      modifies ps`blobs, ps`next, ps`roots
      ensures Valid()
      ensures PageTrees.Extends(old(ps.blobs), ps.blobs)
      ensures Prepared(b, ps.blobs, trees)
      ensures ps.roots == old(ps.roots)[newRoot := trees]
      ensures forall t :: t in ps.trees ==> TreeKeys(ps.blobs, t) == TreeKeys(old(ps.blobs), t)
      ensures Shelves() == old(Shelves())
    {
      hide Wal.Writer.Valid; hide MemTables.MemTable.Valid; hide TreeKeys; hide Runs.KeySet; hide Runs.Concat;
      Sizes();
      hide DurableState; hide LogBytes; hide KeysFor; hide WfTrees; hide Wal.ReplaySegments; hide EntryKeys;
      var reqs := DrainBatch(b);
      ghost var blobs0 := ps.blobs;
      var res := ps.PrepareMerge(b.baseTrees, reqs, newRoot);
      trees := res.value;
      TreesFrame(blobs0, ps.blobs, ps.trees);
      VisibleFrame(written, blobs0, ps.blobs, ps.trees, mt.frozen, mt.live);
      assert ps.trees[0] in ps.trees;
      forall cf | 0 <= cf < |trees|
        ensures Elems(TreeKeys(ps.blobs, trees[cf]))
             == Elems(TreeKeys(ps.blobs, b.baseTrees[cf])) + Runs.KeySet(Runs.Concat(b.captured[cf]))
      {
        assert b.baseTrees[cf] in ps.trees;
      }
    }

    /** The keys of the captured runs, per column family. */
    method DrainBatch(b: FlushBatch) returns (reqs: seq<CfKeys>)
      requires Valid() && inflight == Some(b)
      ensures forall r :: r in reqs ==> Ascending(r.keys) && AllStorable(r.keys)
      ensures forall cf :: 0 <= cf < mt.numCf ==> KeysFor(reqs, cf) == Runs.KeySet(Runs.Concat(b.captured[cf]))
    {
      hide Wal.Writer.Valid; hide Store.Valid; hide Store.Complete; hide TreeKeys; hide Runs.Concat; hide KeysFor;
      hide Ascending; hide AllStorable;
      hide Durable; hide FlushState;
      reqs := [];
      assert b.captured == mt.draining by { FlushFacts(b); }
      for cf := 0 to mt.numCf
        invariant forall r :: r in reqs ==> Ascending(r.keys) && AllStorable(r.keys) && r.cf < cf
        invariant forall c :: 0 <= c < cf ==> KeysFor(reqs, c) == Runs.KeySet(Runs.Concat(b.captured[c]))
      {
        var runs := b.captured[cf];
        assert mt.ValidCf(cf);
        Runs.SameLookupsSameKeys(Runs.Concat(runs), mt.frozen[cf]);
        assert VisibleCf(written[cf], ps.blobs, ps.trees[cf], mt.frozen[cf], mt.live[cf]);
        var keys: seq<Key> := [];
        if runs == [] {
          EmptyRuns();
        } else if cf >= FIRST_KV_CF {
          var pairs, deleted := Drain.DrainKvSorted(runs);
          NothingDrained(Runs.Concat(runs), pairs, deleted);
          assert pairs == [] && deleted == [];
        } else {
          keys := Drain.DrainSorted(runs);
        }
        DrainedStorable(keys, Runs.Concat(runs), written[cf]);
        RequestsAbove(reqs, cf);
        if keys != [] {
          RequestAppended(reqs, CfKeys(cf, keys));
          reqs := reqs + [CfKeys(cf, keys)];
        }
      }
    }

    lemma Sizes()
      requires Valid()
      ensures |written| == |ps.trees| == |mt.frozen| == |mt.live| == |mt.draining| == mt.numCf > 0
    {
    }

    lemma FlushFacts(b: FlushBatch)
      requires Valid() && inflight == Some(b)
      ensures b.captured == mt.draining && b.baseTrees == ps.trees
    {
    }

    /** Swaps in the prepared trees, drops the frozen runs and moves the durable position. */
    method PublishFlush(b: FlushBatch, trees: seq<CfTree>, root: RootName)
      requires Valid() && inflight == Some(b) && Prepared(b, ps.blobs, trees)
      modifies this`flushActive, this`durable, this`inflight, ps`trees, ps`currentRoot, mt
      ensures Valid() && !flushActive && inflight == None
      ensures durable == b.sealBoundary && written == old(written)
      ensures ps.trees == trees && ps.currentRoot == root
      ensures mt.live == old(mt.live)
      ensures Shelves() == NextShelves(Publish, Merging, old(Shelves()))
    {
      hide LogBytes; hide DurableState; hide Visible; hide TreeKeys; hide WfTrees; hide Prepared;
      hide Wal.Writer.Valid; hide Runs.SameLookups; hide Runs.KeySet; hide Runs.Concat; hide Wal.ReplaySegments;
      hide EntryKeys;
      Sizes();
      DrainingKeys(mt);
      PublishVisible(written, ps.blobs, b, ps.trees, trees, mt.frozen, mt.live);
      EmptyKeys();
      DurablePublish(wal.recs, EarlierRecords(wal), wal.gone, durable, b.sealBoundary, Elems(TreeKeys(ps.blobs, ps.trees[0])),
        Runs.KeySet(mt.frozen[0]), Runs.KeySet(mt.live[0]), written[0], pending, dropped);
      ps.PublishTrees(trees, root);
      mt.Publish();
      flushActive := false;
      inflight := None;
      durable := b.sealBoundary;
      assert mt.frozen == Nothing(|mt.frozen|);
    }

    /** The sources of a key-only scan, captured atomically with respect to publish. */
    method OpenScanCursor(cf: nat) returns (snap: ScanSnapshot)
      requires Valid() && cf < mt.numCf
      modifies mt`buf, mt`runs, mt`gen
      ensures Valid()
      ensures snap.tree == ps.trees[cf] && WfTree(ps.blobs, snap.tree) && Runs.AllSorted(snap.runs)
      ensures SnapshotKeys(ps.blobs, snap) == written[cf]
    {
      hide LogBytes; hide DurableState; hide EntryKeys; hide Wal.ReplaySegments; hide Wal.Writer.Valid;
      var runs := mt.SnapshotRuns(cf);
      snap := ScanSnapshot(ps.trees[cf], runs);
      assert ps.trees[cf] in ps.trees;
      assert VisibleCf(written[cf], ps.blobs, ps.trees[cf], mt.frozen[cf], mt.live[cf]);
      Runs.SameLookupsSameKeys(Runs.Concat(runs), mt.frozen[cf] + mt.live[cf]);
      KeySetConcat(mt.frozen[cf], mt.live[cf]);
    }

    /** A scan from a key on, merged over the pages and the runs of one snapshot. */
    method Scan(cf: nat, target: Key) returns (out: seq<Key>)
      requires Valid() && cf < mt.numCf
      modifies mt`buf, mt`runs, mt`gen
      ensures Valid()
      ensures Ascending(out)
      ensures forall k :: k in out <==> k in written[cf] && LessEq(target, k)
    {
      hide LogBytes; hide DurableState; hide Visible; hide TreeKeys; hide Wal.Writer.Valid;
      hide MemTables.MemTable.Valid;
      hide Less; hide LessEq; hide Durable; hide FlushState; hide Store.Valid; hide WfTrees; hide WfTree;
      hide Runs.KeySet; hide Runs.Concat; hide Ascending; hide KeysWithPrefix; hide Cursor.MergedCursor.Valid;
      Sizes();
      var snap := OpenScanCursor(cf);
      TreeIsWf(ps.blobs, ps.trees, cf);
      var pageKeys := ps.GetKeysInPrefix(cf, []);
      WholeTree(ps.blobs, ps.trees[cf]);
      var sources := [pageKeys] + RunSources(snap.runs);
      SourceKeys(pageKeys, snap.runs);
      var mc := new Cursor.MergedCursor(sources);
      out := mc.Collect(target);
    }

    /** A collection between flushes that keeps the published root: the published trees keep their
        contents. */
    method Gc(listed: seq<RootName>, maxAgeSecs: nat, maxRootCount: int)
      requires Valid() && !flushActive
      requires PageGc.NewestFirst(listed) && Elems(listed) == ps.roots.Keys
      requires ps.currentRoot in ps.roots && ps.roots[ps.currentRoot] == ps.trees
      requires ps.currentRoot in PageGc.Kept(listed, maxAgeSecs, maxRootCount)
      modifies ps`blobs, ps`roots
      ensures Valid()
      ensures ps.roots.Keys == PageGc.Kept(listed, maxAgeSecs, maxRootCount)
      ensures forall name :: name in ps.roots ==> name in old(ps.roots) && ps.roots[name] == old(ps.roots)[name]
      ensures Shelves() == old(Shelves())
    {
      hide Wal.Writer.Valid; hide MemTables.MemTable.Valid; hide TreeKeys; hide LogBytes; hide DurableState;
      hide Visible;
      hide PageGc.RootsRead; hide WfTrees; hide PageGc.Reached; hide NoPairs; hide Runs.KeySet; hide PageGc.LivePages;
      hide Wal.ReplaySegments; hide EntryKeys;
      Sizes();
      ghost var blobs0 := ps.blobs;
      KeptNames(listed, ps.roots.Keys, maxAgeSecs, maxRootCount);
      hide PageGc.Kept; hide PageGc.Removable;
      var report := PageGc.GcFull(ps, listed, maxAgeSecs, maxRootCount, false);
      KeptRoots(listed, ps.roots.Keys, maxAgeSecs, maxRootCount);
      CollectedFrame(blobs0, ps.blobs, ps.roots, ps.currentRoot);
      VisibleFrame(written, blobs0, ps.blobs, ps.trees, mt.frozen, mt.live);
      assert ps.trees[0] in ps.trees;
    }

    /** One step of a run: the flush state it carries along is the batch and the merge of the flush in
        flight.  A collection needs the published root to be the newest. */
    method Step(op: Op, batch: Option<FlushBatch>, merge: Merge)
      returns (out: seq<Key>, batch': Option<FlushBatch>, merge': Merge)
      requires Valid() && pending == {} && Acceptable(op)
      requires inflight == batch && MergeReady(merge, inflight, ps)
      requires op.Collect? && !flushActive ==> Anchored(NoMerge, ps)
      modifies this, ps, mt, wal
      ensures Valid() && pending == {}
      ensures inflight == batch' && MergeReady(merge', inflight, ps)
      ensures PhaseOf(batch', merge') == NextPhase(op, PhaseOf(batch, merge))
      ensures Shelves() == NextShelves(op, PhaseOf(batch, merge), old(Shelves()))
      ensures dropped == old(dropped) + LostAt(op, PhaseOf(batch, merge), old(ShelfOf(0)))
      ensures op.Scan? && op.cf < mt.numCf ==> ScanExact(op, Shown(old(Shelves())[op.cf]), out)
      ensures ps.roots.Keys <= old(ps.roots.Keys) + RootNames([op])
      ensures (old(Anchored(merge, ps))
        && (op.Prepare? ==> NotOlder(old(ps.roots.Keys), PageGc.MakeRootName(op.now))))
        ==> Anchored(merge', ps)
    {
      hide Valid; hide BatchKeys; hide Prepared; hide ScanExact; hide ShelfOf; hide Shelves; hide NextShelves;
      hide NextShelf;
      hide PageGc.MakeRootName; hide Shown; hide LostAt;
      Phase(batch);
      NoFlushNoMerge(batch, merge);
      FirstShelf();
      StaysPut(op, PhaseOf(batch, merge), Shelves());
      out, batch', merge' := [], batch, merge;
      match op
      case Write(entries) =>
        BatchWrite(entries);
      case Scan(cf, target) =>
        if cf < mt.numCf {
          out := Scan(cf, target);
          ShownIs(cf);
          assert Shelves()[cf] == ShelfOf(cf) by { EveryShelf(cf); }
          Answered(op, written[cf], out);
        }
      case Capture =>
        var res := CaptureFlush();
        if res.Some? {
          batch' := res;
          merge' := NoMerge;
        }
      case Prepare(now) =>
        if batch.Some? && merge.NoMerge? {
          var trees := PrepareFlush(batch.value, PageGc.MakeRootName(now));
          merge' := Merged(trees, PageGc.MakeRootName(now));
          OneRoot(op);
        }
      case Publish =>
        if batch.Some? && merge.Merged? {
          PublishFlush(batch.value, merge.trees, merge.root);
          batch', merge' := None, NoMerge;
        }
      case Abort =>
        if batch.Some? && merge.NoMerge? {
          AbortFlush();
          batch' := None;
        }
      case WalCycle =>
        WalCycle();
      case Collect(maxAgeSecs, maxRootCount) =>
        if !flushActive {
          var listed := PageGc.ListRoots(ps.roots.Keys);
          NewestIsKept(listed, ps.roots, ps.currentRoot, maxAgeSecs, maxRootCount);
          Gc(listed, maxAgeSecs, maxRootCount);
        }
    }

    lemma Phase(batch: Option<FlushBatch>)
      requires Valid() && inflight == batch
      ensures flushActive <==> batch.Some?
    {
    }

    lemma ShownIs(cf: nat)
      requires Valid() && cf < mt.numCf
      ensures |written| == mt.numCf && written[cf] == Shown(ShelfOf(cf))
    {
      hide TreeKeys; hide Runs.KeySet; hide Durable; hide FlushState;
      assert VisibleCf(written[cf], ps.blobs, ps.trees[cf], mt.frozen[cf], mt.live[cf]);
    }

    lemma IdleShelf(cf: nat)
      requires Valid() && inflight == None
      ensures ShelfOf(cf).frozen == {}
    {
      hide TreeKeys;
      if cf < |mt.frozen| {
        assert mt.frozen[cf] in mt.frozen;
      }
    }

    /** Every interleaving of writes, scans, flush steps, aborts, log cycles and collections.  Each column
        family becomes, and each scan shows, exactly what the run on three sets of keys says.  If the
        clock does not step back, a store opened on what is on disk when the run stops recovers every
        visible datom and nothing that was not written. */
    method Run(ops: seq<Op>) returns (scans: seq<seq<Key>>, ghost merge: Merge)
      requires Valid() && pending == {} && inflight == None && Anchored(NoMerge, ps)
      requires forall op :: op in ops ==> Acceptable(op)
      requires Advancing(ops, ps.roots.Keys) || forall op :: op in ops ==> !op.Collect?
      modifies this, ps, mt, wal
      ensures Valid() && pending == {} && MergeReady(merge, inflight, ps)
      ensures Shelves() == ShelvesAfter(ops, old(Shelves()))
      ensures ScansExact(ops, old(Shelves()), scans)
      ensures dropped == old(dropped) + LostBy(ops, old(ShelfOf(0)), 0)
      ensures ps.roots.Keys <= old(ps.roots.Keys) + RootNames(ops)
      ensures Advancing(ops, old(ps.roots.Keys)) ==>
        && Anchored(merge, ps)
        && |written| > 0 && written[0] <= Recovered(this) <= written[0] + dropped
    {
      hide Valid; hide ScanExact; hide Acceptable; hide MergeReady; hide NextShelf; hide ShelfOf; hide NextShelves;
      hide Anchored; hide Advancing; hide RootNames; hide ScansExact; hide ShelvesAfter; hide Shelves;
      hide ShelfAfter; hide LostAt;
      scans := [];
      var batch: Option<FlushBatch>, m := None, NoMerge;
      MergeNone(inflight, ps);
      NoRoots();
      ghost var names, start := ps.roots.Keys, Shelves();
      ghost var zero := ShelfOf(0);
      NothingRun(start);
      FirstShelf();
      for i := 0 to |ops|
        invariant Valid() && pending == {}
        invariant inflight == batch && MergeReady(m, inflight, ps) && PhaseOf(batch, m) == PhaseAfter(ops[..i])
        invariant Shelves() == ShelvesAfter(ops[..i], start) && ScansExact(ops[..i], start, scans)
        invariant dropped == old(dropped) + LostBy(ops[..i], zero, 0)
        invariant ps.roots.Keys <= names + RootNames(ops[..i])
        invariant Advancing(ops, names) ==> Anchored(m, ps)
      {
        var out;
        RootStep(ops, i, names, ps.roots.Keys);
        NoFlushNoMerge(batch, m);
        FirstShelf();
        ghost var before := Shelves();
        OneMoreOp(ops, i, start, zero);
        out, batch, m := Step(ops[i], batch, m);
        OneMoreScan(ops, i, start, scans, out);
        scans := scans + [out];
      }
      assert ops[..|ops|] == ops;
      merge := m;
      if Advancing(ops, names) {
        RecoveryComplete(this, m);
        Sizes();
      }
    }

    lemma EveryShelf(cf: nat)
      requires Valid() && cf < mt.numCf
      ensures |Shelves()| == mt.numCf && Shelves()[cf] == ShelfOf(cf)
    {
    }

    lemma FirstShelf()
      requires Valid()
      ensures |Shelves()| == mt.numCf > 0 && Shelves()[0] == ShelfOf(0)
    {
    }

    /** Between flushes there is no merge. */
    lemma NoFlushNoMerge(batch: Option<FlushBatch>, m: Merge)
      requires Valid() && inflight == batch && MergeReady(m, inflight, ps)
      ensures !flushActive ==> m.NoMerge?
      ensures m.Merged? ==> batch.Some?
    {
    }

    /** One turn of the log's background cycle: write out, then delete redundant segments.  When the
        whole log is durable and sealed nothing of it is left. */
    method WalCycle()
      requires Valid()
      modifies wal
      ensures Valid() && wal.recs == old(wal.recs)
      ensures durable == old(wal.sealBoundary) == |LogBytes(wal.recs)| ==> wal.sealed == [] && wal.gone == durable
    {
      hide LogBytes; hide DurableState; hide Visible; hide FlushState; hide Wal.ReplaySegments; hide EntryKeys;
      hide Wal.Writer.Valid; hide Runs.KeySet; hide TreeKeys; hide MemTables.MemTable.Valid; hide Store.Valid;
      hide Store.Complete;
      Sizes();
      ghost var boundary := wal.sealBoundary;
      wal.DrainLocked();
      ghost var sealed, gone := wal.sealed, wal.gone;
      wal.DeleteDurable(durable);
      DurableDelete(wal.recs, EarlierRecords(wal), gone, wal.gone, durable, SealOf(inflight), Elems(TreeKeys(ps.blobs, ps.trees[0])),
        Runs.KeySet(mt.frozen[0]), Runs.KeySet(mt.live[0]), written[0], pending, dropped);
      if durable == boundary == |LogBytes(wal.recs)| {
        Wal.AllDeleted(wal, sealed, gone, durable);
      }
    }
  }

  ghost function EarlierRecords(w: Wal.Writer): seq<CfKey>
    reads w
  {
    Wal.ReplaySegments(w.found, 0, w.firstSeg)
  }

  ghost predicate AllDatoms(recs: seq<CfKey>)
  {
    forall e :: e in recs ==> e.cf == 0 && PageTrees.Storable(e.key)
  }

  lemma DatomsStorable(recs: seq<CfKey>)
    requires AllDatoms(recs)
    ensures forall k :: k in EntryKeys(recs) ==> PageTrees.Storable(k)
  {
  }

  lemma EmptyKeys()
    ensures Runs.KeySet([]) == {} && EntryKeys([]) == {}
  {
  }

  /** The datoms of a batch. */
  function Datoms(entries: seq<CfKey>): (ds: seq<CfKey>)
    ensures forall e :: e in ds <==> e in entries && e.cf == 0
  {
    if entries == [] then []
    else
      var last := entries[|entries| - 1];
      assert entries == entries[..|entries| - 1] + [last];
      Datoms(entries[..|entries| - 1]) + if last.cf == 0 then [last] else []
  }

  lemma {:induction false} DatomKeys(entries: seq<CfKey>)
    ensures EntryKeys(Datoms(entries)) == BatchKeys(entries, 0)
  {
    if entries != [] {
      var front, last := entries[..|entries| - 1], entries[|entries| - 1];
      DatomKeys(front);
      if last.cf == 0 {
        var rec := Runs.Rec(last.key, false, []);
        KeySetConcat(MemTables.BatchRecs(front, 0), [rec]);
        assert Runs.KeySet([rec]) == {last.key};
        assert EntryKeys(Datoms(front) + [last]) == EntryKeys(Datoms(front)) + {last.key};
      } else {
        assert Datoms(entries) == Datoms(front);
        assert MemTables.BatchRecs(entries, 0) == MemTables.BatchRecs(front, 0);
      }
    }
  }

  // ---- recovery ----

  /** The datoms a store opened on the disk holds: the tree of the newest root and every segment. */
  ghost function Recovered(kv: KVStore): set<Key>
    reads kv, kv.ps, kv.wal
  {
    LoadedKeys(kv.ps.blobs, kv.ps.roots)
      + EntryKeys(Wal.ReplaySegments(kv.wal.disk, 0, kv.wal.segIdx + 1))
  }

  ghost function LoadedKeys(blobs: PageTrees.Blobs, roots: map<RootName, seq<CfTree>>): set<Key>
  {
    set name, k | name in roots && IsNewest(roots, name) && roots[name] != [] && k in TreeKeys(blobs, roots[name][0]) :: k
  }

  lemma LoadedIs(blobs: PageTrees.Blobs, roots: map<RootName, seq<CfTree>>, name: RootName)
    requires IsNewest(roots, name) && roots[name] != []
    ensures LoadedKeys(blobs, roots) == Elems(TreeKeys(blobs, roots[name][0]))
  {
    hide TreeKeys;
  }

  lemma RetainedInTail(recs: seq<CfKey>, g: nat, pos: int, k: Key)
    requires Retained(recs, pos, k) && g <= |recs|
    requires |LogBytes(recs[..g])| == 0 || |LogBytes(recs[..g])| <= pos
    ensures k in EntryKeys(recs[g..])
  {
    hide LogBytes;
    var i :| 0 <= i < |recs| && recs[i].key == k && EndOf(recs, i) > pos;
    if i < g {
      LogNonempty(recs[..i + 1]);
      if i + 1 < g {
        Wal.LogLenGrows(recs, i + 1, g);
      }
    } else {
      assert recs[g..][i - g] == recs[i];
    }
  }

  /** What is on disk: the loaded tree and the log from the deleted position on. */
  lemma OnDisk(kv: KVStore) returns (g: nat)
    requires kv.Valid()
    ensures g <= |kv.wal.recs| && kv.wal.gone == |LogBytes(kv.wal.recs[..g])|
    ensures Wal.ReplaySegments(kv.wal.disk, 0, kv.wal.segIdx + 1) == EarlierRecords(kv.wal) + kv.wal.recs[g..]
  {
    hide LogBytes; hide TreeKeys; hide Wal.ReplaySegments;
    g := Wal.DiskReplays(kv.wal);
    ReplayedDatoms(kv.wal.recs[g..]);
  }

  /** Whatever the flush in flight, opening the disk after a crash gives every visible or journaled datom
      and nothing but what was written. */
  lemma RecoveryComplete(kv: KVStore, m: Merge)
    requires kv.Valid() && MergeReady(m, kv.inflight, kv.ps) && Anchored(m, kv.ps)
    ensures kv.written[0] + kv.pending <= Recovered(kv) <= kv.written[0] + kv.pending + kv.dropped
  {
    hide LogBytes; hide TreeKeys; hide Runs.KeySet; hide Wal.ReplaySegments; hide Retained; hide EntryKeys;
    hide Wal.Writer.Valid; hide MemTables.WfLadder; hide Runs.Concat;
    kv.Sizes();
    var g := OnDisk(kv);
    var recs := kv.wal.recs;
    EntryKeysConcat(EarlierRecords(kv.wal), recs[g..]);
    assert recs == recs[..g] + recs[g..];
    EntryKeysConcat(recs[..g], recs[g..]);
    var paged := Elems(TreeKeys(kv.ps.blobs, kv.ps.trees[0]));
    LoadedHolds(kv, m);
    var loaded := LoadedKeys(kv.ps.blobs, kv.ps.roots);
    forall k | k in kv.written[0] + kv.pending
      ensures k in loaded + EntryKeys(EarlierRecords(kv.wal)) + EntryKeys(recs[g..])
    {
      if k !in paged + EntryKeys(EarlierRecords(kv.wal)) {
        RetainedInTail(recs, g, kv.durable, k);
      }
    }
  }

  /** The root that would be loaded holds the published keys and nothing that is not visible. */
  lemma LoadedHolds(kv: KVStore, m: Merge)
    requires kv.Valid() && MergeReady(m, kv.inflight, kv.ps) && Anchored(m, kv.ps)
    ensures |kv.ps.trees| > 0 && |kv.written| > 0
    ensures Elems(TreeKeys(kv.ps.blobs, kv.ps.trees[0])) <= LoadedKeys(kv.ps.blobs, kv.ps.roots) <= kv.written[0]
  {
    hide LogBytes; hide TreeKeys; hide Runs.KeySet; hide Wal.ReplaySegments; hide EntryKeys; hide Backed;
    hide Wal.Writer.Valid; hide MemTables.WfLadder; hide Runs.Concat; hide Runs.SameLookups;
    kv.Sizes();
    assert VisibleCf(kv.written[0], kv.ps.blobs, kv.ps.trees[0], kv.mt.frozen[0], kv.mt.live[0]);
    match m
    case NoMerge =>
      LoadedIs(kv.ps.blobs, kv.ps.roots, kv.ps.currentRoot);
    case Merged(trees, root) =>
      LoadedIs(kv.ps.blobs, kv.ps.roots, root);
      DrainingKeys(kv.mt);
      kv.FlushFacts(kv.inflight.value);
  }

  lemma EntryKeysConcat(a: seq<CfKey>, b: seq<CfKey>)
    ensures EntryKeys(a + b) == EntryKeys(a) + EntryKeys(b)
  {
  }

  lemma LiveGrows(live: seq<Runs.Rec>, entries: seq<CfKey>, live': seq<Runs.Rec>, cf: nat)
    requires live' == live + MemTables.BatchRecs(entries, cf)
    ensures Runs.KeySet(live') == Runs.KeySet(live) + BatchKeys(entries, cf)
  {
    KeySetConcat(live, MemTables.BatchRecs(entries, cf));
  }

  lemma ShelvesGrow(blobs: PageTrees.Blobs, trees: seq<CfTree>, frozen: seq<seq<Runs.Rec>>, live: seq<seq<Runs.Rec>>,
                    live': seq<seq<Runs.Rec>>, entries: seq<CfKey>, n: nat)
    requires |trees| == |frozen| == |live| == |live'| == n
    requires forall cf :: 0 <= cf < n ==> live'[cf] == live[cf] + MemTables.BatchRecs(entries, cf)
    ensures ShelvesIn(blobs, trees, frozen, live', n)
      == NextShelves(Write(entries), Idle, ShelvesIn(blobs, trees, frozen, live, n))
  {
    hide TreeKeys; hide Runs.KeySet; hide BatchKeys;
    forall cf | 0 <= cf < n
      ensures Runs.KeySet(live'[cf]) == Runs.KeySet(live[cf]) + BatchKeys(entries, cf)
    {
      LiveGrows(live[cf], entries, live'[cf], cf);
    }
  }

  lemma ZeroVisible(written: seq<set<Key>>, blobs: PageTrees.Blobs, trees: seq<CfTree>,
                    frozen: seq<seq<Runs.Rec>>, live: seq<seq<Runs.Rec>>)
    requires Visible(written, blobs, trees, frozen, live) && |written| > 0
    ensures written[0] == Elems(TreeKeys(blobs, trees[0])) + Runs.KeySet(frozen[0]) + Runs.KeySet(live[0])
  {
    hide TreeKeys; hide Runs.KeySet;
    assert VisibleCf(written[0], blobs, trees[0], frozen[0], live[0]);
  }

  /** Giving up what is frozen leaves the pages and the live writes. */
  lemma AbortVisible(written: seq<set<Key>>, after: seq<set<Key>>, blobs: PageTrees.Blobs, trees: seq<CfTree>,
                     frozen: seq<seq<Runs.Rec>>, live: seq<seq<Runs.Rec>>)
    requires Visible(written, blobs, trees, frozen, live) && |after| == |written|
    requires forall cf :: 0 <= cf < |after| ==> after[cf] == Elems(TreeKeys(blobs, trees[cf])) + Runs.KeySet(live[cf])
    ensures Visible(after, blobs, trees, Nothing(|frozen|), live)
    ensures forall cf :: 0 <= cf < |after| ==> written[cf] <= after[cf] + Runs.KeySet(frozen[cf])
  {
    hide TreeKeys; hide Runs.KeySet;
    EmptyKeys();
    forall cf | 0 <= cf < |after|
      ensures VisibleCf(after[cf], blobs, trees[cf], [], live[cf])
      ensures written[cf] <= after[cf] + Runs.KeySet(frozen[cf])
    {
      assert VisibleCf(written[cf], blobs, trees[cf], frozen[cf], live[cf]);
    }
  }

  // ---- roots and collections ----

  lemma NoRoots()
    ensures RootNames([]) == {}
  {
  }

  lemma OneRoot(op: Op)
    requires op.Prepare?
    ensures RootNames([op]) == {PageGc.MakeRootName(op.now)}
  {
    assert [op][0] == op;
  }

  lemma RootStep(ops: seq<Op>, i: nat, names: set<RootName>, keys: set<RootName>)
    requires i < |ops| && keys <= names + RootNames(ops[..i])
    ensures RootNames(ops[..i + 1]) == RootNames(ops[..i]) + RootNames([ops[i]])
    ensures Advancing(ops, names) && ops[i].Prepare? ==> NotOlder(keys, PageGc.MakeRootName(ops[i].now))
    ensures ops[i] in ops
  {
    var a, b := ops[..i], ops[..i + 1];
    forall n
      ensures n in RootNames(b) <==> n in RootNames(a) + RootNames([ops[i]])
    {
      if n in RootNames(b) {
        var j :| 0 <= j < |b| && b[j].Prepare? && n == PageGc.MakeRootName(b[j].now);
        if j < i {
          assert a[j] == b[j];
        } else {
          assert [ops[i]][0] == b[j];
        }
      }
      if n in RootNames(a) {
        var j :| 0 <= j < |a| && a[j].Prepare? && n == PageGc.MakeRootName(a[j].now);
        assert b[j] == a[j];
      }
      if n in RootNames([ops[i]]) {
        assert b[i] == ops[i];
      }
    }
  }

  lemma KeptNames(listed: seq<RootName>, names: set<RootName>, maxAgeSecs: nat, maxRootCount: int)
    requires Elems(listed) == names && PageGc.Kept(listed, maxAgeSecs, maxRootCount) != {}
    ensures PageGc.Kept(listed, maxAgeSecs, maxRootCount) <= names && listed != []
  {
    forall n | n in PageGc.Kept(listed, maxAgeSecs, maxRootCount)
      ensures n in names
    {
      assert n in Elems(listed);
    }
  }

  lemma KeptRoots(listed: seq<RootName>, left: set<RootName>, maxAgeSecs: nat, maxRootCount: int)
    requires left <= Elems(listed)
    requires forall i :: 0 <= i < |listed| ==>
      (listed[i] in left <==> !PageGc.Removable(listed, i, maxAgeSecs, maxRootCount))
    ensures left == PageGc.Kept(listed, maxAgeSecs, maxRootCount)
  {
    forall n
      ensures n in left <==> n in PageGc.Kept(listed, maxAgeSecs, maxRootCount)
    {
      if n in left {
        assert n in Elems(listed);
        var i :| 0 <= i < |listed| && listed[i] == n;
      }
    }
  }

  lemma NewestIsKept(listed: seq<RootName>, roots: map<RootName, seq<CfTree>>, name: RootName, maxAgeSecs: nat, maxRootCount: int)
    requires PageGc.NewestFirst(listed) && Elems(listed) == roots.Keys && IsNewest(roots, name)
    requires PageGc.MaxAgeUs(maxAgeSecs) >= 0
    ensures name in PageGc.Kept(listed, maxAgeSecs, maxRootCount)
  {
    NewestIsFirst(listed, roots, name);
    PageGc.NewestRootKept(listed, maxAgeSecs, maxRootCount);
  }

  /** A collection that keeps one root keeps the published one if and only if it is the newest. */
  lemma CountOneKeepsNewest(listed: seq<RootName>, roots: map<RootName, seq<CfTree>>, name: RootName, maxAgeSecs: nat)
    requires PageGc.NewestFirst(listed) && Elems(listed) == roots.Keys && name in roots
    requires PageGc.MaxAgeUs(maxAgeSecs) >= 0
    ensures name in PageGc.Kept(listed, maxAgeSecs, 1) <==> IsNewest(roots, name)
  {
    if IsNewest(roots, name) {
      NewestIsKept(listed, roots, name, maxAgeSecs, 1);
    }
    if name in PageGc.Kept(listed, maxAgeSecs, 1) {
      assert listed[0] == name;
      forall n | n in roots
        ensures name <= n
      {
        assert n in Elems(listed);
        var j :| 0 <= j < |listed| && listed[j] == n;
      }
    }
  }

  lemma Answered(op: Op, written: set<Key>, out: seq<Key>)
    requires op.Scan? && Ascending(out) && forall k :: k in out <==> k in written && LessEq(op.target, k)
    ensures ScanExact(op, written, out)
  {
  }

  lemma MergeNone(inflight: Option<FlushBatch>, ps: Store)
    ensures MergeReady(NoMerge, inflight, ps)
  {
  }

  lemma {:induction false} ReplayedDatoms(entries: seq<CfKey>)
    requires forall e :: e in entries ==> e.cf == 0
    ensures Replayed(entries) == entries
  {
    if entries != [] {
      assert entries[0] in entries;
      assert forall e :: e in entries[1..] ==> e in entries;
      ReplayedDatoms(entries[1..]);
    }
  }

  ghost function EntryKeys(entries: seq<CfKey>): (ks: set<Key>)
    ensures forall e :: e in entries ==> e.key in ks
  {
    set e | e in entries :: e.key
  }

  /** The keys a batch writes to one column family. */
  ghost function BatchKeys(entries: seq<CfKey>, cf: nat): set<Key>
  {
    Runs.KeySet(MemTables.BatchRecs(entries, cf))
  }

  lemma KeySetConcat(a: seq<Runs.Rec>, b: seq<Runs.Rec>)
    ensures Runs.KeySet(a + b) == Runs.KeySet(a) + Runs.KeySet(b)
  {
  }

  lemma {:induction false} BatchStorable(entries: seq<CfKey>, cf: nat)
    requires forall e :: e in entries ==> PageTrees.Storable(e.key)
    ensures forall k :: k in BatchKeys(entries, cf) ==> PageTrees.Storable(k)
  {
    if entries != [] {
      var front, last := entries[..|entries| - 1], entries[|entries| - 1];
      assert last in entries && forall e :: e in front ==> e in entries;
      BatchStorable(front, cf);
    }
  }

  lemma {:induction false} BatchElsewhere(entries: seq<CfKey>, cf: nat)
    requires forall e :: e in entries ==> e.cf != cf
    ensures MemTables.BatchRecs(entries, cf) == []
  {
    if entries != [] {
      var front, last := entries[..|entries| - 1], entries[|entries| - 1];
      assert last in entries && forall e :: e in front ==> e in entries;
      BatchElsewhere(front, cf);
    }
  }

  lemma {:induction false} LatestKey(recs: seq<Runs.Rec>, k: Key)
    requires Runs.Latest(recs, k).Some?
    ensures k in Runs.KeySet(recs)
  {
    var last := recs[|recs| - 1];
    if last.key != k {
      LatestKey(recs[..|recs| - 1], k);
    }
  }

  /** Runs without keys drain to no pairs and no deletions. */
  lemma NothingDrained(recs: seq<Runs.Rec>, pairs: seq<Drain.Pair>, deleted: seq<Key>)
    requires forall p :: p in pairs ==> Runs.Latest(recs, p.key).Some?
    requires forall k :: k in deleted ==> Runs.Latest(recs, k).Some?
    ensures Runs.KeySet(recs) == {} ==> pairs == [] && deleted == []
  {
    if pairs != [] {
      assert pairs[0] in pairs;
      LatestKey(recs, pairs[0].key);
    }
    if deleted != [] {
      assert deleted[0] in deleted;
      LatestKey(recs, deleted[0]);
    }
  }

  lemma PageKeysStorable(blobs: PageTrees.Blobs, t: CfTree)
    requires WfTree(blobs, t)
    ensures forall k :: k in TreeKeys(blobs, t) ==> PageTrees.Storable(k)
  {
  }

  function RunKeys(r: Runs.Run): (ks: seq<Key>)
  {
    seq(|r|, i requires 0 <= i < |r| => r[i].key)
  }

  function RunSources(runs: seq<Runs.Run>): (out: seq<seq<Key>>)
  {
    seq(|runs|, i requires 0 <= i < |runs| => RunKeys(runs[i]))
  }

  lemma {:induction false} ConcatKeys(runs: seq<Runs.Run>, k: Key)
    ensures k in Runs.KeySet(Runs.Concat(runs)) <==> exists i :: 0 <= i < |runs| && k in RunKeys(runs[i])
  {
    if runs != [] {
      var n := |runs| - 1;
      var front, last := runs[..n], runs[n];
      ConcatKeys(front, k);
      KeySetConcat(Runs.Concat(front), last);
      assert k in Runs.KeySet(last) <==> k in RunKeys(last) by { RunKeySet(last); }
      assert forall i :: 0 <= i < n ==> front[i] == runs[i];
    }
  }

  lemma RunKeySet(r: Runs.Run)
    ensures forall k :: k in Runs.KeySet(r) <==> k in RunKeys(r)
  {
    assert forall i :: 0 <= i < |r| ==> r[i] in r && RunKeys(r)[i] == r[i].key;
  }

  /** The sources of a scan are ascending and hold the keys of the snapshot. */
  lemma SourceKeys(pageKeys: seq<Key>, runs: seq<Runs.Run>)
    requires Ascending(pageKeys) && Runs.AllSorted(runs)
    ensures
      var sources := [pageKeys] + RunSources(runs);
      && (forall i :: 0 <= i < |sources| ==> Ascending(sources[i]))
      && (forall k :: (exists i :: 0 <= i < |sources| && k in sources[i])
            <==> k in Elems(pageKeys) + Runs.KeySet(Runs.Concat(runs)))
  {
    hide Less; hide Runs.Concat; hide Runs.KeySet;
    var sources := [pageKeys] + RunSources(runs);
    forall i | 0 <= i < |sources|
      ensures Ascending(sources[i])
    {
      if i > 0 {
        assert runs[i - 1] in runs;
      }
    }
    forall k
      ensures (exists i :: 0 <= i < |sources| && k in sources[i])
        <==> k in Elems(pageKeys) + Runs.KeySet(Runs.Concat(runs))
    {
      ConcatKeys(runs, k);
      if k in pageKeys {
        assert k in sources[0];
      }
      if exists j :: 0 <= j < |runs| && k in RunKeys(runs[j]) {
        var j :| 0 <= j < |runs| && k in RunKeys(runs[j]);
        assert k in sources[j + 1];
      }
      if exists i :: 0 <= i < |sources| && k in sources[i] {
        var i :| 0 <= i < |sources| && k in sources[i];
        assert i > 0 ==> k in RunKeys(runs[i - 1]);
      }
    }
  }

  lemma TreeIsWf(blobs: PageTrees.Blobs, trees: seq<CfTree>, cf: nat)
    requires WfTrees(blobs, trees) && cf < |trees|
    ensures WfTree(blobs, trees[cf])
  {
    assert trees[cf] in trees;
  }

  /** The empty prefix reads the whole tree. */
  lemma WholeTree(blobs: PageTrees.Blobs, t: CfTree)
    requires WfTree(blobs, t)
    ensures Ascending(TreeKeys(blobs, t)) && KeysWithPrefix(TreeKeys(blobs, t), []) == TreeKeys(blobs, t)
  {
    var ks := TreeKeys(blobs, t);
    if t.root != 0 {
      PageTrees.KeysAscending(blobs, t.root, t.height);
    }
    KeysWithPrefixAscending(ks, []);
    assert Elems(KeysWithPrefix(ks, [])) == Elems(ks);
    AscendingUnique(KeysWithPrefix(ks, []), ks);
  }

  lemma NewestIsFirst(listed: seq<RootName>, roots: map<RootName, seq<CfTree>>, name: RootName)
    requires PageGc.NewestFirst(listed) && Elems(listed) == roots.Keys && IsNewest(roots, name)
    ensures listed != [] && listed[0] == name
  {
    assert name in Elems(listed);
    assert listed[0] in Elems(listed);
  }

  /** The root in use survives a collection with its contents, like every kept root. */
  lemma CollectedFrame(before: PageTrees.Blobs, after: PageTrees.Blobs, roots: map<RootName, seq<CfTree>>, name: RootName)
    requires PageGc.RootsRead(before, after, roots) && name in roots
    ensures forall n :: n in roots ==> WfTrees(after, roots[n])
    ensures forall t :: t in roots[name] ==> TreeKeys(after, t) == TreeKeys(before, t)
  {
    hide TreeKeys; hide WfTree;
  }

  lemma VisibleFrame(written: seq<set<Key>>, a: PageTrees.Blobs, b: PageTrees.Blobs, trees: seq<CfTree>,
                     frozen: seq<seq<Runs.Rec>>, live: seq<seq<Runs.Rec>>)
    requires Visible(written, a, trees, frozen, live)
    requires forall t :: t in trees ==> TreeKeys(b, t) == TreeKeys(a, t)
    ensures Visible(written, b, trees, frozen, live)
  {
    forall cf | 0 <= cf < |written|
      ensures VisibleCf(written[cf], b, trees[cf], frozen[cf], live[cf])
    {
      assert VisibleCf(written[cf], a, trees[cf], frozen[cf], live[cf]);
      assert trees[cf] in trees;
    }
  }

  /** Applying a batch makes exactly its keys visible, and touches no key-value column family. */
  lemma BatchVisible(before: seq<set<Key>>, after: seq<set<Key>>, blobs: PageTrees.Blobs, trees: seq<CfTree>,
                     frozen: seq<seq<Runs.Rec>>, live: seq<seq<Runs.Rec>>, live': seq<seq<Runs.Rec>>, entries: seq<CfKey>)
    requires Visible(before, blobs, trees, frozen, live) && NoPairs(live)
    requires forall e :: e in entries ==> e.cf < FIRST_KV_CF && PageTrees.Storable(e.key)
    requires |before| == |after| == |live'|
    requires forall cf :: 0 <= cf < |live| ==> live'[cf] == live[cf] + MemTables.BatchRecs(entries, cf)
    requires forall cf :: 0 <= cf < |before| ==> after[cf] == before[cf] + BatchKeys(entries, cf)
    ensures Visible(after, blobs, trees, frozen, live') && NoPairs(live')
  {
    hide TreeKeys; hide MemTables.BatchRecs; hide Runs.KeySet;
    forall cf | 0 <= cf < |after|
      ensures VisibleCf(after[cf], blobs, trees[cf], frozen[cf], live'[cf])
    {
      assert VisibleCf(before[cf], blobs, trees[cf], frozen[cf], live[cf]);
      KeySetConcat(live[cf], MemTables.BatchRecs(entries, cf));
      BatchStorable(entries, cf);
    }
    forall cf | FIRST_KV_CF <= cf < |live'|
      ensures live'[cf] == []
    {
      BatchElsewhere(entries, cf);
    }
  }

  ghost function Nothing(n: nat): seq<seq<Runs.Rec>>
  {
    seq(n, _ => [])
  }

  /** The draining runs hold the keys of the frozen writes. */
  lemma DrainingKeys(mt: MemTables.MemTable)
    requires mt.Valid()
    ensures forall cf :: 0 <= cf < mt.numCf ==> Runs.KeySet(Runs.Concat(mt.draining[cf])) == Runs.KeySet(mt.frozen[cf])
  {
    forall cf | 0 <= cf < mt.numCf
      ensures Runs.KeySet(Runs.Concat(mt.draining[cf])) == Runs.KeySet(mt.frozen[cf])
    {
      assert mt.ValidCf(cf);
      Runs.SameLookupsSameKeys(Runs.Concat(mt.draining[cf]), mt.frozen[cf]);
    }
  }

  /** Freezing only renames the live writes. */
  lemma CaptureVisible(written: seq<set<Key>>, blobs: PageTrees.Blobs, trees: seq<CfTree>,
                       frozen: seq<seq<Runs.Rec>>, live: seq<seq<Runs.Rec>>)
    requires Visible(written, blobs, trees, frozen, live)
    requires forall rs :: rs in frozen ==> rs == []
    ensures Visible(written, blobs, trees, live, Nothing(|live|))
    ensures |written| > 0 ==> written[0] == Elems(TreeKeys(blobs, trees[0])) + Runs.KeySet(live[0])
  {
    hide TreeKeys;
    forall cf | 0 <= cf < |written|
      ensures VisibleCf(written[cf], blobs, trees[cf], live[cf], [])
      ensures written[cf] == Elems(TreeKeys(blobs, trees[cf])) + Runs.KeySet(live[cf])
    {
      assert VisibleCf(written[cf], blobs, trees[cf], frozen[cf], live[cf]);
      assert frozen[cf] in frozen;
    }
  }

  /** Publishing moves the frozen keys into the tree; nothing becomes visible or invisible. */
  lemma PublishVisible(written: seq<set<Key>>, blobs: PageTrees.Blobs, b: FlushBatch, base: seq<CfTree>, trees: seq<CfTree>,
                       frozen: seq<seq<Runs.Rec>>, live: seq<seq<Runs.Rec>>)
    requires Visible(written, blobs, base, frozen, live)
    requires Prepared(b, blobs, trees) && b.baseTrees == base
    requires forall cf :: 0 <= cf < |written| ==> Runs.KeySet(Runs.Concat(b.captured[cf])) == Runs.KeySet(frozen[cf])
    ensures Visible(written, blobs, trees, Nothing(|frozen|), live)
    ensures WfTrees(blobs, trees) && |trees| == |base| == |frozen|
    ensures forall cf :: 0 <= cf < |written| ==>
      && Elems(TreeKeys(blobs, trees[cf])) == Elems(TreeKeys(blobs, base[cf])) + Runs.KeySet(frozen[cf])
      && written[cf] == Elems(TreeKeys(blobs, base[cf])) + Runs.KeySet(frozen[cf]) + Runs.KeySet(live[cf])
  {
    hide TreeKeys; hide Runs.Concat;
    forall cf | 0 <= cf < |written|
      ensures VisibleCf(written[cf], blobs, trees[cf], [], live[cf])
    {
      assert VisibleCf(written[cf], blobs, base[cf], frozen[cf], live[cf]);
    }
  }

  lemma EmptyRuns()
    ensures Elems<Key>([]) == Runs.KeySet(Runs.Concat([]))
  {
  }

  lemma DrainedStorable(keys: seq<Key>, recs: seq<Runs.Rec>, written: set<Key>)
    requires Elems(keys) == Runs.KeySet(recs) && Runs.KeySet(recs) <= written
    requires forall k :: k in written ==> PageTrees.Storable(k)
    ensures AllStorable(keys)
  {
    forall k | k in keys
      ensures PageTrees.Storable(k)
    {
      assert k in Elems(keys);
    }
  }

  lemma {:induction false} RequestsAbove(reqs: seq<CfKeys>, cf: nat)
    requires forall r :: r in reqs ==> r.cf < cf
    ensures KeysFor(reqs, cf) == {}
  {
    if reqs != [] {
      var front, last := reqs[..|reqs| - 1], reqs[|reqs| - 1];
      assert last in reqs && forall r :: r in front ==> r in reqs;
      RequestsAbove(front, cf);
    }
  }

  lemma RequestAppended(reqs: seq<CfKeys>, r: CfKeys)
    ensures forall cf :: KeysFor(reqs + [r], cf) == KeysFor(reqs, cf) + (if r.cf == cf then Elems(r.keys) else {})
  {
    assert (reqs + [r])[..|reqs|] == reqs;
  }
}
