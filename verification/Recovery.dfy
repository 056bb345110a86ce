/** Crashes: what a store opened on the disk of another one holds, over any number of sessions, and which
    datoms a flush, an aborted flush and the deletion of log segments leave behind. */
module Recovery {
  import opened Bytes
  import opened Journal
  import opened PageStore
  import opened KvStore
  import MemTables
  import PageGc
  import PageTrees
  import Runs
  import Wal

  // ---- opening what a crash left ----

  /** Reads every segment on disk back, in order. */
  method ReplayJournals(disk: map<nat, seq<byte>>, n: nat) returns (recs: seq<CfKey>)
    ensures recs == Wal.ReplaySegments(disk, 0, n)
  {
    hide ParseFrom;
    recs := [];
    for i := 0 to n
      invariant recs == Wal.ReplaySegments(disk, 0, i)
    {
      if i in disk {
        var part := ParseJournalRecords(disk[i]);
        recs := recs + part;
      }
    }
  }

  /** Datoms go to the first column family only. */
  lemma DatomBatch(recs: seq<CfKey>)
    requires AllDatoms(recs)
    ensures BatchKeys(recs, 0) == EntryKeys(recs)
    ensures forall cf :: cf > 0 ==> MemTables.BatchRecs(recs, cf) == []
  {
    hide EntryKeys; hide BatchKeys;
    OnlyDatoms(recs);
    DatomKeys(recs);
    forall cf | cf > 0
      ensures MemTables.BatchRecs(recs, cf) == []
    {
      BatchElsewhere(recs, cf);
    }
  }

  lemma {:induction false} OnlyDatoms(recs: seq<CfKey>)
    requires AllDatoms(recs)
    ensures Datoms(recs) == recs
  {
    if recs != [] {
      var front, last := recs[..|recs| - 1], recs[|recs| - 1];
      assert last in recs && recs == front + [last];
      OnlyDatoms(front);
    }
  }

  /** A memtable with the datoms of every segment. */
  method ReplayInto(disk: map<nat, seq<byte>>, n: nat, numCf: nat) returns (table: MemTables.MemTable)
    requires numCf > 0 && AllDatoms(Wal.ReplaySegments(disk, 0, n))
    ensures fresh(table) && table.Valid() && table.numCf == |table.live| == |table.frozen| == numCf
    ensures Runs.KeySet(table.live[0]) == EntryKeys(Wal.ReplaySegments(disk, 0, n))
    ensures forall cf :: 0 < cf < numCf ==> table.live[cf] == []
    ensures forall rs :: rs in table.frozen ==> rs == []
  {
    hide Wal.ReplaySegments; hide EntryKeys; hide Runs.KeySet; hide BatchKeys; hide MemTables.MemTable.Valid;
    var recs := ReplayJournals(disk, n);
    table := new MemTables.MemTable(numCf);
    table.Batch(recs);
    DatomBatch(recs);
    BatchLive(recs, table.live[0]);
  }

  /** Opens a store on the pages and segments of one that stopped at any point: it shows exactly the
      datoms on disk, which are the visible and the journaled ones and at most aborted ones besides. */
  method Reopen(kv: KVStore, ghost m: Merge) returns (again: KVStore)
    requires kv.Valid() && MergeReady(m, kv.inflight, kv.ps) && Anchored(m, kv.ps)
    ensures fresh(again) && fresh(again.ps) && fresh(again.mt) && fresh(again.wal)
    ensures again.Valid() && again.pending == {} && again.dropped == {} && again.inflight == None
    ensures Anchored(NoMerge, again.ps) && again.ps.roots == kv.ps.roots && again.mt.numCf == kv.mt.numCf
    ensures |again.written| == again.mt.numCf > 0 && |kv.written| > 0
    ensures again.written[0] == Recovered(kv)
    ensures kv.written[0] + kv.pending <= again.written[0] <= kv.written[0] + kv.pending + kv.dropped
  {
    hide KVStore.Valid; hide LogBytes; hide TreeKeys; hide Wal.ReplaySegments; hide EntryKeys; hide Recovered;
    hide Runs.KeySet;
    hide WfTrees; hide Wal.Writer.Valid; hide MemTables.MemTable.Valid; hide BatchKeys;
    kv.Sizes();
    RecoveryComplete(kv, m);
    Reopenable(kv, m);
    var listed := PageGc.ListRoots(kv.ps.roots.Keys);
    ghost var newest := if m.Merged? then m.root else kv.ps.currentRoot;
    NewestIsFirst(listed, kv.ps.roots, newest);
    var pages := new Store.Open(kv.ps.blobs, kv.ps.next, kv.ps.roots, listed[0], kv.ps.numCf);
    var table := ReplayInto(kv.wal.disk, kv.wal.segIdx + 1, kv.mt.numCf);
    var log := new Wal.Writer(kv.wal.disk, kv.wal.segIdx + 1);
    assert pages.trees == kv.ps.roots[newest];
    again := new KVStore(pages, table, log);
    LoadedIs(kv.ps.blobs, kv.ps.roots, newest);
    RecoveredParts(kv);
  }

  lemma BatchLive(recs: seq<CfKey>, live: seq<Runs.Rec>)
    requires live == [] + MemTables.BatchRecs(recs, 0)
    ensures Runs.KeySet(live) == BatchKeys(recs, 0)
  {
    assert live == MemTables.BatchRecs(recs, 0);
  }

  lemma RecoveredParts(kv: KVStore)
    ensures Recovered(kv)
      == LoadedKeys(kv.ps.blobs, kv.ps.roots) + EntryKeys(Wal.ReplaySegments(kv.wal.disk, 0, kv.wal.segIdx + 1))
  {
  }

  /** What opening relies on. */
  lemma Reopenable(kv: KVStore, m: Merge)
    requires kv.Valid() && MergeReady(m, kv.inflight, kv.ps) && Anchored(m, kv.ps)
    ensures kv.ps.Valid() && kv.ps.Complete() && kv.ps.numCf == kv.mt.numCf > 0
    ensures forall name :: name in kv.ps.roots ==> |kv.ps.roots[name]| == kv.mt.numCf
    ensures forall idx :: idx in kv.wal.disk ==> idx < kv.wal.segIdx + 1
    ensures AllDatoms(Wal.ReplaySegments(kv.wal.disk, 0, kv.wal.segIdx + 1))
  {
    hide LogBytes; hide TreeKeys; hide Wal.ReplaySegments; hide EntryKeys; hide Backed; hide Runs.KeySet;
    var g := OnDisk(kv);
    assert forall e :: e in kv.wal.recs[g..] ==> e in kv.wal.recs;
  }

  // ---- sessions ----

  /** The clock does not step back from one session to the next. */
  ghost predicate AdvancingAll(runs: seq<seq<Op>>, names: set<RootName>)
  {
    runs == [] || (Advancing(runs[0], names) && AdvancingAll(runs[1..], names + RootNames(runs[0])))
  }

  ghost function AllWritten(runs: seq<seq<Op>>): set<Key>
  {
    if runs == [] then {} else WrittenBy(runs[0], 0) + AllWritten(runs[1..])
  }

  lemma {:induction false} AdvancingFewer(runs: seq<seq<Op>>, names: set<RootName>, fewer: set<RootName>)
    requires AdvancingAll(runs, names) && fewer <= names
    ensures AdvancingAll(runs, fewer)
  {
    hide RootNames;
    if runs != [] {
      AdvancingFewer(runs[1..], names + RootNames(runs[0]), fewer + RootNames(runs[0]));
    }
  }

  /** The keys whose flush was given up in some session, each session starting from its own shelf. */
  ghost function AllLost(runs: seq<seq<Op>>, starts: seq<Shelf>): (ks: set<Key>)
    requires |starts| > |runs|
  {
    if runs == [] then {} else LostBy(runs[0], starts[0], 0) + AllLost(runs[1..], starts[1..])
  }

  /** Every session shows what the one before it showed at its crash, and perhaps keys whose flush that one
      had given up. */
  ghost predicate Continues(runs: seq<seq<Op>>, starts: seq<Shelf>)
  {
    && |starts| == |runs| + 1 && (forall s :: s in starts ==> s.frozen == {})
    && forall i :: 0 <= i < |runs| ==>
      var shown := Shown(ShelfAfter(runs[i], starts[i], 0));
      shown <= Shown(starts[i + 1]) <= shown + LostBy(runs[i], starts[i], 0)
  }

  /** Over any number of sessions nothing is shown that was not written, and everything written is shown
      or its flush was given up. */
  lemma {:induction false} ContinuesBounds(runs: seq<seq<Op>>, starts: seq<Shelf>)
    requires Continues(runs, starts)
    ensures Shown(starts[|runs|]) <= Shown(starts[0]) + AllWritten(runs)
    ensures Shown(starts[0]) + AllWritten(runs) <= Shown(starts[|runs|]) + AllLost(runs, starts)
  {
    hide ShelfAfter; hide LostBy; hide WrittenBy; hide Shown;
    if runs != [] {
      assert starts[0] in starts && forall s :: s in starts[1..] ==> s in starts;
      ShownBounds(runs[0], starts[0], 0);
      assert forall i :: 0 <= i < |runs| - 1 ==> runs[1..][i] == runs[i + 1];
      assert forall i :: 0 <= i < |runs| ==> starts[1..][i] == starts[i + 1];
      ContinuesBounds(runs[1..], starts[1..]);
    }
  }

  /** Without aborts nothing is lost. */
  lemma {:induction false} NoneLost(runs: seq<seq<Op>>, starts: seq<Shelf>)
    requires |starts| > |runs| && (forall s :: s in starts ==> s.frozen == {})
    requires forall run, op :: run in runs && op in run ==> !op.Abort?
    ensures AllLost(runs, starts) == {}
  {
    hide LostBy;
    if runs != [] {
      assert runs[0] in runs && forall run :: run in runs[1..] ==> run in runs;
      assert starts[0] in starts && forall s :: s in starts[1..] ==> s in starts;
      ShownWithoutAbort(runs[0], starts[0], 0);
      NoneLost(runs[1..], starts[1..]);
    }
  }

  /** Any number of sessions, each any interleaving and ended by a crash wherever it stands.  Each session
      begins with what the one before it showed and at most keys whose flush that one had given up; so the
      last store shows nothing but what was there or was written, and all of it but such keys.  Without
      aborts that is exactly what was there and what was written in all the sessions. */
  method Sessions(kv: KVStore, runs: seq<seq<Op>>) returns (last: KVStore, ghost starts: seq<Shelf>)
    requires kv.Valid() && kv.pending == {} && kv.dropped == {} && kv.inflight == None && Anchored(NoMerge, kv.ps)
    requires |kv.written| > 0
    requires AdvancingAll(runs, kv.ps.roots.Keys)
    requires forall run, op :: run in runs && op in run ==> Acceptable(op)
    modifies kv, kv.ps, kv.mt, kv.wal
    ensures last.Valid() && last.pending == {} && last.inflight == None && |last.written| > 0
    ensures Continues(runs, starts) && starts[0] == old(kv.ShelfOf(0)) && last.written[0] == Shown(starts[|runs|])
    ensures old(kv.written[0]) + AllWritten(runs) - AllLost(runs, starts) <= last.written[0]
    ensures last.written[0] <= old(kv.written[0]) + AllWritten(runs)
    ensures (forall run, op :: run in runs && op in run ==> !op.Abort?) ==>
      last.written[0] == old(kv.written[0]) + AllWritten(runs)
  {
    hide KVStore.Valid; hide KVStore.ShelfOf; hide Shown; hide AllWritten; hide AllLost; hide ShelfAfter; hide LostBy;
    kv.Sizes();
    kv.ShownIs(0);
    last, starts := Chain(kv, runs);
    ContinuesBounds(runs, starts);
    if forall run, op :: run in runs && op in run ==> !op.Abort? {
      NoneLost(runs, starts);
    }
  }

  /** The sessions one after the other. */
  method Chain(kv: KVStore, runs: seq<seq<Op>>) returns (last: KVStore, ghost starts: seq<Shelf>)
    requires kv.Valid() && kv.pending == {} && kv.dropped == {} && kv.inflight == None && Anchored(NoMerge, kv.ps)
    requires |kv.written| > 0
    requires AdvancingAll(runs, kv.ps.roots.Keys)
    requires forall run, op :: run in runs && op in run ==> Acceptable(op)
    modifies kv, kv.ps, kv.mt, kv.wal
    ensures last.Valid() && last.pending == {} && last.inflight == None && |last.written| > 0
    ensures Continues(runs, starts) && starts[0] == old(kv.ShelfOf(0)) && last.written[0] == Shown(starts[|runs|])
    decreases |runs|
  {
    hide KVStore.Valid; hide Recovered; hide WrittenBy; hide Anchored; hide Acceptable; hide MergeReady;
    hide RootNames;
    hide Advancing; hide ScanExact; hide KVStore.ShelfOf; hide ShelfAfter; hide LostBy; hide Shown; hide Continues;
    kv.Sizes();
    kv.ShownIs(0);
    kv.IdleShelf(0);
    if runs == [] {
      OneShelf(kv.ShelfOf(0));
      return kv, [kv.ShelfOf(0)];
    }
    var ops := runs[0];
    assert ops in runs && forall run :: run in runs[1..] ==> run in runs;
    ghost var names, first := kv.ps.roots.Keys, kv.ShelfOf(0);
    var scans;
    ghost var m;
    kv.FirstShelf();
    scans, m := kv.Run(ops);
    kv.Sizes();
    kv.FirstShelf();
    kv.ShownIs(0);
    var again := Reopen(kv, m);
    again.ShownIs(0);
    AdvancingFewer(runs[1..], names + RootNames(ops), again.ps.roots.Keys);
    ghost var rest;
    last, rest := Chain(again, runs[1..]);
    starts := [first] + rest;
    OneMoreSession(runs, first, rest);
  }

  lemma OneShelf(s: Shelf)
    requires s.frozen == {}
    ensures Continues([], [s])
  {
  }

  lemma OneMoreSession(runs: seq<seq<Op>>, first: Shelf, rest: seq<Shelf>)
    requires runs != [] && Continues(runs[1..], rest) && first.frozen == {}
    requires var shown := Shown(ShelfAfter(runs[0], first, 0));
      shown <= Shown(rest[0]) <= shown + LostBy(runs[0], first, 0)
    ensures Continues(runs, [first] + rest) && ([first] + rest)[|runs|] == rest[|runs| - 1]
  {
    hide ShelfAfter; hide LostBy; hide Shown;
    var starts := [first] + rest;
    forall i | 0 <= i < |runs|
      ensures
        var shown := Shown(ShelfAfter(runs[i], starts[i], 0));
        shown <= Shown(starts[i + 1]) <= shown + LostBy(runs[i], starts[i], 0)
    {
      if i > 0 {
        assert runs[1..][i - 1] == runs[i] && starts[i] == rest[i - 1] && starts[i + 1] == rest[i];
      }
    }
  }

  // ---- what becomes of one datom ----

  lemma OneDatom(e: CfKey)
    requires e.cf == 0
    ensures BatchKeys([e], 0) == {e.key} && Datoms([e]) == [e]
  {
    assert [e][..0] == [];
    assert MemTables.BatchRecs([e], 0) == [] + [Runs.Rec(e.key, false, [])];
  }

  /** A key that is neither visible nor aborted is nowhere. */
  lemma Absent(kv: KVStore, k: Key)
    requires kv.Valid() && |kv.written| > 0 && k !in kv.written[0] + kv.pending + kv.dropped
    ensures |kv.ps.trees| > 0 && k !in TreeKeys(kv.ps.blobs, kv.ps.trees[0])
    ensures k !in EntryKeys(EarlierRecords(kv.wal)) + EntryKeys(kv.wal.recs)
  {
    hide LogBytes; hide TreeKeys; hide Wal.ReplaySegments; hide EntryKeys; hide Backed; hide Runs.KeySet;
    ZeroVisible(kv.written, kv.ps.blobs, kv.ps.trees, kv.mt.frozen, kv.mt.live);
  }

  /** With this session's segments gone only those of earlier sessions are replayed. */
  lemma OnlyEarlier(kv: KVStore)
    requires kv.Valid() && kv.wal.gone == |LogBytes(kv.wal.recs)|
    ensures Wal.ReplaySegments(kv.wal.disk, 0, kv.wal.segIdx + 1) == EarlierRecords(kv.wal)
  {
    hide LogBytes; hide TreeKeys; hide Wal.ReplaySegments;
    var g := OnDisk(kv);
    var recs := kv.wal.recs;
    assert recs[..|recs|] == recs;
    Wal.RecordIndexUnique(recs, g, |recs|);
    assert EarlierRecords(kv.wal) + [] == EarlierRecords(kv.wal);
  }

  /** Captures, prepares under a root of the given time, publishes and cycles the log. */
  method FlushAndCycle(kv: KVStore, now: PageGc.Clock)
    requires kv.Valid() && kv.pending == {} && kv.inflight == None && Anchored(NoMerge, kv.ps)
    modifies kv, kv.ps, kv.mt, kv.wal
    ensures kv.Valid() && kv.pending == {} && kv.inflight == None
    ensures kv.written == old(kv.written) && kv.dropped == old(kv.dropped)
    ensures kv.wal.gone == |LogBytes(kv.wal.recs)| && kv.wal.recs == old(kv.wal.recs)
    ensures kv.ps.currentRoot == PageGc.MakeRootName(now) && kv.ps.roots == old(kv.ps.roots)[kv.ps.currentRoot := kv.ps.trees]
    ensures forall t :: t in old(kv.ps.trees) ==> TreeKeys(kv.ps.blobs, t) == TreeKeys(old(kv.ps.blobs), t)
  {
    hide KVStore.Valid; hide LogBytes; hide TreeKeys; hide Prepared; hide PageGc.MakeRootName;
    kv.Phase(None);
    var b := kv.CaptureFlush();
    var root := PageGc.MakeRootName(now);
    var trees := kv.PrepareFlush(b.value, root);
    kv.PublishFlush(b.value, trees, root);
    kv.WalCycle();
  }

  /** A new datom is written, flushed under a root of the given time, and the log is cycled.  It survives
      a crash after that if and only if no root found before is newer than that time. */
  method FlushSurvives(kv: KVStore, e: CfKey, now: PageGc.Clock)
    requires kv.Valid() && kv.pending == {} && kv.inflight == None && Anchored(NoMerge, kv.ps)
    requires e.cf == 0 && PageTrees.Storable(e.key) && |kv.written| > 0 && e.key !in kv.written[0] + kv.dropped
    modifies kv, kv.ps, kv.mt, kv.wal
    ensures kv.Valid() && |kv.written| > 0 && e.key in kv.written[0]
    ensures e.key in Recovered(kv) <==> NotOlder(old(kv.ps.roots.Keys), PageGc.MakeRootName(now))
  {
    hide KVStore.Valid; hide LogBytes; hide TreeKeys; hide Recovered; hide PageGc.MakeRootName;
    hide EntryKeys; hide BatchKeys; hide Datoms; hide Wal.ReplaySegments; hide LoadedKeys;
    ghost var roots0, name0, trees0 := kv.ps.roots, kv.ps.currentRoot, kv.ps.trees;
    Absent(kv, e.key);
    OneDatom(e);
    kv.Sizes();
    kv.BatchWrite([e]);
    FlushAndCycle(kv, now);
    var root := PageGc.MakeRootName(now);
    if NotOlder(roots0.Keys, root) {
      RecoveryComplete(kv, NoMerge);
    } else {
      OnlyEarlier(kv);
      assert IsNewest(kv.ps.roots, name0) && kv.ps.roots[name0] == trees0;
      LoadedIs(kv.ps.blobs, kv.ps.roots, name0);
      assert trees0[0] in trees0;
      RecoveredParts(kv);
    }
  }

  /** Writing, capturing and giving up leave the pages. */
  lemma GivenUp(entries: seq<CfKey>, ss: seq<Shelf>)
    requires ss != []
    ensures
      var captured := NextShelves(Capture, Idle, NextShelves(Write(entries), Idle, ss));
      captured[0].frozen == ss[0].live + BatchKeys(entries, 0) && Shown(NextShelves(Abort, Captured, captured)[0]) == ss[0].paged
  {
  }

  lemma OneInBatch(e: CfKey)
    ensures e.key in BatchKeys([e], e.cf)
  {
    assert [e][..0] == [];
    var rec := Runs.Rec(e.key, false, []);
    assert MemTables.BatchRecs([e][..0], e.cf) == [];
    assert MemTables.BatchRecs([e], e.cf) == [rec];
    assert rec in [rec];
  }

  /** Writes a new datom and gives its flush up: it is not visible afterwards. */
  method WriteAndAbort(kv: KVStore, e: CfKey)
    requires kv.Valid() && kv.pending == {} && kv.inflight == None
    requires e.cf == 0 && PageTrees.Storable(e.key) && |kv.written| > 0 && e.key !in kv.written[0] + kv.dropped
    modifies kv, kv.mt, kv.wal
    ensures kv.Valid() && kv.pending == {} && kv.inflight == None && |kv.written| > 0
    ensures e.key !in kv.written[0] && e.key !in EntryKeys(EarlierRecords(kv.wal)) && e.key in kv.dropped
  {
    hide KVStore.Valid; hide LogBytes; hide TreeKeys; hide EntryKeys; hide BatchKeys; hide Datoms;
    hide Wal.ReplaySegments;
    hide Runs.KeySet; hide NextShelves; hide Shown; hide KVStore.Shelves;
    Absent(kv, e.key);
    kv.Sizes();
    kv.FirstShelf();
    GivenUp([e], kv.Shelves());
    kv.BatchWrite([e]);
    kv.Phase(None);
    var b := kv.CaptureFlush();
    kv.Phase(b);
    kv.FirstShelf();
    OneInBatch(e);
    kv.AbortFlush();
    kv.FirstShelf();
    kv.ShownIs(0);
  }

  /** A new datom is written and its flush given up; perhaps it is written again; then a flush succeeds
      and the log is cycled.  It survives if and only if it was written again. */
  method AbortSurvives(kv: KVStore, e: CfKey, again: bool, now: PageGc.Clock)
    requires kv.Valid() && kv.pending == {} && kv.inflight == None && Anchored(NoMerge, kv.ps)
    requires e.cf == 0 && PageTrees.Storable(e.key) && |kv.written| > 0 && e.key !in kv.written[0] + kv.dropped
    requires NotOlder(kv.ps.roots.Keys, PageGc.MakeRootName(now))
    modifies kv, kv.ps, kv.mt, kv.wal
    ensures kv.Valid() && |kv.written| > 0
    ensures e.key in kv.dropped
    ensures e.key in kv.written[0] <==> again
    ensures e.key in Recovered(kv) <==> again
  {
    hide KVStore.Valid; hide LogBytes; hide TreeKeys; hide Recovered; hide PageGc.MakeRootName; hide NextShelves;
    hide KVStore.Shelves;
    hide EntryKeys; hide BatchKeys; hide Datoms; hide Wal.ReplaySegments; hide LoadedKeys; hide Runs.KeySet;
    WriteAndAbort(kv, e);
    OneDatom(e);
    kv.Sizes();
    if again {
      kv.BatchWrite([e]);
    }
    FlushAndCycle(kv, now);
    kv.Sizes();
    if again {
      RecoveryComplete(kv, NoMerge);
    } else {
      OnlyEarlier(kv);
      LoadedHolds(kv, NoMerge);
      RecoveredParts(kv);
    }
  }
}
