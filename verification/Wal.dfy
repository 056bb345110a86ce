/** The segmented write-ahead log: buffered writes, rotation at flush boundaries, deletion of
    segments a published flush has made redundant. */
module Wal {
  import opened Bytes
  import opened MemTables
  import opened Journal

  datatype SealedSeg = SealedSeg(idx: nat, boundary: int)

  /** What the writer tells its listeners, in order. */
  datatype Event = Appended(bytes: seq<byte>) | Rotated(idx: nat)

  /** `pos` lies between two records of the log. */
  ghost predicate AtRecord(recs: seq<CfKey>, pos: int)
  {
    exists j :: 0 <= j <= |recs| && pos == |LogBytes(recs[..j])|
  }

  /** Where the segment after the first i sealed ones starts. */
  ghost function StartOf(sealed: seq<SealedSeg>, gone: int, i: nat): int
    requires i <= |sealed|
  {
    if i == 0 then gone else sealed[i - 1].boundary
  }

  /** The sealed segments and the live one cut the log from `gone` on into consecutive pieces,
      every cut between two records. */
  ghost predicate WfSegments(disk: map<nat, seq<byte>>, sealed: seq<SealedSeg>, segIdx: nat, gone: int,
                             log: seq<byte>, bufPos: int, recs: seq<CfKey>)
  {
    && log == LogBytes(recs)
    && |sealed| <= segIdx
    && 0 <= gone && AtRecord(recs, gone)
    && 0 <= StartOf(sealed, gone, |sealed|) <= bufPos <= |log|
    && segIdx in disk && disk[segIdx] == log[StartOf(sealed, gone, |sealed|)..bufPos]
    && (forall i :: 0 <= i < |sealed| ==> WfSealed(disk, sealed, segIdx, gone, log, recs, i))
  }

  ghost predicate WfSealed(disk: map<nat, seq<byte>>, sealed: seq<SealedSeg>, segIdx: nat, gone: int,
                           log: seq<byte>, recs: seq<CfKey>, i: nat)
    requires i < |sealed| <= segIdx
  {
    && sealed[i].idx == segIdx - |sealed| + i
    && 0 <= StartOf(sealed, gone, i) <= sealed[i].boundary <= |log|
    && AtRecord(recs, sealed[i].boundary)
    && sealed[i].idx in disk
    && disk[sealed[i].idx] == log[StartOf(sealed, gone, i)..sealed[i].boundary]
  }

  lemma LogPrefix(recs: seq<CfKey>, more: seq<CfKey>)
    ensures LogBytes(recs) <= LogBytes(recs + more)
    ensures LogBytes(recs + more) == LogBytes(recs) + LogBytes(more)
  {
    LogBytesConcat(recs, more);
  }

  lemma AtRecordGrows(recs: seq<CfKey>, more: seq<CfKey>, pos: int)
    requires AtRecord(recs, pos)
    ensures AtRecord(recs + more, pos)
  {
    var j :| 0 <= j <= |recs| && pos == |LogBytes(recs[..j])|;
    assert (recs + more)[..j] == recs[..j];
  }

  lemma AtRecordEnd(recs: seq<CfKey>)
    ensures AtRecord(recs, |LogBytes(recs)|) && AtRecord(recs, 0)
  {
    assert recs[..|recs|] == recs;
    assert |LogBytes(recs[..0])| == 0;
  }

  /** Appending records leaves every segment as it is. */
  lemma SegmentsGrow(disk: map<nat, seq<byte>>, sealed: seq<SealedSeg>, segIdx: nat, gone: int,
                     bufPos: int, recs: seq<CfKey>, more: seq<CfKey>)
    requires WfSegments(disk, sealed, segIdx, gone, LogBytes(recs), bufPos, recs)
    ensures WfSegments(disk, sealed, segIdx, gone, LogBytes(recs + more), bufPos, recs + more)
  {
    hide LogBytes;
    var log, log' := LogBytes(recs), LogBytes(recs + more);
    LogPrefix(recs, more);
    AtRecordGrows(recs, more, gone);
    SliceOfPrefix(log, log', StartOf(sealed, gone, |sealed|), bufPos);
    forall i | 0 <= i < |sealed|
      ensures WfSealed(disk, sealed, segIdx, gone, log', recs + more, i)
    {
      assert WfSealed(disk, sealed, segIdx, gone, log, recs, i);
      AtRecordGrows(recs, more, sealed[i].boundary);
      SliceOfPrefix(log, log', StartOf(sealed, gone, i), sealed[i].boundary);
    }
  }

  lemma SliceOfPrefix(a: seq<byte>, b: seq<byte>, i: int, j: int)
    requires a <= b
    ensures 0 <= i <= j <= |a| ==> b[i..j] == a[i..j]
  {
  }

  /** Writing the bytes up to `to` extends the live segment. */
  lemma SegmentsWrite(disk: map<nat, seq<byte>>, sealed: seq<SealedSeg>, segIdx: nat, gone: int,
                      log: seq<byte>, bufPos: int, recs: seq<CfKey>, to: int)
    requires WfSegments(disk, sealed, segIdx, gone, log, bufPos, recs)
    requires bufPos <= to <= |log|
    ensures WfSegments(disk[segIdx := disk[segIdx] + log[bufPos..to]], sealed, segIdx, gone, log, to, recs)
  {
    hide LogBytes; hide AtRecord;
    var disk' := disk[segIdx := disk[segIdx] + log[bufPos..to]];
    var s := StartOf(sealed, gone, |sealed|);
    assert log[s..bufPos] + log[bufPos..to] == log[s..to];
    forall i | 0 <= i < |sealed|
      ensures WfSealed(disk', sealed, segIdx, gone, log, recs, i)
    {
      assert WfSealed(disk, sealed, segIdx, gone, log, recs, i);
    }
  }

  /** Rotation turns the live segment into a sealed one and opens an empty segment. */
  lemma SegmentsRotate(disk: map<nat, seq<byte>>, sealed: seq<SealedSeg>, segIdx: nat, gone: int,
                       log: seq<byte>, bufPos: int, recs: seq<CfKey>)
    requires WfSegments(disk, sealed, segIdx, gone, log, bufPos, recs)
    requires AtRecord(recs, bufPos)
    ensures WfSegments(disk[segIdx + 1 := []], sealed + [SealedSeg(segIdx, bufPos)], segIdx + 1, gone, log, bufPos, recs)
  {
    hide LogBytes; hide AtRecord;
    var next := segIdx + 1;
    var disk', sealed' := disk[next := []], sealed + [SealedSeg(segIdx, bufPos)];
    assert log[bufPos..bufPos] == [];
    forall i | 0 <= i < |sealed'|
      ensures WfSealed(disk', sealed', next, gone, log, recs, i)
    {
      assert StartOf(sealed', gone, i) == StartOf(sealed, gone, i);
      if i < |sealed| {
        assert WfSealed(disk, sealed, segIdx, gone, log, recs, i);
      }
    }
  }

  /** Deleting the oldest sealed segment moves the retained part of the log to its end. */
  lemma SegmentsDrop(disk: map<nat, seq<byte>>, sealed: seq<SealedSeg>, segIdx: nat, gone: int,
                     log: seq<byte>, bufPos: int, recs: seq<CfKey>)
    requires WfSegments(disk, sealed, segIdx, gone, log, bufPos, recs) && sealed != []
    ensures WfSegments(disk - {sealed[0].idx}, sealed[1..], segIdx, sealed[0].boundary, log, bufPos, recs)
    ensures gone <= sealed[0].boundary
  {
    hide LogBytes; hide AtRecord;
    assert WfSealed(disk, sealed, segIdx, gone, log, recs, 0);
    var disk', sealed', gone' := disk - {sealed[0].idx}, sealed[1..], sealed[0].boundary;
    assert StartOf(sealed', gone', |sealed'|) == StartOf(sealed, gone, |sealed|);
    forall i | 0 <= i < |sealed'|
      ensures WfSealed(disk', sealed', segIdx, gone', log, recs, i)
    {
      assert WfSealed(disk, sealed, segIdx, gone, log, recs, i + 1);
      assert StartOf(sealed', gone', i) == StartOf(sealed, gone, i + 1);
    }
  }

  /** Segments of earlier sessions stay as they were found; between them and the retained segments of
      this session there are none. */
  ghost predicate EarlierKept(disk: map<nat, seq<byte>>, found: map<nat, seq<byte>>, firstSeg: nat, retained: int)
  {
    && firstSeg <= retained
    && (forall idx :: 0 <= idx < firstSeg ==> (idx in disk <==> idx in found) && (idx in disk ==> disk[idx] == found[idx]))
    && forall idx :: firstSeg <= idx < retained ==> idx !in disk
  }

  lemma FreshLog(segments: map<nat, seq<byte>>, firstFree: nat)
    requires forall idx :: idx in segments ==> idx < firstFree
    ensures EarlierKept(segments[firstFree := []], segments, firstFree, firstFree)
    ensures WfSegments(segments[firstFree := []], [], firstFree, 0, LogBytes([]), 0, [])
    ensures LogBytes([]) == []
  {
    AtRecordEnd([]);
  }

  class Writer {
    var disk: map<nat, seq<byte>>
    var segIdx: nat
    var offset: nat
    var buf: seq<byte>
    var bufPos: int
    var logicalEnd: int
    var sealBoundary: int
    var sealed: seq<SealedSeg>
    var stopped: bool

    /** Every record written since the log was attached, the position up to which segments
        were deleted, and what was announced. */
    ghost var recs: seq<CfKey>
    ghost var gone: int
    ghost var events: seq<Event>

    /** The segments of earlier sessions and the first one of this session. */
    ghost const found: map<nat, seq<byte>>
    ghost const firstSeg: nat

    ghost predicate Valid()
      reads this
    {
      && EarlierKept(disk, found, firstSeg, segIdx - |sealed|)
      && WfSegments(disk, sealed, segIdx, gone, LogBytes(recs), bufPos, recs)
      && offset == |disk[segIdx]|
      && logicalEnd == |LogBytes(recs)| == bufPos + |buf| && 0 <= bufPos
      && buf == LogBytes(recs)[bufPos..]
      && (sealBoundary == -1 || (bufPos <= sealBoundary <= logicalEnd && AtRecord(recs, sealBoundary)))
      && forall idx :: idx in disk ==> idx <= segIdx
    }

    constructor (segments: map<nat, seq<byte>>, firstFree: nat)
      requires forall idx :: idx in segments ==> idx < firstFree
      ensures Valid() && recs == [] && gone == 0 && sealed == [] && buf == [] && !stopped
      ensures segIdx == firstFree && sealBoundary == -1 && events == []
      ensures disk == segments[firstFree := []]
      ensures found == segments && firstSeg == firstFree
    {
      found, firstSeg := segments, firstFree;
      disk := segments[firstFree := []];
      segIdx := firstFree;
      offset := 0;
      buf := [];
      bufPos := 0;
      logicalEnd := 0;
      sealBoundary := -1;
      sealed := [];
      stopped := false;
      recs := [];
      gone := 0;
      events := [];
      new;
      hide EarlierKept; hide WfSegments; hide LogBytes;
      FreshLog(segments, firstFree);
    }

    /** Writes the first n buffered bytes at the end of the live segment. */
    method WriteLive(n: nat)
      requires Valid() && n <= |buf| && (sealBoundary >= 0 ==> bufPos + n <= sealBoundary)
      modifies this`disk, this`offset, this`buf, this`bufPos
      ensures Valid()
      ensures buf == old(buf)[n..] && bufPos == old(bufPos) + n
      ensures disk.Keys == old(disk).Keys
      ensures forall idx :: idx in disk && idx != segIdx ==> disk[idx] == old(disk[idx])
    {
      hide LogBytes; hide AtRecord; hide WfSegments;
      ghost var log := LogBytes(recs);
      LiveOnDisk(disk, sealed, segIdx, gone, log, bufPos, recs);
      SegmentsWrite(disk, sealed, segIdx, gone, log, bufPos, recs, bufPos + n);
      assert log[bufPos..bufPos + n] == buf[..n];
      assert log[bufPos + n..] == buf[n..];
      assert WriteAt(disk[segIdx], offset, buf[..n]) == disk[segIdx] + buf[..n];
      disk := disk[segIdx := WriteAt(disk[segIdx], offset, buf[..n])];
      offset := offset + n;
      bufPos := bufPos + n;
      buf := buf[n..];
    }

    /** Closes the live segment at the pending boundary and opens the next one. */
    method Rotate()
      requires Valid() && sealBoundary >= 0 && bufPos == sealBoundary
      modifies this`disk, this`segIdx, this`offset, this`sealBoundary, this`sealed, this`events
      ensures Valid() && sealBoundary == -1
      ensures sealed == old(sealed) + [SealedSeg(old(segIdx), old(sealBoundary))]
      ensures segIdx == old(segIdx) + 1
      ensures events == old(events) + [Rotated(old(segIdx))]
      ensures disk == old(disk)[segIdx := []]
    {
      hide LogBytes; hide AtRecord;
      SegmentsRotate(disk, sealed, segIdx, gone, LogBytes(recs), bufPos, recs);
      sealed := sealed + [SealedSeg(segIdx, sealBoundary)];
      events := events + [Rotated(segIdx)];
      segIdx := segIdx + 1;
      disk := disk[segIdx := []];
      offset := 0;
      sealBoundary := -1;
    }

    /** Writes the buffer to the live segment, closing the segment at a pending boundary. */
    method DrainLocked()
      requires Valid()
      modifies this`disk, this`segIdx, this`offset, this`buf, this`bufPos, this`sealBoundary, this`sealed, this`events
      ensures Valid()
      ensures buf == [] && sealBoundary == -1
      ensures Drained(old(sealBoundary), old(segIdx), old(sealed), old(events), segIdx, sealed, events)
      ensures OlderKept(old(disk), disk, old(segIdx))
    {
      hide LogBytes; hide AtRecord; hide WfSegments; hide EarlierKept;
      var running := true;
      while running
        invariant Valid()
        invariant running || (buf == [] && sealBoundary == -1)
        invariant sealBoundary >= 0 ==> running && sealBoundary == old(sealBoundary)
        invariant sealBoundary >= 0 ==> segIdx == old(segIdx) && sealed == old(sealed) && events == old(events)
        invariant sealBoundary == -1 ==>
          Drained(old(sealBoundary), old(segIdx), old(sealed), old(events), segIdx, sealed, events)
        invariant OlderKept(old(disk), disk, old(segIdx))
        decreases if running then (if sealBoundary >= 0 then 2 else 1) else 0
      {
        if sealBoundary >= 0 {
          var split := 0;
          if sealBoundary > bufPos {
            split := sealBoundary - bufPos;
            if split > |buf| {
              split := |buf|;
            }
          }
          if split > 0 {
            WriteLive(split);
          }
          if bufPos >= sealBoundary {
            Rotate();
          }
          running := buf != [];
        } else {
          if buf != [] {
            WriteLive(|buf|);
          }
          running := false;
        }
      }
    }

    /** Appends the records to the log, announces their bytes and writes them out. */
    method Sink(entries: seq<CfKey>)
      requires Valid() && buf == []
      modifies this`disk, this`segIdx, this`offset, this`buf, this`bufPos, this`logicalEnd,
               this`sealBoundary, this`sealed, this`events, this`recs
      ensures Valid() && buf == []
      ensures stopped ==> recs == old(recs) && disk == old(disk) && events == old(events)
      ensures !stopped ==> recs == old(recs) + entries && sealBoundary == -1
      ensures !stopped ==> Drained(old(sealBoundary), old(segIdx), old(sealed),
        old(events) + (if entries == [] then [] else [Appended(LogBytes(entries))]), segIdx, sealed, events)
      ensures OlderKept(old(disk), disk, old(segIdx))
    {
      hide AtRecord; hide WfSegments; hide LogBytes; hide Drained; hide EarlierKept; hide OlderKept;
      KeptSame(disk, segIdx);
      if stopped {
        return;
      }
      var data := Serialize(entries);
      ghost var before := recs;
      SegmentsGrow(disk, sealed, segIdx, gone, bufPos, recs, entries);
      LogPrefix(recs, entries);
      if sealBoundary >= 0 {
        AtRecordGrows(recs, entries, sealBoundary);
      }
      assert LogBytes(recs + entries)[bufPos..] == buf + data;
      buf := buf + data;
      logicalEnd := logicalEnd + |data|;
      recs := recs + entries;
      if |data| > 0 {
        events := events + [Appended(data)];
      }
      assert events == old(events) + (if entries == [] then [] else [Appended(data)]);
      DrainLocked();
    }

    /** Marks the current end of the log as a segment boundary. */
    method Seal() returns (boundary: int)
      requires Valid()
      modifies this`sealBoundary
      ensures Valid()
      ensures boundary == sealBoundary == logicalEnd == |LogBytes(recs)|
    {
      AtRecordEnd(recs);
      sealBoundary := logicalEnd;
      return logicalEnd;
    }

    /** Deletes the sealed segments that end at or before the durable position. */
    method DeleteDurable(durable: int)
      requires Valid()
      modifies this`disk, this`sealed, this`gone
      ensures Valid()
      ensures old(gone) <= gone && (gone == old(gone) || gone <= durable)
      ensures sealed != [] ==> sealed[0].boundary > durable
      ensures |sealed| <= |old(sealed)| && sealed == old(sealed)[|old(sealed)| - |sealed|..]
      ensures gone == StartOf(old(sealed), old(gone), |old(sealed)| - |sealed|)
    {
      hide LogBytes; hide AtRecord; hide WfSegments;
      while sealed != [] && sealed[0].boundary <= durable
        invariant Valid()
        invariant old(gone) <= gone && (gone == old(gone) || gone <= durable)
        invariant gone == StartOf(old(sealed), old(gone), |old(sealed)| - |sealed|)
        invariant |sealed| <= |old(sealed)| && sealed == old(sealed)[|old(sealed)| - |sealed|..]
        decreases |sealed|
      {
        FirstIsOlder(disk, sealed, segIdx, gone, LogBytes(recs), bufPos, recs);
        SegmentsDrop(disk, sealed, segIdx, gone, LogBytes(recs), bufPos, recs);
        disk := disk - {sealed[0].idx};
        gone := sealed[0].boundary;
        sealed := sealed[1..];
      }
    }
  }

  /** The segments of a consistent snapshot: everything buffered is written out first, then the
      segments before the live one are read in order, those of earlier sessions included. */
  method SnapshotLocked(w: Writer) returns (older: seq<seq<byte>>, live: seq<byte>)
    requires w.Valid()
    modifies w`disk, w`segIdx, w`offset, w`buf, w`bufPos, w`sealBoundary, w`sealed, w`events
    ensures w.Valid() && w.buf == [] && w.sealBoundary == -1
    ensures Drained(old(w.sealBoundary), old(w.segIdx), old(w.sealed), old(w.events), w.segIdx, w.sealed, w.events)
    ensures Flatten(older) + live == SegmentBytes(w.disk, 0, w.segIdx + 1)
  {
    hide LogBytes; hide AtRecord; hide Flatten; hide Drained; hide OlderKept;
    w.DrainLocked();
    older := [];
    FlattenNone<byte>();
    for i := 0 to w.segIdx
      invariant Flatten(older) == SegmentBytes(w.disk, 0, i)
      modifies {}
    {
      if i in w.disk {
        FlattenConcat(older, [w.disk[i]]);
        FlattenSingle(w.disk[i]);
        older := older + [w.disk[i]];
      }
    }
    LiveOnDisk(w.disk, w.sealed, w.segIdx, w.gone, LogBytes(w.recs), w.bufPos, w.recs);
    live := w.disk[w.segIdx];
  }

  lemma {:induction false} SegmentBytesSplit(disk: map<nat, seq<byte>>, lo: nat, mid: nat, hi: nat)
    requires lo <= mid <= hi
    ensures SegmentBytes(disk, lo, hi) == SegmentBytes(disk, lo, mid) + SegmentBytes(disk, mid, hi)
    decreases hi - mid
  {
    if mid < hi {
      SegmentBytesSplit(disk, lo, mid, hi - 1);
    }
  }

  /** A snapshot holds the earlier sessions' segments and then the log from the deleted position on. */
  lemma SnapshotIsLog(w: Writer)
    requires w.Valid() && w.buf == []
    ensures 0 <= w.gone <= |LogBytes(w.recs)| && |w.sealed| <= w.segIdx
    ensures SegmentBytes(w.disk, 0, w.segIdx + 1)
      == SegmentBytes(w.disk, 0, w.segIdx - |w.sealed|) + LogBytes(w.recs)[w.gone..]
  {
    hide LogBytes; hide SegmentBytes; hide AtRecord;
    RetainedSuffix(w);
    var first := w.segIdx - |w.sealed|;
    SegmentBytesSplit(w.disk, 0, first, w.segIdx + 1);
    var tail := SegmentBytes(w.disk, first, w.segIdx + 1);
    assert tail + [] == tail;
  }

  function WriteAt(file: seq<byte>, off: nat, data: seq<byte>): (out: seq<byte>)
    requires off <= |file|
  {
    file[..off] + data + if off + |data| < |file| then file[off + |data|..] else []
  }

  /** What one drain does to the list of sealed segments: a pending boundary closes one segment. */
  ghost predicate Drained(boundary: int, segIdx: nat, sealed: seq<SealedSeg>, events: seq<Event>,
                          segIdx': nat, sealed': seq<SealedSeg>, events': seq<Event>)
  {
    if boundary >= 0 then
      && sealed' == sealed + [SealedSeg(segIdx, boundary)]
      && segIdx' == segIdx + 1
      && events' == events + [Rotated(segIdx)]
    else
      sealed' == sealed && segIdx' == segIdx && events' == events
  }

  /** Segments before the live one are neither changed nor added nor removed. */
  ghost predicate OlderKept(disk: map<nat, seq<byte>>, disk': map<nat, seq<byte>>, segIdx: nat)
  {
    forall idx :: 0 <= idx < segIdx ==> (idx in disk <==> idx in disk') && (idx in disk ==> disk'[idx] == disk[idx])
  }

  lemma KeptSame(disk: map<nat, seq<byte>>, segIdx: nat)
    ensures OlderKept(disk, disk, segIdx)
  {
  }

  lemma LiveOnDisk(disk: map<nat, seq<byte>>, sealed: seq<SealedSeg>, segIdx: nat, gone: int,
                   log: seq<byte>, bufPos: int, recs: seq<CfKey>)
    requires WfSegments(disk, sealed, segIdx, gone, log, bufPos, recs)
    ensures segIdx in disk && 0 <= bufPos <= |log|
  {
  }

  lemma FirstIsOlder(disk: map<nat, seq<byte>>, sealed: seq<SealedSeg>, segIdx: nat, gone: int,
                     log: seq<byte>, bufPos: int, recs: seq<CfKey>)
    requires WfSegments(disk, sealed, segIdx, gone, log, bufPos, recs) && sealed != []
    ensures sealed[0].idx == segIdx - |sealed| < segIdx && segIdx in disk
  {
    assert WfSealed(disk, sealed, segIdx, gone, log, recs, 0);
  }

  /** Encodes the entries one after the other. */
  method Serialize(entries: seq<CfKey>) returns (data: seq<byte>)
    ensures data == LogBytes(entries)
    ensures |data| > 0 <==> entries != []
  {
    data := [];
    for i := 0 to |entries|
      invariant data == LogBytes(entries[..i]) && (|data| > 0 <==> i > 0)
    {
      assert entries[..i + 1] == entries[..i] + [entries[i]];
      LogBytesConcat(entries[..i], [entries[i]]);
      assert LogBytes([entries[i]]) == RecordBytes(entries[i]) + [];
      data := data + RecordBytes(entries[i]);
    }
    assert entries[..|entries|] == entries;
  }

  // ---- what is on disk ----

  /** The bytes of segments lo (inclusive) to hi (exclusive), one after the other. */
  ghost function SegmentBytes(disk: map<nat, seq<byte>>, lo: nat, hi: nat): seq<byte>
    decreases hi - lo
  {
    if lo >= hi then [] else SegmentBytes(disk, lo, hi - 1) + if hi - 1 in disk then disk[hi - 1] else []
  }

  lemma {:induction false} SealedBytes(disk: map<nat, seq<byte>>, sealed: seq<SealedSeg>, segIdx: nat, gone: int,
                                       log: seq<byte>, bufPos: int, recs: seq<CfKey>, n: nat)
    requires WfSegments(disk, sealed, segIdx, gone, log, bufPos, recs) && n <= |sealed|
    ensures 0 <= gone <= StartOf(sealed, gone, n) <= |log|
    ensures SegmentBytes(disk, segIdx - |sealed|, segIdx - |sealed| + n) == log[gone..StartOf(sealed, gone, n)]
    decreases n
  {
    hide LogBytes; hide AtRecord;
    if n == 0 {
      if |sealed| > 0 {
        assert WfSealed(disk, sealed, segIdx, gone, log, recs, 0);
      }
      assert log[gone..gone] == [];
    } else {
      SealedBytes(disk, sealed, segIdx, gone, log, bufPos, recs, n - 1);
      assert WfSealed(disk, sealed, segIdx, gone, log, recs, n - 1);
      var a, b := StartOf(sealed, gone, n - 1), StartOf(sealed, gone, n);
      assert log[gone..a] + log[a..b] == log[gone..b];
    }
  }

  /** The sealed segments, the live segment and the buffer always concatenate to a suffix of the log:
      what is missing is exactly what was deleted. */
  lemma RetainedSuffix(w: Writer)
    requires w.Valid()
    ensures 0 <= w.gone <= |LogBytes(w.recs)|
    ensures SegmentBytes(w.disk, w.segIdx - |w.sealed|, w.segIdx + 1) + w.buf == LogBytes(w.recs)[w.gone..]
  {
    hide LogBytes; hide AtRecord;
    var log := LogBytes(w.recs);
    SealedBytes(w.disk, w.sealed, w.segIdx, w.gone, log, w.bufPos, w.recs, |w.sealed|);
    var s := StartOf(w.sealed, w.gone, |w.sealed|);
    assert log[w.gone..s] + log[s..w.bufPos] + log[w.bufPos..] == log[w.gone..];
  }

  /** The entries recovery reads from the segments below n, segment by segment. */
  ghost function ReplaySegments(disk: map<nat, seq<byte>>, lo: nat, hi: nat): seq<CfKey>
    decreases hi - lo
  {
    if lo >= hi then []
    else ReplaySegments(disk, lo, hi - 1) + if hi - 1 in disk then ParseFrom(disk[hi - 1], 0) else []
  }

  /** A slice of the log between two record boundaries replays to the records in it. */
  lemma SliceReplays(recs: seq<CfKey>, a: int, b: int) returns (i: nat, j: nat)
    requires AtRecord(recs, a) && AtRecord(recs, b) && a <= b
    requires forall e :: e in recs ==> Replayable(e)
    ensures i <= j <= |recs| && a == |LogBytes(recs[..i])| && b == |LogBytes(recs[..j])|
    ensures 0 <= a <= b <= |LogBytes(recs)|
    ensures LogBytes(recs)[a..b] == LogBytes(recs[i..j])
    ensures ParseFrom(LogBytes(recs)[a..b], 0) == Replayed(recs[i..j])
  {
    hide LogBytes; hide ParseFrom; hide Replayed; hide Replayable;
    i :| 0 <= i <= |recs| && a == |LogBytes(recs[..i])|;
    j :| 0 <= j <= |recs| && b == |LogBytes(recs[..j])|;
    if j < i {
      assert recs[..i] == recs[..j] + recs[j..i];
      LogBytesConcat(recs[..j], recs[j..i]);
      i := j;
    }
    assert recs[..j] == recs[..i] + recs[i..j];
    LogBytesConcat(recs[..i], recs[i..j]);
    assert recs == recs[..j] + recs[j..];
    LogBytesConcat(recs[..j], recs[j..]);
    assert LogBytes(recs)[a..b] == LogBytes(recs[i..j]);
    assert forall e :: e in recs[i..j] ==> e in recs;
    LogReplays([], recs[i..j]);
    assert [] + LogBytes(recs[i..j]) == LogBytes(recs[i..j]);
  }

  /** A position of the log belongs to one record index only. */
  lemma RecordIndexUnique(recs: seq<CfKey>, i: nat, j: nat)
    requires i <= |recs| && j <= |recs| && |LogBytes(recs[..i])| == |LogBytes(recs[..j])|
    ensures i == j
  {
    hide LogBytes;
    if i < j {
      LogLenGrows(recs, i, j);
    } else if j < i {
      LogLenGrows(recs, j, i);
    }
  }

  lemma LogLenGrows(recs: seq<CfKey>, i: nat, j: nat)
    requires i < j <= |recs|
    ensures |LogBytes(recs[..i])| < |LogBytes(recs[..j])|
  {
    assert recs[..j] == recs[..i] + recs[i..j];
    LogBytesConcat(recs[..i], recs[i..j]);
    assert |LogBytes(recs[i..j])| > 0;
  }

  lemma ReplayedCons(a: seq<CfKey>)
    requires a != []
    ensures Replayed(a) == (if a[0].cf <= 3 then [a[0]] else []) + Replayed(a[1..])
  {
  }

  lemma {:induction false} ReplayedConcat(a: seq<CfKey>, b: seq<CfKey>)
    ensures Replayed(a + b) == Replayed(a) + Replayed(b)
  {
    if a == [] {
      assert a + b == b;
    } else {
      var e, rest := a[0], a[1..];
      assert (a + b)[0] == e && (a + b)[1..] == rest + b;
      ReplayedConcat(rest, b);
      hide Replayed;
      ReplayedCons(a);
      ReplayedCons(a + b);
    }
  }

  lemma {:induction false} SealedReplay(disk: map<nat, seq<byte>>, sealed: seq<SealedSeg>, segIdx: nat, gone: int,
                                        bufPos: int, recs: seq<CfKey>, n: nat) returns (g: nat, m: nat)
    requires WfSegments(disk, sealed, segIdx, gone, LogBytes(recs), bufPos, recs) && n <= |sealed|
    requires forall e :: e in recs ==> Replayable(e)
    ensures g <= m <= |recs| && gone == |LogBytes(recs[..g])| && StartOf(sealed, gone, n) == |LogBytes(recs[..m])|
    ensures ReplaySegments(disk, segIdx - |sealed|, segIdx - |sealed| + n) == Replayed(recs[g..m])
    decreases n
  {
    hide LogBytes; hide ParseFrom; hide Replayed; hide Replayable;
    if n == 0 {
      g :| 0 <= g <= |recs| && gone == |LogBytes(recs[..g])|;
      m := g;
      NothingReplayed(recs, g);
    } else {
      var k;
      g, k := SealedReplay(disk, sealed, segIdx, gone, bufPos, recs, n - 1);
      assert WfSealed(disk, sealed, segIdx, gone, LogBytes(recs), recs, n - 1);
      var i, j := SliceReplays(recs, StartOf(sealed, gone, n - 1), StartOf(sealed, gone, n));
      RecordIndexUnique(recs, i, k);
      m := j;
      assert recs[g..m] == recs[g..k] + recs[k..m];
      ReplayedConcat(recs[g..k], recs[k..m]);
    }
  }

  lemma NothingReplayed(recs: seq<CfKey>, g: nat)
    requires g <= |recs|
    ensures Replayed(recs[g..g]) == []
  {
  }

  /** Recovery from the segments of this session returns exactly the records from the deleted
      position on, in the order they were written. */
  lemma WalReplays(w: Writer) returns (g: nat)
    requires w.Valid() && w.buf == []
    requires forall e :: e in w.recs ==> Replayable(e)
    ensures g <= |w.recs| && w.gone == |LogBytes(w.recs[..g])|
    ensures ReplaySegments(w.disk, w.segIdx - |w.sealed|, w.segIdx + 1) == Replayed(w.recs[g..])
  {
    hide LogBytes; hide ParseFrom; hide Replayed; hide Replayable;
    var n := |w.sealed|;
    var m;
    g, m := SealedReplay(w.disk, w.sealed, w.segIdx, w.gone, w.bufPos, w.recs, n);
    AtRecordEnd(w.recs);
    var i, j := SliceReplays(w.recs, StartOf(w.sealed, w.gone, n), w.bufPos);
    RecordIndexUnique(w.recs, i, m);
    assert w.recs[..|w.recs|] == w.recs;
    RecordIndexUnique(w.recs, j, |w.recs|);
    assert w.recs[g..] == w.recs[g..m] + w.recs[m..j];
    ReplayedConcat(w.recs[g..m], w.recs[m..j]);
  }

  // ---- a crash and what is read back ----

  lemma {:induction false} ReplaySplit(disk: map<nat, seq<byte>>, lo: nat, mid: nat, hi: nat)
    requires lo <= mid <= hi
    ensures ReplaySegments(disk, lo, hi) == ReplaySegments(disk, lo, mid) + ReplaySegments(disk, mid, hi)
    decreases hi - mid
  {
    hide ParseFrom;
    if mid < hi {
      ReplaySplit(disk, lo, mid, hi - 1);
    } else {
      assert ReplaySegments(disk, lo, mid) + [] == ReplaySegments(disk, lo, mid);
    }
  }

  lemma {:induction false} ReplaySame(a: map<nat, seq<byte>>, b: map<nat, seq<byte>>, lo: nat, hi: nat)
    requires forall idx :: lo <= idx < hi ==> (idx in a <==> idx in b) && (idx in a ==> a[idx] == b[idx])
    ensures ReplaySegments(a, lo, hi) == ReplaySegments(b, lo, hi)
    decreases hi - lo
  {
    hide ParseFrom;
    if lo < hi {
      ReplaySame(a, b, lo, hi - 1);
    }
  }

  lemma {:induction false} ReplayNone(disk: map<nat, seq<byte>>, lo: nat, hi: nat)
    requires forall idx :: lo <= idx < hi ==> idx !in disk
    ensures ReplaySegments(disk, lo, hi) == []
    decreases hi - lo
  {
    hide ParseFrom;
    if lo < hi {
      ReplayNone(disk, lo, hi - 1);
    }
  }

  /** Reading every segment on disk back gives what earlier sessions left and then exactly the records
      of this session from the deleted position on. */
  lemma DiskReplays(w: Writer) returns (g: nat)
    requires w.Valid() && w.buf == []
    requires forall e :: e in w.recs ==> Replayable(e)
    ensures g <= |w.recs| && w.gone == |LogBytes(w.recs[..g])|
    ensures ReplaySegments(w.disk, 0, w.segIdx + 1) == ReplaySegments(w.found, 0, w.firstSeg) + Replayed(w.recs[g..])
  {
    hide LogBytes; hide ParseFrom; hide Replayed; hide Replayable; hide ReplaySegments;
    g := WalReplays(w);
    var first := w.segIdx - |w.sealed|;
    ReplaySplit(w.disk, 0, first, w.segIdx + 1);
    ReplaySplit(w.disk, 0, w.firstSeg, first);
    ReplaySame(w.disk, w.found, 0, w.firstSeg);
    ReplayNone(w.disk, w.firstSeg, first);
    var earlier := ReplaySegments(w.found, 0, w.firstSeg);
    assert earlier + [] == earlier;
  }

  /** After a drain that closed a segment at the durable position, and nothing written since, deleting
      leaves nothing of this session to replay. */
  lemma AllDeleted(w: Writer, sealed: seq<SealedSeg>, gone: int, durable: int)
    requires w.Valid() && w.buf == [] && sealed != [] && |w.sealed| <= |sealed|
    requires w.sealed == sealed[|sealed| - |w.sealed|..]
    requires w.gone == StartOf(sealed, gone, |sealed| - |w.sealed|)
    requires sealed[|sealed| - 1].boundary == durable == |LogBytes(w.recs)|
    requires w.sealed != [] ==> w.sealed[0].boundary > durable
    ensures w.sealed == [] && w.gone == durable
  {
    hide LogBytes;
    FirstInside(w);
  }

  lemma FirstInside(w: Writer)
    requires w.Valid()
    ensures w.sealed != [] ==> w.sealed[0].boundary <= |LogBytes(w.recs)|
  {
    hide LogBytes; hide AtRecord;
    if w.sealed != [] {
      assert WfSealed(w.disk, w.sealed, w.segIdx, w.gone, LogBytes(w.recs), w.recs, 0);
    }
  }
}
