/** The journal record format: what the write-ahead log writes and what recovery reads back. */
module Journal {
  import opened Bytes
  import opened MemTables

  const MAX_KEY_LEN := 65536
  const MAX_VAL_LEN := 65536
  const RESYNC_CHAIN := 3

  /** One key-only record: length of column family byte and key, that byte, the key,
      and a one-byte value. */
  function RecordBytes(e: CfKey): (s: seq<byte>)
    ensures |s| == 10 + |e.key|
  {
    Be32(1 + |e.key|) + [e.cf % 256] + e.key + [0, 0, 0, 1, 0]
  }

  function LogBytes(entries: seq<CfKey>): (s: seq<byte>)
  {
    if entries == [] then [] else RecordBytes(entries[0]) + LogBytes(entries[1..])
  }

  lemma {:induction false} LogBytesConcat(a: seq<CfKey>, b: seq<CfKey>)
    ensures LogBytes(a + b) == LogBytes(a) + LogBytes(b)
  {
    hide RecordBytes;
    if a == [] {
      assert a + b == b;
    } else {
      assert (a + b)[1..] == a[1..] + b;
      LogBytesConcat(a[1..], b);
    }
  }

  // ---- reading ----

  /** Length of the record at `pos`, or -1 when there is none. */
  function RecordLenAt(data: seq<byte>, pos: nat): (len: int)
    ensures len == -1 || (9 <= len && pos + len <= |data|)
  {
    if pos + 10 > |data| then -1
    else
      var klen := ReadBe32(data, pos);
      if klen < 1 || klen > MAX_KEY_LEN then -1
      else if pos + 4 + klen + 4 > |data| then -1
      else if data[pos + 4] > 63 then -1
      else
        var vp := pos + 4 + klen;
        var vlen := ReadBe32(data, vp);
        if vlen > MAX_VAL_LEN || vp + 4 + vlen > |data| then -1 else 4 + klen + 4 + vlen
  }

  /** The key-only entry of the record at `pos`; column families above 3 are not replayed. */
  function EntryAt(data: seq<byte>, pos: nat): (out: seq<CfKey>)
    requires RecordLenAt(data, pos) > 0
  {
    var klen := ReadBe32(data, pos);
    if data[pos + 4] <= 3 then [CfKey(data[pos + 4], data[pos + 5..pos + 4 + klen])] else []
  }

  /** The image of a record of any kind: length of column family byte and key, that byte, the key, length of
      the value, the value. */
  function Image(cf: byte, key: seq<byte>, val: seq<byte>): (s: seq<byte>)
    requires |key| < 65536 && |val| <= 65536
  {
    Be32(1 + |key|) + [cf] + key + Be32(|val|) + val
  }

  ghost predicate ImageAt(data: seq<byte>, pos: nat, cf: byte, key: seq<byte>, val: seq<byte>)
  {
    |key| < 65536 && |val| <= 65536 && cf <= 63 && pos <= |data| && Image(cf, key, val) <= data[pos..]
  }

  /** Where the image of a record stands and ten bytes are left, the reader finds a record of its length. */
  lemma RecordFound(data: seq<byte>, pos: nat, cf: byte, key: seq<byte>, val: seq<byte>)
    requires ImageAt(data, pos, cf, key, val) && pos + 10 <= |data|
    ensures RecordLenAt(data, pos) == 9 + |key| + |val|
    ensures EntryAt(data, pos) == if cf <= 3 then [CfKey(cf, key)] else []
  {
    hide Be32; hide ReadBe32;
    var img := Image(cf, key, val);
    var a, v := Be32(1 + |key|), Be32(|val|);
    Be32RoundTrip(1 + |key|);
    Be32RoundTrip(|val|);
    assert img == a + ([cf] + key + v + val) == (a + [cf] + key) + v + val;
    assert forall i :: 0 <= i < |img| ==> data[pos + i] == img[i];
    assert data[pos..pos + 4] == a && data[pos + 4] == cf && data[pos + 5..pos + 5 + |key|] == key;
    assert data[pos + 5 + |key|..pos + 9 + |key|] == v;
    ReadsAt(data, pos, a);
    ReadsAt(data, pos + 5 + |key|, v);
  }

  lemma ReadsAt(data: seq<byte>, pos: nat, four: seq<byte>)
    requires pos + 4 <= |data| && data[pos..pos + 4] == four && |four| == 4
    ensures ReadBe32(data, pos) == ReadBe32(four, 0)
  {
    assert data[pos] == four[0] && data[pos + 1] == four[1] && data[pos + 2] == four[2] && data[pos + 3] == four[3];
  }

  /** And every record it finds is such an image. */
  lemma RecordIsImage(data: seq<byte>, pos: nat) returns (cf: byte, key: seq<byte>, val: seq<byte>)
    requires RecordLenAt(data, pos) >= 0
    ensures ImageAt(data, pos, cf, key, val) && RecordLenAt(data, pos) == 9 + |key| + |val| && pos + 10 <= |data|
  {
    hide Be32; hide ReadBe32;
    var klen := ReadBe32(data, pos);
    var vp := pos + 4 + klen;
    var vlen := ReadBe32(data, vp);
    cf, key, val := data[pos + 4], data[pos + 5..vp], data[vp + 4..vp + 4 + vlen];
    WritesBack(data, pos);
    WritesBack(data, vp);
    var img := Image(cf, key, val);
    FiveParts(data, pos, pos + 4, vp, vp + 4, vp + 4 + vlen);
    assert img == data[pos..vp + 4 + vlen];
    assert data[pos..][..|img|] == img;
  }

  lemma FiveParts(data: seq<byte>, a: nat, b: nat, c: nat, d: nat, e: nat)
    requires a <= b < c <= d <= e <= |data|
    ensures data[a..e] == data[a..b] + [data[b]] + data[b + 1..c] + data[c..d] + data[d..e]
  {
    assert data[a..e] == data[a..c] + data[c..e];
    assert data[a..c] == data[a..b] + [data[b]] + data[b + 1..c];
    assert data[c..e] == data[c..d] + data[d..e];
  }

  lemma WritesBack(data: seq<byte>, pos: nat)
    requires pos + 4 <= |data|
    ensures ReadBe32(data, pos) < 0x1_0000_0000 && Be32(ReadBe32(data, pos)) == data[pos..pos + 4]
  {
    var a, b, c, d := data[pos], data[pos + 1], data[pos + 2], data[pos + 3];
    var n := ReadBe32(data, pos);
    var x, y := a as int * 256 + b, (a as int * 256 + b) * 256 + c;
    assert n == y * 256 + d;
    Digits(y, d);
    Digits(x, c);
    Digits(a, b);
    Digits(0, a);
    assert data[pos..pos + 4] == [a, b, c, d];
  }

  lemma Digits(high: int, low: byte)
    ensures (high * 256 + low) / 256 == high && (high * 256 + low) % 256 == low
  {
  }

  datatype Chain = Chain(count: nat, end: nat)

  /** How many records follow each other from p on, and where they end. */
  function ChainFrom(data: seq<byte>, p: nat): (c: Chain)
    ensures p <= c.end
    decreases |data| - p
  {
    if p + 10 > |data| || RecordLenAt(data, p) < 0 then Chain(0, p)
    else
      var c := ChainFrom(data, p + RecordLenAt(data, p));
      Chain(c.count + 1, c.end)
  }

  /** The next position, from c on, where records plausibly start again; -1 when there is none. */
  function ResyncFrom(data: seq<byte>, c: nat): (r: int)
    ensures r == -1 || c <= r
    decreases |data| - c
  {
    if c + 10 > |data| then -1
    else
      var chain := ChainFrom(data, c);
      if chain.count >= RESYNC_CHAIN || (chain.count > 0 && chain.end + 10 > |data|) then c
      else ResyncFrom(data, c + 1)
  }

  function ParseFrom(data: seq<byte>, pos: nat): (out: seq<CfKey>)
    decreases |data| - pos
  {
    if pos + 10 > |data| then []
    else
      var len := RecordLenAt(data, pos);
      if len > 0 then EntryAt(data, pos) + ParseFrom(data, pos + len)
      else
        var c := ResyncFrom(data, pos + 1);
        if c < 0 then [] else ParseFrom(data, c)
  }

  // ---- where records plausibly start ----

  /** Exactly n records stand one after the other from p to `end`. */
  ghost predicate IsChain(data: seq<byte>, p: nat, n: nat, end: nat)
    decreases n
  {
    if n == 0 then end == p
    else RecordLenAt(data, p) >= 0 && IsChain(data, p + RecordLenAt(data, p), n - 1, end)
  }

  /** No record starts at p. */
  ghost predicate NoRecordAt(data: seq<byte>, p: nat)
  {
    p + 10 > |data| || RecordLenAt(data, p) < 0
  }

  /** Records plausibly start at c: three of them stand there, or some that reach the end of the data. */
  ghost predicate Plausible(data: seq<byte>, c: nat)
  {
    || (exists end: nat :: IsChain(data, c, 3, end))
    || (exists n: nat, end: nat :: n > 0 && IsChain(data, c, n, end) && end + 10 > |data|)
  }

  /** A chain continues as far as any other one from the same place. */
  lemma {:induction false} ChainExtends(data: seq<byte>, p: nat, n: nat, end: nat)
    requires IsChain(data, p, n, end)
    ensures n <= ChainFrom(data, p).count && ChainFrom(data, end).end == ChainFrom(data, p).end
    ensures NoRecordAt(data, end) ==> ChainFrom(data, p) == Chain(n, end)
    decreases n
  {
    hide RecordLenAt;
    if n > 0 {
      ShortRecord(data, p);
      ChainExtends(data, p + RecordLenAt(data, p), n - 1, end);
    }
  }

  lemma ShortRecord(data: seq<byte>, p: nat)
    requires RecordLenAt(data, p) >= 0
    ensures p + 10 <= |data|
  {
  }

  lemma {:induction false} ChainIsMaximal(data: seq<byte>, p: nat)
    ensures var c := ChainFrom(data, p); IsChain(data, p, c.count, c.end) && NoRecordAt(data, c.end)
    decreases |data| - p
  {
    hide RecordLenAt;
    if !(p + 10 > |data| || RecordLenAt(data, p) < 0) {
      ChainIsMaximal(data, p + RecordLenAt(data, p));
    }
  }

  lemma {:induction false} ChainPrefix(data: seq<byte>, p: nat, n: nat, end: nat, m: nat) returns (mid: nat)
    requires IsChain(data, p, n, end) && m <= n
    ensures IsChain(data, p, m, mid)
    decreases m
  {
    hide RecordLenAt;
    if m == 0 {
      mid := p;
    } else {
      mid := ChainPrefix(data, p + RecordLenAt(data, p), n - 1, end, m - 1);
    }
  }

  /** The reader's test for a plausible start. */
  lemma PlausibleIs(data: seq<byte>, c: nat)
    ensures var chain := ChainFrom(data, c);
      Plausible(data, c) <==> chain.count >= RESYNC_CHAIN || (chain.count > 0 && chain.end + 10 > |data|)
  {
    hide ChainFrom; hide IsChain; hide RecordLenAt;
    var chain := ChainFrom(data, c);
    ChainIsMaximal(data, c);
    if chain.count >= RESYNC_CHAIN {
      var mid := ChainPrefix(data, c, chain.count, chain.end, RESYNC_CHAIN);
    }
    if end: nat :| IsChain(data, c, RESYNC_CHAIN, end) {
      ChainExtends(data, c, RESYNC_CHAIN, end);
    }
    if n: nat, end: nat :| n > 0 && IsChain(data, c, n, end) && end + 10 > |data| {
      ChainExtends(data, c, n, end);
    }
  }

  /** The resynchronisation point is the least plausible start, if there is one. */
  lemma {:induction false} ResyncIsLeast(data: seq<byte>, c: nat)
    ensures var r := ResyncFrom(data, c);
      && (r >= 0 ==> c <= r && r + 10 <= |data| && Plausible(data, r) && forall p :: c <= p < r ==> !Plausible(data, p))
      && (r < 0 ==> forall p: nat :: c <= p && p + 10 <= |data| ==> !Plausible(data, p))
    decreases |data| - c
  {
    hide ChainFrom; hide Plausible;
    if c + 10 <= |data| {
      PlausibleIs(data, c);
      ResyncIsLeast(data, c + 1);
    }
  }

  /** Counts the records from `start` on: as many as stand there one after the other. */
  method MeasureChain(data: seq<byte>, start: nat) returns (c: Chain)
    ensures c == ChainFrom(data, start)
    ensures IsChain(data, start, c.count, c.end) && NoRecordAt(data, c.end)
  {
    hide RecordLenAt;
    var p, n := start, 0;
    while p + 10 <= |data| && RecordLenAt(data, p) >= 0
      invariant start <= p
      invariant ChainFrom(data, start) == Chain(n + ChainFrom(data, p).count, ChainFrom(data, p).end)
      decreases |data| - p
    {
      p := p + RecordLenAt(data, p);
      n := n + 1;
    }
    ChainIsMaximal(data, start);
    return Chain(n, p);
  }

  /** The least position behind a broken record where records plausibly start again. */
  method FindResync(data: seq<byte>, broken: nat) returns (r: int)
    ensures r == ResyncFrom(data, broken + 1)
    ensures r >= 0 ==>
      broken < r && r + 10 <= |data| && Plausible(data, r) && forall p :: broken < p < r ==> !Plausible(data, p)
    ensures r < 0 ==> forall p: nat :: broken < p && p + 10 <= |data| ==> !Plausible(data, p)
  {
    hide Plausible;
    ResyncIsLeast(data, broken + 1);
    var c := broken + 1;
    while c + 10 <= |data|
      invariant broken < c
      invariant ResyncFrom(data, broken + 1) == ResyncFrom(data, c)
      decreases |data| - c
    {
      var chain := MeasureChain(data, c);
      if chain.count >= RESYNC_CHAIN || (chain.count > 0 && chain.end + 10 > |data|) {
        return c;
      }
      c := c + 1;
    }
    return -1;
  }

  /** The recovery loop: records in order, resynchronising after damage. */
  method ParseJournalRecords(data: seq<byte>) returns (out: seq<CfKey>)
    ensures out == ParseFrom(data, 0)
  {
    hide RecordLenAt; hide ResyncFrom; hide EntryAt;
    out := [];
    var pos: nat := 0;
    var stop := false;
    ghost var whole := ParseFrom(data, 0);
    while pos + 10 <= |data| && !stop
      invariant whole == out + if stop then [] else ParseFrom(data, pos)
      decreases |data| - pos, !stop
    {
      var len := RecordLenAt(data, pos);
      if len > 0 {
        out := out + EntryAt(data, pos);
        pos := pos + len;
      } else {
        var c := FindResync(data, pos);
        if c < 0 {
          stop := true;
        } else {
          pos := c;
        }
      }
    }
  }

  // ---- what the log writes is what recovery reads ----

  /** A record recovery can read: the key fits the reader's limit, the column family its range. */
  predicate Replayable(e: CfKey)
  {
    1 + |e.key| <= MAX_KEY_LEN && e.cf <= 63
  }

  lemma RecordReads(before: seq<byte>, e: CfKey, after: seq<byte>)
    requires 1 + |e.key| < 0x1_0000_0000 && e.cf < 256
    ensures
      var d := before + RecordBytes(e) + after;
      && (RecordLenAt(d, |before|) == if Replayable(e) then |RecordBytes(e)| else -1)
      && (Replayable(e) ==> EntryAt(d, |before|) == if e.cf <= 3 then [e] else [])
  {
    var d, p := before + RecordBytes(e) + after, |before|;
    var klen := 1 + |e.key|;
    RecordLayout(before, e, after);
    Be32RoundTrip(klen);
    assert ReadBe32(d, p) == klen;
    assert ReadBe32(d, p + 4 + klen) == 1;
    assert d[p + 5..p + 4 + klen] == e.key;
  }

  lemma RecordLayout(before: seq<byte>, e: CfKey, after: seq<byte>)
    requires e.cf < 256
    ensures
      var d, p, n := before + RecordBytes(e) + after, |before|, |e.key|;
      && |d| >= p + 10 + n
      && d[p..p + 4] == Be32(1 + n)
      && d[p + 4] == e.cf
      && d[p + 5..p + 5 + n] == e.key
      && d[p + 5 + n..p + 10 + n] == [0, 0, 0, 1, 0]
  {
  }

  /** The entries of column families 0 to 3, which are the ones recovery replays. */
  function Replayed(entries: seq<CfKey>): (out: seq<CfKey>)
  {
    if entries == [] then []
    else (if entries[0].cf <= 3 then [entries[0]] else []) + Replayed(entries[1..])
  }

  /** One readable record is read whatever follows it. */
  lemma OneReplays(before: seq<byte>, e: CfKey, after: seq<byte>)
    requires Replayable(e)
    ensures var d := before + RecordBytes(e) + after;
      ParseFrom(d, |before|) == (if e.cf <= 3 then [e] else []) + ParseFrom(d, |before + RecordBytes(e)|)
  {
    hide RecordBytes; hide RecordLenAt; hide EntryAt; hide ResyncFrom;
    RecordReads(before, e, after);
  }

  /** Readable records in front are read whatever follows them. */
  lemma {:induction false} FrontReplays(before: seq<byte>, entries: seq<CfKey>, after: seq<byte>)
    requires forall e :: e in entries ==> Replayable(e)
    ensures var d := before + LogBytes(entries) + after;
      ParseFrom(d, |before|) == Replayed(entries) + ParseFrom(d, |before + LogBytes(entries)|)
    decreases |entries|
  {
    hide RecordBytes; hide ParseFrom; hide Replayable; hide RecordLenAt; hide EntryAt;
    var d := before + LogBytes(entries) + after;
    if entries == [] {
      assert before + LogBytes(entries) == before;
    } else {
      var e, rest := entries[0], entries[1..];
      assert e in entries && forall x :: x in rest ==> x in entries;
      assert LogBytes(entries) == RecordBytes(e) + LogBytes(rest);
      hide LogBytes;
      FrontReplays(before + RecordBytes(e), rest, after);
      OneReplays(before, e, LogBytes(rest) + after);
      Regrouped(before, RecordBytes(e), LogBytes(rest), after);
    }
  }

  lemma Regrouped(a: seq<byte>, b: seq<byte>, c: seq<byte>, d: seq<byte>)
    ensures a + (b + c) + d == a + b + (c + d) == (a + b) + c + d
    ensures a + (b + c) == a + b + c
  {
  }

  /** Recovery of a segment returns exactly the entries it was written from, in order. */
  lemma LogReplays(before: seq<byte>, entries: seq<CfKey>)
    requires forall e :: e in entries ==> Replayable(e)
    ensures ParseFrom(before + LogBytes(entries), |before|) == Replayed(entries)
  {
    hide LogBytes; hide Replayed;
    FrontReplays(before, entries, []);
    var d := before + LogBytes(entries);
    assert d + [] == d;
    assert ParseFrom(d, |d|) == [];
  }

  /** A single journaled record comes back exactly when it is within the reader's limits. */
  lemma RecordReplaysExactly(e: CfKey)
    requires 1 + |e.key| < 0x1_0000_0000 && e.cf <= 3
    ensures ParseFrom(RecordBytes(e), 0) == [e] <==> 1 + |e.key| <= MAX_KEY_LEN
  {
    hide RecordBytes; hide RecordLenAt; hide EntryAt;
    RecordReads([], e, []);
    assert [] + RecordBytes(e) + [] == RecordBytes(e);
    if 1 + |e.key| <= MAX_KEY_LEN {
      assert ParseFrom(RecordBytes(e), |RecordBytes(e)|) == [];
    } else {
      OversizedSkipped(RecordBytes(e), 0, e);
    }
  }

  lemma EntryShort(data: seq<byte>, pos: nat, e: CfKey)
    requires RecordLenAt(data, pos) > 0 && 1 + |e.key| > MAX_KEY_LEN
    ensures e !in EntryAt(data, pos)
  {
    hide ReadBe32;
  }

  /** Nothing read out of damaged bytes is longer than the reader's limit. */
  lemma {:induction false} OversizedSkipped(data: seq<byte>, pos: nat, e: CfKey)
    requires 1 + |e.key| > MAX_KEY_LEN
    ensures e !in ParseFrom(data, pos)
    decreases |data| - pos
  {
    hide RecordLenAt; hide EntryAt; hide ResyncFrom;
    if pos + 10 <= |data| {
      var len := RecordLenAt(data, pos);
      if len > 0 {
        OversizedSkipped(data, pos + len, e);
        EntryShort(data, pos, e);
      } else {
        var c := ResyncFrom(data, pos + 1);
        if c >= 0 {
          OversizedSkipped(data, c, e);
        }
      }
    }
  }

  // ---- damage ----

  /** Readable records up to the end of the data form a chain that reaches it. */
  lemma {:induction false} LogIsChain(before: seq<byte>, entries: seq<CfKey>)
    requires forall e :: e in entries ==> Replayable(e)
    ensures var d := before + LogBytes(entries); IsChain(d, |before|, |entries|, |d|)
    decreases |entries|
  {
    hide RecordBytes; hide RecordLenAt; hide EntryAt;
    if entries != [] {
      var e, rest := entries[0], entries[1..];
      assert e in entries && forall x :: x in rest ==> x in entries;
      var d := before + LogBytes(entries);
      assert d == before + RecordBytes(e) + LogBytes(rest);
      RecordReads(before, e, LogBytes(rest));
      assert d == (before + RecordBytes(e)) + LogBytes(rest);
      LogIsChain(before + RecordBytes(e), rest);
    }
  }

  /** A log with a damaged part between readable records loses exactly that part if no record is seen at
      its start and records do not plausibly start inside it. */
  lemma DamageLosesItself(front: seq<CfKey>, bad: seq<byte>, back: seq<CfKey>)
    requires forall e :: e in front + back ==> Replayable(e)
    requires
      var d, at := LogBytes(front) + bad + LogBytes(back), |LogBytes(front)|;
      bad != [] ==> NoRecordAt(d, at) && forall p :: at < p < at + |bad| ==> !Plausible(d, p)
    ensures ParseFrom(LogBytes(front) + bad + LogBytes(back), 0) == Replayed(front) + Replayed(back)
  {
    hide LogBytes; hide ParseFrom; hide Replayed; hide Plausible; hide NoRecordAt; hide RecordLenAt;
    var d, at := LogBytes(front) + bad + LogBytes(back), |LogBytes(front)|;
    assert forall e :: e in front ==> e in front + back;
    assert forall e :: e in back ==> e in front + back;
    FrontReplays([], front, bad + LogBytes(back));
    assert [] + LogBytes(front) + (bad + LogBytes(back)) == d && [] + LogBytes(front) == LogBytes(front);
    var resume := at + |bad|;
    assert d == (LogBytes(front) + bad) + LogBytes(back);
    LogReplays(LogBytes(front) + bad, back);
    if bad != [] {
      LogIsChain(LogBytes(front) + bad, back);
      EmptyBack(back);
      Resumes(d, at, resume, |back|);
    }
  }

  lemma EmptyBack(back: seq<CfKey>)
    ensures back == [] ==> Replayed(back) == [] && LogBytes(back) == []
    ensures back != [] ==> |LogBytes(back)| >= 10
  {
  }

  /** Behind damage the reader resumes where records start again. */
  lemma Resumes(d: seq<byte>, at: nat, resume: nat, n: nat)
    requires at < resume <= |d| && NoRecordAt(d, at) && (forall p :: at < p < resume ==> !Plausible(d, p))
    requires IsChain(d, resume, n, |d|) && (n > 0 ==> resume + 10 <= |d|) && (n == 0 ==> resume == |d|)
    ensures ParseFrom(d, at) == if n > 0 then ParseFrom(d, resume) else []
  {
    hide RecordLenAt; hide IsChain; hide EntryAt; hide ChainFrom; hide ResyncFrom;
    ResyncIsLeast(d, at + 1);
    var r := ResyncFrom(d, at + 1);
    if n > 0 {
      assert Plausible(d, resume);
      hide Plausible;
      assert r >= 0 && r == resume;
    }
  }
}
