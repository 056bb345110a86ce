/** Push replication: each replica gets a snapshot of the log segments and then every later log byte,
    through one ordered queue shared with seal marks, root marks and responses. */
module Replication {
  import opened Bytes
  import opened Journal
  import opened MachineInts
  import Keys
  import MemTables
  import Msgpack
  import Wal

  type CfKey = MemTables.CfKey

  /** The snapshot frame names the sealed segments by path; `size` is what its encoding comes to. */
  datatype Frame =
    | Snapshot(sealed: seq<seq<byte>>, live: seq<byte>, size: nat)
    | WalData(data: seq<byte>)
    | SealMark(idx: nat)
    | RootMark(name: int, maxT: int)
    | Response(body: seq<byte>)

  const BACKLOG_MAX_BYTES := 64 * 1024 * 1024

  /** The log bytes a list of frames carries. */
  function WalBytes(frames: seq<Frame>): (s: seq<byte>)
  {
    if frames == [] then []
    else
      var last := frames[|frames| - 1];
      WalBytes(frames[..|frames| - 1]) + if last.WalData? then last.data else []
  }

  lemma WalBytesAppend(frames: seq<Frame>, f: Frame)
    ensures WalBytes(frames + [f]) == WalBytes(frames) + if f.WalData? then f.data else []
  {
    assert (frames + [f])[..|frames|] == frames;
  }

  // ---- what a frame weighs ----

  function IntSize(i: int): (n: nat)
  {
    if -32 <= i <= 0x7f then 1
    else if -0x80 <= i <= 0xff then 2
    else if -0x8000 <= i <= 0xffff then 3
    else if -0x8000_0000 <= i <= 0xffff_ffff then 5
    else 9
  }

  /** What a frame takes on the connection: four bytes of length and its MessagePack map.  A root's name has
      21 characters. */
  function Wire(f: Frame): (n: nat)
  {
    4 + match f
      case Snapshot(_, _, size) => size
      case WalData(data) => 13 + (if |data| <= 0xff then 2 else if |data| <= 0xffff then 3 else 5) + |data|
      case SealMark(idx) => 13 + IntSize(idx)
      case RootMark(_, maxT) => 41 + IntSize(maxT)
      case Response(body) => |body|
  }

  /** What is added to the backlog on its account. */
  function Debit(f: Frame): (n: nat)
  {
    match f
    case WalData(data) => |data|
    case SealMark(_) => 48
    case RootMark(_, _) => 64
    case _ => Wire(f)
  }

  function Surplus(f: Frame): (n: nat)
  {
    if Debit(f) > Wire(f) then Debit(f) - Wire(f) else 0
  }

  function Excess(f: Frame): (n: nat)
  {
    if Wire(f) > Debit(f) then Wire(f) - Debit(f) else 0
  }

  function Text(s: string): (k: seq<byte>)
  {
    seq(|s|, i requires 0 <= i < |s| => s[i] as int % 256)
  }

  function Entry(key: string, value: Msgpack.Value, more: Msgpack.Pairs): (ps: Msgpack.Pairs)
  {
    Msgpack.Pairs(Msgpack.Str(Text(key)), value, more)
  }

  function WalMap(data: seq<byte>): (v: Msgpack.Value)
  {
    Msgpack.Map(Entry("ev", Msgpack.Str(Text("wal")), Entry("data", Msgpack.Bin(data), Msgpack.NoPairs)))
  }

  function SealMap(idx: nat): (v: Msgpack.Value)
  {
    Msgpack.Map(Entry("ev", Msgpack.Str(Text("seal")), Entry("idx", Msgpack.Int(idx), Msgpack.NoPairs)))
  }

  function RootMap(name: seq<byte>, maxT: int): (v: Msgpack.Value)
  {
    Msgpack.Map(Entry("ev", Msgpack.Str(Text("root")),
                      Entry("name", Msgpack.Str(name), Entry("maxT", Msgpack.Int(maxT), Msgpack.NoPairs))))
  }

  lemma EntrySize(key: string, value: Msgpack.Value, more: Msgpack.Pairs)
    requires |key| < 32 && Msgpack.Wf(value) && Msgpack.PairsWf(more)
    ensures Msgpack.PairsWf(Entry(key, value, more))
    ensures Msgpack.CountPairs(Entry(key, value, more)) == 1 + Msgpack.CountPairs(more)
    ensures |Msgpack.EncodePairs(Entry(key, value, more))|
         == 1 + |key| + |Msgpack.Encode(value)| + |Msgpack.EncodePairs(more)|
  {
  }

  lemma IntSizeIs(i: int)
    requires Keys.IsInt64(i)
    ensures |Msgpack.Encode(Msgpack.Int(i))| == IntSize(i)
  {
  }

  lemma TextSize(s: string)
    requires |s| < 32
    ensures Msgpack.Wf(Msgpack.Str(Text(s))) && |Msgpack.Encode(Msgpack.Str(Text(s)))| == 1 + |s|
  {
  }

  lemma TextOf(s: seq<byte>)
    requires |s| < 32
    ensures Msgpack.Wf(Msgpack.Str(s)) && |Msgpack.Encode(Msgpack.Str(s))| == 1 + |s|
  {
  }

  lemma MapSize(ps: Msgpack.Pairs)
    requires Msgpack.PairsWf(ps) && Msgpack.CountPairs(ps) < 16
    ensures Msgpack.Wf(Msgpack.Map(ps)) && |Msgpack.Encode(Msgpack.Map(ps))| == 1 + |Msgpack.EncodePairs(ps)|
  {
  }

  /** The sizes are those of the encoded maps. */
  lemma WireIsEncoded(data: seq<byte>, idx: nat, name: int, text: seq<byte>, maxT: int)
    requires |data| < TWO_32 && Keys.IsInt64(idx) && |text| == 21 && Keys.IsInt64(maxT)
    ensures Msgpack.Wf(WalMap(data)) && Wire(WalData(data)) == 4 + |Msgpack.Encode(WalMap(data))|
    ensures Msgpack.Wf(SealMap(idx)) && Wire(SealMark(idx)) == 4 + |Msgpack.Encode(SealMap(idx))|
    ensures Msgpack.Wf(RootMap(text, maxT)) && Wire(RootMark(name, maxT)) == 4 + |Msgpack.Encode(RootMap(text, maxT))|
  {
    hide Msgpack.Encode; hide Msgpack.EncodePairs; hide IntSize; hide Text;
    WalSize(data);
    TextSize("seal");
    IntSizeIs(idx);
    EntrySize("idx", Msgpack.Int(idx), Msgpack.NoPairs);
    NoEntries();
    EntrySize("ev", Msgpack.Str(Text("seal")), Entry("idx", Msgpack.Int(idx), Msgpack.NoPairs));
    MapSize(SealMap(idx).pairs);
    TextSize("root");
    TextOf(text);
    IntSizeIs(maxT);
    var last := Entry("maxT", Msgpack.Int(maxT), Msgpack.NoPairs);
    EntrySize("maxT", Msgpack.Int(maxT), Msgpack.NoPairs);
    EntrySize("name", Msgpack.Str(text), last);
    EntrySize("ev", Msgpack.Str(Text("root")), Entry("name", Msgpack.Str(text), last));
    MapSize(RootMap(text, maxT).pairs);
  }

  lemma NoEntries()
    ensures |Msgpack.EncodePairs(Msgpack.NoPairs)| == 0 && Msgpack.CountPairs(Msgpack.NoPairs) == 0
  {
  }

  lemma BinSize(data: seq<byte>)
    requires |data| < TWO_32
    ensures |Msgpack.Encode(Msgpack.Bin(data))| == (if |data| <= 0xff then 2 else if |data| <= 0xffff then 3 else 5) + |data|
  {
  }

  lemma WalSize(data: seq<byte>)
    requires |data| < TWO_32
    ensures Msgpack.Wf(WalMap(data)) && Wire(WalData(data)) == 4 + |Msgpack.Encode(WalMap(data))|
  {
    hide Msgpack.Encode; hide Msgpack.EncodePairs; hide Text;
    TextSize("wal");
    BinSize(data);
    NoEntries();
    EntrySize("data", Msgpack.Bin(data), Msgpack.NoPairs);
    EntrySize("ev", Msgpack.Str(Text("wal")), Entry("data", Msgpack.Bin(data), Msgpack.NoPairs));
    MapSize(WalMap(data).pairs);
  }

  /** Marks are charged more than they weigh, log frames less; responses and the snapshot exactly. */
  lemma FrameCharges(f: Frame)
    ensures f.SealMark? ==> 22 <= Surplus(f) <= 30
    ensures f.RootMark? ==> 10 <= Surplus(f) <= 18
    ensures f.WalData? ==> 19 <= Excess(f) <= 22
    ensures Surplus(f) > 0 <==> f.SealMark? || f.RootMark?
    ensures Excess(f) > 0 <==> f.WalData?
  {
  }

  function Sum(frames: seq<Frame>, size: Frame -> nat): (n: nat)
  {
    if frames == [] then 0 else Sum(frames[..|frames| - 1], size) + size(frames[|frames| - 1])
  }

  lemma {:induction false} SumConcat(a: seq<Frame>, b: seq<Frame>, size: Frame -> nat)
    ensures Sum(a + b, size) == Sum(a, size) + Sum(b, size)
    decreases |b|
  {
    if b == [] {
      assert a + b == a;
    } else {
      assert (a + b)[..|a + b| - 1] == a + b[..|b| - 1];
      SumConcat(a, b[..|b| - 1], size);
    }
  }

  lemma SumOne(f: Frame, size: Frame -> nat)
    ensures Sum([f], size) == size(f)
  {
    assert [f][..0] == [];
    assert Sum([f][..0], size) == 0;
  }

  /** Charged and weighed differ by surplus and excess. */
  lemma {:induction false} ChargedAndWeighed(frames: seq<Frame>)
    ensures Sum(frames, Debit) + Sum(frames, Excess) == Sum(frames, Wire) + Sum(frames, Surplus)
  {
    if frames != [] {
      ChargedAndWeighed(frames[..|frames| - 1]);
    }
  }

  /** The backlog counter against the bytes charged for what is still pending and the frames sent. */
  ghost predicate Tracks(backlog: int, pending: nat, sent: seq<Frame>)
  {
    pending - Sum(sent, Excess) <= backlog <= pending + Sum(sent, Surplus)
  }

  lemma ChargeTracks(backlog: int, pending: nat, sent: seq<Frame>, more: nat)
    requires Tracks(backlog, pending, sent)
    ensures Tracks(backlog + more, pending + more, sent)
  {
  }

  /** Crediting the weight of what was sent keeps the counter in step. */
  lemma CreditTracks(backlog: int, pending: nat, sent: seq<Frame>, batch: seq<Frame>)
    requires Tracks(backlog, pending + Sum(batch, Debit), sent)
    ensures backlog - Sum(batch, Wire) >= 0 ==> Tracks(backlog - Sum(batch, Wire), pending, sent + batch)
    ensures backlog - Sum(batch, Wire) < 0 ==> Tracks(0, pending, sent + batch)
  {
    hide Sum;
    ChargedAndWeighed(batch);
    SumConcat(sent, batch, Excess);
    SumConcat(sent, batch, Surplus);
  }

  // ---- the queue ----

  /** Frames that are not log data stand behind exactly the log bytes fed before they were queued. */
  ghost predicate InOrder(frames: seq<Frame>, marks: seq<nat>, fed: seq<byte>)
  {
    && |marks| == |frames|
    && forall i :: 0 <= i < |frames| && !frames[i].WalData? ==> MarkOk(frames, marks[i], fed, i)
  }

  ghost predicate MarkOk(frames: seq<Frame>, mark: nat, fed: seq<byte>, i: nat)
    requires i < |frames|
  {
    mark <= |fed| && WalBytes(frames[..i]) == fed[..mark]
  }

  /** One replication connection.  Each method is one critical section of the subscriber's lock. */
  class Subscriber {
    var buf: seq<byte>
    var queue: seq<Frame>
    var inflight: seq<Frame>
    var backlog: int
    var draining: bool
    var closed: bool
    /** Calls to `Pump` that an enqueueing caller still has to make. */
    var pumps: nat

    /** Every frame ever queued and how many log bytes had been fed by then; the frames the connection
        took; the log bytes fed while open. */
    ghost var out: seq<Frame>
    ghost var marks: seq<nat>
    ghost var sent: seq<Frame>
    ghost var fed: seq<byte>

    /** Whether a write failed; the bytes pending when a full backlog closed the subscriber. */
    ghost var failed: bool
    ghost var peak: nat

    /** The bytes charged for what is buffered, queued or being written. */
    ghost function Pending(): (n: nat)
      reads this
    {
      |buf| + Sum(queue, Debit) + Sum(inflight, Debit)
    }

    ghost predicate Valid()
      reads this
    {
      && Ordered()
      && 0 <= backlog
      && (!closed ==> Tracks(backlog, Pending(), sent) && !failed)
      && (closed && !failed ==> peak + Sum(sent, Surplus) > BACKLOG_MAX_BYTES)
    }

    ghost predicate Ordered()
      reads this
    {
      && WalBytes(out) + buf == fed
      && InOrder(out, marks, fed)
      && sent + inflight <= out
      && (!closed ==> sent + inflight + queue == out)
      && (!draining ==> inflight == [])
      && (!closed && queue != [] ==> draining || pumps > 0)
    }

    /** A registered subscriber: nothing queued yet. */
    constructor ()
      ensures Valid() && !closed && out == [] && marks == [] && fed == [] && sent == [] && buf == []
      ensures queue == [] && inflight == [] && !draining && pumps == 0 && !failed && backlog == 0 && Pending() == 0
    {
      buf, queue, inflight := [], [], [];
      backlog := 0;
      draining, closed := false, false;
      pumps := 0;
      out, marks, sent, fed := [], [], [], [];
      failed, peak := false, 0;
    }

    /** Appends a frame to the queue. */
    method Push(f: Frame)
      requires InOrder(out, marks, fed) && sent + inflight + queue == out && (!f.WalData? ==> WalBytes(out) == fed)
      modifies this`queue, this`out, this`marks
      ensures InOrder(out, marks, fed) && sent + inflight + queue == out
      ensures queue == old(queue) + [f] && out == old(out) + [f] && marks == old(marks) + [|fed|] && |marks| == |out|
      ensures WalBytes(out) == WalBytes(old(out)) + if f.WalData? then f.data else []
      ensures Sum(queue, Debit) == Sum(old(queue), Debit) + Debit(f)
    {
      hide WalBytes; hide InOrder; hide Sum; hide Debit;
      WalBytesAppend(out, f);
      KeepOrder(out, marks, fed, f, |fed|);
      SumConcat(queue, [f], Debit);
      SumOne(f, Debit);
      queue := queue + [f];
      out := out + [f];
      marks := marks + [|fed|];
      MarkedSizes(out, marks, fed);
    }

    /** Turns the buffered log bytes into a frame. */
    method FlushBuf()
      requires Ordered() && !closed
      modifies this`buf, this`queue, this`out, this`marks
      ensures InOrder(out, marks, fed) && sent + inflight + queue == out
      ensures buf == [] && WalBytes(out) == fed
      ensures out == old(out) + Flushed(old(buf)) && queue == old(queue) + Flushed(old(buf))
      ensures marks == old(marks) + if old(buf) == [] then [] else [|fed|]
      ensures Pending() == old(Pending())
    {
      hide WalBytes; hide InOrder; hide Sum;
      if |buf| > 0 {
        Push(WalData(buf));
        buf := [];
      }
    }

    /** Queues a mark, the snapshot or a response behind all log bytes fed so far. */
    method Enqueue(f: Frame)
      requires Valid() && !f.WalData?
      modifies this`buf, this`queue, this`backlog, this`out, this`marks, this`pumps
      ensures Valid()
      ensures closed ==> out == old(out) && marks == old(marks) && buf == old(buf)
      ensures !closed ==> out == old(out) + Flushed(old(buf)) + [f] && buf == []
      ensures !closed ==> |marks| == |out| && old(marks) <= marks && marks[|out| - 1] == |fed|
      ensures !closed ==> queue == old(queue) + Flushed(old(buf)) + [f] && pumps == old(pumps) + 1
      ensures !closed ==> Pending() == old(Pending()) + Debit(f) && backlog == old(backlog) + Debit(f)
    {
      hide WalBytes; hide InOrder; hide Sum; hide Debit; hide Tracks; hide Flushed;
      if closed {
        return;
      }
      FlushBuf();
      Push(f);
      ChargeTracks(backlog, old(Pending()), sent, Debit(f));
      backlog := backlog + Debit(f);
      pumps := pumps + 1;
    }

    /** Feeds log bytes.  A counter beyond 64 MiB closes the subscriber: then that much was pending, but for
        the surplus of the marks sent so far; and if it stays open no more is, but for the excess. */
    method AppendWal(data: seq<byte>)
      requires Valid()
      modifies this`buf, this`backlog, this`closed, this`fed, this`peak
      ensures Valid()
      ensures fed == if old(closed) then old(fed) else old(fed) + data
      ensures closed <==> old(closed) || old(backlog) + |data| > 67_108_864
      ensures buf == if old(closed) then old(buf) else old(buf) + data
      ensures !old(closed) ==> Pending() == old(Pending()) + |data| && backlog == old(backlog) + |data|
      ensures closed && !old(closed) ==> peak == Pending() && Pending() + Sum(sent, Surplus) > 67_108_864
      ensures !closed ==> Pending() <= 67_108_864 + Sum(sent, Excess)
    {
      hide WalBytes; hide InOrder; hide Sum;
      if closed {
        return;
      }
      FedGrows(out, marks, fed, data);
      buf := buf + data;
      fed := fed + data;
      backlog := backlog + |data|;
      if backlog > BACKLOG_MAX_BYTES {
        closed := true;
        peak := Pending();
      }
    }

    /** What one call into the log announces: its bytes, then the segment it closed, if any. */
    method Hear(data: seq<byte>, seg: nat, rotated: bool)
      requires Valid()
      modifies this`buf, this`queue, this`backlog, this`closed, this`out, this`marks, this`pumps, this`fed, this`peak
      ensures Valid()
      ensures fed == if old(closed) || data == [] then old(fed) else old(fed) + data
      ensures old(closed) ==> closed && out == old(out)
      ensures old(out) <= out
      ensures rotated && !closed ==>
        |out| == |marks| > 0 && out[|out| - 1] == SealMark(seg) && marks[|out| - 1] == |fed|
    {
      hide Valid;
      if data != [] {
        AppendWal(data);
      }
      if rotated {
        Enqueue(SealMark(seg));
      }
    }

    /** Starts the drain unless it runs already. */
    method Pump()
      requires Valid() && pumps > 0
      modifies this`draining, this`pumps
      ensures Valid() && pumps == old(pumps) - 1
      ensures draining <==> old(draining) || !closed
    {
      hide WalBytes; hide InOrder;
      pumps := pumps - 1;
      if !draining && !closed {
        draining := true;
      }
    }

    /** The running drain takes the whole queue in order, or ends because there is nothing to take. */
    method DrainTake()
      requires Valid() && draining && inflight == []
      modifies this`queue, this`inflight, this`draining
      ensures Valid()
      ensures closed || old(queue) == [] ==> !draining && inflight == [] && queue == old(queue)
      ensures !closed && old(queue) != [] ==> draining && inflight == old(queue) && queue == []
      ensures Pending() == old(Pending())
    {
      hide WalBytes; hide InOrder;
      if closed || queue == [] {
        draining := false;
      } else {
        inflight := queue;
        queue := [];
      }
    }

    /** The frames taken were written, and their weight is credited; or the connection failed after the first
        few of them, and closes. */
    method DrainDone(ok: bool, delivered: nat)
      requires Valid() && draining && delivered <= |inflight|
      modifies this`inflight, this`closed, this`backlog, this`sent, this`failed
      ensures Valid() && inflight == []
      ensures sent == old(sent) + if ok then old(inflight) else old(inflight)[..delivered]
      ensures closed <==> old(closed) || !ok
      ensures failed <==> old(failed) || !ok
      ensures ok ==> backlog == Max(0, old(backlog) - Sum(old(inflight), Wire))
      ensures ok ==> Pending() == old(Pending()) - Sum(old(inflight), Debit)
    {
      hide WalBytes; hide InOrder; hide Sum; hide Tracks;
      NothingSums();
      if !ok {
        closed, failed := true, true;
        sent := sent + inflight[..delivered];
      } else {
        if !closed {
          CreditTracks(backlog, |buf| + Sum(queue, Debit), sent, inflight);
        }
        SumConcat(sent, inflight, Surplus);
        var total := Weigh(inflight);
        sent := sent + inflight;
        backlog := if backlog < total then 0 else backlog - total;
      }
      inflight := [];
    }
  }

  function Max(a: int, b: int): (m: int)
  {
    if a < b then b else a
  }

  lemma NothingSums()
    ensures forall size: Frame -> nat :: Sum([], size) == 0
  {
  }

  /** Adds up what a batch takes on the connection. */
  method Weigh(frames: seq<Frame>) returns (total: nat)
    ensures total == Sum(frames, Wire)
  {
    hide Wire;
    total := 0;
    for i := 0 to |frames|
      invariant total == Sum(frames[..i], Wire)
    {
      assert frames[..i + 1][..i] == frames[..i];
      total := total + Wire(frames[i]);
    }
    assert frames[..|frames|] == frames;
  }

  /** With no mark among the frames sent the counter never exceeds what is pending: nothing pending is
      nothing owed, and only a failed write or more than 64 MiB pending has closed the subscriber. */
  lemma NoMarksNoSurplus(s: Subscriber)
    requires s.Valid() && forall f :: f in s.sent ==> !f.SealMark? && !f.RootMark?
    ensures !s.closed ==> s.backlog <= s.Pending()
    ensures !s.closed && s.buf == [] && s.queue == [] && s.inflight == [] ==> s.backlog == 0
    ensures s.closed ==> s.failed || s.peak > 67_108_864
  {
    hide WalBytes; hide InOrder;
    UnmarkedSurplus(s.sent);
  }

  lemma {:induction false} UnmarkedSurplus(frames: seq<Frame>)
    requires forall f :: f in frames ==> !f.SealMark? && !f.RootMark?
    ensures Sum(frames, Surplus) == 0
  {
    if frames != [] {
      UnmarkedSurplus(frames[..|frames| - 1]);
    }
  }

  /** Marks leave their surplus behind: an idle replica is closed on the next log byte once enough of them
      were delivered. */
  method IdleIsClosed() returns (s: Subscriber)
    ensures fresh(s) && s.Valid() && s.closed && !s.failed && s.peak == 1
  {
    hide Subscriber.Valid; hide WalBytes; hide InOrder; hide Sum; hide Tracks; hide Wire;
    s := new Subscriber();
    for i := 0 to 3_050_403
      invariant s.Valid() && !s.closed && fresh(s) && !s.draining && s.pumps == 0
      invariant s.queue == [] && s.inflight == [] && s.buf == [] && s.Pending() == 0 && !s.failed
      invariant s.backlog >= 22 * i
    {
      DeliverMark(s, i);
    }
    s.AppendWal([0]);
  }

  /** Log frames are credited more than they were charged: more than the limit can be pending on an open
      replica. */
  method PendingBeyondLimit() returns (s: Subscriber)
    ensures fresh(s) && s.Valid() && !s.closed && s.Pending() > 67_108_864
  {
    hide Subscriber.Valid; hide WalBytes; hide InOrder; hide Sum; hide Tracks; hide Wire; hide Debit; hide Subscriber.Pending;
    s := new Subscriber();
    s.AppendWal([0]);
    assert s.buf == [0];
    s.Enqueue(Response([]));
    s.Pump();
    s.DrainTake();
    TwoFrames();
    assert s.inflight == [WalData([0]), Response([])];
    s.AppendWal(seq(67_108_859, _ => 0));
    s.DrainDone(true, 0);
    s.AppendWal(seq(24, _ => 0));
  }

  lemma TwoFrames()
    ensures var two := [WalData([0]), Response([])];
      Sum(two, Wire) == 24 && Sum(two, Debit) == 5 && Debit(Response([])) == 4
  {
    hide Sum;
    SumConcat([WalData([0])], [Response([])], Wire);
    SumConcat([WalData([0])], [Response([])], Debit);
    assert [WalData([0])] + [Response([])] == [WalData([0]), Response([])];
    SumOne(WalData([0]), Wire);
    SumOne(Response([]), Wire);
    SumOne(WalData([0]), Debit);
    SumOne(Response([]), Debit);
  }

  /** One mark queued, taken and written. */
  method DeliverMark(s: Subscriber, idx: nat)
    requires s.Valid() && !s.closed && !s.draining && s.pumps == 0 && s.queue == [] && s.inflight == [] && s.buf == []
    modifies s
    ensures s.Valid() && !s.closed && !s.draining && s.pumps == 0 && s.queue == [] && s.inflight == [] && s.buf == []
    ensures s.failed == old(s.failed) && s.Pending() == old(s.Pending()) && s.backlog >= old(s.backlog) + 22
  {
    hide Subscriber.Valid; hide WalBytes; hide InOrder; hide Sum; hide Tracks; hide Wire;
    var f := SealMark(idx);
    s.Enqueue(f);
    s.Pump();
    s.DrainTake();
    assert s.inflight == [f];
    SumOne(f, Wire);
    SumOne(f, Debit);
    FrameCharges(f);
    s.DrainDone(true, 0);
    s.DrainTake();
  }

  /** The frame the buffered log bytes become. */
  function Flushed(buf: seq<byte>): (frames: seq<Frame>)
  {
    if buf == [] then [] else [WalData(buf)]
  }

  lemma MarkedSizes(frames: seq<Frame>, marks: seq<nat>, fed: seq<byte>)
    requires InOrder(frames, marks, fed)
    ensures |marks| == |frames|
  {
  }

  lemma KeepOrder(frames: seq<Frame>, marks: seq<nat>, fed: seq<byte>, f: Frame, mark: nat)
    requires InOrder(frames, marks, fed)
    requires !f.WalData? ==> mark <= |fed| && WalBytes(frames) == fed[..mark]
    ensures InOrder(frames + [f], marks + [mark], fed)
  {
    var all := frames + [f];
    forall i | 0 <= i < |all| && !all[i].WalData?
      ensures MarkOk(all, (marks + [mark])[i], fed, i)
    {
      if i < |frames| {
        assert MarkOk(frames, marks[i], fed, i);
        assert all[..i] == frames[..i];
      } else {
        assert all[..i] == frames;
      }
    }
  }

  lemma FedGrows(frames: seq<Frame>, marks: seq<nat>, fed: seq<byte>, data: seq<byte>)
    requires InOrder(frames, marks, fed)
    ensures InOrder(frames, marks, fed + data)
  {
    forall i | 0 <= i < |frames| && !frames[i].WalData?
      ensures MarkOk(frames, marks[i], fed + data, i)
    {
      assert MarkOk(frames, marks[i], fed, i);
      assert (fed + data)[..marks[i]] == fed[..marks[i]];
    }
  }

  // ---- a replica attached to the log ----

  /** Frames that do not belong to the log: they may overtake the snapshot. */
  predicate Unlogged(f: Frame)
  {
    f.RootMark? || f.Response?
  }

  ghost predicate AllUnlogged(frames: seq<Frame>, n: nat)
    requires n <= |frames|
  {
    forall i :: 0 <= i < n ==> Unlogged(frames[i])
  }

  /** Where the snapshot stands among the queued frames. */
  ghost predicate Placed(held: bool, snapAt: int, out: seq<Frame>, closed: bool, snapshot: Frame)
  {
    && (held ==> snapAt == -1)
    && (snapAt < 0 ==> AllUnlogged(out, |out|) && (held || closed))
    && (snapAt >= 0 ==> snapAt < |out| && out[snapAt] == snapshot && AllUnlogged(out, snapAt))
  }

  /** Frames queued later leave the snapshot where it is. */
  lemma PlacedGrows(snapAt: int, out: seq<Frame>, closed: bool, out': seq<Frame>, closed': bool, snapshot: Frame)
    requires Placed(false, snapAt, out, closed, snapshot) && out <= out'
    requires closed ==> closed' && out' == out
    ensures Placed(false, snapAt, out', closed', snapshot)
  {
  }

  /** A step of a run with one replica. */
  datatype Op =
    | Journaled(entries: seq<CfKey>)
    | Sealing
    | Cycling(durable: int)
    | Telling(frame: Frame)
    | SendingSnapshot
    | Pumping
    | Taking
    | Writing(ok: bool, delivered: nat)

  class Feed {
    const w: Wal.Writer
    const sub: Subscriber

    /** The log position the snapshot starts at and the one it ends at, what it holds of earlier
        sessions, and the announcements of the writer passed on since. */
    ghost const start: int
    ghost const at: int
    ghost const earlier: seq<byte>
    ghost const evStart: int
    ghost var heard: seq<Wal.Event>

    /** The captured snapshot; whether the writer is still held; where the snapshot was queued. */
    const snapshot: Frame
    var held: bool
    ghost var snapAt: int

    /** Snapshot and stream together are the log: no gap, no repeat; only roots and responses can
        stand before the snapshot. */
    ghost predicate Valid()
      reads this, w, sub
    {
      && w.Valid() && w.buf == [] && !w.stopped && sub.Valid()
      && (w.sealBoundary >= 0 ==> w.sealBoundary == |LogBytes(w.recs)|)
      && 0 <= start <= at <= |LogBytes(w.recs)|
      && snapshot.Snapshot?
      && Flatten(snapshot.sealed) + snapshot.live == earlier + LogBytes(w.recs)[start..at]
      && (held ==> sub.fed == [] && at == |LogBytes(w.recs)|)
      && Placed(held, snapAt, sub.out, sub.closed, snapshot)
      && sub.fed <= LogBytes(w.recs)[at..]
      && (!sub.closed ==> sub.fed == LogBytes(w.recs)[at..])
      && 0 <= evStart <= |w.events| && heard == w.events[evStart..]
    }

    /** Captures the snapshot and registers the subscriber; the writer stays held. */
    constructor (writer: Wal.Writer, size: nat)
      requires writer.Valid() && !writer.stopped
      modifies writer`disk, writer`segIdx, writer`offset, writer`buf, writer`bufPos,
               writer`sealBoundary, writer`sealed, writer`events
      ensures Valid() && fresh(sub) && w == writer && !sub.closed && held
      ensures start == writer.gone && at == |LogBytes(writer.recs)| && sub.out == [] && sub.buf == []
    {
      hide LogBytes; hide Flatten; hide Wal.Writer.Valid; hide Wal.SegmentBytes;
      var older, live := Wal.SnapshotLocked(writer);
      Wal.SnapshotIsLog(writer);
      var s := new Subscriber();
      w, sub := writer, s;
      start, at := writer.gone, |LogBytes(writer.recs)|;
      earlier := Wal.SegmentBytes(writer.disk, 0, writer.segIdx - |writer.sealed|);
      evStart := |writer.events|;
      heard := [];
      snapshot := Snapshot(older, live, size);
      held, snapAt := true, -1;
    }

    /** Queues the snapshot and releases the writer. */
    method SendSnapshot()
      requires Valid() && held
      modifies this`held, this`snapAt, sub
      ensures Valid() && !held && sub.closed == old(sub.closed)
      ensures !sub.closed ==> sub.out == old(sub.out) + [snapshot] && snapAt == |old(sub.out)|
    {
      hide LogBytes; hide Flatten; hide Wal.Writer.Valid; hide WalBytes; hide InOrder;
      NothingFed(sub.out, sub.buf, sub.fed);
      sub.Enqueue(snapshot);
      held := false;
      if !sub.closed {
        snapAt := |sub.out| - 1;
      }
    }

    /** A journaled batch: its bytes are passed on before a rotation it triggers, so the seal mark stands
        behind the bytes of its own segment only, exactly when the batch is empty. */
    method Sink(entries: seq<CfKey>)
      requires Valid() && !held
      modifies this`heard, w, sub
      ensures Valid() && w.recs == old(w.recs) + entries && old(sub.out) <= sub.out
      ensures old(w.sealBoundary) >= 0 && !sub.closed ==>
        && |sub.out| == |sub.marks| > 0 && sub.out[|sub.out| - 1] == SealMark(old(w.segIdx))
        && w.sealed == old(w.sealed) + [Wal.SealedSeg(old(w.segIdx), old(w.sealBoundary))]
        && (at + sub.marks[|sub.out| - 1] == old(w.sealBoundary) <==> entries == [])
    {
      hide LogBytes; hide Flatten; hide Wal.Writer.Valid; hide Subscriber.Valid; hide WalBytes; hide Placed;
      hide Wal.OlderKept;
      ghost var before, was := sub.out, sub.closed;
      var data := Wal.Serialize(entries);
      var seg, boundary := w.segIdx, w.sealBoundary;
      LogExtends(w.recs, entries, start, at);
      w.Sink(entries);
      sub.Hear(data, seg, boundary >= 0);
      heard := heard + (if entries == [] then [] else [Wal.Appended(data)])
        + (if boundary >= 0 then [Wal.Rotated(seg)] else []);
      PlacedGrows(snapAt, before, was, sub.out, sub.closed, snapshot);
    }

    /** A flush captures: the next drain will rotate. */
    method Seal()
      requires Valid() && !held
      modifies w`sealBoundary
      ensures Valid() && w.sealBoundary == |LogBytes(w.recs)|
    {
      hide LogBytes; hide Flatten; hide Wal.Writer.Valid; hide Subscriber.Valid;
      var boundary := w.Seal();
    }

    /** The writer's background cycle: a seal mark it causes stands behind its own segment only. */
    method Cycle(durable: int)
      requires Valid() && !held
      modifies this`heard, w, sub
      ensures Valid() && w.recs == old(w.recs) && old(sub.out) <= sub.out
      ensures old(w.sealBoundary) >= 0 && !sub.closed ==>
        && |sub.out| == |sub.marks| > 0 && sub.out[|sub.out| - 1] == SealMark(old(w.segIdx))
        && at + sub.marks[|sub.out| - 1] == old(w.sealBoundary)
    {
      hide LogBytes; hide Flatten; hide Wal.Writer.Valid; hide Subscriber.Valid; hide WalBytes; hide Placed;
      hide Wal.OlderKept;
      ghost var before, was := sub.out, sub.closed;
      var seg, boundary := w.segIdx, w.sealBoundary;
      w.DrainLocked();
      sub.Hear([], seg, boundary >= 0);
      if boundary >= 0 {
        heard := heard + [Wal.Rotated(seg)];
      }
      PlacedGrows(snapAt, before, was, sub.out, sub.closed, snapshot);
      w.DeleteDurable(durable);
    }

    /** A response or a published root, also while the snapshot is being sent. */
    method Tell(f: Frame)
      requires Valid() && Unlogged(f)
      modifies sub
      ensures Valid() && sub.closed == old(sub.closed)
      ensures sub.out == old(sub.out) + if sub.closed then [] else Flushed(old(sub.buf)) + [f]
    {
      hide LogBytes; hide Flatten; hide Wal.Writer.Valid; hide WalBytes; hide InOrder;
      if held {
        NothingFed(sub.out, sub.buf, sub.fed);
      }
      sub.Enqueue(f);
    }

    /** The steps of the drain leave log and queue history alone. */
    method Pump()
      requires Valid() && sub.pumps > 0
      modifies sub
      ensures Valid() && sub.out == old(sub.out) && sub.closed == old(sub.closed) && sub.pumps == old(sub.pumps) - 1
      ensures sub.draining <==> old(sub.draining) || !sub.closed
      ensures sub.queue == old(sub.queue) && sub.inflight == old(sub.inflight)
    {
      hide LogBytes; hide Flatten; hide Wal.Writer.Valid; hide Subscriber.Valid;
      sub.Pump();
    }

    method DrainTake()
      requires Valid() && sub.draining && sub.inflight == []
      modifies sub
      ensures Valid() && sub.out == old(sub.out) && sub.closed == old(sub.closed) && sub.pumps == old(sub.pumps)
      ensures !sub.closed ==> sub.inflight == old(sub.queue) && sub.queue == [] && (sub.draining <==> old(sub.queue) != [])
    {
      hide LogBytes; hide Flatten; hide Wal.Writer.Valid; hide Subscriber.Valid;
      sub.DrainTake();
    }

    method DrainDone(ok: bool, delivered: nat)
      requires Valid() && sub.draining && delivered <= |sub.inflight|
      modifies sub
      ensures Valid() && sub.out == old(sub.out) && sub.pumps == old(sub.pumps) && sub.draining
      ensures sub.sent == old(sub.sent) + if ok then old(sub.inflight) else old(sub.inflight)[..delivered]
      ensures sub.inflight == [] && sub.queue == old(sub.queue) && (sub.closed <==> old(sub.closed) || !ok)
    {
      hide LogBytes; hide Flatten; hide Wal.Writer.Valid; hide Subscriber.Valid;
      sub.DrainDone(ok, delivered);
    }

    /** Left to itself with a connection that works, the drain ends: everything queued has been sent, and with
        the bytes still buffered that is the whole log. */
    method Settle()
      requires Valid() && !held && !sub.closed
      modifies sub
      ensures Valid() && Idle(sub) && sub.out == old(sub.out) && sub.sent == sub.out
      ensures Captured(snapshot) + WalBytes(sub.sent) + sub.buf == earlier + LogBytes(w.recs)[start..]
    {
      hide Valid; hide LogBytes; hide WalBytes; hide Captured;
      while sub.pumps > 0
        invariant Valid() && !sub.closed && sub.out == old(sub.out)
        decreases sub.pumps
      {
        Pump();
      }
      if sub.draining && sub.inflight != [] {
        DrainDone(true, 0);
      }
      while sub.draining
        invariant Valid() && !sub.closed && sub.pumps == 0 && sub.out == old(sub.out)
        invariant sub.draining ==> sub.inflight == []
        decreases sub.draining, |sub.queue|
      {
        DrainTake();
        if sub.draining {
          DrainDone(true, 0);
        }
      }
      Delivered(this);
    }

    /** Takes one step if it is possible now: the log grows by what is journaled, what is told or captured is
        queued, and the drain moves on. */
    method Step(op: Op)
      requires Valid()
      modifies this`heard, this`held, this`snapAt, w, sub
      ensures Valid()
      ensures w.recs == old(w.recs) + Logged([op], old(held)) && held == HeldAfter([op], old(held))
      ensures op.Telling? && Unlogged(op.frame) && !sub.closed ==> sub.out == old(sub.out) + Flushed(old(sub.buf)) + [op.frame]
      ensures op.SendingSnapshot? && old(held) && !sub.closed ==> sub.out == old(sub.out) + [snapshot]
      ensures op.Pumping? && old(sub.pumps) > 0 ==>
        sub.pumps == old(sub.pumps) - 1 && (sub.draining <==> old(sub.draining) || !sub.closed)
      ensures op.Taking? && old(sub.draining) && old(sub.inflight) == [] && !sub.closed ==>
        sub.inflight == old(sub.queue) && sub.queue == [] && (sub.draining <==> old(sub.queue) != [])
      ensures op.Writing? && old(sub.draining) && op.delivered <= |old(sub.inflight)| ==>
        sub.sent == old(sub.sent) + (if op.ok then old(sub.inflight) else old(sub.inflight)[..op.delivered]) && sub.inflight == []
    {
      hide Valid;
      NothingLogged(w.recs);
      match op
      case Journaled(entries) =>
        if !held { Sink(entries); }
      case Sealing =>
        if !held { Seal(); }
      case Cycling(durable) =>
        if !held { Cycle(durable); }
      case Telling(f) =>
        if Unlogged(f) { Tell(f); }
      case SendingSnapshot =>
        if held { SendSnapshot(); }
      case Pumping =>
        if sub.pumps > 0 { Pump(); }
      case Taking =>
        if sub.draining && sub.inflight == [] { DrainTake(); }
      case Writing(ok, delivered) =>
        if sub.draining && delivered <= |sub.inflight| { DrainDone(ok, delivered); }
    }

    /** Any interleaving of log, roots, responses and drain.  What the replica has been sent when the run
        stops is the captured log followed by log bytes without gap or repeat; when nothing is left to
        drain and the subscriber is open, all of it. */
    method Run(ops: seq<Op>)
      requires Valid()
      modifies this`heard, this`held, this`snapAt, w, sub
      ensures Valid()
      ensures w.recs == old(w.recs) + Logged(ops, old(held)) && held == HeldAfter(ops, old(held))
      ensures forall i :: 0 <= i <= |sub.sent| ==> SentOk(this, i)
      ensures Idle(sub) && !held ==>
        && 0 <= snapAt && sub.sent == sub.out
        && Captured(snapshot) + WalBytes(sub.sent) + sub.buf == earlier + LogBytes(w.recs)[start..]
      ensures sub.closed ==> sub.failed || sub.peak + Sum(sub.sent, Surplus) > 67_108_864
    {
      hide Valid; hide SentOk; hide Idle; hide LogBytes; hide WalBytes; hide Logged;
      NothingLogged(w.recs);
      for i := 0 to |ops|
        invariant Valid()
        invariant w.recs == old(w.recs) + Logged(ops[..i], old(held)) && held == HeldAfter(ops[..i], old(held))
      {
        LoggedMore(ops, i, old(held));
        Step(ops[i]);
      }
      assert ops[..|ops|] == ops;
      forall i | 0 <= i <= |sub.sent|
        ensures SentOk(this, i)
      {
        StreamIsLog(this, i);
      }
      if Idle(sub) && !held {
        Delivered(this);
      }
      WhyClosed(this);
    }
  }

  /** Whether the writer is still held after the steps: until the snapshot is sent. */
  function HeldAfter(ops: seq<Op>, held: bool): (b: bool)
  {
    held && SendingSnapshot !in ops
  }

  /** What the steps journal: nothing while the writer is held. */
  function Logged(ops: seq<Op>, held: bool): (recs: seq<CfKey>)
  {
    if ops == [] then []
    else
      var front, last := ops[..|ops| - 1], ops[|ops| - 1];
      Logged(front, held) + if last.Journaled? && !HeldAfter(front, held) then last.entries else []
  }

  lemma NothingLogged(recs: seq<CfKey>)
    ensures recs + Logged([], false) == recs == recs + Logged([], true)
    ensures forall op, held :: Logged([op], held) == if op.Journaled? && !held then op.entries else []
  {
    forall op: Op, held
      ensures Logged([op], held) == if op.Journaled? && !held then op.entries else []
    {
      assert [op][..0] == [];
    }
  }

  lemma LoggedMore(ops: seq<Op>, i: nat, held: bool)
    requires i < |ops|
    ensures Logged(ops[..i + 1], held) == Logged(ops[..i], held) + Logged([ops[i]], HeldAfter(ops[..i], held))
    ensures HeldAfter(ops[..i + 1], held) == HeldAfter([ops[i]], HeldAfter(ops[..i], held))
  {
    assert ops[..i + 1][..i] == ops[..i] && ops[..i + 1] == ops[..i] + [ops[i]];
    NothingLogged([]);
  }

  lemma WhyClosed(f: Feed)
    requires f.Valid()
    ensures f.sub.closed ==> f.sub.failed || f.sub.peak + Sum(f.sub.sent, Surplus) > 67_108_864
  {
    hide LogBytes; hide Flatten; hide Wal.Writer.Valid; hide WalBytes; hide InOrder; hide Sum;
  }

  /** A root published between registration and snapshot is the first frame. */
  method RootFirst(writer: Wal.Writer, name: int, maxT: int) returns (f: Feed)
    requires writer.Valid() && !writer.stopped
    modifies writer`disk, writer`segIdx, writer`offset, writer`buf, writer`bufPos,
             writer`sealBoundary, writer`sealed, writer`events
    ensures f.Valid() && |f.sub.out| == 2 && f.sub.out[0] == RootMark(name, maxT) && f.sub.out[1] == f.snapshot
    ensures f.snapshot.Snapshot?
  {
    hide LogBytes; hide Flatten; hide Wal.Writer.Valid; hide Subscriber.Valid;
    f := new Feed(writer, 0);
    f.Tell(RootMark(name, maxT));
    f.SendSnapshot();
    assert f.Valid();
  }

  lemma NothingFed(out: seq<Frame>, buf: seq<byte>, fed: seq<byte>)
    requires WalBytes(out) + buf == fed
    ensures fed == [] ==> buf == []
  {
  }

  /** Nobody owes the queue a drain. */
  ghost predicate Idle(s: Subscriber)
    reads s
  {
    !s.closed && !s.draining && s.pumps == 0
  }

  ghost function Captured(f: Frame): seq<byte>
    requires f.Snapshot?
  {
    Flatten(f.sealed) + f.live
  }

  /** The log grows behind what was captured. */
  lemma LogExtends(recs: seq<CfKey>, more: seq<CfKey>, start: int, at: int)
    requires 0 <= start <= at <= |LogBytes(recs)|
    ensures |LogBytes(recs + more)| >= |LogBytes(recs)|
    ensures LogBytes(recs + more)[start..at] == LogBytes(recs)[start..at]
    ensures LogBytes(recs + more)[at..] == LogBytes(recs)[at..] + LogBytes(more)
  {
    hide LogBytes;
    LogBytesConcat(recs, more);
  }

  /** The first i frames sent: before the snapshot only roots and responses, and from it on the captured
      log followed by log bytes that continue it without gap or repeat; each mark or response stands
      behind exactly the log bytes fed before it was queued. */
  ghost predicate SentOk(f: Feed, i: nat)
    reads f, f.w, f.sub
    requires i <= |f.sub.sent| && f.Valid()
  {
    if i <= f.snapAt || f.snapAt < 0 then
      AllUnlogged(f.sub.sent, i) && WalBytes(f.sub.sent[..i]) == []
    else
      && f.sub.sent[f.snapAt] == f.snapshot
      && Captured(f.snapshot) + WalBytes(f.sub.sent[..i]) <= f.earlier + LogBytes(f.w.recs)[f.start..]
      && (i < |f.sub.sent| && !f.sub.sent[i].WalData? ==>
        && i < |f.sub.marks| && f.at + f.sub.marks[i] <= |LogBytes(f.w.recs)|
        && Captured(f.snapshot) + WalBytes(f.sub.sent[..i]) == f.earlier + LogBytes(f.w.recs)[f.start..f.at + f.sub.marks[i]])
  }

  lemma StreamIsLog(f: Feed, i: nat)
    requires f.Valid() && i <= |f.sub.sent|
    ensures SentOk(f, i)
  {
    hide LogBytes; hide Flatten; hide Wal.Writer.Valid; hide WalBytes; hide InOrder; hide Captured;
    var out, sent, log := f.sub.out, f.sub.sent, LogBytes(f.w.recs);
    assert sent[..i] == out[..i] && (i < |sent| ==> sent[i] == out[i]);
    if i <= f.snapAt || f.snapAt < 0 {
      NoLogBytes(out, i);
    } else {
      assert sent[f.snapAt] == out[f.snapAt];
      var wal := WalBytes(out[..i]);
      FedPrefix(out, f.sub.buf, f.sub.fed, i);
      PrefixChain(wal, f.sub.fed, log[f.at..]);
      Stitched(log, f.start, f.at, f.earlier, wal);
      CapturedIs(f.snapshot, f.earlier + log[f.start..f.at]);
      if i < |sent| && !sent[i].WalData? {
        Marked(out, f.sub.marks, f.sub.fed, i);
      }
    }
  }

  lemma CapturedIs(f: Frame, all: seq<byte>)
    requires f.Snapshot? && Flatten(f.sealed) + f.live == all
    ensures Captured(f) == all
  {
  }

  lemma {:induction false} NoLogBytes(frames: seq<Frame>, i: nat)
    requires i <= |frames| && AllUnlogged(frames, i)
    ensures WalBytes(frames[..i]) == []
  {
    if i > 0 {
      NoLogBytes(frames, i - 1);
      assert frames[..i][..i - 1] == frames[..i - 1];
    }
  }

  /** No frame is left behind: once nobody owes the queue a drain, an open replica has been sent
      everything queued, and with the bytes still buffered that is the whole log. */
  lemma Delivered(f: Feed)
    requires f.Valid() && Idle(f.sub) && !f.held
    ensures 0 <= f.snapAt && f.sub.sent == f.sub.out
    ensures Captured(f.snapshot) + WalBytes(f.sub.sent) + f.sub.buf == f.earlier + LogBytes(f.w.recs)[f.start..]
  {
    hide LogBytes; hide Flatten; hide Wal.Writer.Valid; hide WalBytes; hide InOrder; hide Captured;
    var log := LogBytes(f.w.recs);
    CapturedIs(f.snapshot, f.earlier + log[f.start..f.at]);
    var s := f.sub;
    assert s.queue == [] && s.inflight == [];
    assert s.sent + s.inflight + s.queue == s.sent;
    WholeLog(f.earlier, log, f.start, f.at, WalBytes(f.sub.sent), f.sub.buf);
  }

  lemma WholeLog(earlier: seq<byte>, log: seq<byte>, start: int, at: int, wal: seq<byte>, buf: seq<byte>)
    requires 0 <= start <= at <= |log| && wal + buf == log[at..]
    ensures earlier + log[start..at] + wal + buf == earlier + log[start..]
  {
    assert log[start..at] + (wal + buf) == log[start..];
  }

  /** What the first frames carry is a prefix of what was fed. */
  lemma FedPrefix(out: seq<Frame>, buf: seq<byte>, fed: seq<byte>, i: nat)
    requires WalBytes(out) + buf == fed && i <= |out|
    ensures WalBytes(out[..i]) <= fed
  {
    hide WalBytes;
    WalPrefix(out, i);
    PrefixChain(WalBytes(out[..i]), WalBytes(out), fed);
  }

  lemma Marked(out: seq<Frame>, marks: seq<nat>, fed: seq<byte>, i: nat)
    requires InOrder(out, marks, fed) && i < |out| && !out[i].WalData?
    ensures i < |marks| && |WalBytes(out[..i])| == marks[i]
  {
    hide WalBytes;
    assert MarkOk(out, marks[i], fed, i);
  }

  lemma Stitched(log: seq<byte>, start: int, at: int, earlier: seq<byte>, wal: seq<byte>)
    requires 0 <= start <= at <= |log| && wal <= log[at..]
    ensures at + |wal| <= |log|
    ensures earlier + log[start..at] + wal == earlier + log[start..at + |wal|]
    ensures earlier + log[start..at] + wal <= earlier + log[start..]
  {
    Continues(log, start, at, wal);
    AfterEarlier(earlier, log[start..at], wal, log[start..]);
  }

  lemma PrefixChain(a: seq<byte>, b: seq<byte>, c: seq<byte>)
    requires a <= b && b <= c
    ensures a <= c
  {
  }

  lemma AfterEarlier(e: seq<byte>, a: seq<byte>, b: seq<byte>, c: seq<byte>)
    requires a + b <= c
    ensures e + a + b == e + (a + b) && e + a + b <= e + c
  {
  }

  lemma Continues(log: seq<byte>, start: int, at: int, wal: seq<byte>)
    requires 0 <= start <= at <= |log| && wal <= log[at..]
    ensures at + |wal| <= |log|
    ensures log[start..at] + wal == log[start..at + |wal|]
    ensures log[start..at] + wal <= log[start..]
  {
    assert wal == log[at..][..|wal|] == log[at..at + |wal|];
  }

  lemma {:induction false} WalPrefix(frames: seq<Frame>, i: nat)
    requires i <= |frames|
    ensures WalBytes(frames[..i]) <= WalBytes(frames)
    decreases |frames|
  {
    if i == |frames| {
      assert frames[..i] == frames;
    } else {
      var front := frames[..|frames| - 1];
      WalPrefix(front, i);
      assert front[..i] == frames[..i];
    }
  }
}
