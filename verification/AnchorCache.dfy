/** What the anchor index means: a least-recently-used cache under a byte budget. */
module AnchorCache {
  import opened Bytes

  const MAX_KEY_LEN := 32000

  /** The fixed bytes accounted for each anchor besides its key. */
  const ENTRY_OVERHEAD := 52

  datatype Option<T> = None | Some(value: T)

  /** An anchor: attribute id and value as one key, and the entity it names. */
  datatype Entry = Entry(key: Key, eid: int)

  /** Most recently used first. */
  type Cache = seq<Entry>

  function Cost(k: Key): (n: nat)
  {
    |k| + ENTRY_OVERHEAD
  }

  function Size(c: Cache): (n: nat)
  {
    if c == [] then 0 else Size(c[..|c| - 1]) + Cost(c[|c| - 1].key)
  }

  predicate Unique(c: Cache)
  {
    forall i, j :: 0 <= i < j < |c| ==> c[i].key != c[j].key
  }

  predicate Short(c: Cache)
  {
    forall e :: e in c ==> |e.key| <= 32000
  }

  function Lookup(c: Cache, k: Key): (r: Option<int>)
    ensures r.Some? ==> Entry(k, r.value) in c
    ensures r.None? <==> forall e :: e in c ==> e.key != k
  {
    if c == [] then None
    else if c[0].key == k then Some(c[0].eid)
    else
      assert c == [c[0]] + c[1..];
      Lookup(c[1..], k)
  }

  function Without(c: Cache, k: Key): (r: Cache)
    ensures forall e :: e in r <==> e in c && e.key != k
  {
    if c == [] then []
    else if c[0].key == k then Without(c[1..], k)
    else [c[0]] + Without(c[1..], k)
  }

  /** Drops least recently used anchors until the rest fits. */
  function Fit(c: Cache, budget: int): (r: Cache)
    ensures r <= c && (r == [] || Size(r) <= budget)
  {
    if c == [] || Size(c) <= budget then c else Fit(c[..|c| - 1], budget)
  }

  function Put(c: Cache, maxBytes: int, k: Key, eid: int): (r: Cache)
  {
    if |k| > MAX_KEY_LEN then c
    else if Lookup(c, k).Some? then [Entry(k, eid)] + Without(c, k)
    else if Cost(k) > maxBytes then c
    else [Entry(k, eid)] + Fit(c, maxBytes - Cost(k))
  }

  function Touch(c: Cache, k: Key): (r: Cache)
  {
    var e := Lookup(c, k);
    if e.None? then c else [Entry(k, e.value)] + Without(c, k)
  }

  // ---- whole histories ----

  datatype Op = PutOp(key: Key, eid: int) | DelOp(key: Key) | ProbeOp(key: Key) | ClearOp

  function Step(c: Cache, maxBytes: int, op: Op): (r: Cache)
  {
    match op
    case PutOp(k, eid) => Put(c, maxBytes, k, eid)
    case DelOp(k) => Without(c, k)
    case ProbeOp(k) => Touch(c, k)
    case ClearOp => []
  }

  function After(ops: seq<Op>, maxBytes: int): (c: Cache)
  {
    if ops == [] then [] else Step(After(ops[..|ops| - 1], maxBytes), maxBytes, ops[|ops| - 1])
  }

  /** The entity of the latest put of a key that nothing removed since. */
  function Latest(ops: seq<Op>, k: Key): (r: Option<int>)
  {
    if ops == [] then None
    else
      match ops[|ops| - 1]
      case PutOp(k', eid) => if k' == k then Some(eid) else Latest(ops[..|ops| - 1], k)
      case DelOp(k') => if k' == k then None else Latest(ops[..|ops| - 1], k)
      case ProbeOp(_) => Latest(ops[..|ops| - 1], k)
      case ClearOp => None
  }

  /** Nothing stale is ever served: whatever a cache holds is the latest put of that key. */
  lemma {:induction false} HitsAreLatest(ops: seq<Op>, maxBytes: int, e: Entry)
    requires e in After(ops, maxBytes)
    ensures Latest(ops, e.key) == Some(e.eid)
  {
    if ops != [] {
      var front, last := ops[..|ops| - 1], ops[|ops| - 1];
      var c := After(front, maxBytes);
      StaysUnique(front, maxBytes);
      StepMembers(c, maxBytes, last, e);
      if e in c {
        HitsAreLatest(front, maxBytes, e);
      }
    }
  }

  /** Where an anchor in the cache after a step comes from. */
  lemma StepMembers(c: Cache, maxBytes: int, op: Op, e: Entry)
    requires e in Step(c, maxBytes, op) && Unique(c) && Short(c)
    ensures e in c || (op.PutOp? && e == Entry(op.key, op.eid))
    ensures op.DelOp? ==> e.key != op.key
    ensures op.PutOp? && e.key == op.key ==> e.eid == op.eid
    ensures !op.ClearOp?
  {
    match op
    case PutOp(k, eid) =>
      if e != Entry(k, eid) && |k| <= MAX_KEY_LEN && Lookup(c, k).None? && Cost(k) <= maxBytes {
        assert Fit(c, maxBytes - Cost(k)) <= c;
      }
    case DelOp(k) =>
    case ProbeOp(k) =>
    case ClearOp =>
  }

  lemma {:induction false} StaysUnique(ops: seq<Op>, maxBytes: int)
    ensures Unique(After(ops, maxBytes)) && Short(After(ops, maxBytes))
  {
    if ops != [] {
      StaysUnique(ops[..|ops| - 1], maxBytes);
      StepUnique(After(ops[..|ops| - 1], maxBytes), maxBytes, ops[|ops| - 1]);
    }
  }

  lemma StepUnique(c: Cache, maxBytes: int, op: Op)
    requires Unique(c) && Short(c)
    ensures Unique(Step(c, maxBytes, op)) && Short(Step(c, maxBytes, op))
  {
    hide Unique; hide Short; hide Without; hide Fit; hide Lookup;
    match op
    case PutOp(k, eid) =>
      if |k| <= MAX_KEY_LEN {
        WithoutUnique(c, k);
        InFrontUnique(Entry(k, eid), Without(c, k), c);
        if Lookup(c, k).None? {
          var kept := Fit(c, maxBytes - Cost(k));
          PrefixUnique(c, kept);
          InFrontUnique(Entry(k, eid), kept, c);
        }
      }
    case DelOp(k) =>
      WithoutUnique(c, k);
      FewerShort(c, Without(c, k));
    case ProbeOp(k) =>
      WithoutUnique(c, k);
      var e := Lookup(c, k);
      if e.Some? {
        AnchorShort(c, Entry(k, e.value));
        InFrontUnique(Entry(k, e.value), Without(c, k), c);
      }
    case ClearOp =>
      FewerShort(c, []);
      NothingUnique();
  }

  lemma NothingUnique()
    ensures Unique([])
  {
  }

  lemma AnchorShort(c: Cache, e: Entry)
    requires Short(c) && e in c
    ensures |e.key| <= 32000
  {
  }

  lemma FewerShort(c: Cache, fewer: Cache)
    requires Short(c) && forall x :: x in fewer ==> x in c
    ensures Short(fewer)
  {
  }

  lemma PrefixUnique(c: Cache, kept: Cache)
    requires Unique(c) && kept <= c
    ensures Unique(kept) && forall x :: x in kept ==> x in c
  {
  }

  lemma InFrontUnique(e: Entry, rest: Cache, c: Cache)
    requires Unique(rest) && Short(c) && |e.key| <= 32000 && forall x :: x in rest ==> x in c && x.key != e.key
    ensures Unique([e] + rest) && Short([e] + rest)
  {
    var all := [e] + rest;
    forall j | 0 < j < |all|
      ensures all[j].key != e.key
    {
      assert all[j] == rest[j - 1] && rest[j - 1] in rest;
    }
  }

  lemma {:induction false} WithoutUnique(c: Cache, k: Key)
    requires Unique(c)
    ensures Unique(Without(c, k))
  {
    if c != [] {
      var rest := c[1..];
      WithoutUnique(rest, k);
      if c[0].key != k {
        var out := Without(rest, k);
        forall i | 0 <= i < |out|
          ensures out[i].key != c[0].key
        {
          assert out[i] in out;
          var j :| 0 <= j < |rest| && rest[j] == out[i];
          assert c[j + 1] == rest[j];
        }
      }
    }
  }

  /** The cache never outgrows its budget. */
  lemma {:induction false} WithinBudget(ops: seq<Op>, maxBytes: int)
    ensures Size(After(ops, maxBytes)) <= maxBytes || After(ops, maxBytes) == []
  {
    if ops != [] {
      var c := After(ops[..|ops| - 1], maxBytes);
      WithinBudget(ops[..|ops| - 1], maxBytes);
      StaysUnique(ops[..|ops| - 1], maxBytes);
      StepWithin(c, maxBytes, ops[|ops| - 1]);
    }
  }

  lemma StepWithin(c: Cache, maxBytes: int, op: Op)
    requires (Size(c) <= maxBytes || c == []) && Unique(c)
    ensures Size(Step(c, maxBytes, op)) <= maxBytes || Step(c, maxBytes, op) == []
  {
    hide Size; hide Without; hide Lookup; hide Put; hide Touch; hide Unique;
    match op
    case PutOp(k, eid) => PutWithin(c, maxBytes, k, eid);
    case DelOp(k) =>
      WithoutSize(c, k);
      WithoutNothing(k);
    case ProbeOp(k) => TouchWithin(c, k);
    case ClearOp =>
  }

  lemma WithoutNothing(k: Key)
    ensures Without([], k) == []
  {
  }

  lemma PutWithin(c: Cache, maxBytes: int, k: Key, eid: int)
    requires (Size(c) <= maxBytes || c == []) && Unique(c)
    ensures Size(Put(c, maxBytes, k, eid)) <= maxBytes || Put(c, maxBytes, k, eid) == []
  {
    assert Size([]) == 0;
    hide Size; hide Without; hide Lookup; hide Fit; hide Unique;
    SizeCons(Entry(k, eid), Without(c, k));
    SizeCons(Entry(k, eid), Fit(c, maxBytes - Cost(k)));
    WithoutSize(c, k);
  }

  lemma TouchWithin(c: Cache, k: Key)
    requires Unique(c)
    ensures Size(Touch(c, k)) == Size(c) && (c == [] ==> Touch(c, k) == [])
  {
    hide Size; hide Without; hide Unique;
    WithoutSize(c, k);
    if Lookup(c, k).Some? {
      SizeCons(Entry(k, Lookup(c, k).value), Without(c, k));
    }
  }

  lemma {:induction false} SizeCons(e: Entry, c: Cache)
    ensures Size([e] + c) == Cost(e.key) + Size(c)
  {
    var s := [e] + c;
    if c == [] {
      assert s[..|s| - 1] == [];
    } else {
      assert s[..|s| - 1] == [e] + c[..|c| - 1];
      SizeCons(e, c[..|c| - 1]);
    }
  }

  /** Removing a key gives back exactly its cost. */
  lemma {:induction false} WithoutSize(c: Cache, k: Key)
    requires Unique(c)
    ensures Size(c) == Size(Without(c, k)) + (if Lookup(c, k).Some? then Cost(k) else 0)
  {
    if c != [] {
      assert c == [c[0]] + c[1..];
      SizeCons(c[0], c[1..]);
      WithoutSize(c[1..], k);
      if c[0].key == k {
        WithoutAbsent(c[1..], k);
      } else {
        SizeCons(c[0], Without(c[1..], k));
      }
    }
  }

  lemma {:induction false} WithoutAbsent(c: Cache, k: Key)
    requires forall e :: e in c ==> e.key != k
    ensures Without(c, k) == c
  {
    if c != [] {
      assert c == [c[0]] + c[1..];
      WithoutAbsent(c[1..], k);
    }
  }

  /** Removing the key of a place removes that place. */
  lemma {:induction false} WithoutAt(c: Cache, m: nat)
    requires Unique(c) && m < |c|
    ensures Without(c, c[m].key) == c[..m] + c[m + 1..]
  {
    if m == 0 {
      WithoutAbsent(c[1..], c[0].key);
    } else {
      WithoutAt(c[1..], m - 1);
      assert c[..m] + c[m + 1..] == [c[0]] + (c[1..][..m - 1] + c[1..][m..]);
    }
  }

  lemma {:induction false} LookupAt(c: Cache, m: nat)
    requires Unique(c) && m < |c|
    ensures Lookup(c, c[m].key) == Some(c[m].eid)
  {
    if m > 0 {
      LookupAt(c[1..], m - 1);
    }
  }

  // ---- what stays ----

  /** What a list of keys takes: their bytes and 52 for each. */
  function CostOf(ks: seq<Key>): (n: nat)
  {
    if ks == [] then 0 else |ks[0]| + 52 + CostOf(ks[1..])
  }

  ghost predicate Distinct(ks: seq<Key>)
  {
    forall i, j :: 0 <= i < j < |ks| ==> ks[i] != ks[j]
  }

  /** The anchor is there and everything used more recently is among these keys. */
  ghost predicate Near(c: Cache, k: Key, ks: seq<Key>)
  {
    c != [] && c[0].key in ks && (c[0].key == k || Near(c[1..], k, ks))
  }

  ghost predicate Uses(op: Op, ks: seq<Key>)
  {
    op.PutOp? || op.ProbeOp? ==> op.key in ks
  }

  lemma {:induction false} CostWithout(ks: seq<Key>, m: nat)
    requires m < |ks|
    ensures CostOf(ks) == Cost(ks[m]) + CostOf(ks[..m] + ks[m + 1..])
  {
    if m == 0 {
      assert ks[..0] + ks[1..] == ks[1..];
    } else {
      var rest := ks[..m] + ks[m + 1..];
      CostWithout(ks[1..], m - 1);
      assert rest[1..] == ks[1..][..m - 1] + ks[1..][m..];
    }
  }

  /** Different anchors among these keys weigh no more than the keys. */
  lemma {:induction false} WeighsAtMost(c: Cache, ks: seq<Key>)
    requires Unique(c) && Distinct(ks) && forall e :: e in c ==> e.key in ks
    ensures Size(c) <= CostOf(ks)
  {
    if c != [] {
      var front, last := c[..|c| - 1], c[|c| - 1];
      var m :| 0 <= m < |ks| && ks[m] == last.key;
      var rest := ks[..m] + ks[m + 1..];
      CostWithout(ks, m);
      forall e | e in front
        ensures e.key in rest
      {
        var i :| 0 <= i < |front| && front[i] == e;
        assert c[i] == e && e in c && e.key != last.key;
        var j :| 0 <= j < |ks| && ks[j] == e.key;
        assert rest[if j < m then j else j - 1] == e.key;
      }
      WeighsAtMost(front, rest);
    }
  }

  lemma {:induction false} NearMember(c: Cache, k: Key, ks: seq<Key>)
    requires Near(c, k, ks)
    ensures exists e :: e in c && e.key == k
  {
    if c[0].key == k {
      assert c[0] in c;
    } else {
      NearMember(c[1..], k, ks);
    }
  }

  lemma {:induction false} NearWithout(c: Cache, k: Key, ks: seq<Key>, other: Key)
    requires Near(c, k, ks) && other != k
    ensures Near(Without(c, other), k, ks)
  {
    if c[0].key != k {
      NearWithout(c[1..], k, ks, other);
    }
    if c[0].key != other {
      assert ([c[0]] + Without(c[1..], other))[1..] == Without(c[1..], other);
    }
  }

  /** Losing its last anchor a cache still has the anchor, unless everything in it is among the keys. */
  lemma {:induction false} NearShorter(c: Cache, k: Key, ks: seq<Key>)
    requires Near(c, k, ks)
    ensures Near(c[..|c| - 1], k, ks) || forall e :: e in c ==> e.key in ks
  {
    if |c| > 1 && c[0].key != k {
      NearShorter(c[1..], k, ks);
      assert c[1..][..|c| - 2] == c[..|c| - 1][1..];
      assert c == [c[0]] + c[1..];
    }
  }

  /** Making room for one of the keys does not reach the anchor while the keys fit together. */
  lemma {:induction false} NearFit(c: Cache, k: Key, ks: seq<Key>, other: Key, maxBytes: int)
    requires Near(c, k, ks) && Unique(c) && Distinct(ks) && CostOf(ks) <= maxBytes
    requires other in ks && forall e :: e in c ==> e.key != other
    ensures Near(Fit(c, maxBytes - Cost(other)), k, ks)
    decreases |c|
  {
    if Size(c) > maxBytes - Cost(other) {
      NearShorter(c, k, ks);
      if forall e :: e in c ==> e.key in ks {
        var all := [Entry(other, 0)] + c;
        assert Unique(all) by {
          forall j | 0 < j < |all|
            ensures all[j].key != other
          {
            assert all[j] == c[j - 1] && c[j - 1] in c;
          }
        }
        SizeCons(Entry(other, 0), c);
        WeighsAtMost(all, ks);
      }
      NearFit(c[..|c| - 1], k, ks, other, maxBytes);
    }
  }

  lemma NearStep(c: Cache, maxBytes: int, op: Op, k: Key, ks: seq<Key>)
    requires Near(c, k, ks) && Unique(c) && Distinct(ks) && CostOf(ks) <= maxBytes
    requires Uses(op, ks) && op != DelOp(k) && !op.ClearOp?
    ensures Near(Step(c, maxBytes, op), k, ks)
  {
    match op
    case PutOp(x, eid) =>
      if |x| <= MAX_KEY_LEN {
        if Lookup(c, x).Some? {
          Moved(c, k, ks, Entry(x, eid));
        } else if Cost(x) <= maxBytes {
          NearMember(c, k, ks);
          NearFit(c, k, ks, x, maxBytes);
          InFront(Entry(x, eid), Fit(c, maxBytes - Cost(x)), k, ks);
        }
      }
    case DelOp(x) => NearWithout(c, k, ks, x);
    case ProbeOp(x) =>
      if Lookup(c, x).Some? {
        Moved(c, k, ks, Entry(x, Lookup(c, x).value));
      }
  }

  lemma InFront(e: Entry, c: Cache, k: Key, ks: seq<Key>)
    requires e.key in ks && (e.key == k || Near(c, k, ks))
    ensures Near([e] + c, k, ks)
  {
    assert ([e] + c)[1..] == c;
  }

  lemma Moved(c: Cache, k: Key, ks: seq<Key>, e: Entry)
    requires Near(c, k, ks) && e.key in ks
    ensures Near([e] + Without(c, e.key), k, ks)
  {
    if e.key != k {
      NearWithout(c, k, ks, e.key);
    }
    InFront(e, Without(c, e.key), k, ks);
  }

  /** An anchor is found as long as nothing removes it and it fits the budget together with whatever was put
      or found since, and what is found is the entity of its last put. */
  lemma {:induction false} RecentlyUsedStay(ops: seq<Op>, i: nat, maxBytes: int, k: Key, ks: seq<Key>)
    requires i < |ops| && ops[i].PutOp? && ops[i].key == k && |k| <= 32000
    requires forall j :: i < j < |ops| ==> ops[j] != DelOp(k) && !ops[j].ClearOp?
    requires Distinct(ks) && CostOf(ks) <= maxBytes && forall j :: i <= j < |ops| ==> Uses(ops[j], ks)
    ensures Near(After(ops, maxBytes), k, ks)
    ensures Lookup(After(ops, maxBytes), k).Some? && Lookup(After(ops, maxBytes), k) == Latest(ops, k)
  {
    var front, last := ops[..|ops| - 1], ops[|ops| - 1];
    var c := After(front, maxBytes);
    StaysUnique(front, maxBytes);
    if i == |ops| - 1 {
      assert k in ks;
      var m :| 0 <= m < |ks| && ks[m] == k;
      CostWithout(ks, m);
      if Lookup(c, k).None? {
        InFront(Entry(k, last.eid), Fit(c, maxBytes - Cost(k)), k, ks);
      } else {
        InFront(Entry(k, last.eid), Without(c, k), k, ks);
      }
    } else {
      RecentlyUsedStay(front, i, maxBytes, k, ks);
      NearStep(c, maxBytes, last, k, ks);
    }
    NearMember(After(ops, maxBytes), k, ks);
    HitsAreLatest(ops, maxBytes, Entry(k, Lookup(After(ops, maxBytes), k).value));
  }
}
