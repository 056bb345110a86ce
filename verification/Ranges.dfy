/** Value predicates as intervals, and the scanner's use of them to skip ahead.  The intervals of a
    predicate have values as ends; the scanner compares bytes.  Either way an interval is reasoned about
    by the positions of its ends in the byte-wise order. */
module Ranges {
  import opened Bytes
  import opened RangeValues
  import Keys

  datatype Cmp = Neq | Gt | Gte | Lt | Lte

  datatype OpValOf<T> = OpVal(op: Cmp, val: T)
  type OpVal = OpValOf<Key>

  datatype Option<T> = None | Some(value: T)

  datatype IntervalOf<T> = Span(lo: Option<T>, hi: Option<T>, loOpen: bool, hiOpen: bool)
  type Interval = IntervalOf<Key>

  // ---- what is meant ----

  predicate Holds(o: OpVal, v: Key)
  {
    match o.op
    case Neq => v != o.val
    case Gt => Less(o.val, v)
    case Gte => LessEq(o.val, v)
    case Lt => Less(v, o.val)
    case Lte => LessEq(v, o.val)
  }

  ghost predicate Satisfies(ops: seq<OpVal>, v: Key)
  {
    forall o :: o in ops ==> Holds(o, v)
  }

  predicate AboveLo(iv: Interval, v: Key)
  {
    iv.lo.Some? ==> if iv.loOpen then Less(iv.lo.value, v) else LessEq(iv.lo.value, v)
  }

  predicate BelowHi(iv: Interval, v: Key)
  {
    iv.hi.Some? ==> if iv.hiOpen then Less(v, iv.hi.value) else LessEq(v, iv.hi.value)
  }

  predicate Inside(iv: Interval, v: Key)
  {
    AboveLo(iv, v) && BelowHi(iv, v)
  }

  ghost predicate Covered(ivs: seq<Interval>, v: Key)
  {
    exists i :: 0 <= i < |ivs| && Inside(ivs[i], v)
  }

  // ---- order facts in one place ----

  lemma Order(a: Key, b: Key, v: Key)
    ensures LessEq(a, b) || Less(b, a)
    ensures !(LessEq(a, b) && Less(b, a)) && !Less(a, a)
    ensures LessEq(a, b) && LessEq(b, v) ==> LessEq(a, v)
    ensures LessEq(a, b) && Less(b, v) ==> Less(a, v)
    ensures Less(a, b) && LessEq(b, v) ==> Less(a, v)
    ensures LessEq(a, b) && LessEq(b, a) ==> a == b
  {
    hide Less;
    LessTotal(a, b);
    LessAsymmetricIf(a, b);
    LessIrreflexive(a);
    if Less(a, b) && Less(b, v) {
      LessTransitive(a, b, v);
    }
  }

  // ---- values by their positions ----

  predicate GoodEnd(o: Option<Value>)
  {
    o.Some? ==> Ordered(o.value)
  }

  predicate Good(iv: IntervalOf<Value>)
  {
    GoodEnd(iv.lo) && GoodEnd(iv.hi)
  }

  predicate AllGood(ivs: seq<IntervalOf<Value>>)
  {
    forall i :: 0 <= i < |ivs| ==> Good(ivs[i])
  }

  predicate GoodOps(ops: seq<OpValOf<Value>>)
  {
    forall i :: 0 <= i < |ops| ==> Ordered(ops[i].val)
  }

  function PosEnd(o: Option<Value>): (k: Option<Key>)
    requires GoodEnd(o)
  {
    if o.Some? then Some(Position(o.value)) else None
  }

  function Pos(iv: IntervalOf<Value>): (p: Interval)
    requires Good(iv)
  {
    Span(PosEnd(iv.lo), PosEnd(iv.hi), iv.loOpen, iv.hiOpen)
  }

  function PosAll(ivs: seq<IntervalOf<Value>>): (ps: seq<Interval>)
    requires AllGood(ivs)
    ensures |ps| == |ivs| && forall i :: 0 <= i < |ivs| ==> ps[i] == Pos(ivs[i])
  {
    seq(|ivs|, i requires 0 <= i < |ivs| => Pos(ivs[i]))
  }

  function PosOp(o: OpValOf<Value>): (p: OpVal)
    requires Ordered(o.val)
  {
    OpVal(o.op, Position(o.val))
  }

  function PosOps(ops: seq<OpValOf<Value>>): (ps: seq<OpVal>)
    requires GoodOps(ops)
    ensures |ps| == |ops| && forall i :: 0 <= i < |ops| ==> ps[i] == PosOp(ops[i])
  {
    seq(|ops|, i requires 0 <= i < |ops| => PosOp(ops[i]))
  }

  /** The comparison as the predicate makes it. */
  predicate HoldsValue(o: OpValOf<Value>, v: Value)
    requires WfValue(o.val) && WfValue(v)
  {
    var c := CmpValue(v, o.val);
    match o.op
    case Neq => c != 0
    case Gt => c > 0
    case Gte => c >= 0
    case Lt => c < 0
    case Lte => c <= 0
  }

  ghost predicate SatisfiesAll(ops: seq<OpValOf<Value>>, v: Value)
    requires GoodOps(ops) && WfValue(v)
  {
    forall i :: 0 <= i < |ops| ==> HoldsValue(ops[i], v)
  }

  /** Values satisfy a conjunction as their positions do. */
  lemma SatisfiesByPosition(ops: seq<OpValOf<Value>>, v: Value)
    requires GoodOps(ops) && Ordered(v)
    ensures SatisfiesAll(ops, v) <==> Satisfies(PosOps(ops), Position(v))
  {
    hide Less; hide Position; hide CmpValue;
    var ps := PosOps(ops);
    forall i | 0 <= i < |ops|
      ensures HoldsValue(ops[i], v) <==> Holds(ps[i], Position(v))
    {
      ComparesByPosition(v, ops[i].val);
    }
    assert forall i :: 0 <= i < |ps| ==> ps[i] in ps;
  }

  /** The value is the end of some comparison. */
  ghost predicate FromOps(o: Option<Value>, ops: seq<OpValOf<Value>>)
  {
    o.Some? ==> exists i :: 0 <= i < |ops| && ops[i].val == o.value
  }

  ghost predicate EndsFrom(iv: IntervalOf<Value>, ops: seq<OpValOf<Value>>)
  {
    FromOps(iv.lo, ops) && FromOps(iv.hi, ops)
  }

  ghost predicate AllEndsFrom(ivs: seq<IntervalOf<Value>>, ops: seq<OpValOf<Value>>)
  {
    forall i :: 0 <= i < |ivs| ==> EndsFrom(ivs[i], ops)
  }

  // ---- from comparisons to intervals ----

  /** Each interval ends before the next one starts. */
  ghost predicate Apart(a: Interval, b: Interval)
  {
    && a.hi.Some? && b.lo.Some?
    && (Less(a.hi.value, b.lo.value) || (a.hi.value == b.lo.value && (a.hiOpen || b.loOpen)))
  }

  /** The ends of an interval do not cross. */
  ghost predicate Uncrossed(iv: Interval)
  {
    iv.lo.Some? && iv.hi.Some? ==> LessEq(iv.lo.value, iv.hi.value)
  }

  ghost predicate Separated(ivs: seq<Interval>)
  {
    && (forall i, j :: 0 <= i < j < |ivs| ==> Apart(ivs[i], ivs[j]))
    && (forall i :: 0 <= i < |ivs| ==> Uncrossed(ivs[i]))
  }

  /** Tightens one interval by a range comparison. */
  method Tighten(iv: IntervalOf<Value>, o: OpValOf<Value>) returns (r: IntervalOf<Value>)
    requires o.op != Neq && Good(iv) && Ordered(o.val)
    ensures Good(r) && forall v :: Inside(Pos(r), v) <==> Inside(Pos(iv), v) && Holds(PosOp(o), v)
    ensures (r.lo == iv.lo || r.lo == Some(o.val)) && (r.hi == iv.hi || r.hi == Some(o.val))
  {
    hide Less; hide Position; hide CmpValue;
    r := iv;
    if o.op == Gt || o.op == Gte {
      var tighter := iv.lo.None?;
      if iv.lo.Some? {
        var c := CmpValue(o.val, iv.lo.value);
        ComparesByPosition(o.val, iv.lo.value);
        tighter := c > 0 || (c == 0 && o.op == Gt);
      }
      if tighter {
        r := iv.(lo := Some(o.val), loOpen := o.op == Gt);
      }
      forall v ensures AboveLo(Pos(r), v) <==> AboveLo(Pos(iv), v) && Holds(PosOp(o), v) { TightenLo(Pos(iv), PosOp(o), v); }
    } else {
      var tighter := iv.hi.None?;
      if iv.hi.Some? {
        var c := CmpValue(o.val, iv.hi.value);
        ComparesByPosition(o.val, iv.hi.value);
        tighter := c < 0 || (c == 0 && o.op == Lt);
      }
      if tighter {
        r := iv.(hi := Some(o.val), hiOpen := o.op == Lt);
      }
      forall v ensures BelowHi(Pos(r), v) <==> BelowHi(Pos(iv), v) && Holds(PosOp(o), v) { TightenHi(Pos(iv), PosOp(o), v); }
    }
  }

  lemma TightenLo(iv: Interval, o: OpVal, v: Key)
    requires o.op == Gt || o.op == Gte
    ensures
      var tighter := iv.lo.None? || Less(iv.lo.value, o.val) || (o.val == iv.lo.value && o.op == Gt);
      var r := if tighter then iv.(lo := Some(o.val), loOpen := o.op == Gt) else iv;
      AboveLo(r, v) <==> AboveLo(iv, v) && Holds(o, v)
  {
    hide Less;
    if iv.lo.Some? {
      Order(iv.lo.value, o.val, v);
      Order(o.val, iv.lo.value, v);
    }
  }

  lemma TightenHi(iv: Interval, o: OpVal, v: Key)
    requires o.op == Lt || o.op == Lte
    ensures
      var tighter := iv.hi.None? || Less(o.val, iv.hi.value) || (o.val == iv.hi.value && o.op == Lt);
      var r := if tighter then iv.(hi := Some(o.val), hiOpen := o.op == Lt) else iv;
      BelowHi(r, v) <==> BelowHi(iv, v) && Holds(o, v)
  {
    hide Less;
    if iv.hi.Some? {
      Order(v, iv.hi.value, o.val);
      Order(v, o.val, iv.hi.value);
      Order(iv.hi.value, o.val, v);
      Order(o.val, iv.hi.value, v);
    }
  }

  /** Cuts one value out of an interval it lies in. */
  method Cut(iv: IntervalOf<Value>, nv: Value) returns (parts: seq<IntervalOf<Value>>)
    requires Good(iv) && Ordered(nv)
    ensures AllGood(parts) && forall v :: Covered(PosAll(parts), v) <==> Inside(Pos(iv), v) && v != Position(nv)
    ensures Uncrossed(Pos(iv)) ==> Separated(PosAll(parts))
    ensures PosAll(parts) == [Pos(iv)] || (Inside(Pos(iv), Position(nv)) && PosAll(parts) == CutAt(Pos(iv), Position(nv)))
    ensures forall i :: 0 <= i < |parts| ==>
      (parts[i].lo == iv.lo || parts[i].lo == Some(nv)) && (parts[i].hi == iv.hi || parts[i].hi == Some(nv))
  {
    hide Less; hide Position; hide CmpValue;
    ghost var p, at := Pos(iv), Position(nv);
    var inRange := true;
    if iv.lo.Some? {
      var c := CmpValue(nv, iv.lo.value);
      ComparesByPosition(nv, iv.lo.value);
      Order(p.lo.value, at, at);
      inRange := if iv.loOpen then c > 0 else c >= 0;
    }
    if inRange && iv.hi.Some? {
      var c := CmpValue(nv, iv.hi.value);
      ComparesByPosition(nv, iv.hi.value);
      Order(at, p.hi.value, at);
      inRange := if iv.hiOpen then c < 0 else c <= 0;
    }
    assert inRange <==> Inside(p, at);
    if inRange {
      parts := [Span(iv.lo, Some(nv), iv.loOpen, true), Span(Some(nv), iv.hi, true, iv.hiOpen)];
      assert PosAll(parts) == CutAt(p, at);
      forall v ensures Covered(PosAll(parts), v) <==> Inside(p, v) && v != at { CutCovers(p, at, v); }
      CutSeparated(p, at);
    } else {
      parts := [iv];
      assert PosAll(parts) == [p];
      forall v ensures Covered([p], v) <==> Inside(p, v) { OneCovers(p, v); }
    }
  }

  function CutAt(iv: Interval, nv: Key): (parts: seq<Interval>)
  {
    [Span(iv.lo, Some(nv), iv.loOpen, true), Span(Some(nv), iv.hi, true, iv.hiOpen)]
  }

  lemma OneCovers(iv: Interval, v: Key)
    ensures Covered([iv], v) <==> Inside(iv, v)
  {
    hide Inside;
    var one := [iv];
    assert one[0] == iv;
  }

  lemma CutCovers(iv: Interval, nv: Key, v: Key)
    requires Inside(iv, nv)
    ensures Covered(CutAt(iv, nv), v) <==> Inside(iv, v) && v != nv
  {
    hide Less;
    var parts := CutAt(iv, nv);
    Order(v, nv, v);
    Order(nv, v, v);
    if iv.lo.Some? {
      Order(iv.lo.value, nv, v);
    }
    if iv.hi.Some? {
      Order(v, nv, iv.hi.value);
    }
    assert Inside(iv, v) && v != nv ==> Inside(parts[0], v) || Inside(parts[1], v);
  }

  lemma CutSeparated(iv: Interval, nv: Key)
    requires Inside(iv, nv)
    ensures Separated(CutAt(iv, nv))
  {
  }

  /** One exclusion applied to all the intervals. */
  method CutAll(ivs: seq<IntervalOf<Value>>, nv: Value) returns (out: seq<IntervalOf<Value>>)
    requires AllGood(ivs) && Ordered(nv) && Separated(PosAll(ivs))
    ensures AllGood(out) && Separated(PosAll(out))
    ensures forall v :: Covered(PosAll(out), v) <==> Covered(PosAll(ivs), v) && v != Position(nv)
    ensures forall ops :: AllEndsFrom(ivs, ops) && FromOps(Some(nv), ops) ==> AllEndsFrom(out, ops)
  {
    hide Less; hide Inside; hide Position; hide CmpValue; hide FromOps; hide PosAll; hide Apart; hide Uncrossed;
    ghost var ps, at := PosAll(ivs), Position(nv);
    out := [];
    assert PosAll(out) == [];
    for i := 0 to |ivs|
      invariant AllGood(out) && Separated(PosAll(out))
      invariant forall v :: Covered(PosAll(out), v) <==> Covered(ps[..i], v) && v != at
      invariant forall j :: 0 <= j < |out| && i < |ivs| ==> BeforeAll(PosAll(out)[j], ps, i)
      invariant forall ops :: AllEndsFrom(ivs, ops) && FromOps(Some(nv), ops) ==> AllEndsFrom(out, ops)
    {
      var parts := Cut(ivs[i], nv);
      PosConcat(out, parts);
      assert Uncrossed(ps[i]);
      JoinSeparated(PosAll(out), PosAll(parts), ps, i, at);
      forall v ensures Covered(PosAll(out) + PosAll(parts), v) <==> Covered(ps[..i + 1], v) && v != at {
        CoveredConcat(PosAll(out), PosAll(parts), v);
        assert ps[..i + 1] == ps[..i] + [ps[i]];
        CoveredConcat(ps[..i], [ps[i]], v);
        OneCovers(ps[i], v);
      }
      forall ops | AllEndsFrom(ivs, ops) && FromOps(Some(nv), ops)
        ensures AllEndsFrom(out + parts, ops)
      {
        assert EndsFrom(ivs[i], ops);
      }
      out := out + parts;
    }
    assert ps[..|ps|] == ps;
  }

  lemma PosConcat(a: seq<IntervalOf<Value>>, b: seq<IntervalOf<Value>>)
    requires AllGood(a) && AllGood(b)
    ensures AllGood(a + b) && PosAll(a + b) == PosAll(a) + PosAll(b)
  {
    hide Pos; hide Good;
    assert forall i :: 0 <= i < |a + b| ==> (a + b)[i] == if i < |a| then a[i] else b[i - |a|];
  }

  /** Before every interval from position i on. */
  ghost predicate BeforeAll(iv: Interval, ivs: seq<Interval>, i: nat)
  {
    forall j :: i <= j < |ivs| ==> Apart(iv, ivs[j])
  }

  lemma CoveredConcat(a: seq<Interval>, b: seq<Interval>, v: Key)
    ensures Covered(a + b, v) <==> Covered(a, v) || Covered(b, v)
  {
    hide Inside;
    if Covered(a, v) {
      var i :| 0 <= i < |a| && Inside(a[i], v);
      assert (a + b)[i] == a[i];
    }
    if Covered(b, v) {
      var i :| 0 <= i < |b| && Inside(b[i], v);
      assert (a + b)[|a| + i] == b[i];
    }
    if Covered(a + b, v) {
      var i :| 0 <= i < |a + b| && Inside((a + b)[i], v);
      assert (a + b)[i] == if i < |a| then a[i] else b[i - |a|];
    }
  }

  /** A piece of an interval keeps its distance from the intervals around it. */
  lemma PieceApart(x: Interval, iv: Interval, y: Interval, nv: Key, m: nat)
    requires m < 2 && Inside(iv, nv)
    ensures Apart(x, iv) ==> Apart(x, CutAt(iv, nv)[m])
    ensures Apart(iv, y) ==> Apart(CutAt(iv, nv)[m], y)
  {
    hide Less;
    if Apart(x, iv) {
      Order(x.hi.value, iv.lo.value, nv);
    }
    if Apart(iv, y) {
      Order(nv, iv.hi.value, y.lo.value);
    }
  }

  lemma JoinSeparated(out: seq<Interval>, parts: seq<Interval>, ivs: seq<Interval>, i: nat, nv: Key)
    requires Separated(out) && Separated(ivs) && Separated(parts) && i < |ivs|
    requires parts == [ivs[i]] || (Inside(ivs[i], nv) && parts == CutAt(ivs[i], nv))
    requires forall j :: 0 <= j < |out| ==> BeforeAll(out[j], ivs, i)
    ensures Separated(out + parts)
    ensures var next := i + 1; forall j :: 0 <= j < |out + parts| ==> BeforeAll((out + parts)[j], ivs, next)
  {
    hide Less; hide Apart; hide Uncrossed; hide Inside;
    var all := out + parts;
    var next := i + 1;
    forall j, m | 0 <= j < |out| && 0 <= m < |parts|
      ensures Apart(out[j], parts[m])
    {
      assert BeforeAll(out[j], ivs, i);
      if parts != [ivs[i]] {
        PieceApart(out[j], ivs[i], ivs[i], nv, m);
      }
    }
    forall j, m | 0 <= j < m < |all|
      ensures Apart(all[j], all[m])
    {
      if j < |out| <= m {
        assert all[j] == out[j] && all[m] == parts[m - |out|];
      }
    }
    forall j | 0 <= j < |all|
      ensures BeforeAll(all[j], ivs, next)
    {
      forall m | next <= m < |ivs|
        ensures Apart(all[j], ivs[m])
      {
        if j < |out| {
          assert BeforeAll(out[j], ivs, i);
        } else {
          assert Apart(ivs[i], ivs[m]);
          if parts != [ivs[i]] {
            PieceApart(ivs[i], ivs[i], ivs[m], nv, j - |out|);
          }
        }
      }
    }
  }

  // ---- merging ----

  /** The order intervals are sorted by: an absent lower end first. */
  predicate StartsBefore(a: Interval, b: Interval)
  {
    if b.lo.None? then false else a.lo.None? || Less(a.lo.value, b.lo.value)
  }

  /** Stable insertion: behind everything that does not start later. */
  function InsertByStart(sorted: seq<Interval>, iv: Interval): (r: seq<Interval>)
  {
    if sorted == [] || !StartsBefore(iv, sorted[|sorted| - 1]) then sorted + [iv]
    else InsertByStart(sorted[..|sorted| - 1], iv) + [sorted[|sorted| - 1]]
  }

  function SortByStart(ivs: seq<Interval>): (r: seq<Interval>)
  {
    if ivs == [] then [] else InsertByStart(SortByStart(ivs[..|ivs| - 1]), ivs[|ivs| - 1])
  }

  ghost predicate SortedByStart(ivs: seq<Interval>)
  {
    forall i, j :: 0 <= i < j < |ivs| ==> !StartsBefore(ivs[j], ivs[i])
  }

  /** Sorting moves intervals around and nothing else. */
  lemma {:induction false} SortCovers(ivs: seq<Interval>)
    ensures |SortByStart(ivs)| == |ivs| && SortedByStart(SortByStart(ivs))
    ensures forall x :: x in SortByStart(ivs) <==> x in ivs
  {
    hide StartsBefore;
    if ivs != [] {
      var n := |ivs| - 1;
      SortCovers(ivs[..n]);
      InsertCovers(SortByStart(ivs[..n]), ivs[n]);
      assert ivs == ivs[..n] + [ivs[n]];
    }
  }

  lemma {:induction false} InsertCovers(sorted: seq<Interval>, iv: Interval)
    requires SortedByStart(sorted)
    ensures |InsertByStart(sorted, iv)| == |sorted| + 1
    ensures forall x :: x in InsertByStart(sorted, iv) <==> x in sorted || x == iv
    ensures SortedByStart(InsertByStart(sorted, iv))
  {
    hide StartsBefore;
    if sorted != [] {
      var n := |sorted| - 1;
      var front, last := sorted[..n], sorted[n];
      assert sorted == front + [last];
      if StartsBefore(iv, last) {
        InsertCovers(front, iv);
        NotBothBefore(iv, last);
        AppendSorted(InsertByStart(front, iv), last);
      } else {
        forall x | x in sorted
          ensures !StartsBefore(iv, x)
        {
          var i :| 0 <= i < |sorted| && sorted[i] == x;
          if i < n {
            StartsChain(x, last, iv);
          }
        }
        AppendSorted(sorted, iv);
      }
    }
  }

  lemma AppendSorted(s: seq<Interval>, iv: Interval)
    requires SortedByStart(s) && forall x :: x in s ==> !StartsBefore(iv, x)
    ensures SortedByStart(s + [iv])
  {
    hide StartsBefore;
  }

  lemma NotBothBefore(a: Interval, b: Interval)
    requires StartsBefore(a, b)
    ensures !StartsBefore(b, a)
  {
    hide Less;
    if a.lo.Some? {
      Order(a.lo.value, b.lo.value, b.lo.value);
    }
  }

  lemma StartsChain(a: Interval, b: Interval, c: Interval)
    requires !StartsBefore(b, a) && !StartsBefore(c, b)
    ensures !StartsBefore(c, a)
  {
    hide Less;
    if a.lo.Some? && b.lo.Some? && c.lo.Some? {
      Order(a.lo.value, b.lo.value, c.lo.value);
      Order(b.lo.value, c.lo.value, c.lo.value);
      Order(a.lo.value, c.lo.value, c.lo.value);
    }
  }

  lemma {:induction false} SeparatedIsSorted(ivs: seq<Interval>)
    requires Separated(ivs)
    ensures SortByStart(ivs) == ivs
  {
    hide Less; hide StartsBefore; hide Apart; hide Uncrossed;
    if ivs != [] {
      var n := |ivs| - 1;
      var front, last := ivs[..n], ivs[n];
      assert forall i :: 0 <= i < n ==> front[i] == ivs[i];
      SeparatedIsSorted(front);
      if n > 0 {
        assert Apart(ivs[n - 1], last) && Uncrossed(ivs[n - 1]);
        NotEarlier(ivs[n - 1], last);
      }
      assert ivs == front + [last];
    }
  }

  lemma NotEarlier(a: Interval, b: Interval)
    requires Apart(a, b) && Uncrossed(a)
    ensures !StartsBefore(b, a)
  {
    hide Less;
    if a.lo.Some? {
      Order(a.lo.value, a.hi.value, b.lo.value);
      Order(a.lo.value, b.lo.value, b.lo.value);
    }
  }

  /** Two neighbours touch or overlap. */
  predicate Touching(prev: Interval, cur: Interval)
  {
    || prev.hi.None?
    || (cur.lo.Some? && (Less(cur.lo.value, prev.hi.value)
                         || (cur.lo.value == prev.hi.value && !prev.hiOpen && !cur.loOpen)))
  }

  lemma ApartNotTouching(prev: Interval, cur: Interval)
    requires Apart(prev, cur)
    ensures !Touching(prev, cur)
  {
    hide Less;
    Order(prev.hi.value, cur.lo.value, prev.hi.value);
    Order(cur.lo.value, prev.hi.value, prev.hi.value);
  }

  /** The interval two neighbours are joined to. */
  function JoinTwo(prev: Interval, cur: Interval): (r: Interval)
  {
    if prev.hi.None? then Span(prev.lo, cur.hi, prev.loOpen, cur.hiOpen)
    else if cur.hi.None? then Span(prev.lo, None, prev.loOpen, false)
    else if Less(prev.hi.value, cur.hi.value) then Span(prev.lo, cur.hi, prev.loOpen, cur.hiOpen)
    else if Less(cur.hi.value, prev.hi.value) then prev
    else Span(prev.lo, prev.hi, prev.loOpen, prev.hiOpen && cur.hiOpen)
  }

  /** An unbounded interval followed by a bounded one. */
  predicate LosesTop(prev: Interval, cur: Interval)
  {
    prev.hi.None? && cur.hi.Some?
  }

  /** An interval open at its start followed by one that includes the same start. */
  predicate LosesStart(prev: Interval, cur: Interval)
  {
    prev.lo.Some? && cur.lo == prev.lo && prev.loOpen && !cur.loOpen && Inside(cur, cur.lo.value)
  }

  ghost predicate JoinsExactly(prev: Interval, cur: Interval)
  {
    forall v :: Inside(JoinTwo(prev, cur), v) <==> Inside(prev, v) || Inside(cur, v)
  }

  /** Joining two touching intervals covers exactly both unless the first is unbounded above and the
      second is not, or the second includes a start the first leaves out. */
  lemma JoinExact(prev: Interval, cur: Interval)
    requires Touching(prev, cur) && !StartsBefore(cur, prev) && Uncrossed(prev) && Uncrossed(cur)
    ensures JoinsExactly(prev, cur) <==> !LosesTop(prev, cur) && !LosesStart(prev, cur)
  {
    hide Less; hide Inside;
    if LosesTop(prev, cur) {
      TopLost(prev, cur);
    } else if LosesStart(prev, cur) {
      StartLost(prev, cur);
    } else {
      forall v ensures Inside(JoinTwo(prev, cur), v) <==> Inside(prev, v) || Inside(cur, v) {
        JoinLow(prev, cur, v);
        JoinHigh(prev, cur, v);
      }
    }
  }

  lemma TopLost(prev: Interval, cur: Interval)
    requires LosesTop(prev, cur) && !StartsBefore(cur, prev) && Uncrossed(cur)
    ensures !JoinsExactly(prev, cur)
  {
    hide Less;
    var h := cur.hi.value;
    var v: Key := h + [0];
    PrefixLess(h, v);
    Order(v, h, v);
    Order(h, v, v);
    if prev.lo.Some? {
      Order(prev.lo.value, cur.lo.value, h);
      Order(cur.lo.value, prev.lo.value, h);
      Order(prev.lo.value, h, v);
    }
    assert Inside(prev, v) && !Inside(JoinTwo(prev, cur), v);
  }

  lemma StartLost(prev: Interval, cur: Interval)
    requires LosesStart(prev, cur)
    ensures !JoinsExactly(prev, cur)
  {
    hide Less;
    var v := cur.lo.value;
    Order(v, v, v);
    assert Inside(cur, v) && !Inside(JoinTwo(prev, cur), v);
  }

  /** Above the joined start means above the start of one of them, below its end permitting. */
  lemma JoinLow(prev: Interval, cur: Interval, v: Key)
    requires !StartsBefore(cur, prev) && !LosesStart(prev, cur)
    ensures Inside(cur, v) ==> AboveLo(prev, v)
  {
    hide Less;
    if prev.lo.Some? && cur.lo.Some? {
      Order(prev.lo.value, cur.lo.value, v);
      Order(cur.lo.value, prev.lo.value, v);
      Order(cur.lo.value, v, v);
      if cur.hi.Some? {
        Order(cur.lo.value, v, cur.hi.value);
      }
    }
  }

  lemma JoinHigh(prev: Interval, cur: Interval, v: Key)
    requires Touching(prev, cur) && !LosesTop(prev, cur) && (Inside(cur, v) ==> AboveLo(prev, v))
    ensures Inside(JoinTwo(prev, cur), v) <==> Inside(prev, v) || Inside(cur, v)
  {
    hide Less;
    if prev.hi.Some? && cur.hi.Some? {
      Order(v, prev.hi.value, cur.hi.value);
      Order(v, cur.hi.value, prev.hi.value);
      Order(prev.hi.value, cur.hi.value, v);
      Order(cur.hi.value, prev.hi.value, v);
      Order(prev.hi.value, v, cur.hi.value);
    }
    if prev.hi.Some? && cur.lo.Some? {
      Order(cur.lo.value, prev.hi.value, v);
      Order(v, prev.hi.value, v);
      Order(prev.hi.value, v, v);
      Order(cur.lo.value, v, v);
    }
  }

  /** A list no join of which can lose anything: all its intervals have an upper end or none has, and
      those that start together start alike. */
  ghost predicate Tame(ivs: seq<Interval>)
  {
    && (forall i :: 0 <= i < |ivs| ==> Uncrossed(ivs[i]))
    && (forall i, j :: 0 <= i < |ivs| && 0 <= j < |ivs| ==> Alike(ivs[i], ivs[j]))
  }

  ghost predicate Alike(a: Interval, b: Interval)
  {
    (a.hi.None? <==> b.hi.None?) && (a.lo == b.lo ==> a.loOpen == b.loOpen)
  }

  /** Stable insertion and sorting of intervals with values as ends. */
  function InsertValue(sorted: seq<IntervalOf<Value>>, iv: IntervalOf<Value>): (r: seq<IntervalOf<Value>>)
    requires AllGood(sorted) && Good(iv)
    ensures AllGood(r)
  {
    if sorted == [] || !StartsFirst(iv, sorted[|sorted| - 1]) then sorted + [iv]
    else InsertValue(sorted[..|sorted| - 1], iv) + [sorted[|sorted| - 1]]
  }

  function SortValues(ivs: seq<IntervalOf<Value>>): (r: seq<IntervalOf<Value>>)
    requires AllGood(ivs)
    ensures AllGood(r)
  {
    if ivs == [] then [] else InsertValue(SortValues(ivs[..|ivs| - 1]), ivs[|ivs| - 1])
  }

  predicate StartsFirst(a: IntervalOf<Value>, b: IntervalOf<Value>)
    requires Good(a) && Good(b)
  {
    if b.lo.None? then false else a.lo.None? || CmpValue(a.lo.value, b.lo.value) < 0
  }

  lemma StartsByPosition(a: IntervalOf<Value>, b: IntervalOf<Value>)
    requires Good(a) && Good(b)
    ensures StartsFirst(a, b) <==> StartsBefore(Pos(a), Pos(b))
  {
    hide Less; hide Position; hide CmpValue;
    if a.lo.Some? && b.lo.Some? {
      ComparesByPosition(a.lo.value, b.lo.value);
    }
  }

  lemma {:induction false} InsertByPosition(sorted: seq<IntervalOf<Value>>, iv: IntervalOf<Value>)
    requires AllGood(sorted) && Good(iv)
    ensures PosAll(InsertValue(sorted, iv)) == InsertByStart(PosAll(sorted), Pos(iv))
    ensures forall x :: x in InsertValue(sorted, iv) ==> x in sorted || x == iv
  {
    hide Pos; hide StartsFirst; hide StartsBefore;
    if sorted != [] {
      var n := |sorted| - 1;
      var front, last := sorted[..n], sorted[n];
      StartsByPosition(iv, last);
      assert PosAll(sorted)[..n] == PosAll(front);
      if StartsFirst(iv, last) {
        InsertByPosition(front, iv);
        PosConcat(InsertValue(front, iv), [last]);
        assert PosAll([last]) == [Pos(last)];
      }
    }
    if sorted == [] || !StartsFirst(iv, sorted[|sorted| - 1]) {
      PosConcat(sorted, [iv]);
      assert PosAll([iv]) == [Pos(iv)];
    }
  }

  lemma {:induction false} SortByPosition(ivs: seq<IntervalOf<Value>>)
    requires AllGood(ivs)
    ensures PosAll(SortValues(ivs)) == SortByStart(PosAll(ivs))
    ensures forall x :: x in SortValues(ivs) ==> x in ivs
  {
    hide Pos; hide InsertValue; hide InsertByStart;
    if ivs != [] {
      var n := |ivs| - 1;
      SortByPosition(ivs[..n]);
      InsertByPosition(SortValues(ivs[..n]), ivs[n]);
      assert PosAll(ivs)[..n] == PosAll(ivs[..n]);
    } else {
      assert PosAll(ivs) == [] && PosAll(SortValues(ivs)) == [];
    }
  }

  /** Neighbours are joined when they touch and, where both ends exist, those are of one kind. */
  predicate CanMerge(prev: IntervalOf<Value>, cur: IntervalOf<Value>)
    requires Good(prev) && Good(cur)
  {
    || prev.hi.None?
    || (cur.lo.Some? && KindRank(cur.lo.value) == KindRank(prev.hi.value)
        && (CmpValue(cur.lo.value, prev.hi.value) < 0
            || (CmpValue(cur.lo.value, prev.hi.value) == 0 && !prev.hiOpen && !cur.loOpen)))
  }

  function JoinValues(prev: IntervalOf<Value>, cur: IntervalOf<Value>): (r: IntervalOf<Value>)
    requires Good(prev) && Good(cur)
    ensures Good(r) && r.lo == prev.lo && (r.hi == prev.hi || r.hi == cur.hi)
  {
    if prev.hi.None? then Span(prev.lo, cur.hi, prev.loOpen, cur.hiOpen)
    else if cur.hi.None? then Span(prev.lo, None, prev.loOpen, false)
    else
      var c := CmpValue(cur.hi.value, prev.hi.value);
      if c > 0 then Span(prev.lo, cur.hi, prev.loOpen, cur.hiOpen)
      else if c < 0 then prev
      else Span(prev.lo, prev.hi, prev.loOpen, prev.hiOpen && cur.hiOpen)
  }

  lemma JoinByPosition(prev: IntervalOf<Value>, cur: IntervalOf<Value>)
    requires Good(prev) && Good(cur)
    ensures CanMerge(prev, cur) ==> Touching(Pos(prev), Pos(cur))
    ensures Pos(JoinValues(prev, cur)) == JoinTwo(Pos(prev), Pos(cur))
  {
    hide Less; hide Position; hide CmpValue;
    if prev.hi.Some? && cur.lo.Some? {
      ComparesByPosition(cur.lo.value, prev.hi.value);
    }
    if prev.hi.Some? && cur.hi.Some? {
      ComparesByPosition(cur.hi.value, prev.hi.value);
    }
  }

  /** Sorts by start and joins neighbours that touch.  No value is covered that was not before.  Intervals
      that are apart come back as they are; of a tame list exactly the same values are covered. */
  method MergeIntervals(ivs: seq<IntervalOf<Value>>) returns (result: seq<IntervalOf<Value>>)
    requires AllGood(ivs)
    ensures AllGood(result)
    ensures Separated(PosAll(ivs)) ==> PosAll(result) == PosAll(ivs)
    ensures forall v :: Covered(PosAll(result), v) ==> Covered(PosAll(ivs), v)
    ensures Tame(PosAll(ivs)) ==> forall v :: Covered(PosAll(result), v) <==> Covered(PosAll(ivs), v)
    ensures forall ops :: AllEndsFrom(ivs, ops) ==> AllEndsFrom(result, ops)
    ensures (exists r :: EndsOfKind(ivs, r)) && Tame(PosAll(ivs)) && OneBottom(SortByStart(PosAll(ivs))) ==> Separated(PosAll(result))
  {
    hide Less; hide Apart; hide Uncrossed; hide Inside; hide Tame; hide SortedByStart; hide Covered; hide JoinTwo;
    hide SortByStart; hide Grown; hide FromOps; hide JoinValues; hide CanMerge; hide SortValues; hide PosAll;
    hide Pos; hide Good;
    hide Touching; hide NothingGained; hide EndsOfKind; hide OneBottom;
    if |ivs| <= 1 {
      OneSeparated(PosAll(ivs));
      return ivs;
    }
    ghost var ps := PosAll(ivs);
    var sorted := SortValues(ivs);
    SortByPosition(ivs);
    ghost var ss := PosAll(sorted);
    if Separated(ps) {
      SeparatedIsSorted(ps);
    }
    SortCovers(ps);
    Shuffled(ps, ss);
    EndsShuffled(ivs, sorted);
    result := [sorted[0]];
    GrownStart(ss);
    assert PosAll(result) == [ss[0]];
    assert ss[..1] == [ss[0]];
    Unchanged(ss[..1]);
    ghost var alike := (exists r :: EndsOfKind(ivs, r)) && Tame(ps) && OneBottom(ss);
    ghost var rank :| (exists r :: EndsOfKind(ivs, r)) ==> EndsOfKind(ivs, rank);
    if alike {
      KindSorted(ivs, sorted, rank);
      FirstSeparated(ss);
      KindFirst(sorted, rank);
    }
    for i := 1 to |sorted|
      invariant |result| > 0 && AllGood(result)
      invariant alike ==> Separated(PosAll(result)) && EndsOfKind(result, rank)
      invariant Separated(ps) ==> PosAll(result) == ss[..i]
      invariant NothingGained(PosAll(result), ss[..i])
      invariant Tame(ps) ==> Grown(PosAll(result), ss, i)
      invariant forall ops :: AllEndsFrom(sorted, ops) ==> AllEndsFrom(result, ops)
    {
      var n := |result| - 1;
      ghost var before := PosAll(result);
      assert before[n] == Pos(result[n]) && ss[i] == Pos(sorted[i]);
      JoinByPosition(result[n], sorted[i]);
      if Separated(ps) {
        assert Apart(ss[i - 1], ss[i]);
        ApartNotTouching(ss[i - 1], ss[i]);
      }
      var join := CanMerge(result[n], sorted[i]);
      GainNothing(before, ss, i, join);
      if Tame(ps) {
        GrowOne(before, ss, i, join);
      }
      if alike {
        KindJoins(result, sorted, i, rank);
        GrowApart(before, ss, i, join);
      }
      ghost var was := result;
      if join {
        PosFront(result);
        result := result[..n] + [JoinValues(result[n], sorted[i])];
        PosConcat(result[..n], [JoinValues(was[n], sorted[i])]);
        assert result[..n] == was[..n];
        EndsJoined(was, sorted, i);
      } else {
        PosConcat(result, [sorted[i]]);
        result := result + [sorted[i]];
        EndsAppended(was, sorted, i);
      }
      assert result == if join then was[..n] + [JoinValues(was[n], sorted[i])] else was + [sorted[i]];
      PosLast(was, sorted[i], result, join);
      assert ss[..i + 1] == ss[..i] + [ss[i]];
    }
    assert ss[..|ss|] == ss;
    Gained(PosAll(result), ss);
    if Tame(ps) {
      GrownAll(PosAll(result), ss);
    }
  }

  /** All ends are of one kind. */
  ghost predicate EndsOfKind(ivs: seq<IntervalOf<Value>>, r: int)
  {
    forall i :: 0 <= i < |ivs| ==> KindIs(ivs[i], r)
  }

  ghost predicate KindIs(iv: IntervalOf<Value>, r: int)
  {
    Good(iv) && (iv.lo.Some? ==> KindRank(iv.lo.value) == r) && (iv.hi.Some? ==> KindRank(iv.hi.value) == r)
  }

  /** Only the first of the sorted intervals may be without a lower end. */
  ghost predicate OneBottom(sorted: seq<Interval>)
  {
    forall i :: 1 <= i < |sorted| ==> sorted[i].lo.Some?
  }

  lemma OneSeparated(ivs: seq<Interval>)
    requires |ivs| <= 1
    ensures Tame(ivs) ==> Separated(ivs)
  {
  }

  lemma FirstSeparated(ss: seq<Interval>)
    requires |ss| > 0 && Tame(ss)
    ensures Separated([ss[0]])
  {
  }

  lemma KindFirst(sorted: seq<IntervalOf<Value>>, r: int)
    requires |sorted| > 0 && EndsOfKind(sorted, r)
    ensures EndsOfKind([sorted[0]], r)
  {
  }

  lemma KindSorted(ivs: seq<IntervalOf<Value>>, sorted: seq<IntervalOf<Value>>, r: int)
    requires AllGood(ivs) && sorted == SortValues(ivs) && EndsOfKind(ivs, r)
    ensures EndsOfKind(sorted, r)
  {
    hide KindIs; hide SortValues;
    forall i | 0 <= i < |sorted|
      ensures KindIs(sorted[i], r)
    {
      SortedFrom(ivs, sorted[i]);
      var j :| 0 <= j < |ivs| && ivs[j] == sorted[i];
    }
  }

  lemma {:induction false} SortedFrom(ivs: seq<IntervalOf<Value>>, x: IntervalOf<Value>)
    requires AllGood(ivs) && x in SortValues(ivs)
    ensures x in ivs
  {
    if ivs != [] {
      var n := |ivs| - 1;
      InsertedFrom(SortValues(ivs[..n]), ivs[n], x);
      if x in SortValues(ivs[..n]) {
        SortedFrom(ivs[..n], x);
      }
    }
  }

  lemma {:induction false} InsertedFrom(sorted: seq<IntervalOf<Value>>, iv: IntervalOf<Value>, x: IntervalOf<Value>)
    requires AllGood(sorted) && Good(iv) && x in InsertValue(sorted, iv)
    ensures x in sorted || x == iv
  {
    hide StartsFirst; hide Good;
    if sorted != [] && StartsFirst(iv, sorted[|sorted| - 1]) {
      var n := |sorted| - 1;
      if x in InsertValue(sorted[..n], iv) {
        InsertedFrom(sorted[..n], iv, x);
      }
    }
  }

  /** Ends of one kind: neighbours are joined exactly when they touch, and the result is of that kind. */
  lemma KindJoins(result: seq<IntervalOf<Value>>, sorted: seq<IntervalOf<Value>>, i: nat, r: int)
    requires |result| > 0 && i < |sorted| && AllGood(result) && AllGood(sorted) && EndsOfKind(result, r) && EndsOfKind(sorted, r)
    ensures
      var prev, cur := result[|result| - 1], sorted[i];
      && (CanMerge(prev, cur) <==> Touching(Pos(prev), Pos(cur)))
      && EndsOfKind(result + [cur], r) && EndsOfKind(result[..|result| - 1] + [JoinValues(prev, cur)], r)
  {
    hide Less; hide Position; hide CmpValue; hide KindRank;
    var prev, cur := result[|result| - 1], sorted[i];
    if prev.hi.Some? && cur.lo.Some? {
      ComparesByPosition(cur.lo.value, prev.hi.value);
    }
  }

  /** Growing a list of intervals that are apart by the next sorted one keeps them apart. */
  lemma GrowApart(result: seq<Interval>, sorted: seq<Interval>, i: nat, join: bool)
    requires Tame(sorted) && SortedByStart(sorted) && OneBottom(sorted) && 1 <= i < |sorted| && Grown(result, sorted, i)
    requires Separated(result) && join == Touching(result[|result| - 1], sorted[i])
    ensures
      var n := |result| - 1;
      Separated(if join then result[..n] + [JoinTwo(result[n], sorted[i])] else result + [sorted[i]])
  {
    hide Less; hide Covered;
    var n, cur := |result| - 1, sorted[i];
    var last := result[n];
    var k :| 0 <= k < i && last.lo == sorted[k].lo && last.loOpen == sorted[k].loOpen
             && (last.hi.None? <==> sorted[k].hi.None?);
    assert !StartsBefore(cur, sorted[k]) && Alike(sorted[k], cur);
    if join {
      JoinUncrossed(last, cur);
    } else {
      Order(cur.lo.value, last.hi.value, last.hi.value);
      assert Apart(last, cur);
      forall j | 0 <= j < n
        ensures Apart(result[j], cur)
      {
        assert Apart(result[j], last);
        ApartChain(result[j], last, cur);
      }
    }
  }

  lemma ApartChain(a: Interval, b: Interval, c: Interval)
    requires Apart(a, b) && Apart(b, c) && Uncrossed(b) && (b.lo == c.lo ==> b.loOpen == c.loOpen)
    ensures Apart(a, c)
  {
    hide Less;
    Order(a.hi.value, b.lo.value, b.hi.value);
    Order(a.hi.value, b.hi.value, c.lo.value);
    Order(b.lo.value, b.hi.value, c.lo.value);
    Order(c.lo.value, b.hi.value, b.lo.value);
  }

  /** Whatever the list covers the other covers. */
  ghost predicate NothingGained(result: seq<Interval>, ivs: seq<Interval>)
  {
    forall v :: Covered(result, v) ==> Covered(ivs, v)
  }

  lemma Unchanged(ivs: seq<Interval>)
    ensures NothingGained(ivs, ivs)
  {
  }

  lemma Gained(result: seq<Interval>, ivs: seq<Interval>)
    requires NothingGained(result, ivs)
    ensures forall v :: Covered(result, v) ==> Covered(ivs, v)
  {
  }

  /** Joining two touching intervals covers nothing that neither covers. */
  lemma JoinSound(prev: Interval, cur: Interval, v: Key)
    requires Touching(prev, cur)
    ensures Inside(JoinTwo(prev, cur), v) ==> Inside(prev, v) || Inside(cur, v)
  {
    hide Less;
    if prev.hi.Some? && cur.hi.Some? {
      Order(v, prev.hi.value, cur.hi.value);
      Order(v, cur.hi.value, prev.hi.value);
      Order(prev.hi.value, cur.hi.value, v);
      Order(cur.hi.value, prev.hi.value, v);
      Order(prev.hi.value, v, cur.hi.value);
    }
    if prev.hi.Some? && cur.lo.Some? {
      Order(cur.lo.value, prev.hi.value, v);
      Order(v, prev.hi.value, v);
      Order(prev.hi.value, v, v);
      Order(cur.lo.value, v, v);
    }
  }

  lemma GainNothing(result: seq<Interval>, sorted: seq<Interval>, i: nat, join: bool)
    requires i < |sorted| && |result| > 0 && NothingGained(result, sorted[..i])
    requires join ==> Touching(result[|result| - 1], sorted[i])
    ensures
      var n := |result| - 1;
      var next := if join then result[..n] + [JoinTwo(result[n], sorted[i])] else result + [sorted[i]];
      NothingGained(next, sorted[..i + 1])
  {
    hide Covered; hide Inside; hide Touching; hide JoinTwo;
    var n := |result| - 1;
    var front, prev, cur := result[..n], result[n], sorted[i];
    assert result == front + [prev] && sorted[..i + 1] == sorted[..i] + [cur];
    var next := if join then front + [JoinTwo(prev, cur)] else result + [cur];
    forall v | Covered(next, v)
      ensures Covered(sorted[..i + 1], v)
    {
      CoveredConcat(sorted[..i], [cur], v);
      OneCovers(cur, v);
      if join {
        CoveredConcat(front, [prev], v);
        CoveredConcat(front, [JoinTwo(prev, cur)], v);
        OneCovers(prev, v);
        OneCovers(JoinTwo(prev, cur), v);
        JoinSound(prev, cur, v);
      } else {
        CoveredConcat(result, [cur], v);
      }
    }
  }

  lemma PosFront(ivs: seq<IntervalOf<Value>>)
    requires AllGood(ivs) && ivs != []
    ensures AllGood(ivs[..|ivs| - 1]) && Good(ivs[|ivs| - 1])
    ensures PosAll(ivs[..|ivs| - 1]) == PosAll(ivs)[..|ivs| - 1]
  {
    hide Pos; hide Good;
  }

  lemma PosLast(was: seq<IntervalOf<Value>>, cur: IntervalOf<Value>, result: seq<IntervalOf<Value>>, join: bool)
    requires AllGood(was) && was != [] && Good(cur) && AllGood(result)
    requires result == if join then was[..|was| - 1] + [JoinValues(was[|was| - 1], cur)] else was + [cur]
    ensures PosAll(result) == if join then PosAll(was)[..|was| - 1] + [JoinTwo(Pos(was[|was| - 1]), Pos(cur))]
                              else PosAll(was) + [Pos(cur)]
  {
    hide Pos; hide Good; hide JoinValues; hide JoinTwo;
    PosFront(was);
    var n := |was| - 1;
    if join {
      JoinByPosition(was[n], cur);
      var j := JoinValues(was[n], cur);
      PosConcat(was[..n], [j]);
      assert PosAll([j]) == [Pos(j)];
    } else {
      PosConcat(was, [cur]);
      assert PosAll([cur]) == [Pos(cur)];
    }
  }

  lemma EndsShuffled(ivs: seq<IntervalOf<Value>>, sorted: seq<IntervalOf<Value>>)
    requires forall x :: x in sorted ==> x in ivs
    ensures forall ops :: AllEndsFrom(ivs, ops) ==> AllEndsFrom(sorted, ops)
  {
    hide EndsFrom;
    forall ops | AllEndsFrom(ivs, ops)
      ensures AllEndsFrom(sorted, ops)
    {
      forall i | 0 <= i < |sorted|
        ensures EndsFrom(sorted[i], ops)
      {
        assert sorted[i] in ivs;
        var j :| 0 <= j < |ivs| && ivs[j] == sorted[i];
      }
    }
  }

  lemma EndsJoined(result: seq<IntervalOf<Value>>, sorted: seq<IntervalOf<Value>>, i: nat)
    requires AllGood(result) && AllGood(sorted) && result != [] && i < |sorted|
    requires forall ops :: AllEndsFrom(sorted, ops) ==> AllEndsFrom(result, ops)
    ensures var n := |result| - 1; Good(result[n]) && Good(sorted[i])
    ensures var n := |result| - 1;
      forall ops :: AllEndsFrom(sorted, ops) ==> AllEndsFrom(result[..n] + [JoinValues(result[n], sorted[i])], ops)
  {
    hide FromOps; hide CmpValue;
    var n := |result| - 1;
    var j := JoinValues(result[n], sorted[i]);
    forall ops | AllEndsFrom(sorted, ops)
      ensures AllEndsFrom(result[..n] + [j], ops)
    {
      assert EndsFrom(result[n], ops) && EndsFrom(sorted[i], ops);
    }
  }

  lemma EndsAppended(result: seq<IntervalOf<Value>>, sorted: seq<IntervalOf<Value>>, i: nat)
    requires i < |sorted| && forall ops :: AllEndsFrom(sorted, ops) ==> AllEndsFrom(result, ops)
    ensures forall ops :: AllEndsFrom(sorted, ops) ==> AllEndsFrom(result + [sorted[i]], ops)
  {
    hide EndsFrom;
  }

  /** The result so far covers the intervals taken so far. */
  ghost predicate Grown(result: seq<Interval>, sorted: seq<Interval>, i: nat)
  {
    && |result| > 0 && i <= |sorted|
    && (forall v :: Covered(result, v) <==> Covered(sorted[..i], v))
    && LastFits(result[|result| - 1], sorted, i)
  }

  lemma GrownStart(sorted: seq<Interval>)
    requires |sorted| > 0
    ensures Tame(sorted) ==> Grown([sorted[0]], sorted, 1)
  {
    hide Inside;
    assert sorted[..1] == [sorted[0]];
  }

  lemma GrownAll(result: seq<Interval>, sorted: seq<Interval>)
    requires Grown(result, sorted, |sorted|)
    ensures forall v :: Covered(result, v) <==> Covered(sorted, v)
  {
    assert sorted[..|sorted|] == sorted;
  }

  lemma GrowOne(result: seq<Interval>, sorted: seq<Interval>, i: nat, join: bool)
    requires Tame(sorted) && SortedByStart(sorted) && i < |sorted| && Grown(result, sorted, i)
    requires join ==> |result| > 0 && Touching(result[|result| - 1], sorted[i])
    ensures
      var n := |result| - 1;
      var next := if join then result[..n] + [JoinTwo(result[n], sorted[i])] else result + [sorted[i]];
      Grown(next, sorted, i + 1)
  {
    hide Covered; hide Inside; hide Touching; hide JoinTwo; hide LastFits; hide Tame; hide SortedByStart;
    var n := |result| - 1;
    var front, prev, cur := result[..n], result[n], sorted[i];
    assert result == front + [prev] && sorted[..i + 1] == sorted[..i] + [cur];
    if join {
      TameJoin(prev, sorted, i);
      forall v ensures Covered(front + [JoinTwo(prev, cur)], v) <==> Covered(sorted[..i + 1], v) {
        CoveredConcat(front, [prev], v);
        CoveredConcat(front, [JoinTwo(prev, cur)], v);
        CoveredConcat(sorted[..i], [cur], v);
        OneCovers(prev, v);
        OneCovers(cur, v);
        OneCovers(JoinTwo(prev, cur), v);
      }
    } else {
      forall v ensures Covered(result + [cur], v) <==> Covered(sorted[..i + 1], v) {
        CoveredConcat(result, [cur], v);
        CoveredConcat(sorted[..i], [cur], v);
      }
      NextStart(sorted, i);
    }
  }

  /** The interval being grown starts where some sorted one does and is not crossed. */
  ghost predicate LastFits(last: Interval, sorted: seq<Interval>, i: nat)
    requires i <= |sorted|
  {
    && Uncrossed(last)
    && exists j :: 0 <= j < i && last.lo == sorted[j].lo && last.loOpen == sorted[j].loOpen
                   && (last.hi.None? <==> sorted[j].hi.None?)
  }

  lemma Shuffled(ivs: seq<Interval>, sorted: seq<Interval>)
    requires forall x :: x in sorted <==> x in ivs
    ensures forall v :: Covered(sorted, v) <==> Covered(ivs, v)
    ensures Tame(ivs) ==> Tame(sorted)
  {
    hide Inside; hide Uncrossed; hide Alike;
    forall v ensures Covered(sorted, v) <==> Covered(ivs, v) {
      SameMembers(sorted, ivs, v);
      SameMembers(ivs, sorted, v);
    }
    if Tame(ivs) {
      forall i | 0 <= i < |sorted| ensures Uncrossed(sorted[i]) {
        assert sorted[i] in ivs;
        var a :| 0 <= a < |ivs| && ivs[a] == sorted[i];
      }
      forall i, j | 0 <= i < |sorted| && 0 <= j < |sorted| ensures Alike(sorted[i], sorted[j]) {
        assert sorted[i] in ivs && sorted[j] in ivs;
        var a :| 0 <= a < |ivs| && ivs[a] == sorted[i];
        var b :| 0 <= b < |ivs| && ivs[b] == sorted[j];
      }
    }
  }

  lemma SameMembers(a: seq<Interval>, b: seq<Interval>, v: Key)
    requires forall x :: x in a ==> x in b
    ensures Covered(a, v) ==> Covered(b, v)
  {
    hide Inside;
    if Covered(a, v) {
      var i :| 0 <= i < |a| && Inside(a[i], v);
      assert a[i] in b;
      var j :| 0 <= j < |b| && b[j] == a[i];
    }
  }

  lemma NextStart(sorted: seq<Interval>, i: nat)
    requires Tame(sorted) && i < |sorted|
    ensures LastFits(sorted[i], sorted, i + 1)
  {
  }

  /** Growing the last interval of a tame list by the next one loses nothing. */
  lemma TameJoin(prev: Interval, sorted: seq<Interval>, i: nat)
    requires Tame(sorted) && SortedByStart(sorted) && i < |sorted| && LastFits(prev, sorted, i) && Touching(prev, sorted[i])
    ensures JoinsExactly(prev, sorted[i]) && LastFits(JoinTwo(prev, sorted[i]), sorted, i + 1)
  {
    hide Inside; hide JoinsExactly; hide Touching;
    var cur := sorted[i];
    var j :| 0 <= j < i && prev.lo == sorted[j].lo && prev.loOpen == sorted[j].loOpen
             && (prev.hi.None? <==> sorted[j].hi.None?);
    assert !StartsBefore(cur, sorted[j]) && Alike(sorted[j], cur);
    assert Uncrossed(cur);
    JoinExact(prev, cur);
    JoinUncrossed(prev, cur);
  }

  lemma JoinUncrossed(prev: Interval, cur: Interval)
    requires Uncrossed(prev) && Uncrossed(cur) && !StartsBefore(cur, prev)
    ensures Uncrossed(JoinTwo(prev, cur))
  {
    hide Less;
    if prev.lo.Some? && cur.lo.Some? && cur.hi.Some? {
      Order(prev.lo.value, cur.lo.value, cur.hi.value);
      Order(cur.lo.value, prev.lo.value, cur.hi.value);
    }
  }

  // ---- a conjunction as intervals ----

  /** The intervals of a conjunction of values of any kinds: their union is exactly what satisfies it,
      they are apart and in order, and their ends are values of the conjunction. */
  method OpsToIntervals(ops: seq<OpValOf<Value>>) returns (result: seq<IntervalOf<Value>>)
    requires GoodOps(ops)
    ensures AllGood(result) && Separated(PosAll(result)) && AllEndsFrom(result, ops)
    ensures forall v :: Covered(PosAll(result), v) <==> Satisfies(PosOps(ops), v)
  {
    hide Less; hide Inside; hide Holds; hide Position; hide CmpValue; hide Pos; hide PosAll; hide PosOps;
    hide FromOps;
    var iv, neqVals := SplitOps(ops);
    var crossed := false;
    if iv.lo.Some? && iv.hi.Some? {
      var c := CmpValue(iv.lo.value, iv.hi.value);
      crossed := c > 0;
    }
    CrossingValues(iv, crossed);
    if crossed {
      assert PosAll([]) == [];
      forall v ensures !Covered([], v) { NoInterval(v); }
      return [];
    }
    result := [iv];
    assert PosAll(result) == [Pos(iv)];
    forall v ensures Covered(PosAll(result), v) <==> Inside(Pos(iv), v) { OneCovers(Pos(iv), v); }
    for i := 0 to |neqVals|
      invariant AllGood(result) && Separated(PosAll(result)) && AllEndsFrom(result, ops)
      invariant forall v :: Covered(PosAll(result), v) <==> Inside(Pos(iv), v) && Without(neqVals[..i], v)
    {
      assert neqVals[i] in neqVals;
      var out := CutAll(result, neqVals[i]);
      forall v ensures Covered(PosAll(out), v) <==> Inside(Pos(iv), v) && Without(neqVals[..i + 1], v) {
        OneMoreValue(neqVals, i, v);
      }
      result := out;
    }
    assert neqVals[..|neqVals|] == neqVals;
    result := MergeIntervals(result);
  }

  /** The value at this position is none of those. */
  ghost predicate Without(vals: seq<Value>, v: Key)
  {
    forall x :: x in vals && Ordered(x) ==> v != Position(x)
  }

  lemma OneMoreValue(vals: seq<Value>, i: nat, v: Key)
    requires i < |vals| && Ordered(vals[i])
    ensures Without(vals[..i + 1], v) <==> Without(vals[..i], v) && v != Position(vals[i])
  {
    hide Position;
    assert vals[..i + 1] == vals[..i] + [vals[i]];
  }

  /** Collects the range comparisons into one interval and the excluded values. */
  method SplitOps(ops: seq<OpValOf<Value>>) returns (iv: IntervalOf<Value>, neqVals: seq<Value>)
    requires GoodOps(ops)
    ensures Good(iv) && EndsFrom(iv, ops)
    ensures forall x :: x in neqVals ==> Ordered(x) && FromOps(Some(x), ops)
    ensures forall v :: Satisfies(PosOps(ops), v) <==> Inside(Pos(iv), v) && Without(neqVals, v)
  {
    ghost var ps := PosOps(ops);
    iv := Span(None, None, false, false);
    neqVals := [];
    assert Pos(iv) == Span(None, None, false, false);
    hide Less; hide Inside; hide Holds; hide Position; hide CmpValue; hide Pos; hide PosOps;
    forall v ensures Inside(Pos(iv), v) { Everything(v); }
    for i := 0 to |ops|
      invariant Good(iv) && EndsFrom(iv, ops)
      invariant forall x :: x in neqVals ==> Ordered(x) && FromOps(Some(x), ops)
      invariant forall v :: Satisfies(ps[..i], v) <==> Inside(Pos(iv), v) && Without(neqVals, v)
    {
      ghost var was, were := iv, neqVals;
      assert ps[i] == PosOp(ops[i]);
      if ops[i].op == Neq {
        neqVals := neqVals + [ops[i].val];
        assert neqVals[..|were|] == were;
      } else {
        iv := Tighten(iv, ops[i]);
      }
      forall v ensures Satisfies(ps[..i + 1], v) <==> Inside(Pos(iv), v) && Without(neqVals, v) {
        assert ps[..i + 1] == ps[..i] + [ps[i]];
        OneMoreOp(ps[..i], ps[i], v);
        if ops[i].op == Neq {
          OneMoreValue(neqVals, |were|, v);
          assert neqVals[..|were| + 1] == neqVals;
          Excluded(ps[i], v);
        }
      }
    }
    assert ps[..|ps|] == ps;
  }

  lemma CrossingValues(iv: IntervalOf<Value>, crossed: bool)
    requires Good(iv)
    requires crossed <==> iv.lo.Some? && iv.hi.Some? && CmpValue(iv.lo.value, iv.hi.value) > 0
    ensures !crossed ==> Separated([Pos(iv)])
    ensures crossed ==> forall v :: !Inside(Pos(iv), v)
  {
    hide Less; hide Position; hide CmpValue; hide Inside; hide Separated;
    if iv.lo.Some? && iv.hi.Some? {
      ComparesByPosition(iv.lo.value, iv.hi.value);
    }
    Crossing(Pos(iv), crossed);
  }

  lemma Everything(v: Key)
    ensures Inside(Span(None, None, false, false), v)
  {
  }

  lemma OneMoreOp(ops: seq<OpVal>, o: OpVal, v: Key)
    ensures Satisfies(ops + [o], v) <==> Satisfies(ops, v) && Holds(o, v)
  {
    hide Holds;
    assert forall x :: x in ops + [o] <==> x in ops || x == o;
  }

  lemma Excluded(o: OpVal, v: Key)
    requires o.op == Neq
    ensures Holds(o, v) <==> v != o.val
  {
  }

  lemma Crossing(iv: Interval, crossed: bool)
    requires crossed <==> iv.lo.Some? && iv.hi.Some? && Less(iv.hi.value, iv.lo.value)
    ensures !crossed ==> Separated([iv])
    ensures crossed ==> forall v :: !Inside(iv, v)
  {
    hide Less;
    if iv.lo.Some? && iv.hi.Some? {
      Order(iv.lo.value, iv.hi.value, iv.lo.value);
      forall v ensures crossed ==> !Inside(iv, v) {
        Order(iv.lo.value, v, iv.hi.value);
        Order(iv.lo.value, iv.hi.value, iv.hi.value);
      }
    }
  }

  // ---- the scanner's use of them ----

  datatype Verdict = Valid | Propose(target: Option<Key>) | AtEnd

  /** Nothing from `cur` up to the target (to the end when there is none) is covered. */
  ghost predicate NothingUpTo(specs: seq<Interval>, cur: Key, target: Option<Key>)
  {
    forall v :: LessEq(cur, v) && (target.Some? ==> Less(v, target.value)) ==> !Covered(specs, v)
  }

  /** What the intervals say about the value bytes at hand: they satisfy them, nothing from them on does,
      or the scan can move on to given bytes, which a proposal always names.  A key without value bytes,
      as of the empty string, ends the scan whatever the intervals are. */
  method ValidateOrPropose(cur: Key, specs: seq<Interval>) returns (r: Verdict)
    requires Separated(specs)
    ensures r.Valid? <==> cur != [] && (specs == [] || Covered(specs, cur))
    ensures r.AtEnd? ==> cur == [] || NothingUpTo(specs, cur, None)
    ensures r.Propose? ==>
      cur != [] && r.target.Some? && LessEq(cur, r.target.value) && NothingUpTo(specs, cur, r.target)
    ensures cur == [] ==> r.AtEnd?
  {
    hide Less; hide AboveLo; hide BelowHi; hide Separated; hide NothingUpTo;
    if cur == [] {
      return AtEnd;
    }
    if specs == [] {
      return Valid;
    }
    for i := 0 to |specs|
      invariant forall j :: 0 <= j < i ==> !Inside(specs[j], cur)
    {
      var past := PastHi(specs[i], cur);
      if !past {
        var before := BeforeLo(specs[i], cur);
        if !before {
          return Valid;
        }
      }
    }
    for i := 0 to |specs|
      invariant forall j :: 0 <= j < i ==> AboveLo(specs[j], cur)
    {
      var before := BeforeLo(specs[i], cur);
      if before {
        Skips(specs, i, cur);
        return Propose(specs[i].lo);
      }
    }
    var pastAll := true;
    for i := 0 to |specs|
      invariant pastAll
    {
      var past := PastHi(specs[i], cur);
      assert !BelowHi(specs[i], cur);
      pastAll := pastAll && specs[i].hi.Some? && past;
    }
    NothingLeft(specs, cur);
    return if pastAll then AtEnd else Propose(None);
  }

  /** A value past the upper end stays past it; a value before the lower end was before it. */
  lemma StaysOutside(iv: Interval, cur: Key, v: Key)
    requires LessEq(cur, v)
    ensures !BelowHi(iv, cur) ==> !BelowHi(iv, v)
    ensures !AboveLo(iv, v) ==> !AboveLo(iv, cur)
  {
    hide Less;
    if iv.hi.Some? {
      Order(cur, v, iv.hi.value);
    }
    if iv.lo.Some? {
      Order(iv.lo.value, cur, v);
    }
  }

  lemma Skips(specs: seq<Interval>, i: nat, cur: Key)
    requires Separated(specs) && i < |specs| && !AboveLo(specs[i], cur)
    requires forall j :: 0 <= j < i ==> AboveLo(specs[j], cur)
    requires forall j :: 0 <= j < |specs| ==> !Inside(specs[j], cur)
    ensures specs[i].lo.Some? && LessEq(cur, specs[i].lo.value) && NothingUpTo(specs, cur, specs[i].lo)
  {
    hide Less;
    var t := specs[i].lo.value;
    Order(cur, t, cur);
    Order(t, cur, cur);
    forall v, j | LessEq(cur, v) && Less(v, t) && 0 <= j < |specs|
      ensures !Inside(specs[j], v)
    {
      if j < i {
        StaysOutside(specs[j], cur, v);
      } else {
        LaterStart(specs, i, j, v);
      }
    }
  }

  /** Before the start of one interval is before the start of all later ones. */
  lemma LaterStart(specs: seq<Interval>, i: nat, j: nat, v: Key)
    requires Separated(specs) && i <= j < |specs| && specs[i].lo.Some? && Less(v, specs[i].lo.value)
    ensures !AboveLo(specs[j], v)
  {
    hide Less;
    if i < j {
      assert Apart(specs[i], specs[j]) && Uncrossed(specs[i]);
      Order(specs[i].lo.value, specs[i].hi.value, specs[j].lo.value);
    }
    Order(v, specs[i].lo.value, specs[j].lo.value);
    Order(specs[j].lo.value, v, v);
  }

  lemma NothingLeft(specs: seq<Interval>, cur: Key)
    requires forall j :: 0 <= j < |specs| ==> !BelowHi(specs[j], cur)
    ensures NothingUpTo(specs, cur, None)
  {
    hide Less;
    forall v, j | LessEq(cur, v) && 0 <= j < |specs|
      ensures !Inside(specs[j], v)
    {
      StaysOutside(specs[j], cur, v);
    }
  }

  // ---- a conjunction over stored values ----

  function BytesEnd(o: Option<Value>): (k: Option<Key>)
    requires GoodEnd(o)
  {
    if o.Some? then Some(Encode(o.value)) else None
  }

  /** The interval as the scanner gets it. */
  function BytesOf(iv: IntervalOf<Value>): (p: Interval)
    requires Good(iv)
  {
    Span(BytesEnd(iv.lo), BytesEnd(iv.hi), iv.loOpen, iv.hiOpen)
  }

  function BytesAll(ivs: seq<IntervalOf<Value>>): (ps: seq<Interval>)
    requires AllGood(ivs)
    ensures |ps| == |ivs| && forall i :: 0 <= i < |ivs| ==> ps[i] == BytesOf(ivs[i])
  {
    seq(|ivs|, i requires 0 <= i < |ivs| => BytesOf(ivs[i]))
  }

  /** The value and all bounds are integers, or strings without NUL, or byte strings. */
  predicate OneKind(ops: seq<OpValOf<Value>>, v: Value)
  {
    Faithful(v) && forall i :: 0 <= i < |ops| ==> Faithful(ops[i].val) && KindRank(ops[i].val) == KindRank(v)
  }

  lemma FaithfulEnd(ops: seq<OpValOf<Value>>, v: Value, o: Option<Value>)
    requires OneKind(ops, v) && FromOps(o, ops)
    ensures GoodEnd(o) && (o.Some? ==> Faithful(o.value) && KindRank(o.value) == KindRank(v))
  {
  }

  /** Bytes of one kind lie in an interval exactly as the values do. */
  lemma InsideBytes(ops: seq<OpValOf<Value>>, v: Value, iv: IntervalOf<Value>)
    requires OneKind(ops, v) && EndsFrom(iv, ops)
    ensures Good(iv) && Ordered(v) && !v.Plain?
    ensures Inside(BytesOf(iv), Stored(v)) <==> Inside(Pos(iv), Position(v))
  {
    hide Less; hide Position; hide Encode; hide Stored;
    FaithfulEnd(ops, v, iv.lo);
    FaithfulEnd(ops, v, iv.hi);
    BytesInOrder(v, v);
    if iv.lo.Some? {
      BytesInOrder(iv.lo.value, v);
      BytesInOrder(v, iv.lo.value);
    }
    if iv.hi.Some? {
      BytesInOrder(iv.hi.value, v);
      BytesInOrder(v, iv.hi.value);
    }
  }

  lemma CoveredBytes(ops: seq<OpValOf<Value>>, v: Value, ivs: seq<IntervalOf<Value>>)
    requires OneKind(ops, v) && AllGood(ivs) && AllEndsFrom(ivs, ops)
    ensures Ordered(v) && !v.Plain?
    ensures Covered(BytesAll(ivs), Stored(v)) <==> Covered(PosAll(ivs), Position(v))
  {
    hide Less; hide Position; hide Encode; hide Stored; hide Inside; hide EndsFrom; hide Pos; hide BytesOf;
    BytesInOrder(v, v);
    forall i | 0 <= i < |ivs|
      ensures Inside(BytesAll(ivs)[i], Stored(v)) <==> Inside(PosAll(ivs)[i], Position(v))
    {
      InsideBytes(ops, v, ivs[i]);
    }
  }

  lemma SeparatedBytes(ops: seq<OpValOf<Value>>, v: Value, ivs: seq<IntervalOf<Value>>)
    requires OneKind(ops, v) && AllGood(ivs) && AllEndsFrom(ivs, ops) && Separated(PosAll(ivs))
    ensures Separated(BytesAll(ivs))
  {
    hide Less; hide Position; hide Encode; hide Stored; hide FromOps;
    var ps, bs := PosAll(ivs), BytesAll(ivs);
    forall i, j | 0 <= i < j < |ivs|
      ensures Apart(bs[i], bs[j])
    {
      assert Apart(ps[i], ps[j]);
      assert EndsFrom(ivs[i], ops) && EndsFrom(ivs[j], ops);
      FaithfulEnd(ops, v, ivs[i].hi);
      FaithfulEnd(ops, v, ivs[j].lo);
      BytesInOrder(ivs[i].hi.value, ivs[j].lo.value);
    }
    forall i | 0 <= i < |ivs|
      ensures Uncrossed(bs[i])
    {
      assert Uncrossed(ps[i]) && EndsFrom(ivs[i], ops);
      FaithfulEnd(ops, v, ivs[i].lo);
      FaithfulEnd(ops, v, ivs[i].hi);
      if ivs[i].lo.Some? && ivs[i].hi.Some? {
        BytesInOrder(ivs[i].lo.value, ivs[i].hi.value);
      }
    }
  }

  /** No value of the kind from this one on, up to the given bytes, satisfies the conjunction. */
  ghost predicate NoneSatisfies(ops: seq<OpValOf<Value>>, from: Value, target: Option<Key>)
    requires OneKind(ops, from) && GoodOps(ops)
  {
    forall v ::
      (OneKind(ops, v) && KindRank(v) == KindRank(from) && !v.Plain? && CmpValue(v, from) >= 0
       && (target.Some? ==> Less(Stored(v), target.value)))
      ==> !SatisfiesAll(ops, v)
  }

  lemma KindsGood(ops: seq<OpValOf<Value>>, v: Value)
    requires OneKind(ops, v)
    ensures GoodOps(ops) && WfValue(v) && !v.Plain? && !v.Float? && Ordered(v)
  {
    forall i | 0 <= i < |ops|
      ensures Ordered(ops[i].val)
    {
      BytesInOrder(ops[i].val, ops[i].val);
    }
    BytesInOrder(v, v);
  }

  /** One look of a scanner at a stored value under a conjunction of bounds of its kind: it is accepted
      exactly when it satisfies every comparison, no satisfying value is ever skipped, and the end is
      announced only when none remains; the empty string ends the scan in any case. */
  method CheckValue(u: Value, ops: seq<OpValOf<Value>>) returns (r: Verdict)
    requires OneKind(ops, u)
    ensures GoodOps(ops) && WfValue(u) && !u.Plain? && !u.Float?
    ensures r.Valid? <==> Stored(u) != [] && SatisfiesAll(ops, u)
    ensures r.AtEnd? ==> Stored(u) == [] || NoneSatisfies(ops, u, None)
    ensures r.Propose? ==> r.target.Some? && NoneSatisfies(ops, u, r.target)
    ensures Stored(u) == [] ==> r.AtEnd?
  {
    hide Less; hide HoldsValue; hide Covered; hide Separated; hide Position; hide Encode; hide Stored;
    hide NothingUpTo;
    hide AllGood; hide AllEndsFrom; hide OneKind; hide Satisfies; hide PosAll; hide BytesAll; hide NoneSatisfies;
    hide SatisfiesAll;
    hide GoodOps; hide Ordered; hide WfValue; hide PosOps;
    KindsGood(ops, u);
    if ops == [] {
      NoOps(u);
      r := ValidateOrPropose(Stored(u), []);
      return;
    }
    var ivs := OpsToIntervals(ops);
    CoveredBytes(ops, u, ivs);
    SatisfiesByPosition(ops, u);
    SeparatedBytes(ops, u, ivs);
    if ivs == [] {
      // the marker of an empty predicate
      assert PosAll(ivs) == [];
      Impossible(ops, u, ivs);
      return AtEnd;
    }
    r := ValidateOrPropose(Stored(u), BytesAll(ivs));
    if r.AtEnd? && Stored(u) != [] {
      NoneLeft(ops, u, ivs, None);
    }
    if r.Propose? {
      NoneLeft(ops, u, ivs, r.target);
    }
  }

  lemma NoOps(u: Value)
    requires WfValue(u)
    ensures GoodOps([]) && SatisfiesAll([], u) && Separated([])
  {
  }

  /** What the scanner skips no value satisfies. */
  lemma NoneLeft(ops: seq<OpValOf<Value>>, u: Value, ivs: seq<IntervalOf<Value>>, target: Option<Key>)
    requires OneKind(ops, u) && GoodOps(ops) && AllGood(ivs) && AllEndsFrom(ivs, ops) && !u.Plain? && WfValue(u)
    requires forall v :: Covered(PosAll(ivs), v) <==> Satisfies(PosOps(ops), v)
    requires NothingUpTo(BytesAll(ivs), Stored(u), target)
    ensures NoneSatisfies(ops, u, target)
  {
    hide Less; hide Covered; hide Position; hide Encode; hide Stored; hide AllEndsFrom; hide AllGood; hide Satisfies;
    hide SatisfiesAll;
    hide PosAll; hide BytesAll; hide CmpValue; hide PosOps;
    forall v | OneKind(ops, v) && KindRank(v) == KindRank(u) && !v.Plain? && CmpValue(v, u) >= 0
      && (target.Some? ==> Less(Stored(v), target.value))
      ensures !SatisfiesAll(ops, v)
    {
      BytesInOrder(u, v);
      BytesInOrder(v, u);
      ComparesByPosition(v, u);
      Order(Position(u), Position(v), Position(v));
      CoveredBytes(ops, v, ivs);
      SatisfiesByPosition(ops, v);
    }
  }

  lemma Impossible(ops: seq<OpValOf<Value>>, u: Value, ivs: seq<IntervalOf<Value>>)
    requires OneKind(ops, u) && GoodOps(ops) && AllGood(ivs) && PosAll(ivs) == []
    requires forall v :: Covered(PosAll(ivs), v) <==> Satisfies(PosOps(ops), v)
    ensures NoneSatisfies(ops, u, None)
    ensures Ordered(u) ==> !SatisfiesAll(ops, u)
  {
    hide Less; hide Position; hide Encode; hide Stored; hide Satisfies; hide SatisfiesAll; hide CmpValue; hide PosOps;
    forall v | OneKind(ops, v)
      ensures GoodOps(ops) && WfValue(v) && !SatisfiesAll(ops, v)
    {
      KindsGood(ops, v);
      SatisfiesByPosition(ops, v);
      NoInterval(Position(v));
    }
  }

  /** The empty string ends a scan although a greater string satisfies the predicate. */
  lemma EmptyStringEndsScan(s: Key)
    requires s != [] && Keys.FirstNul(s) == |s|
    ensures OneKind([OpVal(Gte, Str(s))], Str([])) && GoodOps([OpVal(Gte, Str(s))])
    ensures Stored(Str([])) == [] && SatisfiesAll([OpVal(Gte, Str(s))], Str(s))
    ensures !NoneSatisfies([OpVal(Gte, Str(s))], Str([]), None)
  {
    hide Less; hide Keys.Blocks; hide Keys.FirstNul; hide Faithful; hide Stored; hide Encode;
    var ops, e, v := [OpVal(Gte, Str(s))], Str([]), Str(s);
    StringIsFaithful(s);
    EmptyIsFaithful();
    AtLeast(s);
    assert OneKind(ops, e) && OneKind(ops, v);
    KindsGood(ops, v);
    hide OneKind;
    assert SatisfiesAll(ops, v);
    hide SatisfiesAll;
    assert KindRank(v) == KindRank(e) && !v.Plain?;
  }

  lemma StringIsFaithful(s: Key)
    requires Keys.FirstNul(s) == |s|
    ensures Faithful(Str(s))
  {
  }

  lemma EmptyIsFaithful()
    ensures Faithful(Str([])) && Stored(Str([])) == []
  {
  }

  lemma AtLeast(s: Key)
    requires s != []
    ensures CmpValue(Str(s), Str(s)) == 0 && CmpValue(Str(s), Str([])) >= 0
  {
    hide Less;
    KeysCompare(s, s);
    KeysCompare(s, []);
    PrefixLess([], s);
  }

  lemma NoInterval(v: Key)
    ensures !Covered([], v)
  {
  }

  method PastHi(iv: Interval, cur: Key) returns (past: bool)
    ensures past <==> !BelowHi(iv, cur)
    ensures past ==> iv.hi.Some?
  {
    hide Less;
    past := false;
    if iv.hi.Some? {
      var c := CmpSeq(cur, iv.hi.value);
      Order(cur, iv.hi.value, cur);
      past := if iv.hiOpen then c >= 0 else c > 0;
    }
  }

  method BeforeLo(iv: Interval, cur: Key) returns (before: bool)
    ensures before <==> !AboveLo(iv, cur)
  {
    hide Less;
    before := false;
    if iv.lo.Some? {
      var c := CmpSeq(cur, iv.lo.value);
      Order(iv.lo.value, cur, cur);
      before := if iv.loOpen then c <= 0 else c < 0;
    }
  }
}
