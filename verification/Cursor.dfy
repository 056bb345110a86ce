/** The k-way merge every scan reads through: a binary min-heap over the heads of sorted sources. */
module Cursor {
  import opened Bytes

  datatype HeapEntry = HeapEntry(key: Key, src: nat)

  // ---- the heap ----

  function Parent(i: nat): (p: nat)
    requires i > 0
  {
    (i - 1) / 2
  }

  /** Position `i` is not smaller than its parent. */
  ghost predicate InOrder(d: seq<HeapEntry>, i: nat)
    requires i < |d|
  {
    i > 0 ==> LessEq(d[Parent(i)].key, d[i].key)
  }

  ghost predicate HeapOrdered(d: seq<HeapEntry>)
  {
    forall i :: 0 <= i < |d| ==> InOrder(d, i)
  }

  /** Everything is in order except possibly position `i` against its parent. */
  ghost predicate OrderedBut(d: seq<HeapEntry>, i: nat)
  {
    forall j :: 0 <= j < |d| && j != i ==> InOrder(d, j)
  }

  /** Everything is in order except possibly the children of `i` against `i`. */
  ghost predicate OrderedBelow(d: seq<HeapEntry>, i: nat)
  {
    forall j :: 0 < j < |d| && Parent(j) != i ==> InOrder(d, j)
  }

  /** The children of `i` are not smaller than the parent of `i`. */
  ghost predicate Bridged(d: seq<HeapEntry>, i: nat)
  {
    forall j :: 0 < j < |d| && Parent(j) == i && 0 < i < |d| ==> LessEq(d[Parent(i)].key, d[j].key)
  }

  lemma LessEqTransitive(a: Key, b: Key, c: Key)
    requires LessEq(a, b) && LessEq(b, c)
    ensures LessEq(a, c)
  {
    if a != b && b != c {
      LessTransitive(a, b, c);
    }
  }

  function Swap(d: seq<HeapEntry>, i: nat, j: nat): (r: seq<HeapEntry>)
    requires i < |d| && j < |d|
    ensures |r| == |d| && multiset(r) == multiset(d)
  {
    d[i := d[j]][j := d[i]]
  }

  /** The root of a heap is its least key. */
  lemma {:induction false} RootLeast(d: seq<HeapEntry>, i: nat)
    requires HeapOrdered(d) && i < |d|
    ensures LessEq(d[0].key, d[i].key)
  {
    if i > 0 {
      assert InOrder(d, i);
      RootLeast(d, Parent(i));
      LessEqTransitive(d[0].key, d[Parent(i)].key, d[i].key);
    }
  }

  lemma SiftUpStep(d: seq<HeapEntry>, i: nat)
    requires 0 < i < |d| && OrderedBut(d, i) && Bridged(d, i)
    requires Less(d[i].key, d[Parent(i)].key)
    ensures OrderedBut(Swap(d, i, Parent(i)), Parent(i)) && Bridged(Swap(d, i, Parent(i)), Parent(i))
  {
    hide Less;
    var p := Parent(i);
    var s := Swap(d, i, p);
    forall j | 0 <= j < |s| && j != p
      ensures InOrder(s, j)
    {
      assert j != i ==> InOrder(d, j);
      if j > 0 && j != i && Parent(j) == p {
        LessEqTransitive(d[i].key, d[p].key, d[j].key);
      }
    }
    forall j | 0 < j < |s| && Parent(j) == p && p > 0
      ensures LessEq(s[Parent(p)].key, s[j].key)
    {
      assert InOrder(d, p);
      if j != i {
        assert InOrder(d, j);
        LessEqTransitive(d[Parent(p)].key, d[p].key, d[j].key);
      }
    }
  }

  method Push(d: seq<HeapEntry>, e: HeapEntry) returns (out: seq<HeapEntry>)
    requires HeapOrdered(d)
    ensures HeapOrdered(out) && multiset(out) == multiset(d) + multiset{e}
  {
    hide Less; hide LessEq;
    out := d + [e];
    var i: nat := |d|;
    assert forall j :: 0 <= j < |d| ==> InOrder(d, j);
    assert OrderedBut(out, i) by {
      forall j | 0 <= j < |out| && j != i ensures InOrder(out, j) { assert InOrder(d, j); }
    }
    var sifting := true;
    while i > 0 && sifting
      invariant i < |out| && multiset(out) == multiset(d) + multiset{e}
      invariant OrderedBut(out, i) && Bridged(out, i)
      invariant !sifting ==> InOrder(out, i)
      decreases i, sifting
    {
      var p := Parent(i);
      var c := CmpSeq(out[i].key, out[p].key);
      if c < 0 {
        SiftUpStep(out, i);
        out := Swap(out, i, p);
        i := p;
      } else {
        NotLess(out[i].key, out[p].key);
        sifting := false;
      }
    }
  }

  lemma NotLess(a: Key, b: Key)
    requires !Less(a, b)
    ensures LessEq(b, a)
  {
    LessTotal(a, b);
  }

  ghost predicate LeastOf(d: seq<HeapEntry>, i: nat, m: nat)
    requires i < |d| && m < |d|
  {
    && LessEq(d[m].key, d[i].key)
    && forall j :: 0 < j < |d| && Parent(j) == i ==> LessEq(d[m].key, d[j].key)
  }

  /** The smallest of a position and its children. */
  method Smallest(d: seq<HeapEntry>, i: nat) returns (m: nat)
    requires i < |d|
    ensures m < |d| && (m == i || (m > 0 && Parent(m) == i))
    ensures LeastOf(d, i, m)
    ensures m != i ==> Less(d[m].key, d[i].key)
  {
    hide Less;
    m := i;
    var l := 2 * i + 1;
    if l < |d| {
      var c := CmpSeq(d[l].key, d[i].key);
      if c < 0 {
        m := l;
      } else {
        NotLess(d[l].key, d[i].key);
      }
      var r := l + 1;
      if r < |d| {
        c := CmpSeq(d[r].key, d[m].key);
        if c < 0 {
          LessEqTransitive(d[r].key, d[m].key, if m == l then d[i].key else d[l].key);
          if m == l {
            LessTransitive(d[r].key, d[l].key, d[i].key);
          }
          m := r;
        } else {
          NotLess(d[r].key, d[m].key);
        }
      }
      SmallestOfThree(d, i, m);
    }
  }

  lemma SmallestOfThree(d: seq<HeapEntry>, i: nat, m: nat)
    requires i < |d| && m < |d| && LessEq(d[m].key, d[i].key)
    requires 2 * i + 1 < |d| ==> LessEq(d[m].key, d[2 * i + 1].key)
    requires 2 * i + 2 < |d| ==> LessEq(d[m].key, d[2 * i + 2].key)
    ensures LeastOf(d, i, m)
  {
    forall j | 0 < j < |d| && Parent(j) == i
      ensures LessEq(d[m].key, d[j].key)
    {
      assert j == 2 * i + 1 || j == 2 * i + 2;
    }
  }

  lemma SiftDownStep(d: seq<HeapEntry>, i: nat, m: nat)
    requires i < |d| && 0 < m < |d| && Parent(m) == i
    requires OrderedBelow(d, i) && Bridged(d, i) && LeastOf(d, i, m)
    ensures OrderedBelow(Swap(d, i, m), m) && Bridged(Swap(d, i, m), m)
  {
    hide Less;
    var s := Swap(d, i, m);
    forall j | 0 < j < |s| && Parent(j) != m
      ensures InOrder(s, j)
    {
      if Parent(j) != i {
        assert InOrder(d, j);
      }
    }
    forall j | 0 < j < |s| && Parent(j) == m
      ensures LessEq(s[Parent(m)].key, s[j].key)
    {
      assert InOrder(d, j);
    }
  }

  lemma SiftDownDone(d: seq<HeapEntry>, i: nat)
    requires i < |d| && OrderedBelow(d, i) && LeastOf(d, i, i)
    ensures HeapOrdered(d)
  {
    hide Less; hide LessEq;
  }

  /** Takes the least entry out of the heap. */
  method Pop(d: seq<HeapEntry>) returns (e: HeapEntry, out: seq<HeapEntry>)
    requires HeapOrdered(d) && d != []
    ensures e == d[0] && HeapOrdered(out) && multiset(d) == multiset(out) + multiset{e}
  {
    hide Less; hide LessEq;
    e := d[0];
    var n := |d| - 1;
    out := d[0 := d[n]][..n];
    DropRoot(d);
    if n == 0 {
      return;
    }
    var i: nat := 0;
    var m := Smallest(out, i);
    while m != i
      invariant i < |out| == n && m < n && (m == i || (m > 0 && Parent(m) == i))
      invariant multiset(d) == multiset(out) + multiset{e}
      invariant OrderedBelow(out, i) && Bridged(out, i) && LeastOf(out, i, m)
      decreases n - i + (if m == i then 0 else 1)
    {
      SiftDownStep(out, i, m);
      out := Swap(out, i, m);
      i := m;
      m := Smallest(out, i);
    }
    SiftDownDone(out, i);
  }

  lemma DropRoot(d: seq<HeapEntry>)
    requires HeapOrdered(d) && d != []
    ensures var n := |d| - 1; var out := d[0 := d[n]][..n];
      OrderedBelow(out, 0) && Bridged(out, 0) && multiset(d) == multiset(out) + multiset{d[0]}
  {
    hide Less; hide LessEq;
    var n := |d| - 1;
    var s := d[0 := d[n]];
    var out := s[..n];
    forall j | 0 < j < n && Parent(j) != 0
      ensures InOrder(out, j)
    {
      assert InOrder(d, j);
    }
    assert s == out + [d[n]];
    assert multiset(s) == multiset(out) + multiset{d[n]};
  }

  // ---- the sources ----

  /** The first position whose key is at or above the target. */
  method SeekSource(keys: seq<Key>, target: Key) returns (lo: nat)
    requires Ascending(keys)
    ensures lo <= |keys|
    ensures forall j :: 0 <= j < lo ==> Less(keys[j], target)
    ensures forall j :: lo <= j < |keys| ==> LessEq(target, keys[j])
  {
    hide Less; hide LessEq;
    lo := 0;
    var hi := |keys|;
    while lo < hi
      invariant lo <= hi <= |keys|
      invariant forall j :: 0 <= j < lo ==> Less(keys[j], target)
      invariant forall j :: hi <= j < |keys| ==> LessEq(target, keys[j])
    {
      var mid := (lo + hi) / 2;
      var c := CmpSeq(keys[mid], target);
      if c < 0 {
        forall j | 0 <= j < mid ensures Less(keys[j], target) { LessTransitive(keys[j], keys[mid], target); }
        lo := mid + 1;
      } else {
        NotLess(keys[mid], target);
        forall j | mid < j < |keys| ensures LessEq(target, keys[j]) { FromAbove(target, keys[mid], keys[j]); }
        hi := mid;
      }
    }
  }

  lemma FromAbove(a: Key, b: Key, c: Key)
    requires LessEq(a, b) && Less(b, c)
    ensures Less(a, c) && LessEq(a, c)
  {
    if a != b {
      LessTransitive(a, b, c);
    }
  }

  ghost predicate Placed(sources: seq<seq<Key>>, pos: seq<nat>)
  {
    && |pos| == |sources|
    && forall i :: 0 <= i < |sources| ==> pos[i] <= |sources[i]| && Ascending(sources[i])
  }

  /** The keys at or after the positions. */
  ghost function Ahead(sources: seq<seq<Key>>, pos: seq<nat>): set<Key>
    requires Placed(sources, pos)
  {
    set i, j | 0 <= i < |sources| && pos[i] <= j < |sources[i]| :: sources[i][j]
  }

  /** One heap entry per source that is not exhausted. */
  ghost function Heads(sources: seq<seq<Key>>, pos: seq<nat>): set<HeapEntry>
    requires Placed(sources, pos)
  {
    set i | 0 <= i < |sources| && pos[i] < |sources[i]| :: HeapEntry(sources[i][pos[i]], i)
  }

  /** The heap holds exactly the heads. */
  ghost predicate Seeded(sources: seq<seq<Key>>, pos: seq<nat>, heap: seq<HeapEntry>)
  {
    && Placed(sources, pos)
    && HeapOrdered(heap)
    && multiset(heap) == multiset(Heads(sources, pos))
  }

  ghost predicate LeastIn(k: Key, ks: set<Key>)
  {
    k in ks && forall x :: x in ks ==> LessEq(k, x)
  }

  /** The root of the heap is the least key ahead. */
  lemma RootIsLeast(sources: seq<seq<Key>>, pos: seq<nat>, heap: seq<HeapEntry>)
    requires Seeded(sources, pos, heap)
    ensures heap == [] ==> Ahead(sources, pos) == {}
    ensures heap != [] ==> heap[0] in Heads(sources, pos) && LeastIn(heap[0].key, Ahead(sources, pos))
  {
    forall k | k in Ahead(sources, pos)
      ensures heap != [] && LessEq(heap[0].key, k)
    {
      var i, j :| 0 <= i < |sources| && pos[i] <= j < |sources[i]| && sources[i][j] == k;
      var e := HeapEntry(sources[i][pos[i]], i);
      HeadInHeap(sources, pos, heap, e);
      var n :| 0 <= n < |heap| && heap[n] == e;
      RootLeast(heap, n);
      if pos[i] < j {
        LessEqTransitive(heap[0].key, e.key, k);
      }
    }
    if heap != [] {
      assert heap[0] in multiset(heap);
      var e := heap[0];
      assert e in Heads(sources, pos);
      assert e.key == sources[e.src][pos[e.src]];
    }
  }

  lemma HeadInHeap(sources: seq<seq<Key>>, pos: seq<nat>, heap: seq<HeapEntry>, e: HeapEntry)
    requires Seeded(sources, pos, heap) && e in Heads(sources, pos)
    ensures e in heap
  {
    assert e in multiset(heap);
  }

  /** Stepping a source past its head. */
  lemma StepHeads(sources: seq<seq<Key>>, pos: seq<nat>, i: nat)
    requires Placed(sources, pos) && i < |sources| && pos[i] < |sources[i]|
    ensures
      var e := HeapEntry(sources[i][pos[i]], i);
      var next := pos[i := pos[i] + 1];
      && Placed(sources, next)
      && Ahead(sources, pos) == Ahead(sources, next) + {e.key}
      && e in Heads(sources, pos)
      && Heads(sources, next) == Heads(sources, pos) - {e}
           + (if next[i] < |sources[i]| then {HeapEntry(sources[i][next[i]], i)} else {})
  {
    hide Less; hide Ascending;
    var e := HeapEntry(sources[i][pos[i]], i);
    var next := pos[i := pos[i] + 1];
    forall k | k in Ahead(sources, pos)
      ensures k in Ahead(sources, next) || k == e.key
    {
      var a, j :| 0 <= a < |sources| && pos[a] <= j < |sources[a]| && sources[a][j] == k;
    }
    forall k | k in Ahead(sources, next)
      ensures k in Ahead(sources, pos)
    {
      var a, j :| 0 <= a < |sources| && next[a] <= j < |sources[a]| && sources[a][j] == k;
      assert pos[a] <= j;
    }
  }

  /** How many keys the sources still hold. */
  ghost function Left(sources: seq<seq<Key>>, pos: seq<nat>): nat
    requires Placed(sources, pos)
  {
    if sources == [] then 0 else |sources[0]| - pos[0] + Left(sources[1..], pos[1..])
  }

  lemma {:induction false} LeftStep(sources: seq<seq<Key>>, pos: seq<nat>, i: nat)
    requires Placed(sources, pos) && i < |sources| && pos[i] < |sources[i]|
    ensures Placed(sources, pos[i := pos[i] + 1])
    ensures Left(sources, pos[i := pos[i] + 1]) == Left(sources, pos) - 1
  {
    var next := pos[i := pos[i] + 1];
    if i == 0 {
      assert next[1..] == pos[1..];
    } else {
      assert next[1..] == pos[1..][i - 1 := pos[i] + 1];
      LeftStep(sources[1..], pos[1..], i - 1);
    }
  }

  /** Seeds the heap with the heads of the sources. */
  method SeedHeap(sources: seq<seq<Key>>, pos: seq<nat>) returns (heap: seq<HeapEntry>)
    requires Placed(sources, pos)
    ensures Seeded(sources, pos, heap)
  {
    hide Less; hide Ascending;
    heap := [];
    for i := 0 to |sources|
      invariant HeapOrdered(heap)
      invariant multiset(heap) == multiset(HeadsBelow(sources, pos, i))
    {
      HeadsBelowStep(sources, pos, i);
      if pos[i] < |sources[i]| {
        heap := Push(heap, HeapEntry(sources[i][pos[i]], i));
      }
    }
  }

  ghost function HeadsBelow(sources: seq<seq<Key>>, pos: seq<nat>, n: nat): set<HeapEntry>
    requires Placed(sources, pos) && n <= |sources|
  {
    set i | 0 <= i < n && pos[i] < |sources[i]| :: HeapEntry(sources[i][pos[i]], i)
  }

  lemma HeadsBelowStep(sources: seq<seq<Key>>, pos: seq<nat>, n: nat)
    requires Placed(sources, pos) && n < |sources|
    ensures var e := if pos[n] < |sources[n]| then multiset{HeapEntry(sources[n][pos[n]], n)} else multiset{};
      multiset(HeadsBelow(sources, pos, n + 1)) == multiset(HeadsBelow(sources, pos, n)) + e
  {
    hide Less; hide Ascending;
    var a, b := HeadsBelow(sources, pos, n), HeadsBelow(sources, pos, n + 1);
    if pos[n] < |sources[n]| {
      var e := HeapEntry(sources[n][pos[n]], n);
      assert b == a + {e} && e !in a;
      assert multiset(b) == multiset(a) + multiset{e};
    } else {
      assert b == a;
    }
  }

  // ---- the merged cursor ----

  /** The keys ahead that were not delivered last. */
  ghost function Todo(sources: seq<seq<Key>>, pos: seq<nat>, hasLast: bool, last: Key): set<Key>
    requires Placed(sources, pos)
  {
    if hasLast then Ahead(sources, pos) - {last} else Ahead(sources, pos)
  }

  class MergedCursor {
    const sources: seq<seq<Key>>
    var pos: seq<nat>
    var heap: seq<HeapEntry>
    var lastKey: Key
    var hasLast: bool
    var atEnd: bool
    var curKey: Key
    var hasKey: bool

    ghost predicate Valid()
      reads this
    {
      && Seeded(sources, pos, heap)
      && (hasKey ==> hasLast && curKey == lastKey && !atEnd)
      && (atEnd ==> Ahead(sources, pos) == {})
      && (hasLast ==> forall k :: k in Ahead(sources, pos) ==> LessEq(lastKey, k))
    }

    /** The keys this cursor is yet to deliver. */
    ghost function Pending(): set<Key>
      requires Valid()
      reads this
    {
      Todo(sources, pos, hasLast, lastKey) + (if hasKey then {curKey} else {})
    }

    constructor (srcs: seq<seq<Key>>)
      requires forall i :: 0 <= i < |srcs| ==> Ascending(srcs[i])
      ensures Valid() && sources == srcs
      ensures forall k :: k in Pending() <==> exists i :: 0 <= i < |srcs| && k in srcs[i]
    {
      hide Less; hide Ascending; hide HeapOrdered;
      sources := srcs;
      pos := seq(|srcs|, _ => 0);
      lastKey, curKey := [], [];
      hasLast, atEnd, hasKey := false, false, false;
      var start: seq<nat> := seq(|srcs|, _ => 0);
      var h := SeedHeap(srcs, start);
      heap := h;
      new;
      AheadOfAll(srcs, pos);
    }

    /** Takes the least head, steps its source and refills the heap. */
    method TakeHead() returns (e: HeapEntry)
      requires Valid() && heap != [] && !hasKey && !atEnd
      modifies this`pos, this`heap
      ensures Seeded(sources, pos, heap)
      ensures LeastIn(e.key, old(Ahead(sources, pos)))
      ensures old(Ahead(sources, pos)) == Ahead(sources, pos) + {e.key}
      ensures Left(sources, pos) < Left(sources, old(pos))
    {
      hide Placed; hide HeapOrdered; hide LessEq; hide Ahead; hide Left; hide Heads; hide LeastIn;
      var rest;
      e, rest := Pop(heap);
      Taken(sources, pos, heap, rest, e);
      var i := e.src;
      pos := pos[i := pos[i] + 1];
      if pos[i] < |sources[i]| {
        rest := Push(rest, HeapEntry(sources[i][pos[i]], i));
      }
      heap := rest;
    }

    /** Moves to the next key that differs from the last one. */
    method Advance()
      requires Valid() && !hasKey
      modifies this
      ensures Valid() && Pending() == old(Pending())
      ensures hasKey <==> old(Pending()) != {}
      ensures hasKey ==> LeastIn(curKey, old(Pending()))
      ensures atEnd <==> !hasKey
    {
      hide Less; hide HeapOrdered; hide Ahead; hide Left; hide Placed; hide Heads;
      if atEnd {
        return;
      }
      ghost var todo := Todo(sources, pos, hasLast, lastKey);
      var searching := true;
      while searching && |heap| > 0
        invariant Valid() && !atEnd
        invariant searching ==> !hasKey && Todo(sources, pos, hasLast, lastKey) == todo
        invariant !searching ==> hasKey && Pending() == todo && LeastIn(curKey, todo)
        decreases searching, Left(sources, pos)
      {
        ghost var before := Ahead(sources, pos);
        var e := TakeHead();
        if hasLast && e.key == lastKey {
        } else {
          TakenIsNew(before, Ahead(sources, pos), e.key, hasLast, lastKey);
          lastKey, hasLast := e.key, true;
          curKey, hasKey := e.key, true;
          searching := false;
        }
      }
      if searching {
        RootIsLeast(sources, pos, heap);
        atEnd := true;
        hasKey := false;
      }
    }

    /** Delivers the least pending key. */
    method Next() returns (k: Key, ok: bool)
      requires Valid()
      modifies this
      ensures Valid()
      ensures ok <==> old(Pending()) != {}
      ensures ok ==> LeastIn(k, old(Pending()))
      ensures Pending() == if ok then old(Pending()) - {k} else {}
    {
      hide Less; hide HeapOrdered; hide Ahead; hide Placed; hide Heads; hide Seeded;
      if !hasKey && !atEnd {
        Advance();
      }
      k, ok := curKey, hasKey;
      hasKey := false;
      Advance();
    }

    /** Repositions every source at the first key at or above the target. */
    method Seek(target: Key)
      requires Valid()
      modifies this
      ensures Valid()
      ensures forall k :: k in Pending() <==>
        LessEq(target, k) && exists i :: 0 <= i < |sources| && k in sources[i]
    {
      hide Less; hide HeapOrdered; hide LessEq; hide Ahead; hide Heads;
      var at: seq<nat> := [];
      for i := 0 to |sources|
        invariant |at| == i
        invariant forall j :: 0 <= j < i ==> SoughtIn(sources[j], at[j], target)
      {
        var p := SeekSource(sources[i], target);
        at := at + [p];
      }
      pos := at;
      AheadOfTarget(sources, pos, target);
      heap := SeedHeap(sources, pos);
      lastKey := [];
      hasLast, atEnd, hasKey := false, false, false;
      Advance();
    }

    /** Reads the cursor to its end after a seek: the ascending union of the sources from the target. */
    method Collect(target: Key) returns (out: seq<Key>)
      requires Valid()
      modifies this
      ensures Valid()
      ensures Ascending(out)
      ensures forall k :: k in out <==> LessEq(target, k) && exists i :: 0 <= i < |sources| && k in sources[i]
    {
      hide Less; hide HeapOrdered; hide LessEq; hide Ahead; hide Placed; hide Heads; hide Seeded;
      hide Valid; hide Pending;
      out := [];
      Seek(target);
      ghost var all := Pending();
      var more := true;
      while more
        invariant Valid() && Ascending(out)
        invariant forall k :: k in all <==> k in out || k in Pending()
        invariant forall x, y :: x in out && y in Pending() ==> Less(x, y)
        invariant !more ==> Pending() == {}
        decreases more, |Pending()|
      {
        ghost var pending := Pending();
        var k, ok := Next();
        if ok {
          AppendLeast(out, pending, k);
          assert |Pending()| < |pending| by { assert Pending() == pending - {k}; }
          out := out + [k];
        } else {
          more := false;
        }
      }
    }
  }

  ghost predicate SoughtIn(keys: seq<Key>, p: nat, target: Key)
  {
    && p <= |keys|
    && (forall j :: 0 <= j < p ==> Less(keys[j], target))
    && (forall j :: p <= j < |keys| ==> LessEq(target, keys[j]))
  }

  lemma AheadOfAll(sources: seq<seq<Key>>, pos: seq<nat>)
    requires Placed(sources, pos) && forall i :: 0 <= i < |pos| ==> pos[i] == 0
    ensures forall k :: k in Ahead(sources, pos) <==> exists i :: 0 <= i < |sources| && k in sources[i]
  {
  }

  lemma AheadOfTarget(sources: seq<seq<Key>>, pos: seq<nat>, target: Key)
    requires Placed(sources, pos)
    requires forall i :: 0 <= i < |sources| ==> SoughtIn(sources[i], pos[i], target)
    ensures forall k :: k in Ahead(sources, pos) <==>
      LessEq(target, k) && exists i :: 0 <= i < |sources| && k in sources[i]
  {
    forall k
      ensures k in Ahead(sources, pos) <==> LessEq(target, k) && exists i :: 0 <= i < |sources| && k in sources[i]
    {
      if k in Ahead(sources, pos) {
        var i, j :| 0 <= i < |sources| && pos[i] <= j < |sources[i]| && sources[i][j] == k;
        assert SoughtIn(sources[i], pos[i], target);
      }
      if LessEq(target, k) && exists i :: 0 <= i < |sources| && k in sources[i] {
        var i :| 0 <= i < |sources| && k in sources[i];
        var j :| 0 <= j < |sources[i]| && sources[i][j] == k;
        assert SoughtIn(sources[i], pos[i], target);
        LessAsymmetricIf(target, k);
        LessIrreflexive(k);
        assert pos[i] <= j;
      }
    }
  }

  lemma PoppedHeads(heap: seq<HeapEntry>, rest: seq<HeapEntry>, e: HeapEntry, heads: set<HeapEntry>)
    requires multiset(heap) == multiset(heads) && multiset(heap) == multiset(rest) + multiset{e}
    ensures e in heads && multiset(rest) == multiset(heads - {e})
  {
    assert e in multiset(heads);
    assert multiset(heads - {e}) == multiset(heads) - multiset{e};
  }

  lemma NewHead(sources: seq<seq<Key>>, pos: seq<nat>, i: nat)
    requires Placed(sources, pos) && i < |sources| && pos[i] + 1 < |sources[i]|
    ensures
      var e, f := HeapEntry(sources[i][pos[i]], i), HeapEntry(sources[i][pos[i] + 1], i);
      multiset(Heads(sources, pos) - {e} + {f}) == multiset(Heads(sources, pos) - {e}) + multiset{f}
  {
    var e, f := HeapEntry(sources[i][pos[i]], i), HeapEntry(sources[i][pos[i] + 1], i);
    assert f !in Heads(sources, pos) - {e} by {
      hide Less;
    }
  }

  lemma TakenIsNew(before: set<Key>, after: set<Key>, k: Key, hasLast: bool, last: Key)
    requires before == after + {k} && LeastIn(k, before)
    requires hasLast ==> k != last && forall x :: x in before ==> LessEq(last, x)
    ensures
      var todo := if hasLast then before - {last} else before;
      LeastIn(k, todo) && todo == after - {k} + {k}
  {
    hide Less;
    if hasLast && last in before {
      LessAsymmetricIf(k, last);
    }
  }

  /** What taking the least head does to the sources. */
  lemma Taken(sources: seq<seq<Key>>, pos: seq<nat>, heap: seq<HeapEntry>, rest: seq<HeapEntry>, e: HeapEntry)
    requires Seeded(sources, pos, heap) && heap != [] && e == heap[0]
    requires multiset(heap) == multiset(rest) + multiset{e}
    ensures e.src < |sources| == |pos| && pos[e.src] < |sources[e.src]|
    ensures LeastIn(e.key, Ahead(sources, pos))
    ensures
      var i := e.src;
      var next := pos[i := pos[i] + 1];
      && Placed(sources, next)
      && Ahead(sources, pos) == Ahead(sources, next) + {e.key}
      && Left(sources, next) < Left(sources, pos)
      && multiset(Heads(sources, next))
         == multiset(rest) + (if next[i] < |sources[i]| then multiset{HeapEntry(sources[i][next[i]], i)} else multiset{})
  {
    hide HeapOrdered; hide LessEq; hide Ahead; hide Left; hide LeastIn; hide Ascending;
    RootIsLeast(sources, pos, heap);
    var i := e.src;
    StepHeads(sources, pos, i);
    LeftStep(sources, pos, i);
    PoppedHeads(heap, rest, e, Heads(sources, pos));
    if pos[i] + 1 < |sources[i]| {
      NewHead(sources, pos, i);
    }
  }

  lemma AppendLeast(out: seq<Key>, pending: set<Key>, k: Key)
    requires Ascending(out) && LeastIn(k, pending)
    requires forall x, y :: x in out && y in pending ==> Less(x, y)
    ensures Ascending(out + [k])
    ensures forall x, y :: x in out + [k] && y in pending - {k} ==> Less(x, y)
  {
  }
}
