/** Draining frozen runs: a k-way merge that emits the winner of every key in order. */
module Drain {
  import opened Bytes
  import opened Runs

  /** What the runs still hold beyond the heads, oldest run first. */
  ghost function Rest(runs: seq<Run>, heads: seq<nat>, n: nat): (s: seq<Rec>)
    requires n <= |runs| == |heads| && HeadsIn(runs, heads)
  {
    if n == 0 then [] else Rest(runs, heads, n - 1) + runs[n - 1][heads[n - 1]..]
  }

  ghost predicate HeadsIn(runs: seq<Run>, heads: seq<nat>)
  {
    |runs| == |heads| && forall i :: 0 <= i < |runs| ==> heads[i] <= |runs[i]|
  }

  /** Run i still has a record at its head. */
  predicate Open(runs: seq<Run>, heads: seq<nat>, i: nat)
  {
    i < |runs| && i < |heads| && heads[i] < |runs[i]|
  }

  function Head(runs: seq<Run>, heads: seq<nat>, i: nat): Rec
    requires Open(runs, heads, i)
  {
    runs[i][heads[i]]
  }

  /** The head of run `best` is the smallest, and among equal ones the newest. */
  ghost predicate IsBest(runs: seq<Run>, heads: seq<nat>, best: nat, n: nat)
    requires Open(runs, heads, best)
  {
    forall i :: 0 <= i < n && Open(runs, heads, i) ==>
      LessEq(Head(runs, heads, best).key, Head(runs, heads, i).key)
      && (Head(runs, heads, best).key == Head(runs, heads, i).key ==> i <= best)
  }

  /** The run whose head is emitted next; |runs| when all are exhausted. */
  method PickBest(runs: seq<Run>, heads: seq<nat>) returns (best: nat)
    requires HeadsIn(runs, heads)
    ensures best <= |runs|
    ensures best == |runs| <==> forall i :: 0 <= i < |runs| ==> !Open(runs, heads, i)
    ensures best < |runs| ==> Open(runs, heads, best) && IsBest(runs, heads, best, |runs|)
  {
    best := |runs|;
    for i := 0 to |runs|
      invariant best <= |runs|
      invariant best == |runs| ==> forall j :: 0 <= j < i ==> !Open(runs, heads, j)
      invariant best < |runs| ==> best < i && Open(runs, heads, best) && IsBest(runs, heads, best, i)
    {
      if Open(runs, heads, i) {
        if best == |runs| {
          best := i;
        } else {
          var c := CmpSeq(Head(runs, heads, i).key, Head(runs, heads, best).key);
          if c <= 0 {
            BestReplaced(runs, heads, best, i);
            best := i;
          }
        }
      }
    }
  }

  lemma BestReplaced(runs: seq<Run>, heads: seq<nat>, best: nat, i: nat)
    requires Open(runs, heads, best) && Open(runs, heads, i) && best < i
    requires IsBest(runs, heads, best, i)
    requires LessEq(Head(runs, heads, i).key, Head(runs, heads, best).key)
    ensures IsBest(runs, heads, i, i + 1)
  {
    var a, b := Head(runs, heads, i).key, Head(runs, heads, best).key;
    forall j | 0 <= j < i && Open(runs, heads, j)
      ensures LessEq(a, Head(runs, heads, j).key)
    {
      var c := Head(runs, heads, j).key;
      if a != b && b != c {
        LessTransitive(a, b, c);
      }
    }
  }

  function NextHead(r: Run, h: nat, key: Key): (next: nat)
  {
    if h < |r| && r[h].key == key then h + 1 else h
  }

  /** Every head standing on the key has moved one record on, no other head has moved. */
  ghost predicate Advanced(runs: seq<Run>, heads: seq<nat>, key: Key, out: seq<nat>)
  {
    && |out| == |heads| == |runs|
    && forall i :: 0 <= i < |runs| ==> out[i] == NextHead(runs[i], heads[i], key)
  }

  method SkipRun(r: Run, start: nat, key: Key) returns (h: nat)
    requires Sorted(r) && start <= |r|
    ensures h == NextHead(r, start, key)
  {
    h := start;
    forall j | start < j < |r|
      ensures r[j].key != r[start].key
    {
      LessIrreflexive(r[start].key);
    }
    while h < |r| && r[h].key == key
      invariant start <= h <= |r|
      invariant h == start || (h == start + 1 && r[start].key == key)
    {
      h := h + 1;
    }
  }

  /** Moves every head that stands on the emitted key past it. */
  method SkipEqual(runs: seq<Run>, heads: seq<nat>, best: nat) returns (out: seq<nat>)
    requires HeadsIn(runs, heads) && AllSorted(runs) && Open(runs, heads, best)
    ensures Advanced(runs, heads, Head(runs, heads, best).key, out)
  {
    var win := Head(runs, heads, best);
    out := heads[best := heads[best] + 1];
    for i := 0 to |runs|
      invariant |out| == |heads|
      invariant forall j :: 0 <= j < i || j == best ==> out[j] == NextHead(runs[j], heads[j], win.key)
      invariant forall j :: i <= j < |runs| && j != best ==> out[j] == heads[j]
    {
      if i != best {
        assert runs[i] in runs;
        var h := SkipRun(runs[i], out[i], win.key);
        out := out[i := h];
      }
    }
  }

  // ---- one step of the merge ----

  /** From a head that is the key or lies above it, a sorted run holds the key at the head or not at all. */
  lemma TailOfRun(r: Run, h: nat, key: Key)
    requires Sorted(r) && h <= |r| && (h < |r| ==> LessEq(key, r[h].key))
    ensures Latest(r[h..], key) == if h < |r| && r[h].key == key then Some(r[h]) else None
    ensures Latest(r[NextHead(r, h, key)..], key) == None
    ensures forall x :: x in r[h..] ==> LessEq(key, x.key)
    ensures forall k :: k != key ==> Latest(r[NextHead(r, h, key)..], k) == Latest(r[h..], k)
  {
    forall i | h < i < |r|
      ensures Less(key, r[i].key) && r[i].key != key
    {
      if key != r[h].key {
        LessTransitive(key, r[h].key, r[i].key);
      }
      LessIrreflexive(key);
    }
    if h < |r| {
      var t := r[h..];
      assert t[0] == r[h];
      forall j | 0 < j < |t|
        ensures t[j].key != key
      {
        assert t[j] == r[h + j];
      }
      if r[h].key == key {
        LatestAt(t, 0);
        forall k | k != key
          ensures Latest(r[h + 1..], k) == Latest(t, k)
        {
          assert t == [r[h]] + r[h + 1..];
          LatestConcat([r[h]], r[h + 1..], k);
          assert Latest([r[h]], k).None?;
        }
      }
    }
  }

  lemma TailLatest(r: Run, h: nat, key: Key, k: Key)
    requires Sorted(r) && h <= |r| && (h < |r| ==> LessEq(key, r[h].key))
    ensures k == key ==> Latest(r[h..], k) == if h < |r| && r[h].key == key then Some(r[h]) else None
    ensures Latest(r[NextHead(r, h, key)..], k) == if k == key then None else Latest(r[h..], k)
  {
    TailOfRun(r, h, key);
  }

  lemma {:induction false} RestStep(runs: seq<Run>, heads: seq<nat>, best: nat, out: seq<nat>, n: nat, k: Key)
    requires HeadsIn(runs, heads) && AllSorted(runs) && n <= |runs|
    requires Open(runs, heads, best) && IsBest(runs, heads, best, |runs|)
    requires HeadsIn(runs, out) && Advanced(runs, heads, Head(runs, heads, best).key, out)
    ensures
      var win := Head(runs, heads, best);
      && (k != win.key ==> Latest(Rest(runs, out, n), k) == Latest(Rest(runs, heads, n), k))
      && (k == win.key ==> Latest(Rest(runs, out, n), k) == None)
      && (k == win.key && n > best ==> Latest(Rest(runs, heads, n), k) == Some(win))
  {
    hide Latest; hide Sorted; hide Less; hide LessEq;
    if n > 0 {
      var i := n - 1;
      var win := Head(runs, heads, best);
      assert runs[i] in runs;
      assert Open(runs, heads, i) ==> LessEq(win.key, Head(runs, heads, i).key);
      RestStep(runs, heads, best, out, i, k);
      TailLatest(runs[i], heads[i], win.key, k);
      LatestConcat(Rest(runs, heads, i), runs[i][heads[i]..], k);
      LatestConcat(Rest(runs, out, i), runs[i][out[i]..], k);
    } else {
      LatestOfEmpty(k);
    }
  }

  lemma LatestOfEmpty(k: Key)
    ensures Latest([], k) == None
  {
  }

  lemma {:induction false} RestAbove(runs: seq<Run>, heads: seq<nat>, best: nat, n: nat)
    requires HeadsIn(runs, heads) && AllSorted(runs) && n <= |runs|
    requires Open(runs, heads, best) && IsBest(runs, heads, best, |runs|)
    ensures forall x :: x in Rest(runs, heads, n) ==> LessEq(Head(runs, heads, best).key, x.key)
  {
    if n > 0 {
      var i := n - 1;
      assert runs[i] in runs;
      assert Open(runs, heads, i) ==> LessEq(Head(runs, heads, best).key, Head(runs, heads, i).key);
      RestAbove(runs, heads, best, i);
      TailOfRun(runs[i], heads[i], Head(runs, heads, best).key);
    }
  }

  /** `recs` holds, in order, the winners of all keys below the heads. */
  ghost predicate Drained(runs: seq<Run>, heads: seq<nat>, recs: Run)
  {
    && HeadsIn(runs, heads) && Sorted(recs)
    && (forall k :: Latest(Concat(runs), k) == Later(recs, Rest(runs, heads, |runs|), k))
    && forall r, x :: r in recs && x in Rest(runs, heads, |runs|) ==> Less(r.key, x.key)
  }

  ghost function Later(recs: Run, rest: seq<Rec>, k: Key): Option<Rec>
  {
    if Latest(recs, k).Some? then Latest(recs, k) else Latest(rest, k)
  }

  lemma DrainStep(runs: seq<Run>, heads: seq<nat>, best: nat, out: seq<nat>, recs: Run)
    requires AllSorted(runs) && Drained(runs, heads, recs)
    requires Open(runs, heads, best) && IsBest(runs, heads, best, |runs|)
    requires Advanced(runs, heads, Head(runs, heads, best).key, out)
    ensures Drained(runs, out, recs + [Head(runs, heads, best)])
  {
    hide Concat; hide Less; hide IsBest; hide Latest; hide Rest;
    var n := |runs|;
    var win := Head(runs, heads, best);
    var rest, rest' := Rest(runs, heads, n), Rest(runs, out, n);
    RestStep(runs, heads, best, out, n, win.key);
    assert win in rest;
    var recs' := recs + [win];
    SortedAppend(recs, win);
    WinnerIsNew(recs, rest, win);
    forall k
      ensures Later(recs', rest', k) == Later(recs, rest, k)
    {
      RestStep(runs, heads, best, out, n, k);
      LatestConcat(recs, [win], k);
      LatestOfOne(win, k);
    }
    forall r, x | r in recs' && x in rest'
      ensures Less(r.key, x.key)
    {
      RestSmaller(runs, heads, best, out, x);
    }
  }

  lemma SortedAppend(recs: Run, win: Rec)
    requires Sorted(recs) && forall r :: r in recs ==> Less(r.key, win.key)
    ensures Sorted(recs + [win])
  {
    hide Less;
    var recs' := recs + [win];
    forall i, j | 0 <= i < j < |recs'|
      ensures Less(recs'[i].key, recs'[j].key)
    {
      if j == |recs| {
        assert recs'[i] in recs;
      }
    }
  }

  lemma LatestOfOne(r: Rec, k: Key)
    ensures Latest([r], k) == if r.key == k then Some(r) else None
  {
  }

  lemma WinnerIsNew(recs: Run, rest: seq<Rec>, win: Rec)
    requires win in rest && forall r, x :: r in recs && x in rest ==> Less(r.key, x.key)
    ensures Latest(recs, win.key) == None
  {
    forall r | r in recs
      ensures r.key != win.key
    {
      LessIrreflexive(r.key);
    }
  }

  /** What is left after a step was there before and lies above the emitted key. */
  lemma RestSmaller(runs: seq<Run>, heads: seq<nat>, best: nat, out: seq<nat>, x: Rec)
    requires AllSorted(runs) && HeadsIn(runs, heads) && HeadsIn(runs, out)
    requires Open(runs, heads, best) && IsBest(runs, heads, best, |runs|)
    requires Advanced(runs, heads, Head(runs, heads, best).key, out)
    requires x in Rest(runs, out, |runs|)
    ensures x in Rest(runs, heads, |runs|) && Less(Head(runs, heads, best).key, x.key)
  {
    hide Latest;
    var win := Head(runs, heads, best);
    RestSubset(runs, heads, win.key, out, |runs|);
    RestAbove(runs, heads, best, |runs|);
    RestStep(runs, heads, best, out, |runs|, win.key);
    assert Latest(Rest(runs, out, |runs|), win.key) == None;
  }

  lemma {:induction false} RestSubset(runs: seq<Run>, heads: seq<nat>, key: Key, out: seq<nat>, n: nat)
    requires HeadsIn(runs, heads) && HeadsIn(runs, out) && Advanced(runs, heads, key, out) && n <= |runs|
    ensures forall x :: x in Rest(runs, out, n) ==> x in Rest(runs, heads, n)
  {
    if n > 0 {
      RestSubset(runs, heads, key, out, n - 1);
      var r := runs[n - 1];
      DropMore(r, heads[n - 1], out[n - 1]);
    }
  }

  lemma DropMore(r: Run, a: nat, b: nat)
    requires a <= b <= |r|
    ensures forall x :: x in r[b..] ==> x in r[a..]
  {
    assert r[a..][b - a..] == r[b..];
  }

  lemma {:induction false} RestAtStart(runs: seq<Run>, heads: seq<nat>, n: nat)
    requires HeadsIn(runs, heads) && n <= |runs| && forall i :: 0 <= i < |heads| ==> heads[i] == 0
    ensures Rest(runs, heads, n) == Concat(runs[..n])
  {
    if n > 0 {
      RestAtStart(runs, heads, n - 1);
      assert runs[..n][..n - 1] == runs[..n - 1];
      assert runs[n - 1][0..] == runs[n - 1];
    }
  }

  lemma {:induction false} RestAtEnd(runs: seq<Run>, heads: seq<nat>, n: nat)
    requires HeadsIn(runs, heads) && n <= |runs| && forall i :: 0 <= i < |runs| ==> !Open(runs, heads, i)
    ensures Rest(runs, heads, n) == []
  {
    if n > 0 {
      RestAtEnd(runs, heads, n - 1);
      assert !Open(runs, heads, n - 1);
    }
  }

  lemma DrainStart(runs: seq<Run>, heads: seq<nat>)
    requires HeadsIn(runs, heads) && forall i :: 0 <= i < |heads| ==> heads[i] == 0
    ensures Drained(runs, heads, [])
  {
    RestAtStart(runs, heads, |runs|);
    assert runs[..|runs|] == runs;
  }

  lemma DrainEnd(runs: seq<Run>, heads: seq<nat>, recs: Run)
    requires Drained(runs, heads, recs) && forall i :: 0 <= i < |runs| ==> !Open(runs, heads, i)
    ensures SameLookups(recs, Concat(runs))
  {
    RestAtEnd(runs, heads, |runs|);
    forall k
      ensures Latest(recs, k) == Latest(Concat(runs), k)
    {
      LatestOfEmpty(k);
    }
  }

  /** Records left in the runs; it falls with every emitted record. */
  ghost function Left(runs: seq<Run>, heads: seq<nat>, n: nat): nat
    requires HeadsIn(runs, heads) && n <= |runs|
  {
    if n == 0 then 0 else Left(runs, heads, n - 1) + (|runs[n - 1]| - heads[n - 1])
  }

  lemma {:induction false} LeftFalls(runs: seq<Run>, heads: seq<nat>, best: nat, out: seq<nat>, n: nat)
    requires HeadsIn(runs, heads) && HeadsIn(runs, out) && n <= |runs| && Open(runs, heads, best)
    requires Advanced(runs, heads, Head(runs, heads, best).key, out)
    ensures Left(runs, out, n) <= Left(runs, heads, n)
    ensures n > best ==> Left(runs, out, n) < Left(runs, heads, n)
  {
    if n > 0 {
      LeftFalls(runs, heads, best, out, n - 1);
    }
  }

  lemma AdvancedIn(runs: seq<Run>, heads: seq<nat>, key: Key, out: seq<nat>)
    requires HeadsIn(runs, heads) && Advanced(runs, heads, key, out)
    ensures HeadsIn(runs, out)
  {
  }

  function KeysOf(recs: Run): (ks: seq<Key>)
    ensures |ks| == |recs| && forall i :: 0 <= i < |recs| ==> ks[i] == recs[i].key
  {
    seq(|recs|, i requires 0 <= i < |recs| => recs[i].key)
  }

  /** Merges key-only runs into ascending keys, each once. */
  method DrainSorted(runs: seq<Run>) returns (out: seq<Key>)
    requires AllSorted(runs)
    ensures Ascending(out)
    ensures Elems(out) == KeySet(Concat(runs))
  {
    hide Drained; hide Advanced; hide IsBest; hide AllSorted; hide Left; hide KeySet;
    var heads: seq<nat> := seq(|runs|, _ => 0);
    ghost var recs: Run := [];
    out := [];
    DrainStart(runs, heads);
    var best: nat := PickBest(runs, heads);
    while best < |runs|
      invariant HeadsIn(runs, heads) && Drained(runs, heads, recs)
      invariant out == KeysOf(recs)
      invariant best <= |runs|
      invariant best == |runs| <==> forall i :: 0 <= i < |runs| ==> !Open(runs, heads, i)
      invariant best < |runs| ==> Open(runs, heads, best) && IsBest(runs, heads, best, |runs|)
      decreases Left(runs, heads, |runs|)
    {
      var win := Head(runs, heads, best);
      out := out + [win.key];
      var next := SkipEqual(runs, heads, best);
      AdvancedIn(runs, heads, win.key, next);
      DrainStep(runs, heads, best, next, recs);
      LeftFalls(runs, heads, best, next, |runs|);
      recs := recs + [win];
      heads := next;
      best := PickBest(runs, heads);
    }
    DrainEnd(runs, heads, recs);
    DrainedKeys(runs, heads, recs);
  }

  lemma DrainedKeys(runs: seq<Run>, heads: seq<nat>, recs: Run)
    requires Drained(runs, heads, recs) && SameLookups(recs, Concat(runs))
    ensures Ascending(KeysOf(recs)) && Elems(KeysOf(recs)) == KeySet(Concat(runs))
  {
    SameLookupsSameKeys(recs, Concat(runs));
    var ks := KeysOf(recs);
    forall k
      ensures k in Elems(ks) <==> k in KeySet(recs)
    {
      if k in KeySet(recs) {
        var r :| r in recs && r.key == k;
        var i :| 0 <= i < |recs| && recs[i] == r;
        assert ks[i] == k;
      }
    }
  }

  datatype Pair = Pair(key: Key, value: seq<byte>)

  /** What draining key-value records keeps: the pairs, and the keys of the tombstones. */
  ghost predicate SplitOf(recs: Run, pairs: seq<Pair>, deleted: seq<Key>)
  {
    && PairsOf(recs) == pairs
    && DeletedOf(recs) == deleted
  }

  function PairsOf(recs: Run): (ps: seq<Pair>)
  {
    if recs == [] then []
    else
      var last := recs[|recs| - 1];
      PairsOf(recs[..|recs| - 1]) + if last.deleted then [] else [Pair(last.key, last.value)]
  }

  function DeletedOf(recs: Run): (ks: seq<Key>)
  {
    if recs == [] then []
    else
      var last := recs[|recs| - 1];
      DeletedOf(recs[..|recs| - 1]) + if last.deleted then [last.key] else []
  }

  lemma SplitAppend(recs: Run, pairs: seq<Pair>, deleted: seq<Key>, win: Rec)
    requires SplitOf(recs, pairs, deleted)
    ensures win.deleted ==> SplitOf(recs + [win], pairs, deleted + [win.key])
    ensures !win.deleted ==> SplitOf(recs + [win], pairs + [Pair(win.key, win.value)], deleted)
  {
    assert (recs + [win])[..|recs|] == recs;
    assert pairs + [] == pairs && deleted + [] == deleted;
  }

  lemma {:induction false} PairsMember(recs: Run, p: Pair)
    ensures p in PairsOf(recs) <==> Rec(p.key, false, p.value) in recs
  {
    if recs != [] {
      var last := recs[|recs| - 1];
      assert recs == recs[..|recs| - 1] + [last];
      PairsMember(recs[..|recs| - 1], p);
    }
  }

  lemma {:induction false} DeletedMember(recs: Run, k: Key)
    ensures k in DeletedOf(recs) <==> exists r :: r in recs && r.deleted && r.key == k
  {
    if recs != [] {
      var last := recs[|recs| - 1];
      assert recs == recs[..|recs| - 1] + [last];
      DeletedMember(recs[..|recs| - 1], k);
    }
  }

  lemma {:induction false} SplitAscending(recs: Run)
    requires Sorted(recs)
    ensures forall i, j :: 0 <= i < j < |PairsOf(recs)| ==> Less(PairsOf(recs)[i].key, PairsOf(recs)[j].key)
    ensures Ascending(DeletedOf(recs))
  {
    if recs != [] {
      var n := |recs| - 1;
      var front, last := recs[..n], recs[n];
      SplitAscending(front);
      forall p | p in PairsOf(front)
        ensures Less(p.key, last.key)
      {
        PairsMember(front, p);
        var i :| 0 <= i < n && front[i] == Rec(p.key, false, p.value);
        assert recs[i] == front[i];
      }
      forall k | k in DeletedOf(front)
        ensures Less(k, last.key)
      {
        DeletedMember(front, k);
        var r :| r in front && r.deleted && r.key == k;
        var i :| 0 <= i < n && front[i] == r;
        assert recs[i] == front[i];
      }
    }
  }

  /** Newest-wins drain of key-value runs: a pair for every key whose last write is a value,
      a deletion for every key whose last write is a tombstone, both in key order. */
  method DrainKvSorted(runs: seq<Run>) returns (pairs: seq<Pair>, deleted: seq<Key>)
    requires AllSorted(runs)
    ensures forall i, j :: 0 <= i < j < |pairs| ==> Less(pairs[i].key, pairs[j].key)
    ensures Ascending(deleted)
    ensures forall p :: p in pairs <==> Latest(Concat(runs), p.key) == Some(Rec(p.key, false, p.value))
    ensures forall k :: k in deleted <==> Latest(Concat(runs), k).Some? && Latest(Concat(runs), k).value.deleted
  {
    hide Drained; hide Advanced; hide IsBest; hide AllSorted; hide Left; hide Latest; hide SplitOf;
    var heads: seq<nat> := seq(|runs|, _ => 0);
    ghost var recs: Run := [];
    pairs, deleted := [], [];
    SplitStart();
    DrainStart(runs, heads);
    var best: nat := PickBest(runs, heads);
    while best < |runs|
      invariant HeadsIn(runs, heads) && Drained(runs, heads, recs)
      invariant SplitOf(recs, pairs, deleted)
      invariant best <= |runs|
      invariant best == |runs| <==> forall i :: 0 <= i < |runs| ==> !Open(runs, heads, i)
      invariant best < |runs| ==> Open(runs, heads, best) && IsBest(runs, heads, best, |runs|)
      decreases Left(runs, heads, |runs|)
    {
      var win := Head(runs, heads, best);
      SplitAppend(recs, pairs, deleted, win);
      if win.deleted {
        deleted := deleted + [win.key];
      } else {
        pairs := pairs + [Pair(win.key, win.value)];
      }
      var next := SkipEqual(runs, heads, best);
      AdvancedIn(runs, heads, win.key, next);
      DrainStep(runs, heads, best, next, recs);
      LeftFalls(runs, heads, best, next, |runs|);
      recs := recs + [win];
      heads := next;
      best := PickBest(runs, heads);
    }
    DrainEnd(runs, heads, recs);
    DrainedSplit(runs, heads, recs, pairs, deleted);
  }

  lemma SplitStart()
    ensures SplitOf([], [], [])
  {
  }

  lemma DrainedSplit(runs: seq<Run>, heads: seq<nat>, recs: Run, pairs: seq<Pair>, deleted: seq<Key>)
    requires Drained(runs, heads, recs) && SameLookups(recs, Concat(runs)) && SplitOf(recs, pairs, deleted)
    ensures forall i, j :: 0 <= i < j < |pairs| ==> Less(pairs[i].key, pairs[j].key)
    ensures Ascending(deleted)
    ensures forall p :: p in pairs <==> Latest(Concat(runs), p.key) == Some(Rec(p.key, false, p.value))
    ensures forall k :: k in deleted <==> Latest(Concat(runs), k).Some? && Latest(Concat(runs), k).value.deleted
  {
    SplitAscending(recs);
    forall p
      ensures p in pairs <==> Latest(Concat(runs), p.key) == Some(Rec(p.key, false, p.value))
    {
      PairsMember(recs, p);
      LookupMember(recs, Rec(p.key, false, p.value));
    }
    forall k
      ensures k in deleted <==> Latest(Concat(runs), k).Some? && Latest(Concat(runs), k).value.deleted
    {
      DeletedMember(recs, k);
      if k in deleted {
        var r :| r in recs && r.deleted && r.key == k;
        LookupMember(recs, r);
      }
    }
  }

  lemma LookupMember(recs: Run, r: Rec)
    requires Sorted(recs)
    ensures r in recs <==> Latest(recs, r.key) == Some(r)
  {
    if r in recs {
      var i :| 0 <= i < |recs| && recs[i] == r;
      SortedLatest(recs, i);
    }
  }
}
