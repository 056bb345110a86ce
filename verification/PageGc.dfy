/** Garbage collection: old roots are dropped and every page no kept root reaches is deleted. */
module PageGc {
  import opened Bytes
  import opened MachineInts
  import opened PageSplit
  import opened PageTrees
  import opened PageStore

  // ---- which roots are kept ----

  /** A clock reading: seconds since the epoch and nanoseconds within the second. */
  datatype Clock = Clock(secs: int, nanos: nat)

  function Nanos(t: Clock): int
  {
    t.secs * 1_000_000_000 + t.nanos
  }

  /** The readings whose nanoseconds since the epoch are positive and fit 64 bits: from 1970 to 2262. */
  predicate InRange(t: Clock)
  {
    0 < Nanos(t) < TWO_63
  }

  /** The number a root name carries: despite the function's name, nanoseconds. */
  function ParseRootUs(name: RootName): (ns: int)
  {
    Wrap64(-Wrap64(name))
  }

  /** The name of a root written at a given time: the two's complement negation of its nanoseconds. */
  function MakeRootName(now: Clock): (name: RootName)
    ensures ParseRootUs(name) == Wrap64(Nanos(now))
  {
    var ts := Wrap64(Nanos(now));
    if ts > 0 then TWO_64 - ts else -ts
  }

  /** Of two 64-bit times the later one's name sorts first exactly when both lie on the same side of
      the epoch. */
  lemma RootNamesNewestFirst(a: Clock, b: Clock)
    requires -TWO_63 <= Nanos(b) < Nanos(a) < TWO_63
    ensures MakeRootName(a) < MakeRootName(b) <==> (Nanos(a) > 0 <==> Nanos(b) > 0)
  {
  }

  function MaxAgeUs(maxAgeSecs: nat): (us: int)
  {
    Wrap64(Wrap64(maxAgeSecs) * 1_000_000)
  }

  predicate Removable(roots: seq<RootName>, i: nat, maxAgeSecs: nat, maxRootCount: int)
    requires i < |roots|
  {
    || Wrap64(ParseRootUs(roots[0]) - ParseRootUs(roots[i])) > MaxAgeUs(maxAgeSecs)
    || (maxRootCount > 0 && i >= maxRootCount)
  }

  /** Splits the newest-first listing by age and count. */
  method ClassifyRoots(roots: seq<RootName>, maxAgeSecs: nat, maxRootCount: int)
    returns (keep: seq<RootName>, remove: seq<RootName>)
    ensures forall name :: name in keep <==>
      exists i :: 0 <= i < |roots| && roots[i] == name && !Removable(roots, i, maxAgeSecs, maxRootCount)
    ensures forall name :: name in remove <==>
      exists i :: 0 <= i < |roots| && roots[i] == name && Removable(roots, i, maxAgeSecs, maxRootCount)
    ensures |keep| + |remove| == |roots|
    ensures NewestFirst(roots) ==> NewestFirst(keep)
  {
    keep, remove := [], [];
    if roots == [] {
      return;
    }
    for i := 0 to |roots|
      invariant forall name :: name in keep <==>
        exists j :: 0 <= j < i && roots[j] == name && !Removable(roots, j, maxAgeSecs, maxRootCount)
      invariant forall name :: name in remove <==>
        exists j :: 0 <= j < i && roots[j] == name && Removable(roots, j, maxAgeSecs, maxRootCount)
      invariant |keep| + |remove| == i
      invariant NewestFirst(roots) ==> NewestFirst(keep)
    {
      if Removable(roots, i, maxAgeSecs, maxRootCount) {
        remove := remove + [roots[i]];
      } else {
        if NewestFirst(roots) {
          NewestFirstAppend(keep, roots[i]);
        }
        keep := keep + [roots[i]];
      }
    }
  }

  /** The newest root survives a collection exactly when the age limit, in the 64-bit
      arithmetic it is computed in, does not wrap to a negative number. */
  lemma NewestRootKept(roots: seq<RootName>, maxAgeSecs: nat, maxRootCount: int)
    requires roots != []
    ensures !Removable(roots, 0, maxAgeSecs, maxRootCount) <==> MaxAgeUs(maxAgeSecs) >= 0
  {
  }

  /** The listing of roots written at the given times, newest first. */
  ghost predicate WrittenAt(roots: seq<RootName>, times: seq<Clock>)
  {
    && |roots| == |times|
    && (forall i :: 0 <= i < |times| ==> InRange(times[i]) && roots[i] == MakeRootName(times[i]))
    && NewestFirst(roots)
  }

  /** How much older than the newest root a root is, in nanoseconds. */
  ghost function Age(times: seq<Clock>, i: nat): int
    requires i < |times|
  {
    Nanos(times[0]) - Nanos(times[i])
  }

  lemma AgesNotNegative(roots: seq<RootName>, times: seq<Clock>, i: nat)
    requires WrittenAt(roots, times) && i < |roots|
    ensures 0 <= Age(times, i) < TWO_63
    ensures Wrap64(ParseRootUs(roots[0]) - ParseRootUs(roots[i])) == Age(times, i)
  {
    hide Nanos; hide MakeRootName; hide ParseRootUs;
    NameOf(times[0]);
    NameOf(times[i]);
    if i > 0 {
      assert roots[0] < roots[i];
    }
  }

  lemma NameOf(t: Clock)
    requires InRange(t)
    ensures MakeRootName(t) == TWO_64 - Nanos(t) && ParseRootUs(MakeRootName(t)) == Nanos(t)
  {
    hide Nanos;
  }

  /** A root within the count is kept exactly when its age in nanoseconds is at most the limit in
      seconds times one million: the limit acts as thousandths of a second. */
  lemma KeptByAge(roots: seq<RootName>, times: seq<Clock>, i: nat, maxAgeSecs: nat, maxRootCount: int)
    requires WrittenAt(roots, times) && i < |roots|
    ensures !Removable(roots, i, maxAgeSecs, maxRootCount) <==>
      Age(times, i) <= MaxAgeUs(maxAgeSecs) && (maxRootCount <= 0 || i < maxRootCount)
  {
    AgesNotNegative(roots, times, i);
  }

  /** The decision on age is the one the limit in seconds asks for exactly when the root's age does
      not lie between a thousandth of the limit and the limit. */
  lemma AgeLimitMet(roots: seq<RootName>, times: seq<Clock>, i: nat, maxAgeSecs: nat)
    requires WrittenAt(roots, times) && i < |roots|
    requires maxAgeSecs <= 9_223_372_036_854
    ensures (!Removable(roots, i, maxAgeSecs, 0) <==> Age(times, i) <= maxAgeSecs * 1_000_000_000) <==>
      !(maxAgeSecs * 1_000_000 < Age(times, i) <= maxAgeSecs * 1_000_000_000)
  {
    KeptByAge(roots, times, i, maxAgeSecs, 0);
    MaxAgeInRange(maxAgeSecs);
  }

  /** With the default limit of twelve hours a root goes exactly when it is more than 43.2 seconds older than
      the newest. */
  lemma TwelveHoursAreFortyThreeSeconds(now: Clock, later: Clock)
    requires InRange(now) && InRange(later) && Nanos(now) < Nanos(later)
    ensures Removable([MakeRootName(later), MakeRootName(now)], 1, 43_200, 0) <==>
      (later.secs - now.secs) * 1_000_000_000 + (later.nanos - now.nanos) > 43_200_000_000
  {
    var times := [later, now];
    var roots := [MakeRootName(times[0]), MakeRootName(times[1])];
    KeptByAge(roots, times, 1, 43_200, 0);
  }

  /** A limit that wraps drops every root, the newest included; any other keeps at least the newest. */
  lemma AllRootsLostByWrap(roots: seq<RootName>, times: seq<Clock>, maxAgeSecs: nat, maxRootCount: int)
    requires WrittenAt(roots, times) && roots != []
    ensures (forall i :: 0 <= i < |roots| ==> Removable(roots, i, maxAgeSecs, maxRootCount)) <==>
      MaxAgeUs(maxAgeSecs) < 0
  {
    NewestRootKept(roots, maxAgeSecs, maxRootCount);
    if MaxAgeUs(maxAgeSecs) < 0 {
      forall i | 0 <= i < |roots|
        ensures Removable(roots, i, maxAgeSecs, maxRootCount)
      {
        KeptByAge(roots, times, i, maxAgeSecs, maxRootCount);
        AgesNotNegative(roots, times, i);
      }
    }
  }

  /** The least limit that wraps to a negative number. */
  lemma LeastWrappingLimit()
    ensures MaxAgeUs(9_223_372_036_855) < 0
    ensures forall m: nat :: m < 9_223_372_036_855 ==> MaxAgeUs(m) >= 0
  {
    forall m: nat | m < 9_223_372_036_855
      ensures MaxAgeUs(m) >= 0
    {
      MaxAgeInRange(m);
    }
  }

  lemma MaxAgeInRange(maxAgeSecs: nat)
    requires maxAgeSecs <= 9_223_372_036_854
    ensures MaxAgeUs(maxAgeSecs) == maxAgeSecs * 1_000_000 >= 0
  {
  }

  // ---- which pages are reachable ----

  ghost function Reach(blobs: Blobs, id: Id, h: nat): set<Id>
    decreases h, 0
  {
    if id in blobs && blobs[id].Index? && h > 0
    then {id} + ReachForest(blobs, blobs[id].entries, h - 1)
    else {id}
  }

  ghost function ReachForest(blobs: Blobs, es: seq<Entry>, h: nat): set<Id>
    decreases h, 1 + |es|
  {
    if es == [] then {} else Reach(blobs, es[0].child, h) + ReachForest(blobs, es[1..], h)
  }

  ghost function ReachTree(blobs: Blobs, t: CfTree): set<Id>
  {
    if t.root == 0 then {} else Reach(blobs, t.root, t.height)
  }

  ghost predicate AgreeOn(a: Blobs, b: Blobs, ids: set<Id>)
  {
    forall id :: id in ids && id in a ==> id in b && b[id] == a[id]
  }

  /** A tree only depends on the pages it reaches. */
  lemma {:induction false} ReachFrame(a: Blobs, b: Blobs, id: Id, h: nat)
    requires Wf(a, id, h) && AgreeOn(a, b, Reach(a, id, h))
    ensures Wf(b, id, h) && Keys(b, id, h) == Keys(a, id, h)
    decreases h, 0
  {
    assert id in Reach(a, id, h);
    match a[id]
    case Leaf(keys) =>
    case Index(entries) =>
      ReachForestFrame(a, b, entries, h - 1);
  }

  lemma {:induction false} ReachForestFrame(a: Blobs, b: Blobs, es: seq<Entry>, h: nat)
    requires WfForest(a, es, h) && AgreeOn(a, b, ReachForest(a, es, h))
    ensures WfForest(b, es, h) && ForestKeys(b, es, h) == ForestKeys(a, es, h)
    decreases h, 1 + |es|
  {
    if es != [] {
      assert WfEntry(a, es[0], h);
      ReachFrame(a, b, es[0].child, h);
      assert es[1..|es|] == es[1..];
      WfForestSlice(a, es, h, 1, |es|);
      ReachForestFrame(a, b, es[1..], h);
      forall i | 0 <= i < |es|
        ensures WfEntry(b, es[i], h)
      {
        if i > 0 {
          assert es[1..][i - 1] == es[i];
          assert WfEntry(b, es[1..][i - 1], h);
        }
      }
    }
  }

  lemma {:induction false} ReachForestAppend(blobs: Blobs, es: seq<Entry>, i: nat, h: nat)
    requires i < |es|
    ensures ReachForest(blobs, es[..i + 1], h) == ReachForest(blobs, es[..i], h) + Reach(blobs, es[i].child, h)
    decreases i
  {
    if i > 0 {
      assert es[..i + 1][1..] == es[1..][..i] && es[..i][1..] == es[1..][..i - 1];
      assert es[..i + 1][0] == es[0] == es[..i][0];
      ReachForestAppend(blobs, es[1..], i - 1, h);
    } else {
      assert es[..1][1..] == [];
    }
  }

  /** Adds every page of one tree to the live set. */
  method CollectTreeUuids(blobs: Blobs, tree: CfTree, live: set<Id>) returns (out: set<Id>)
    requires 0 !in blobs
    ensures out == live + ReachTree(blobs, tree)
    decreases tree.height
  {
    if tree.root == 0 {
      return live;
    }
    out := live + {tree.root};
    if tree.height == 0 || tree.root !in blobs || blobs[tree.root].Leaf? {
      return;
    }
    var entries := blobs[tree.root].entries;
    for i := 0 to |entries|
      invariant out == live + {tree.root} + ReachForest(blobs, entries[..i], tree.height - 1)
    {
      out := out + {entries[i].child};
      if tree.height > 1 {
        out := CollectTreeUuids(blobs, CfTree(entries[i].child, tree.height - 1), out);
      }
      ReachForestAppend(blobs, entries, i, tree.height - 1);
      assert entries[i].child in Reach(blobs, entries[i].child, tree.height - 1);
    }
    assert entries[..|entries|] == entries;
  }

  ghost function LiveOf(blobs: Blobs, trees: seq<CfTree>): set<Id>
  {
    if trees == [] then {}
    else LiveOf(blobs, trees[..|trees| - 1]) + ReachTree(blobs, trees[|trees| - 1])
  }

  lemma {:induction false} LiveOfEach(blobs: Blobs, trees: seq<CfTree>, t: CfTree)
    requires t in trees
    ensures ReachTree(blobs, t) <= LiveOf(blobs, trees)
  {
    if t != trees[|trees| - 1] {
      var i :| 0 <= i < |trees| && trees[i] == t;
      assert trees[..|trees| - 1][i] == t;
      LiveOfEach(blobs, trees[..|trees| - 1], t);
    }
  }

  /** The pages the kept roots reach. */
  ghost function LiveRoots(blobs: Blobs, roots: map<RootName, seq<CfTree>>, keep: seq<RootName>): set<Id>
    requires forall name :: name in keep ==> name in roots
  {
    if keep == [] then {}
    else
      var last := keep[|keep| - 1];
      assert last in keep;
      LiveRoots(blobs, roots, keep[..|keep| - 1]) + LiveOf(blobs, roots[last])
  }

  lemma {:induction false} LiveRootsEach(blobs: Blobs, roots: map<RootName, seq<CfTree>>, keep: seq<RootName>, name: RootName)
    requires forall n :: n in keep ==> n in roots
    requires name in keep
    ensures LiveOf(blobs, roots[name]) <= LiveRoots(blobs, roots, keep)
  {
    if name != keep[|keep| - 1] {
      var i :| 0 <= i < |keep| && keep[i] == name;
      assert keep[..|keep| - 1][i] == name;
      LiveRootsEach(blobs, roots, keep[..|keep| - 1], name);
    }
  }

  method CollectTrees(blobs: Blobs, trees: seq<CfTree>, live: set<Id>) returns (out: set<Id>)
    requires 0 !in blobs
    ensures out == live + LiveOf(blobs, trees)
  {
    out := live;
    for i := 0 to |trees|
      invariant out == live + LiveOf(blobs, trees[..i])
    {
      assert trees[..i + 1][..i] == trees[..i];
      out := CollectTreeUuids(blobs, trees[i], out);
    }
    assert trees[..|trees|] == trees;
  }

  method CollectRoots(blobs: Blobs, roots: map<RootName, seq<CfTree>>, keep: seq<RootName>) returns (live: set<Id>)
    requires 0 !in blobs
    requires forall name :: name in keep ==> name in roots
    ensures live == LiveRoots(blobs, roots, keep)
  {
    live := {};
    for i := 0 to |keep|
      invariant live == LiveRoots(blobs, roots, keep[..i])
    {
      assert keep[..i + 1][..i] == keep[..i] && keep[i] in keep;
      live := CollectTrees(blobs, roots[keep[i]], live);
    }
    assert keep[..|keep|] == keep;
  }

  /** Deletes the pages outside the live set one by one. */
  method DeleteDead(blobs: Blobs, live: set<Id>) returns (out: Blobs, removed: nat)
    ensures out == map id | id in blobs && id in live :: blobs[id]
    ensures removed == |blobs| - |out|
  {
    out := blobs;
    removed := 0;
    var todo := blobs.Keys;
    while todo != {}
      invariant todo <= blobs.Keys
      invariant out == map id | id in blobs && (id in live || id in todo) :: blobs[id]
      invariant removed + |out| == |blobs|
      decreases |todo|
    {
      var id :| id in todo;
      todo := todo - {id};
      if id !in live {
        assert (out - {id}).Keys == out.Keys - {id};
        out := out - {id};
        removed := removed + 1;
      }
    }
  }

  datatype GcReport =
    GcReport(rootsScanned: nat, rootsRemoved: nat, blobsScanned: nat, blobsRemoved: nat, live: nat, dryRun: bool)

  ghost predicate NewestFirst(listed: seq<RootName>)
  {
    forall i, j :: 0 <= i < j < |listed| ==> listed[i] < listed[j]
  }

  lemma {:induction false} LeastName(names: set<RootName>) returns (m: RootName)
    requires names != {}
    ensures m in names && forall n :: n in names ==> m <= n
    decreases |names|
  {
    m :| m in names;
    var rest := names - {m};
    if rest == {} {
      assert names == {m};
    } else {
      var other := LeastName(rest);
      assert names == rest + {m};
      m := if other < m then other else m;
    }
  }

  /** The blob store's listing of the roots, newest first. */
  method ListRoots(names: set<RootName>) returns (listed: seq<RootName>)
    ensures NewestFirst(listed) && Elems(listed) == names
  {
    listed := [];
    var todo := names;
    while todo != {}
      invariant todo <= names && NewestFirst(listed)
      invariant Elems(listed) == names - todo
      invariant forall a, b :: a in listed && b in todo ==> a < b
      decreases |todo|
    {
      ghost var least := LeastName(todo);
      var m :| m in todo && forall n :: n in todo ==> m <= n;
      NewestFirstAppend(listed, m);
      ElemsConcat(listed, [m]);
      listed := listed + [m];
      todo := todo - {m};
    }
  }

  lemma NewestFirstAppend(listed: seq<RootName>, m: RootName)
    requires NewestFirst(listed) && forall a :: a in listed ==> a < m
    ensures NewestFirst(listed + [m])
  {
    var s := listed + [m];
    forall i, j | 0 <= i < j < |s|
      ensures s[i] < s[j]
    {
      if j == |listed| {
        assert s[i] in listed;
      }
    }
  }

  /** Some tree of some of the named roots reaches the page. */
  ghost predicate Reached(blobs: Blobs, roots: map<RootName, seq<CfTree>>, names: set<RootName>, id: Id)
  {
    exists name, t :: name in names && name in roots && t in roots[name] && id in ReachTree(blobs, t)
  }

  lemma {:induction false} LiveOfMember(blobs: Blobs, trees: seq<CfTree>, id: Id) returns (t: CfTree)
    requires id in LiveOf(blobs, trees)
    ensures t in trees && id in ReachTree(blobs, t)
  {
    var last := trees[|trees| - 1];
    if id in ReachTree(blobs, last) {
      t := last;
    } else {
      t := LiveOfMember(blobs, trees[..|trees| - 1], id);
    }
  }

  lemma {:induction false} LiveRootsMember(blobs: Blobs, roots: map<RootName, seq<CfTree>>, keep: seq<RootName>, id: Id)
    requires forall n :: n in keep ==> n in roots
    ensures id in LiveRoots(blobs, roots, keep) <==> Reached(blobs, roots, Elems(keep), id)
  {
    if Reached(blobs, roots, Elems(keep), id) {
      var name, t :| name in Elems(keep) && name in roots && t in roots[name] && id in ReachTree(blobs, t);
      LiveRootsEach(blobs, roots, keep, name);
      LiveOfEach(blobs, roots[name], t);
    }
    if id in LiveRoots(blobs, roots, keep) {
      var last, rest := keep[|keep| - 1], keep[..|keep| - 1];
      if id in LiveOf(blobs, roots[last]) {
        var t := LiveOfMember(blobs, roots[last], id);
        assert last in Elems(keep);
      } else {
        LiveRootsMember(blobs, roots, rest, id);
        assert Elems(rest) <= Elems(keep);
      }
    }
  }

  /** The roots of a listing that a collection keeps. */
  ghost function Kept(listed: seq<RootName>, maxAgeSecs: nat, maxRootCount: int): set<RootName>
  {
    set i | 0 <= i < |listed| && !Removable(listed, i, maxAgeSecs, maxRootCount) :: listed[i]
  }

  lemma KeptListed(listed: seq<RootName>, keep: seq<RootName>, remove: seq<RootName>,
                   maxAgeSecs: nat, maxRootCount: int, names: set<RootName>)
    requires NewestFirst(listed) && Elems(listed) == names
    requires forall name :: name in keep <==>
      exists i :: 0 <= i < |listed| && listed[i] == name && !Removable(listed, i, maxAgeSecs, maxRootCount)
    requires forall name :: name in remove <==>
      exists i :: 0 <= i < |listed| && listed[i] == name && Removable(listed, i, maxAgeSecs, maxRootCount)
    ensures Elems(keep) == names - Elems(remove)
    ensures Elems(keep) == Kept(listed, maxAgeSecs, maxRootCount)
    ensures forall i :: 0 <= i < |listed| ==>
      (listed[i] in Kept(listed, maxAgeSecs, maxRootCount) <==> !Removable(listed, i, maxAgeSecs, maxRootCount))
  {
    forall name
      ensures name in Elems(keep) <==> name in names - Elems(remove)
      ensures name in Elems(keep) <==> name in Kept(listed, maxAgeSecs, maxRootCount)
    {
      if name in names {
        assert name in Elems(listed);
        var i :| 0 <= i < |listed| && listed[i] == name;
      }
    }
  }

  lemma {:induction false} ElemsSize(s: seq<RootName>)
    requires NewestFirst(s)
    ensures |Elems(s)| == |s|
  {
    if s != [] {
      var front, last := s[..|s| - 1], s[|s| - 1];
      ElemsSize(front);
      assert s == front + [last];
      ElemsConcat(front, [last]);
      assert Elems([last]) == {last};
      assert last !in front;
    } else {
      assert Elems(s) == {};
    }
  }

  lemma {:induction false} ReachInside(blobs: Blobs, id: Id, h: nat)
    requires Wf(blobs, id, h)
    ensures Reach(blobs, id, h) <= blobs.Keys
    decreases h, 0
  {
    if blobs[id].Index? {
      ReachForestInside(blobs, blobs[id].entries, h - 1);
    }
  }

  lemma {:induction false} ReachForestInside(blobs: Blobs, es: seq<Entry>, h: nat)
    requires WfForest(blobs, es, h)
    ensures ReachForest(blobs, es, h) <= blobs.Keys
    decreases h, 1 + |es|
  {
    if es != [] {
      assert WfEntry(blobs, es[0], h);
      ReachInside(blobs, es[0].child, h);
      assert es[1..|es|] == es[1..];
      WfForestSlice(blobs, es, h, 1, |es|);
      ReachForestInside(blobs, es[1..], h);
    }
  }

  /** The pages some tree of the named roots reaches. */
  ghost function LivePages(blobs: Blobs, roots: map<RootName, seq<CfTree>>, names: set<RootName>): set<Id>
  {
    set id | id in blobs && Reached(blobs, roots, names, id)
  }

  lemma LiveRootsPages(blobs: Blobs, roots: map<RootName, seq<CfTree>>, keep: seq<RootName>)
    requires forall name :: name in keep ==> name in roots && WfTrees(blobs, roots[name])
    ensures LiveRoots(blobs, roots, keep) == LivePages(blobs, roots, Elems(keep))
  {
    forall id
      ensures id in LiveRoots(blobs, roots, keep) <==> id in LivePages(blobs, roots, Elems(keep))
    {
      LiveRootsMember(blobs, roots, keep, id);
      if Reached(blobs, roots, Elems(keep), id) {
        var name, t :| name in Elems(keep) && name in roots && t in roots[name] && id in ReachTree(blobs, t);
        ReachInside(blobs, t.root, t.height);
      }
    }
  }

  /** Deleting what the kept roots do not reach leaves every kept root readable and unchanged. */
  lemma KeptRootsRead(before: Blobs, roots: map<RootName, seq<CfTree>>, keep: seq<RootName>, after: Blobs)
    requires forall name :: name in keep ==> name in roots && WfTrees(before, roots[name])
    requires after == map id | id in before && id in LiveRoots(before, roots, keep) :: before[id]
    ensures forall name, t :: name in keep && t in roots[name] ==>
      WfTree(after, t) && TreeKeys(after, t) == TreeKeys(before, t)
  {
    forall name, t | name in keep && t in roots[name]
      ensures WfTree(after, t) && TreeKeys(after, t) == TreeKeys(before, t)
    {
      LiveRootsEach(before, roots, keep, name);
      LiveOfEach(before, roots[name], t);
      if t.root != 0 {
        ReachFrame(before, after, t.root, t.height);
      }
    }
  }

  /** Every listed root is complete in `after` and holds there what it held in `before`. */
  ghost predicate RootsRead(before: Blobs, after: Blobs, roots: map<RootName, seq<CfTree>>)
  {
    forall name, t :: name in roots && t in roots[name] ==>
      WfTree(after, t) && TreeKeys(after, t) == TreeKeys(before, t)
  }

  lemma RootsReadSame(blobs: Blobs, roots: map<RootName, seq<CfTree>>)
    requires forall name :: name in roots ==> WfTrees(blobs, roots[name])
    ensures RootsRead(blobs, blobs, roots)
  {
  }

  lemma SweepKeeps(before: Blobs, roots: map<RootName, seq<CfTree>>, keep: seq<RootName>,
                   after: Blobs, kept: map<RootName, seq<CfTree>>)
    requires forall name :: name in roots ==> WfTrees(before, roots[name])
    requires forall name :: name in keep ==> name in roots
    requires after == map id | id in before && id in LiveRoots(before, roots, keep) :: before[id]
    requires kept.Keys == Elems(keep) && forall name :: name in kept ==> kept[name] == roots[name]
    ensures RootsRead(before, after, kept)
    ensures forall id :: id in after <==> id in before && Reached(before, kept, kept.Keys, id)
  {
    hide LiveRoots; hide Reached; hide WfTree; hide TreeKeys;
    KeptRootsRead(before, roots, keep, after);
    forall id
      ensures id in LiveRoots(before, roots, keep) <==> Reached(before, kept, kept.Keys, id)
    {
      LiveRootsMember(before, roots, keep, id);
      ReachedSame(before, roots, kept, id);
    }
  }

  lemma ReachedSame(blobs: Blobs, roots: map<RootName, seq<CfTree>>, kept: map<RootName, seq<CfTree>>, id: Id)
    requires kept.Keys <= roots.Keys && forall name :: name in kept ==> kept[name] == roots[name]
    ensures Reached(blobs, roots, kept.Keys, id) <==> Reached(blobs, kept, kept.Keys, id)
  {
  }

  /** Drops the removed roots and every page the kept ones do not reach. */
  method Sweep(s: Store, keep: seq<RootName>, remove: seq<RootName>, live: set<Id>) returns (removed: nat)
    requires s.Valid() && s.Complete()
    requires Elems(keep) == s.roots.Keys - Elems(remove)
    requires forall name :: name in keep ==> name in s.roots
    requires live == LiveRoots(s.blobs, s.roots, keep)
    modifies s`blobs, s`roots
    ensures s.Valid()
    ensures s.roots.Keys == Elems(keep) && forall name :: name in s.roots ==> s.roots[name] == old(s.roots)[name]
    ensures removed == |old(s.blobs)| - |s.blobs|
    ensures forall id :: id in s.blobs <==> id in old(s.blobs) && Reached(old(s.blobs), s.roots, s.roots.Keys, id)
    ensures RootsRead(old(s.blobs), s.blobs, s.roots)
  {
    var kept := map name | name in s.roots && name !in remove :: s.roots[name];
    assert kept.Keys == Elems(keep);
    var rest;
    rest, removed := DeleteDead(s.blobs, live);
    SweepKeeps(s.blobs, s.roots, keep, rest, kept);
    s.roots := kept;
    s.blobs := rest;
  }

  /** One full pass over a store whose pages are all present.  `listed` is the blob store's own
      newest-first listing of the roots.  Kept roots read back exactly what they held; pages that
      no kept root reaches are gone, all others stay.  The report counts what the pass saw and did;
      a dry run counts the same and changes nothing. */
  method GcFull(s: Store, listed: seq<RootName>, maxAgeSecs: nat, maxRootCount: int, dryRun: bool)
    returns (report: Option<GcReport>)
    requires s.Valid() && s.Complete()
    requires NewestFirst(listed) && Elems(listed) == s.roots.Keys
    modifies s`blobs, s`roots
    ensures s.Valid()
    ensures report.None? <==> s.readOnly || listed == []
    ensures report.None? || dryRun ==> s.blobs == old(s.blobs) && s.roots == old(s.roots)
    ensures report.Some? && !dryRun ==>
      forall i :: 0 <= i < |listed| ==> (listed[i] in s.roots <==> !Removable(listed, i, maxAgeSecs, maxRootCount))
    ensures forall name :: name in s.roots ==> name in old(s.roots) && s.roots[name] == old(s.roots[name])
    ensures report.Some? && !dryRun ==>
      forall id :: id in s.blobs <==> id in old(s.blobs) && Reached(old(s.blobs), s.roots, s.roots.Keys, id)
    ensures RootsRead(old(s.blobs), s.blobs, s.roots)
    ensures report.Some? ==>
      && report.value.rootsScanned == |old(s.roots)|
      && report.value.rootsRemoved + |Kept(listed, maxAgeSecs, maxRootCount)| == |old(s.roots)|
      && report.value.blobsScanned == |old(s.blobs)|
      && report.value.blobsRemoved + |s.blobs| == |old(s.blobs)|
      && report.value.live == |LivePages(old(s.blobs), old(s.roots), Kept(listed, maxAgeSecs, maxRootCount))|
      && report.value.dryRun == dryRun
  {
    hide RootsRead; hide Reached; hide Removable; hide Kept; hide LivePages; hide LiveRoots; hide WfTrees;
    hide Wrap64;
    RootsReadSame(s.blobs, s.roots);
    if s.readOnly || listed == [] {
      return None;
    }
    var keep, remove := ClassifyRoots(listed, maxAgeSecs, maxRootCount);
    KeptListed(listed, keep, remove, maxAgeSecs, maxRootCount, s.roots.Keys);
    var live := CollectRoots(s.blobs, s.roots, keep);
    LiveRootsPages(s.blobs, s.roots, keep);
    ElemsSize(listed);
    ElemsSize(keep);
    var scanned := |s.blobs|;
    var removed := 0;
    assert |s.roots| == |listed| by { assert |s.roots.Keys| == |s.roots|; }
    if !dryRun {
      removed := Sweep(s, keep, remove, live);
    }
    report := Some(GcReport(|listed|, |remove|, scanned, removed, |live|, dryRun));
  }
}
