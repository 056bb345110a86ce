/** The page store: merging sorted keys into copy-on-write trees, prefix scans, roots. */
module PageStore {
  import opened Bytes
  import opened PageSplit
  import opened PageTrees

  datatype Option<+T> = None | Some(value: T)

  datatype CfTree = CfTree(root: Id, height: nat)

  /** The keys a column family's tree holds. */
  ghost function TreeKeys(blobs: Blobs, t: CfTree): seq<Key>
  {
    if t.root == 0 then [] else Keys(blobs, t.root, t.height)
  }

  ghost predicate WfTree(blobs: Blobs, t: CfTree)
  {
    t.root == 0 || (Wf(blobs, t.root, t.height) && AllStorable(Keys(blobs, t.root, t.height)))
  }

  ghost predicate AllStorable(ks: seq<Key>)
  {
    forall k :: k in ks ==> Storable(k)
  }

  /** newKeys[from..to] are exactly the keys from `from` on that lie below the range end. */
  ghost predicate TakenBelow(newKeys: seq<Key>, from: nat, to: nat, end: Option<Key>)
  {
    && from <= to <= |newKeys|
    && (end.Some? ==> AllBelow(newKeys[from..to], end.value))
    && (to < |newKeys| ==> end.Some? && LessEq(end.value, newKeys[to]))
  }

  ghost predicate WithinEnd(ks: seq<Key>, end: Option<Key>)
  {
    end.Some? ==> AllBelow(ks, end.value)
  }

  /** Merging two ascending key lists, equal keys once. */
  method MergeKeys(existing: seq<Key>, toMerge: seq<Key>) returns (merged: seq<Key>)
    requires Ascending(existing) && Ascending(toMerge)
    ensures Ascending(merged)
    ensures Elems(merged) == Elems(existing) + Elems(toMerge)
  {
    hide Less;
    merged := [];
    var ei, mi := 0, 0;
    while ei < |existing| || mi < |toMerge|
      invariant 0 <= ei <= |existing| && 0 <= mi <= |toMerge|
      invariant Ascending(merged)
      invariant Elems(merged) == Elems(existing[..ei]) + Elems(toMerge[..mi])
      invariant ei < |existing| ==> AllBelow(merged, existing[ei])
      invariant mi < |toMerge| ==> AllBelow(merged, toMerge[mi])
      decreases |existing| - ei + |toMerge| - mi
    {
      if ei >= |existing| {
        AppendNext(merged, toMerge, mi);
        merged := merged + [toMerge[mi]];
        mi := mi + 1;
      } else if mi >= |toMerge| {
        AppendNext(merged, existing, ei);
        merged := merged + [existing[ei]];
        ei := ei + 1;
      } else {
        var c := CmpSeq(existing[ei], toMerge[mi]);
        if c < 0 {
          AppendNext(merged, existing, ei);
          merged := merged + [existing[ei]];
          ei := ei + 1;
        } else if c > 0 {
          AppendNext(merged, toMerge, mi);
          merged := merged + [toMerge[mi]];
          mi := mi + 1;
        } else {
          AppendNext(merged, existing, ei);
          AppendNext(merged, toMerge, mi);
          merged := merged + [existing[ei]];
          ei := ei + 1;
          mi := mi + 1;
        }
      }
    }
    assert existing[..ei] == existing && toMerge[..mi] == toMerge;
  }

  lemma AppendNext(merged: seq<Key>, src: seq<Key>, i: nat)
    requires Ascending(merged) && Ascending(src) && i < |src| && AllBelow(merged, src[i])
    ensures Ascending(merged + [src[i]])
    ensures Elems(src[..i + 1]) == Elems(src[..i]) + {src[i]}
    ensures Elems(merged + [src[i]]) == Elems(merged) + {src[i]}
    ensures i + 1 < |src| ==> AllBelow(merged + [src[i]], src[i + 1])
    ensures forall b :: AllBelow(merged, b) && Less(src[i], b) ==> AllBelow(merged + [src[i]], b)
  {
    AscendingConcat(merged, [src[i]]);
    assert src[..i + 1] == src[..i] + [src[i]];
    ElemsConcat(src[..i], [src[i]]);
    ElemsConcat(merged, [src[i]]);
    assert Elems([src[i]]) == {src[i]};
    if i + 1 < |src| {
      forall k | k in merged
        ensures Less(k, src[i + 1])
      {
        LessTransitive(k, src[i], src[i + 1]);
      }
    }
  }

  /** Keys to merge into one column family. */
  datatype CfKeys = CfKeys(cf: nat, keys: seq<Key>)

  /** The set of keys a merge request holds for one column family. */
  ghost function KeysFor(reqs: seq<CfKeys>, cf: nat): set<Key>
  {
    if reqs == [] then {}
    else
      var last := reqs[|reqs| - 1];
      KeysFor(reqs[..|reqs| - 1], cf) + (if last.cf == cf then Elems(last.keys) else {})
  }

  ghost predicate WfTrees(blobs: Blobs, trees: seq<CfTree>)
  {
    forall t :: t in trees ==> WfTree(blobs, t)
  }

  /** A time-ordered root name: the 64-bit two's complement of its timestamp, so newer names sort first. */
  type RootName = n: int | 0 <= n < 0x1_0000_0000_0000_0000

  class Store {
    var blobs: Blobs
    var next: Id
    var roots: map<RootName, seq<CfTree>>
    var trees: seq<CfTree>
    var currentRoot: RootName
    const readOnly: bool
    const numCf: nat

    ghost predicate Valid()
      reads this
    {
      0 < next && forall id :: id in blobs ==> 0 < id < next
    }

    /** Every page reachable from a stored root or from the published trees is present and well-formed. */
    ghost predicate Complete()
      reads this
    {
      && (forall name :: name in roots ==> WfTrees(blobs, roots[name]))
      && WfTrees(blobs, trees)
    }

    /** Opens the pages found under the newest root; column families it does not know are empty. */
    constructor Open(pages: Blobs, nextId: Id, found: map<RootName, seq<CfTree>>, newest: RootName, count: nat)
      requires 0 < nextId && forall id :: id in pages ==> 0 < id < nextId
      requires newest in found && forall name :: name in found ==> WfTrees(pages, found[name])
      ensures Valid() && Complete() && !readOnly && numCf == count
      ensures blobs == pages && next == nextId && roots == found && currentRoot == newest
      ensures found[newest] <= trees && |trees| == if |found[newest]| <= count then count else |found[newest]|
      ensures forall cf :: |found[newest]| <= cf < |trees| ==> trees[cf] == CfTree(0, 0) && TreeKeys(blobs, trees[cf]) == []
    {
      blobs, next, roots, currentRoot := pages, nextId, found, newest;
      readOnly, numCf := false, count;
      var loaded := found[newest];
      trees := loaded + seq(if count < |loaded| then 0 else count - |loaded|, _ => CfTree(0, 0));
    }

    /** Creates a store whose one root holds nothing. */
    constructor Create(name: RootName, count: nat)
      ensures Valid() && Complete() && !readOnly && numCf == |trees| == count
      ensures roots == map[name := trees] && currentRoot == name
      ensures blobs == map[] && next == 1
      ensures forall cf :: 0 <= cf < count ==> trees[cf] == CfTree(0, 0) && TreeKeys(blobs, trees[cf]) == []
    {
      var empty := seq(count, _ => CfTree(0, 0));
      blobs, next, roots, currentRoot := map[], 1, map[name := empty], name;
      readOnly, numCf := false, count;
      trees := empty;
    }

    /** Writes one immutable page under an identifier never used before. */
    method BlobPut(page: Page) returns (id: Id)
      requires Valid()
      modifies `blobs, `next
      ensures Valid()
      ensures id != 0 && id !in old(blobs)
      ensures blobs == old(blobs)[id := page]
    {
      id := next;
      blobs := blobs[id := page];
      next := next + 1;
    }

    /** Writes one leaf page per chunk. */
    method PutPageList(chunks: seq<seq<Key>>) returns (es: seq<Entry>)
      requires Valid()
      requires forall part :: part in chunks ==> 0 < |part| < PAGE_COUNT_LIMIT && PageSized(Leaf(part))
      requires Ascending(Flatten(chunks))
      modifies `blobs, `next
      ensures Valid() && Extends(old(blobs), blobs) && Sized(old(blobs), blobs)
      ensures WfForest(blobs, es, 0) && ForestKeys(blobs, es, 0) == Flatten(chunks)
      ensures |es| == |chunks|
    {
      hide Wf; hide WfForest; hide Keys; hide ForestKeys; hide Flatten; hide Ascending; hide AllBefore;
      hide Sized; hide PageSized;
      es := [];
      EmptyForest(blobs, 0);
      FlattenEmpty(chunks);
      SizedNone(blobs);
      for i := 0 to |chunks|
        invariant Valid() && Extends(old(blobs), blobs) && Sized(old(blobs), blobs)
        invariant WfForest(blobs, es, 0) && ForestKeys(blobs, es, 0) == Flatten(chunks[..i])
        invariant |es| == i
      {
        ghost var before := blobs;
        assert chunks[i] in chunks;
        FlattenTake(chunks, i);
        FlattenDrop(chunks, i + 1);
        AscendingParts(Flatten(chunks[..i + 1]), Flatten(chunks[i + 1..]));
        AscendingParts(Flatten(chunks[..i]), chunks[i]);
        var id := BlobPut(Leaf(chunks[i]));
        SizedOne(before, blobs, id, Leaf(chunks[i]));
        SizedMore(old(blobs), before, blobs);
        var e := Entry(chunks[i][0], id);
        LeafEntry(blobs, e, chunks[i]);
        ForestAppend(before, blobs, es, [e], 0);
        es := es + [e];
      }
      assert chunks[..|chunks|] == chunks;
    }

    /** Writes one index page per part, giving the entries of the level above. */
    method PutIndexPages(parts: seq<seq<Entry>>, ghost h: nat) returns (level: seq<Entry>)
      requires Valid()
      requires forall part :: part in parts ==> 0 < |part| < PAGE_COUNT_LIMIT && PageSized(Index(part))
      requires WfForest(blobs, Flatten(parts), h)
      modifies `blobs, `next
      ensures Valid() && Extends(old(blobs), blobs) && Sized(old(blobs), blobs)
      ensures WfForest(blobs, level, h + 1)
      ensures ForestKeys(blobs, level, h + 1) == ForestKeys(old(blobs), Flatten(parts), h)
      ensures |level| == |parts|
    {
      hide Wf; hide WfForest; hide Keys; hide ForestKeys; hide Flatten; hide Ascending; hide AllBefore;
      hide Sized; hide PageSized;
      level := [];
      EmptyForest(blobs, h + 1);
      EmptyForest(blobs, h);
      FlattenEmpty(parts);
      SizedNone(blobs);
      for i := 0 to |parts|
        invariant Valid() && Extends(old(blobs), blobs) && Sized(old(blobs), blobs)
        invariant WfForest(blobs, level, h + 1)
        invariant ForestKeys(blobs, level, h + 1) == ForestKeys(old(blobs), Flatten(parts[..i]), h)
        invariant |level| == i
      {
        ghost var before := blobs;
        assert parts[i] in parts;
        PartOfForest(old(blobs), parts, h, i);
        var id := BlobPut(Index(parts[i]));
        SizedOne(before, blobs, id, Index(parts[i]));
        SizedMore(old(blobs), before, blobs);
        var e := Entry(parts[i][0].key, id);
        ForestFrame(old(blobs), blobs, parts[i], h);
        IndexEntry(blobs, e, parts[i], h);
        ForestAppend(before, blobs, level, [e], h + 1);
        level := level + [e];
      }
      assert parts[..|parts|] == parts;
    }

    /** Writes the entries of one level as one page or, when too large, as several. */
    method WriteIndexLevel(es: seq<Entry>, ghost h: nat) returns (level: seq<Entry>)
      requires Valid() && es != [] && WfForest(blobs, es, h)
      modifies `blobs, `next
      ensures Valid() && Extends(old(blobs), blobs) && Sized(old(blobs), blobs)
      ensures level != [] && WfForest(blobs, level, h + 1)
      ensures ForestKeys(blobs, level, h + 1) == ForestKeys(old(blobs), es, h)
      ensures IndexPageSize(EntryKeys(es)) <= 524_288 ==> |level| == 1
    {
      hide Sized;
      if FitsIndexPage(es) || |es| <= 1 {
        EntriesSizeAtLeast([], EntryKeys(es));
        ghost var before := blobs;
        var id := BlobPut(Index(es));
        SizedOne(before, blobs, id, Index(es));
        ForestFrame(before, blobs, es, h);
        level := [Entry(es[0].key, id)];
        IndexEntry(blobs, level[0], es, h);
      } else {
        var parts := SplitIndexEntries(es);
        SplitPartition(es);
        SplitFits(es);
        level := PutIndexPages(parts, h);
      }
    }

    /** Builds index levels over the entries until one page holds everything. */
    method BuildIndexTree(es: seq<Entry>, childHeight: nat) returns (root: Id, height: nat)
      requires Valid() && es != [] && WfForest(blobs, es, childHeight)
      requires AllStorable(ForestKeys(blobs, es, childHeight))
      modifies `blobs, `next
      ensures Valid() && Extends(old(blobs), blobs) && Sized(old(blobs), blobs)
      ensures root != 0 && height > childHeight
      ensures Wf(blobs, root, height)
      ensures Keys(blobs, root, height) == ForestKeys(old(blobs), es, childHeight)
      ensures IndexPageSize(EntryKeys(es)) <= 524_288 ==> height == childHeight + 1
    {
      hide Wf; hide WfForest; hide Keys; hide ForestKeys; hide AllStorable; hide Sized;
      if FitsIndexPage(es) {
        root := PutIndexPage(es, childHeight);
        return root, childHeight + 1;
      }
      var pages := SplitIndexEntries(es);
      SplitPartition(es);
      SplitFits(es);
      if |pages| == 1 {
        FlattenSingle(pages[0]);
        root := PutIndexPage(pages[0], childHeight);
        return root, childHeight + 1;
      }
      var level := PutIndexPages(pages, childHeight);
      ghost var before := blobs;
      root, height := StackLevels(level, childHeight + 1);
      SizedMore(old(blobs), before, blobs);
    }

    /** The levels above the first split: each level is written as pages until one page is enough. */
    method StackLevels(first: seq<Entry>, firstHeight: nat) returns (root: Id, height: nat)
      requires Valid() && |first| >= 2 && WfForest(blobs, first, firstHeight)
      requires AllStorable(ForestKeys(blobs, first, firstHeight))
      modifies `blobs, `next
      ensures Valid() && Extends(old(blobs), blobs) && Sized(old(blobs), blobs)
      ensures root != 0 && height > firstHeight
      ensures Wf(blobs, root, height)
      ensures Keys(blobs, root, height) == ForestKeys(old(blobs), first, firstHeight)
    {
      hide Wf; hide WfForest; hide Keys; hide ForestKeys; hide AllStorable; hide FitsIndexPage;
      hide SplitIndexEntries; hide Sized; hide PageSized;
      var level := first;
      height := firstHeight + 1;
      SizedNone(blobs);
      while !FitsIndexPage(level)
        invariant Valid() && Extends(old(blobs), blobs) && Sized(old(blobs), blobs)
        invariant height > firstHeight
        invariant |level| >= 2 && WfForest(blobs, level, height - 1)
        invariant ForestKeys(blobs, level, height - 1) == ForestKeys(old(blobs), first, firstHeight)
        decreases |level|
      {
        var pages := SplitIndexEntries(level);
        SplitShrinks(blobs, level, height - 1);
        // With storable keys a level always shrinks, so the oversized page of the
        // original's fallback (as many pages as entries) is never written.
        assert |pages| < |level|;
        SplitFits(level);
        ghost var before := blobs;
        level := PutIndexPages(pages, height - 1);
        SizedMore(old(blobs), before, blobs);
        height := height + 1;
      }
      ghost var before := blobs;
      root := PutIndexPage(level, height - 1);
      SizedMore(old(blobs), before, blobs);
    }

    method PutIndexPage(es: seq<Entry>, ghost h: nat) returns (id: Id)
      requires es != [] && (|es| == 1 || FitsIndexPage(es))
      requires Valid() && WfForest(blobs, es, h)
      modifies `blobs, `next
      ensures Valid() && Extends(old(blobs), blobs) && Sized(old(blobs), blobs)
      ensures id != 0 && Wf(blobs, id, h + 1)
      ensures Keys(blobs, id, h + 1) == ForestKeys(old(blobs), es, h)
    {
      EntriesSizeAtLeast([], EntryKeys(es));
      ghost var before := blobs;
      id := BlobPut(Index(es));
      SizedOne(before, blobs, id, Index(es));
      ForestFrame(before, blobs, es, h);
    }

    /** Merges the new keys that fall below the range end into one leaf; None when there are none. */
    method MergeLeaf(id: Id, end: Option<Key>, newKeys: seq<Key>, from: nat)
      returns (res: Option<seq<Entry>>, idx: nat)
      requires Valid() && Wf(blobs, id, 0) && from <= |newKeys|
      requires Ascending(newKeys) && AllStorable(newKeys) && AllStorable(Keys(blobs, id, 0))
      modifies `blobs, `next
      ensures Valid() && Extends(old(blobs), blobs) && Sized(old(blobs), blobs)
      ensures TakenBelow(newKeys, from, idx, end)
      ensures res.None? <==> idx == from
      ensures res.Some? ==> MergedInto(old(blobs), id, blobs, res.value, 0, newKeys[from..idx])
    {
      hide Sized;
      SizedNone(blobs);
      var existing := blobs[id].keys;
      idx := from;
      var toMerge := [];
      while idx < |newKeys|
        invariant from <= idx <= |newKeys|
        invariant toMerge == newKeys[from..idx]
        invariant end.Some? ==> AllBelow(toMerge, end.value)
        modifies {}
      {
        if end.Some? {
          var c := CmpSeq(newKeys[idx], end.value);
          if c >= 0 {
            break;
          }
        }
        toMerge := toMerge + [newKeys[idx]];
        idx := idx + 1;
      }
      if toMerge == [] {
        return None, idx;
      }
      var merged := MergeKeys(existing, toMerge);
      MergedStorable(existing, newKeys, from, idx, merged);
      assert existing[0] in Elems(merged);
      ChunksPartition(merged);
      ChunksFit(merged);
      LeavesSized(merged);
      var es := PutPageList(Chunks(merged));
      res := Some(es);
    }

    /** Merges the new keys below the range end into the tree under `id`.  The result is the list
        of entries that replaces it, or None when nothing was merged. */
    method MergeSubtree(id: Id, height: nat, end: Option<Key>, newKeys: seq<Key>, from: nat)
      returns (res: Option<seq<Entry>>, idx: nat)
      requires Valid() && Wf(blobs, id, height) && from <= |newKeys|
      requires Ascending(newKeys) && AllStorable(newKeys) && AllStorable(Keys(blobs, id, height))
      requires WithinEnd(Keys(blobs, id, height), end)
      modifies `blobs, `next
      ensures Valid() && Extends(old(blobs), blobs) && Sized(old(blobs), blobs)
      ensures TakenBelow(newKeys, from, idx, end)
      ensures res.None? <==> idx == from
      ensures res.Some? ==> MergedInto(old(blobs), id, blobs, res.value, height, newKeys[from..idx])
      decreases height, 0
    {
      hide Sized; hide IndexPageSize; hide EntryKeys; hide Ascending; hide AllStorable; hide WithinEnd; hide TakenBelow;
      if height == 0 {
        res, idx := MergeLeaf(id, end, newKeys, from);
        return;
      }
      var newEntries;
      newEntries, idx := MergeChildren(blobs[id].entries, height - 1, end, newKeys, from);
      if idx == from {
        return None, idx;
      }
      ghost var before := blobs;
      var level := WriteIndexLevel(newEntries, height - 1);
      SizedMore(old(blobs), before, blobs);
      res := Some(level);
    }

    /** The walk over the children of one index page.  The page changed exactly when a key was taken. */
    method MergeChildren(entries: seq<Entry>, h: nat, end: Option<Key>, newKeys: seq<Key>, from: nat)
      returns (newEntries: seq<Entry>, idx: nat)
      requires Valid() && entries != [] && WfForest(blobs, entries, h) && from <= |newKeys|
      requires Ascending(newKeys) && AllStorable(newKeys) && AllStorable(ForestKeys(blobs, entries, h))
      requires WithinEnd(ForestKeys(blobs, entries, h), end)
      modifies `blobs, `next
      ensures Valid() && Extends(old(blobs), blobs) && Sized(old(blobs), blobs)
      ensures TakenBelow(newKeys, from, idx, end)
      ensures newEntries != [] && WfForest(blobs, newEntries, h)
      ensures Elems(ForestKeys(blobs, newEntries, h))
           == Elems(ForestKeys(old(blobs), entries, h)) + Elems(newKeys[from..idx])
      decreases h, 1
    {
      hide Wf; hide WfForest; hide Keys; hide ForestKeys; hide Less; hide Sized;
      newEntries := [];
      idx := from;
      MergeStart(blobs, entries, end, h, newKeys, from);
      SizedNone(blobs);
      for i := 0 to |entries|
        invariant Valid() && Sized(old(blobs), blobs)
        invariant MergeInv(old(blobs), entries, i, end, blobs, newEntries, h, newKeys, from, idx)
      {
        var childEnd := EndAt(entries, i + 1, end);
        var hasKeys := idx < |newKeys|;
        if hasKeys && childEnd.Some? {
          var c := CmpSeq(newKeys[idx], childEnd.value);
          hasKeys := c < 0;
        }
        ghost var before := blobs;
        ChildReady(old(blobs), entries, i, end, blobs, h);
        if !hasKeys {
          MergeStep(old(blobs), entries, i, end, blobs, newEntries, h, newKeys, from, idx,
                    blobs, [entries[i]], idx);
          newEntries := newEntries + [entries[i]];
        } else {
          var childRes, next := MergeSubtree(entries[i].child, h, childEnd, newKeys, idx);
          TakenSome(newKeys, idx, next, childEnd);
          SizedMore(old(blobs), before, blobs);
          MergeStep(old(blobs), entries, i, end, before, newEntries, h, newKeys, from, idx,
                    blobs, childRes.value, next);
          newEntries := newEntries + childRes.value;
          idx := next;
        }
      }
      assert entries[..|entries|] == entries;
    }

    /** Merges sorted keys into one column family's tree. */
    method MergeTree(tree: CfTree, keys: seq<Key>) returns (merged: CfTree)
      requires Valid() && WfTree(blobs, tree)
      requires keys != [] && Ascending(keys) && AllStorable(keys)
      modifies `blobs, `next
      ensures Valid() && Extends(old(blobs), blobs) && Sized(old(blobs), blobs)
      ensures WfTree(blobs, merged)
      ensures Elems(TreeKeys(blobs, merged)) == Elems(TreeKeys(old(blobs), tree)) + Elems(keys)
    {
      hide Sized; hide PageSized; hide Chunks; hide IndexPageSize; hide Flatten;
      if tree.root == 0 {
        ChunksPartition(keys);
        ChunksFit(keys);
        LeavesSized(keys);
        var es := PutPageList(Chunks(keys));
        ghost var leaves := blobs;
        var root, height := BuildIndexTree(es, 0);
        SizedMore(old(blobs), leaves, blobs);
        return CfTree(root, height);
      }
      var res, idx := MergeSubtree(tree.root, tree.height, None, keys, 0);
      assert keys[0..idx] == keys;
      ghost var ks := ForestKeys(blobs, res.value, tree.height);
      MergedStorable(Keys(old(blobs), tree.root, tree.height), keys, 0, idx, ks);
      if |res.value| == 1 {
        assert res.value == [res.value[0]];
        ForestSingle(blobs, res.value[0], tree.height);
        assert WfEntry(blobs, res.value[0], tree.height);
        merged := CfTree(res.value[0].child, tree.height);
        NoRootZero(blobs, res.value[0].child, tree.height);
      } else {
        ghost var below := blobs;
        var root, height := BuildIndexTree(res.value, tree.height);
        SizedMore(old(blobs), below, blobs);
        merged := CfTree(root, height);
      }
    }

    lemma NoRootZero(b: Blobs, id: Id, h: nat)
      requires b == blobs && Valid() && Wf(b, id, h)
      ensures id != 0
    {
    }

    /** Computes the merged trees and stores them under a new root; the published trees stay as they are. */
    method PrepareMerge(baseTrees: seq<CfTree>, reqs: seq<CfKeys>, newRoot: RootName)
      returns (res: Option<seq<CfTree>>)
      requires Valid() && Complete() && WfTrees(blobs, baseTrees)
      requires forall r :: r in reqs ==> Ascending(r.keys) && AllStorable(r.keys)
      modifies `blobs, `next, `roots
      ensures Valid() && Complete() && Extends(old(blobs), blobs) && Sized(old(blobs), blobs)
      ensures res.None? <==> readOnly
      ensures readOnly ==> blobs == old(blobs) && roots == old(roots)
      ensures res.Some? ==> roots == old(roots)[newRoot := res.value]
      ensures res.Some? ==> |res.value| == |baseTrees| && WfTrees(blobs, res.value)
      ensures res.Some? ==> forall cf :: 0 <= cf < |baseTrees| ==>
        Elems(TreeKeys(blobs, res.value[cf])) == Elems(TreeKeys(old(blobs), baseTrees[cf])) + KeysFor(reqs, cf)
    {
      hide Sized;
      SizedNone(blobs);
      if readOnly {
        return None;
      }
      var newTrees := baseTrees;
      for i := 0 to |reqs|
        invariant Valid() && Extends(old(blobs), blobs) && roots == old(roots) && Sized(old(blobs), blobs)
        invariant |newTrees| == |baseTrees| && WfTrees(blobs, newTrees)
        invariant MergedUpTo(old(blobs), baseTrees, blobs, newTrees, reqs[..i])
      {
        var ck := reqs[i];
        if ck.cf < |newTrees| && ck.keys != [] {
          ghost var before := blobs;
          assert newTrees[ck.cf] in newTrees && ck in reqs;
          var merged := MergeTree(newTrees[ck.cf], ck.keys);
          MergedUpToStep(old(blobs), baseTrees, before, newTrees, reqs, i, blobs, merged);
          SizedMore(old(blobs), before, blobs);
          newTrees := newTrees[ck.cf := merged];
        } else {
          MergedUpToSkip(old(blobs), baseTrees, blobs, newTrees, reqs, i);
        }
      }
      assert reqs[..|reqs|] == reqs;
      RootsFrame(old(blobs), blobs, roots, trees);
      roots := roots[newRoot := newTrees];
      res := Some(newTrees);
    }

    /** Swaps in prepared trees and their root. */
    method PublishTrees(prepared: seq<CfTree>, root: RootName)
      modifies `trees, `currentRoot
      ensures trees == prepared && currentRoot == root
    {
      trees := prepared;
      currentRoot := root;
    }

    /** The keys below an index page that start with the prefix, in order. */
    method CollectKeysFromIndex(id: Id, height: nat, prefix: Key) returns (out: seq<Key>)
      requires height > 0 && Wf(blobs, id, height)
      ensures out == KeysWithPrefix(Keys(blobs, id, height), prefix)
      decreases height
    {
      var entries := blobs[id].entries;
      ghost var h := height - 1;
      var start, end := FindPrefixRange(entries, prefix, blobs, h);
      out := [];
      PrefixOfSlice(blobs, entries, h, prefix, 0, start);
      assert ForestKeys(blobs, entries[..0], h) == [];
      for i := start to end
        invariant out == KeysWithPrefix(ForestKeys(blobs, entries[..i], h), prefix)
      {
        assert WfEntry(blobs, entries[i], h);
        var sub;
        if height == 1 {
          sub := FilterPrefix(blobs[entries[i].child].keys, prefix);
        } else {
          sub := CollectKeysFromIndex(entries[i].child, height - 1, prefix);
        }
        ForestSplitAt(blobs, entries, h, i);
        KeysWithPrefixConcat(ForestKeys(blobs, entries[..i], h), Keys(blobs, entries[i].child, h), prefix);
        out := out + sub;
      }
      PrefixOfSlice(blobs, entries, h, prefix, end, |entries|);
      assert entries[..|entries|] == entries;
    }

    /** All keys of a column family that start with the prefix, in order. */
    method GetKeysInPrefix(cf: nat, prefix: Key) returns (out: seq<Key>)
      requires WfTrees(blobs, trees)
      ensures out == if cf < numCf && cf < |trees| then KeysWithPrefix(TreeKeys(blobs, trees[cf]), prefix) else []
    {
      if cf >= numCf || cf >= |trees| {
        return [];
      }
      var tree := trees[cf];
      assert tree in trees;
      if tree.root == 0 {
        return [];
      }
      if tree.height == 0 {
        out := FilterPrefix(blobs[tree.root].keys, prefix);
      } else {
        out := CollectKeysFromIndex(tree.root, tree.height, prefix);
      }
    }
  }

  lemma EmptyForest(blobs: Blobs, h: nat)
    ensures WfForest(blobs, [], h) && ForestKeys(blobs, [], h) == []
  {
  }

  lemma FlattenEmpty<T>(parts: seq<seq<T>>)
    ensures Flatten(parts[..0]) == []
  {
  }

  lemma FlattenTake<T>(parts: seq<seq<T>>, i: nat)
    requires i < |parts|
    ensures Flatten(parts[..i + 1]) == Flatten(parts[..i]) + parts[i]
  {
    hide Flatten;
    assert parts[..i + 1] == parts[..i] + [parts[i]];
    FlattenConcat(parts[..i], [parts[i]]);
    FlattenSingle(parts[i]);
  }

  lemma FlattenDrop<T>(parts: seq<seq<T>>, i: nat)
    requires i <= |parts|
    ensures Flatten(parts) == Flatten(parts[..i]) + Flatten(parts[i..])
  {
    hide Flatten;
    assert parts == parts[..i] + parts[i..];
    FlattenConcat(parts[..i], parts[i..]);
  }

  lemma LeafEntry(blobs: Blobs, e: Entry, keys: seq<Key>)
    requires 0 < |keys| < PAGE_COUNT_LIMIT && Ascending(keys)
    requires e.child in blobs && blobs[e.child] == Leaf(keys) && e.key == keys[0]
    ensures WfForest(blobs, [e], 0) && ForestKeys(blobs, [e], 0) == keys
  {
    ForestSingle(blobs, e, 0);
    assert WfEntry(blobs, e, 0);
  }

  /** A forest survives new pages, and grows by entries above all its keys. */
  lemma ForestAppend(before: Blobs, after: Blobs, es: seq<Entry>, more: seq<Entry>, h: nat)
    requires Extends(before, after) && WfForest(before, es, h) && WfForest(after, more, h)
    requires AllBefore(ForestKeys(before, es, h), ForestKeys(after, more, h))
    ensures WfForest(after, es + more, h)
    ensures ForestKeys(after, es + more, h) == ForestKeys(before, es, h) + ForestKeys(after, more, h)
  {
    ForestFrame(before, after, es, h);
    WfForestConcat(after, es, more, h);
    ForestConcat(after, es, more, h);
  }

  lemma SplitShrinks(blobs: Blobs, es: seq<Entry>, h: nat)
    requires WfForest(blobs, es, h) && AllStorable(ForestKeys(blobs, es, h))
    requires |es| >= 2 && !FitsIndexPage(es)
    ensures 2 <= |SplitIndexEntries(es)| < |es|
    ensures forall part :: part in SplitIndexEntries(es) ==> 0 < |part| < PAGE_COUNT_LIMIT
    ensures Flatten(SplitIndexEntries(es)) == es
  {
    SplitPartition(es);
    EntryKeysStorable(blobs, es, h);
    SplitHalves(es);
    SplitSeveral(es);
  }

  lemma SplitSeveral(es: seq<Entry>)
    requires es != [] && !FitsIndexPage(es) && |es| >= 2
    ensures |SplitIndexEntries(es)| >= 2
  {
    var mid := |es| / 2;
    SplitPartition(es[..mid]);
    SplitPartition(es[mid..]);
  }

  lemma EntryKeysStorable(blobs: Blobs, es: seq<Entry>, h: nat)
    requires WfForest(blobs, es, h) && AllStorable(ForestKeys(blobs, es, h))
    ensures forall e :: e in es ==> Storable(e.key)
  {
    forall e | e in es
      ensures Storable(e.key)
    {
      var i :| 0 <= i < |es| && es[i] == e;
      ChildBounds(blobs, es, h, i);
      ForestSplitAt(blobs, es, h, i);
      assert e.key in ForestKeys(blobs, es, h);
    }
  }

  lemma PartOfForest(blobs: Blobs, parts: seq<seq<Entry>>, h: nat, i: nat)
    requires WfForest(blobs, Flatten(parts), h) && i < |parts|
    ensures WfForest(blobs, parts[i], h)
    ensures ForestKeys(blobs, Flatten(parts[..i + 1]), h)
         == ForestKeys(blobs, Flatten(parts[..i]), h) + ForestKeys(blobs, parts[i], h)
    ensures AllBefore(ForestKeys(blobs, Flatten(parts[..i]), h), ForestKeys(blobs, parts[i], h))
  {
    hide Flatten; hide WfForest; hide ForestKeys;
    var before, after := Flatten(parts[..i]), Flatten(parts[i + 1..]);
    FlattenTake(parts, i);
    FlattenDrop(parts, i + 1);
    var all := Flatten(parts);
    assert all == before + parts[i] + after;
    assert all[|before|..|before| + |parts[i]|] == parts[i];
    WfForestSlice(blobs, all, h, |before|, |before| + |parts[i]|);
    assert all[..|before| + |parts[i]|] == before + parts[i];
    WfForestSlice(blobs, all, h, 0, |before| + |parts[i]|);
    ForestConcat(blobs, before, parts[i], h);
    WfForestAscending(blobs, before + parts[i], h);
    AscendingParts(ForestKeys(blobs, before, h), ForestKeys(blobs, parts[i], h));
  }

  lemma WfForestAscending(blobs: Blobs, es: seq<Entry>, h: nat)
    requires WfForest(blobs, es, h)
    ensures Ascending(ForestKeys(blobs, es, h))
  {
  }

  /** A page over a well-formed forest is a well-formed entry one level up. */
  lemma IndexEntry(blobs: Blobs, e: Entry, es: seq<Entry>, h: nat)
    requires 0 < |es| < PAGE_COUNT_LIMIT && WfForest(blobs, es, h)
    requires e.child in blobs && blobs[e.child] == Index(es) && e.key == es[0].key
    ensures WfForest(blobs, [e], h + 1)
    ensures ForestKeys(blobs, [e], h + 1) == ForestKeys(blobs, es, h)
  {
    ForestSingle(blobs, e, h + 1);
    assert Wf(blobs, e.child, h + 1);
    assert WfEntry(blobs, es[0], h);
  }

  /** `es` is a well-formed forest that holds the keys below `id` together with `added`. */
  ghost predicate MergedInto(b0: Blobs, id: Id, b1: Blobs, es: seq<Entry>, h: nat, added: seq<Key>)
  {
    && es != []
    && WfForest(b1, es, h)
    && Elems(ForestKeys(b1, es, h)) == Elems(Keys(b0, id, h)) + Elems(added)
  }

  /** The upper end of what lies left of child i. */
  function EndAt(es: seq<Entry>, i: nat, end: Option<Key>): Option<Key>
  {
    if i < |es| then Some(es[i].key) else end
  }

  /** The first i children of `es`, with `added` merged in, are the forest `done`. */
  ghost predicate MergedPrefix(b0: Blobs, es: seq<Entry>, i: nat, b1: Blobs, done: seq<Entry>, h: nat, added: seq<Key>)
  {
    && i <= |es|
    && |done| >= i
    && WfForest(b1, done, h)
    && Elems(ForestKeys(b1, done, h)) == Elems(ForestKeys(b0, es[..i], h)) + Elems(added)
  }

  lemma MergedStorable(existing: seq<Key>, newKeys: seq<Key>, from: nat, to: nat, merged: seq<Key>)
    requires from <= to <= |newKeys|
    requires AllStorable(existing) && AllStorable(newKeys)
    requires Elems(merged) == Elems(existing) + Elems(newKeys[from..to])
    ensures AllStorable(merged)
  {
    forall k | k in merged
      ensures Storable(k)
    {
      assert k in Elems(merged);
      assert k in newKeys[from..to] ==> k in newKeys;
    }
  }

  lemma TakenSome(newKeys: seq<Key>, from: nat, to: nat, end: Option<Key>)
    requires TakenBelow(newKeys, from, to, end)
    requires from < |newKeys| && (end.Some? ==> Less(newKeys[from], end.value))
    ensures to > from
  {
    if end.Some? {
      LessAsymmetric(newKeys[from], end.value);
    }
  }

  /** What the merge keeps while it walks the children of an index page from left to right. */
  ghost predicate MergeInv(b0: Blobs, es: seq<Entry>, i: nat, end: Option<Key>,
                           b1: Blobs, done: seq<Entry>, h: nat, newKeys: seq<Key>, from: nat, idx: nat)
  {
    && Extends(b0, b1)
    && WfForest(b0, es, h) && WithinEnd(ForestKeys(b0, es, h), end)
    && Ascending(newKeys)
    && from <= idx <= |newKeys|
    && MergedPrefix(b0, es, i, b1, done, h, newKeys[from..idx])
    && WithinEnd(ForestKeys(b1, done, h), EndAt(es, i, end))
    && (i > 0 ==> TakenBelow(newKeys, from, idx, EndAt(es, i, end)))
    && (i == 0 ==> idx == from)
  }

  lemma ChildReady(b0: Blobs, es: seq<Entry>, i: nat, end: Option<Key>, b1: Blobs, h: nat)
    requires Extends(b0, b1) && WfForest(b0, es, h) && i < |es|
    requires WithinEnd(ForestKeys(b0, es, h), end)
    ensures WfEntry(b0, es[i], h) && WfEntry(b1, es[i], h)
    ensures Keys(b1, es[i].child, h) == Keys(b0, es[i].child, h)
    ensures WithinEnd(Keys(b0, es[i].child, h), EndAt(es, i + 1, end))
    ensures forall k :: k in Keys(b0, es[i].child, h) ==> k in ForestKeys(b0, es, h)
    ensures WfForest(b1, [es[i]], h) && ForestKeys(b1, [es[i]], h) == Keys(b0, es[i].child, h)
    ensures end.Some? && i + 1 < |es| ==> Less(es[i + 1].key, end.value)
    ensures end.Some? ==> Less(es[i].key, end.value)
  {
    ChildBounds(b0, es, h, i);
    ForestSplitAt(b0, es, h, i);
    assert WfEntry(b0, es[i], h);
    KeysFrame(b0, b1, es[i].child, h);
    KeysAscending(b0, es[i].child, h);
    ForestSingle(b1, es[i], h);
    if i + 1 < |es| {
      ChildBounds(b0, es, h, i + 1);
      ForestSplitAt(b0, es, h, i + 1);
      assert es[i + 1].key in ForestKeys(b0, es, h);
    }
    assert es[i].key in ForestKeys(b0, es, h);
  }

  lemma MergeStart(b0: Blobs, es: seq<Entry>, end: Option<Key>, h: nat, newKeys: seq<Key>, from: nat)
    requires WfForest(b0, es, h) && WithinEnd(ForestKeys(b0, es, h), end)
    requires Ascending(newKeys) && from <= |newKeys|
    ensures MergeInv(b0, es, 0, end, b0, [], h, newKeys, from, from)
  {
    EmptyForest(b0, h);
    assert es[..0] == [];
  }

  /** One child of an index page replaced by `piece`, which holds its keys and the new keys taken. */
  lemma MergeStep(b0: Blobs, es: seq<Entry>, i: nat, end: Option<Key>,
                  b1: Blobs, done: seq<Entry>, h: nat, newKeys: seq<Key>, from: nat, idx: nat,
                  b2: Blobs, piece: seq<Entry>, next: nat)
    requires i < |es| && MergeInv(b0, es, i, end, b1, done, h, newKeys, from, idx)
    requires Extends(b1, b2)
    requires TakenBelow(newKeys, idx, next, EndAt(es, i + 1, end))
    requires MergedInto(b0, es[i].child, b2, piece, h, newKeys[idx..next])
    ensures MergeInv(b0, es, i + 1, end, b2, done + piece, h, newKeys, from, next)
  {
    hide Wf; hide WfForest; hide Keys; hide ForestKeys; hide Ascending; hide LessEq; hide AllBefore;
    ChildReady(b0, es, i, end, b1, h);
    ForestFrame(b1, b2, done, h);
    var kept, add := ForestKeys(b2, done, h), ForestKeys(b2, piece, h);
    PieceBounds(b0, es, i, end, b2, piece, h, newKeys, from, idx, next);
    DoneBeforePiece(b0, es, i, end, b1, done, h, newKeys, from, idx, b2, piece);
    WfForestConcat(b2, done, piece, h);
    ForestConcat(b2, done, piece, h);
    ForestSplitAt(b0, es, h, i);
    ElemsConcat(kept, add);
    ElemsConcat(ForestKeys(b0, es[..i], h), Keys(b0, es[i].child, h));
    assert newKeys[from..next] == newKeys[from..idx] + newKeys[idx..next];
    ElemsConcat(newKeys[from..idx], newKeys[idx..next]);
    RaiseEnd(b0, es, i, end, h, kept);
    RaiseEnd(b0, es, i, end, h, newKeys[from..idx]);
    assert WithinEnd(kept + add, EndAt(es, i + 1, end));
  }

  /** Keys below the index key of child i are below the next one too. */
  lemma RaiseEnd(b0: Blobs, es: seq<Entry>, i: nat, end: Option<Key>, h: nat, ks: seq<Key>)
    requires i < |es| && WfForest(b0, es, h) && WithinEnd(ForestKeys(b0, es, h), end)
    requires ks == [] || AllBelow(ks, es[i].key)
    ensures WithinEnd(ks, EndAt(es, i + 1, end))
  {
    ChildReady(b0, es, i, end, b0, h);
    ChildBounds(b0, es, h, i);
    var e := EndAt(es, i + 1, end);
    if e.Some? {
      forall k | k in ks
        ensures Less(k, e.value)
      {
        LessTransitive(k, es[i].key, e.value);
      }
    }
  }

  lemma PieceBounds(b0: Blobs, es: seq<Entry>, i: nat, end: Option<Key>,
                    b2: Blobs, piece: seq<Entry>, h: nat, newKeys: seq<Key>, from: nat, idx: nat, next: nat)
    requires i < |es| && WfForest(b0, es, h) && WithinEnd(ForestKeys(b0, es, h), end)
    requires Ascending(newKeys)
    requires TakenBelow(newKeys, idx, next, EndAt(es, i + 1, end))
    requires MergedInto(b0, es[i].child, b2, piece, h, newKeys[idx..next])
    requires i > 0 ==> TakenBelow(newKeys, from, idx, EndAt(es, i, end))
    ensures WithinEnd(ForestKeys(b2, piece, h), EndAt(es, i + 1, end))
    ensures i > 0 ==> AllFrom(ForestKeys(b2, piece, h), es[i].key)
  {
    ChildReady(b0, es, i, end, b0, h);
    ChildBounds(b0, es, h, i);
    var ks := ForestKeys(b2, piece, h);
    var e := EndAt(es, i + 1, end);
    forall k | k in ks
      ensures e.Some? ==> Less(k, e.value)
      ensures i > 0 ==> LessEq(es[i].key, k)
    {
      assert k in Elems(ks);
      if k !in Keys(b0, es[i].child, h) {
        assert k in newKeys[idx..next];
        var j :| idx <= j < next && newKeys[j] == k;
        if i > 0 && j > idx && es[i].key != newKeys[idx] {
          LessTransitive(es[i].key, newKeys[idx], k);
        }
      }
    }
  }

  lemma DoneBeforePiece(b0: Blobs, es: seq<Entry>, i: nat, end: Option<Key>,
                        b1: Blobs, done: seq<Entry>, h: nat, newKeys: seq<Key>, from: nat, idx: nat,
                        b2: Blobs, piece: seq<Entry>)
    requires i < |es| && MergeInv(b0, es, i, end, b1, done, h, newKeys, from, idx)
    requires ForestKeys(b2, done, h) == ForestKeys(b1, done, h)
    requires i > 0 ==> AllFrom(ForestKeys(b2, piece, h), es[i].key)
    ensures AllBefore(ForestKeys(b2, done, h), ForestKeys(b2, piece, h))
    ensures i == 0 ==> ForestKeys(b2, done, h) == [] && newKeys[from..idx] == []
  {
    if i == 0 {
      assert es[..0] == [] && newKeys[from..idx] == [];
      ElemsNonempty(ForestKeys(b1, done, h));
    } else {
      forall x, y | x in ForestKeys(b2, done, h) && y in ForestKeys(b2, piece, h)
        ensures Less(x, y)
      {
        if y != es[i].key {
          LessTransitive(x, es[i].key, y);
        }
      }
    }
  }

  ghost predicate MergedUpTo(b0: Blobs, baseTrees: seq<CfTree>, b1: Blobs, newTrees: seq<CfTree>, reqs: seq<CfKeys>)
    requires |newTrees| == |baseTrees|
  {
    forall cf :: 0 <= cf < |baseTrees| ==>
      Elems(TreeKeys(b1, newTrees[cf])) == Elems(TreeKeys(b0, baseTrees[cf])) + KeysFor(reqs, cf)
  }

  lemma KeysForAppend(reqs: seq<CfKeys>, i: nat, cf: nat)
    requires i < |reqs|
    ensures KeysFor(reqs[..i + 1], cf) == KeysFor(reqs[..i], cf) + if reqs[i].cf == cf then Elems(reqs[i].keys) else {}
  {
    assert reqs[..i + 1][..i] == reqs[..i];
  }

  lemma MergedUpToStep(b0: Blobs, baseTrees: seq<CfTree>, b1: Blobs, trees: seq<CfTree>,
                       reqs: seq<CfKeys>, i: nat, b2: Blobs, merged: CfTree)
    requires |trees| == |baseTrees| && WfTrees(b1, trees) && Extends(b1, b2)
    requires i < |reqs| && reqs[i].cf < |trees|
    requires MergedUpTo(b0, baseTrees, b1, trees, reqs[..i])
    requires WfTree(b2, merged)
    requires Elems(TreeKeys(b2, merged)) == Elems(TreeKeys(b1, trees[reqs[i].cf])) + Elems(reqs[i].keys)
    ensures WfTrees(b2, trees[reqs[i].cf := merged])
    ensures MergedUpTo(b0, baseTrees, b2, trees[reqs[i].cf := merged], reqs[..i + 1])
  {
    hide KeysFor; hide Keys; hide Wf; hide WfTree; hide TreeKeys;
    TreesFrame(b1, b2, trees);
    forall cf | 0 <= cf < |baseTrees|
      ensures Elems(TreeKeys(b2, trees[reqs[i].cf := merged][cf]))
           == Elems(TreeKeys(b0, baseTrees[cf])) + KeysFor(reqs[..i + 1], cf)
    {
      KeysForAppend(reqs, i, cf);
      assert trees[cf] in trees;
    }
  }

  lemma MergedUpToSkip(b0: Blobs, baseTrees: seq<CfTree>, b1: Blobs, trees: seq<CfTree>, reqs: seq<CfKeys>, i: nat)
    requires |trees| == |baseTrees| && i < |reqs| && (reqs[i].cf >= |trees| || reqs[i].keys == [])
    requires MergedUpTo(b0, baseTrees, b1, trees, reqs[..i])
    ensures MergedUpTo(b0, baseTrees, b1, trees, reqs[..i + 1])
  {
    forall cf | 0 <= cf < |baseTrees|
      ensures KeysFor(reqs[..i + 1], cf) == KeysFor(reqs[..i], cf)
    {
      KeysForAppend(reqs, i, cf);
    }
  }

  /** Trees read the same after pages were added. */
  lemma TreesFrame(a: Blobs, b: Blobs, trees: seq<CfTree>)
    requires Extends(a, b) && WfTrees(a, trees)
    ensures WfTrees(b, trees)
    ensures forall t :: t in trees ==> TreeKeys(b, t) == TreeKeys(a, t)
  {
    forall t | t in trees
      ensures WfTree(b, t) && TreeKeys(b, t) == TreeKeys(a, t)
    {
      if t.root != 0 {
        KeysFrame(a, b, t.root, t.height);
      }
    }
  }

  /** Copy on write: every stored root reads back the same contents after any later merge. */
  lemma RootsFrame(a: Blobs, b: Blobs, roots: map<RootName, seq<CfTree>>, trees: seq<CfTree>)
    requires Extends(a, b) && WfTrees(a, trees)
    requires forall name :: name in roots ==> WfTrees(a, roots[name])
    ensures WfTrees(b, trees)
    ensures forall name :: name in roots ==> WfTrees(b, roots[name])
    ensures forall name, t :: name in roots && t in roots[name] ==> TreeKeys(b, t) == TreeKeys(a, t)
    ensures forall t :: t in trees ==> TreeKeys(b, t) == TreeKeys(a, t)
  {
    TreesFrame(a, b, trees);
    forall name | name in roots
      ensures WfTrees(b, roots[name])
      ensures forall t :: t in roots[name] ==> TreeKeys(b, t) == TreeKeys(a, t)
    {
      TreesFrame(a, b, roots[name]);
    }
  }

  method FilterPrefix(keys: seq<Key>, prefix: Key) returns (out: seq<Key>)
    ensures out == KeysWithPrefix(keys, prefix)
  {
    out := [];
    for i := 0 to |keys|
      invariant out == KeysWithPrefix(keys[..i], prefix)
    {
      assert keys[..i + 1] == keys[..i] + [keys[i]];
      KeysWithPrefixConcat(keys[..i], [keys[i]], prefix);
      if prefix <= keys[i] {
        out := out + [keys[i]];
      }
    }
    assert keys[..|keys|] == keys;
  }

  /** The number of leading entries whose key lies below the target. */
  method PartitionPoint(entries: seq<Entry>, target: Key) returns (lo: nat)
    requires forall i, j :: 0 <= i < j < |entries| ==> Less(entries[i].key, entries[j].key)
    ensures lo <= |entries|
    ensures forall i :: 0 <= i < lo ==> Less(entries[i].key, target)
    ensures forall i :: lo <= i < |entries| ==> LessEq(target, entries[i].key)
  {
    lo := 0;
    var hi := |entries|;
    while lo < hi
      invariant lo <= hi <= |entries|
      invariant forall i :: 0 <= i < lo ==> Less(entries[i].key, target)
      invariant forall i :: hi <= i < |entries| ==> LessEq(target, entries[i].key)
    {
      var mid := (lo + hi) / 2;
      var c := CmpSeq(entries[mid].key, target);
      if c < 0 {
        forall i | lo <= i <= mid
          ensures Less(entries[i].key, target)
        {
          if i < mid {
            LessTransitive(entries[i].key, entries[mid].key, target);
          }
        }
        lo := mid + 1;
      } else {
        forall i | mid <= i < hi
          ensures LessEq(target, entries[i].key)
        {
          if mid < i && target != entries[mid].key {
            LessTransitive(target, entries[mid].key, entries[i].key);
          }
        }
        hi := mid;
      }
    }
  }

  /** The children whose keys may start with the prefix; no key outside them does. */
  method FindPrefixRange(entries: seq<Entry>, prefix: Key, ghost blobs: Blobs, ghost h: nat)
    returns (start: nat, end: nat)
    requires WfForest(blobs, entries, h)
    ensures start <= end <= |entries|
    ensures forall i :: 0 <= i < |entries| && !(start <= i < end) ==> NoneWithPrefix(blobs, entries[i].child, h, prefix)
    ensures forall i :: start < i < end ==> prefix <= entries[i].key
  {
    if prefix == [] {
      return 0, |entries|;
    }
    var hasEnd, pe := PrefixEnd(prefix);
    EntryKeysAscending(blobs, entries, h);
    var s := PartitionPoint(entries, prefix);
    start := if s > 0 then s - 1 else 0;
    end := |entries|;
    if hasEnd {
      end := PartitionPoint(entries, pe);
      PrefixBelowEnd(prefix, pe);
    }
    forall i | 0 <= i < start
      ensures NoneWithPrefix(blobs, entries[i].child, h, prefix)
    {
      BelowPrefix(blobs, entries, h, i, prefix);
    }
    forall i | end <= i < |entries|
      ensures NoneWithPrefix(blobs, entries[i].child, h, prefix)
    {
      AbovePrefix(blobs, entries, h, i, prefix, pe);
    }
    if end < s {
      LessAsymmetricIf(entries[end].key, prefix);
      PrefixRangeOrdered(prefix, pe, entries[end].key);
    }
  }

  ghost predicate NoneWithPrefix(blobs: Blobs, id: Id, h: nat, prefix: Key)
  {
    forall k :: k in Keys(blobs, id, h) ==> !(prefix <= k)
  }

  lemma PrefixBelowEnd(prefix: Key, pe: Key)
    requires IsPrefixEnd(prefix, pe)
    ensures Less(prefix, pe)
  {
    assert prefix <= prefix;
  }

  lemma PrefixRangeOrdered(prefix: Key, pe: Key, k: Key)
    requires IsPrefixEnd(prefix, pe) && Less(k, prefix)
    ensures !LessEq(pe, k)
  {
    PrefixBelowEnd(prefix, pe);
    LessTransitive(k, prefix, pe);
    LessAsymmetric(k, pe);
  }

  lemma BelowPrefix(blobs: Blobs, entries: seq<Entry>, h: nat, i: nat, prefix: Key)
    requires WfForest(blobs, entries, h) && i + 1 < |entries| && Less(entries[i + 1].key, prefix)
    ensures NoneWithPrefix(blobs, entries[i].child, h, prefix)
  {
    ChildBounds(blobs, entries, h, i);
    ForestSplitAt(blobs, entries, h, i);
    forall k | k in Keys(blobs, entries[i].child, h)
      ensures !(prefix <= k)
    {
      assert k in ForestKeys(blobs, entries[..i + 1], h);
      LessTransitive(k, entries[i + 1].key, prefix);
      LessAsymmetric(k, prefix);
      if prefix <= k && prefix != k {
        PrefixLess(prefix, k);
      }
    }
  }

  lemma AbovePrefix(blobs: Blobs, entries: seq<Entry>, h: nat, i: nat, prefix: Key, pe: Key)
    requires WfForest(blobs, entries, h) && i < |entries| && LessEq(pe, entries[i].key)
    requires IsPrefixEnd(prefix, pe)
    ensures NoneWithPrefix(blobs, entries[i].child, h, prefix)
  {
    ChildBounds(blobs, entries, h, i);
    forall k | k in Keys(blobs, entries[i].child, h)
      ensures !(prefix <= k)
    {
      if pe != entries[i].key && entries[i].key != k {
        LessTransitive(pe, entries[i].key, k);
      }
      assert LessEq(pe, k);
      LessIrreflexive(k);
      LessAsymmetricIf(pe, k);
    }
  }

  /** Skipped children contribute nothing to a prefix scan. */
  lemma {:induction false} PrefixOfSlice(blobs: Blobs, entries: seq<Entry>, h: nat, prefix: Key, i: nat, j: nat)
    requires i <= j <= |entries|
    requires forall m :: i <= m < j ==> NoneWithPrefix(blobs, entries[m].child, h, prefix)
    ensures KeysWithPrefix(ForestKeys(blobs, entries[..j], h), prefix)
         == KeysWithPrefix(ForestKeys(blobs, entries[..i], h), prefix)
    decreases j - i
  {
    if i < j {
      PrefixOfSlice(blobs, entries, h, prefix, i, j - 1);
      ForestSplitAt(blobs, entries, h, j - 1);
      var last := Keys(blobs, entries[j - 1].child, h);
      KeysWithPrefixConcat(ForestKeys(blobs, entries[..j - 1], h), last, prefix);
      KeysWithPrefixNone(last, prefix);
    }
  }
}
