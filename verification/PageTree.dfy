/** The copy-on-write page tree: immutable pages in a blob map, and what a tree of pages holds. */
module PageTrees {
  import opened Bytes
  import opened PageSplit

  /** A page identifier; 0 is the zero UUID, which names no page. */
  type Id = nat

  datatype Entry = Entry(key: Key, child: Id)

  datatype Page = Leaf(keys: seq<Key>) | Index(entries: seq<Entry>)

  type Blobs = map<Id, Page>

  /** All keys below a page, left to right; `h` is the height of the page above the leaves. */
  ghost function Keys(blobs: Blobs, id: Id, h: nat): seq<Key>
    decreases h, 0
  {
    if id !in blobs then []
    else match blobs[id]
      case Leaf(keys) => if h == 0 then keys else []
      case Index(entries) => if h == 0 then [] else ForestKeys(blobs, entries, h - 1)
  }

  ghost function ForestKeys(blobs: Blobs, es: seq<Entry>, h: nat): seq<Key>
    decreases h, 1 + |es|
  {
    if es == [] then [] else Keys(blobs, es[0].child, h) + ForestKeys(blobs, es[1..], h)
  }

  /** A well-formed tree: leaves at equal depth, counts that fit a page header,
      every index key the minimum of its child, all keys strictly ascending. */
  ghost predicate Wf(blobs: Blobs, id: Id, h: nat)
    decreases h, 0
  {
    && id in blobs
    && match blobs[id]
       case Leaf(keys) => h == 0 && 0 < |keys| < PAGE_COUNT_LIMIT && Ascending(keys)
       case Index(entries) => h > 0 && 0 < |entries| < PAGE_COUNT_LIMIT && WfForest(blobs, entries, h - 1)
  }

  ghost predicate WfForest(blobs: Blobs, es: seq<Entry>, h: nat)
    decreases h, 2
  {
    && (forall i :: 0 <= i < |es| ==> WfEntry(blobs, es[i], h))
    && Ascending(ForestKeys(blobs, es, h))
  }

  ghost predicate WfEntry(blobs: Blobs, e: Entry, h: nat)
    decreases h, 1
  {
    && Wf(blobs, e.child, h)
    && Keys(blobs, e.child, h) != []
    && e.key == Keys(blobs, e.child, h)[0]
  }

  /** Every page of `a` is still there in `b`, unchanged. */
  ghost predicate Extends(a: Blobs, b: Blobs)
  {
    forall id :: id in a ==> id in b && b[id] == a[id]
  }

  lemma {:induction false} KeysAscending(blobs: Blobs, id: Id, h: nat)
    requires Wf(blobs, id, h)
    ensures Keys(blobs, id, h) != [] && Ascending(Keys(blobs, id, h))
  {
    match blobs[id]
    case Leaf(keys) =>
    case Index(entries) =>
      assert WfEntry(blobs, entries[0], h - 1);
  }

  // ---- forests ----

  lemma {:induction false} ForestConcat(blobs: Blobs, a: seq<Entry>, b: seq<Entry>, h: nat)
    ensures ForestKeys(blobs, a + b, h) == ForestKeys(blobs, a, h) + ForestKeys(blobs, b, h)
    decreases |a|
  {
    if a == [] {
      assert a + b == b;
    } else {
      assert (a + b)[1..] == a[1..] + b;
      ForestConcat(blobs, a[1..], b, h);
    }
  }

  lemma ForestSingle(blobs: Blobs, e: Entry, h: nat)
    ensures ForestKeys(blobs, [e], h) == Keys(blobs, e.child, h)
  {
    assert ForestKeys(blobs, [e], h) == Keys(blobs, e.child, h) + ForestKeys(blobs, [], h);
  }

  lemma ForestSplitAt(blobs: Blobs, es: seq<Entry>, h: nat, i: nat)
    requires i < |es|
    ensures ForestKeys(blobs, es[..i + 1], h) == ForestKeys(blobs, es[..i], h) + Keys(blobs, es[i].child, h)
    ensures ForestKeys(blobs, es, h) == ForestKeys(blobs, es[..i + 1], h) + ForestKeys(blobs, es[i + 1..], h)
    ensures ForestKeys(blobs, es, h) == ForestKeys(blobs, es[..i], h) + ForestKeys(blobs, es[i..], h)
  {
    assert es[..i + 1] == es[..i] + [es[i]];
    ForestConcat(blobs, es[..i], [es[i]], h);
    ForestSingle(blobs, es[i], h);
    assert es == es[..i + 1] + es[i + 1..];
    ForestConcat(blobs, es[..i + 1], es[i + 1..], h);
    assert es == es[..i] + es[i..];
    ForestConcat(blobs, es[..i], es[i..], h);
  }

  lemma AscendingParts(a: seq<Key>, b: seq<Key>)
    requires Ascending(a + b)
    ensures Ascending(a) && Ascending(b)
    ensures AllBefore(a, b)
  {
    forall i, j | 0 <= i < j < |a|
      ensures Less(a[i], a[j])
    {
      assert (a + b)[i] == a[i] && (a + b)[j] == a[j];
    }
    forall i, j | 0 <= i < j < |b|
      ensures Less(b[i], b[j])
    {
      assert (a + b)[|a| + i] == b[i] && (a + b)[|a| + j] == b[j];
    }
    forall x, y | x in a && y in b
      ensures Less(x, y)
    {
      var i :| 0 <= i < |a| && a[i] == x;
      var j :| 0 <= j < |b| && b[j] == y;
      assert (a + b)[i] == x && (a + b)[|a| + j] == y;
    }
  }

  lemma WfForestSlice(blobs: Blobs, es: seq<Entry>, h: nat, i: nat, j: nat)
    requires WfForest(blobs, es, h)
    requires i <= j <= |es|
    ensures WfForest(blobs, es[i..j], h)
  {
    hide Keys; hide ForestKeys;
    assert es == es[..j] + es[j..];
    ForestConcat(blobs, es[..j], es[j..], h);
    AscendingParts(ForestKeys(blobs, es[..j], h), ForestKeys(blobs, es[j..], h));
    assert es[..j] == es[..i] + es[i..j];
    ForestConcat(blobs, es[..i], es[i..j], h);
    AscendingParts(ForestKeys(blobs, es[..i], h), ForestKeys(blobs, es[i..j], h));
  }

  lemma WfForestConcat(blobs: Blobs, a: seq<Entry>, b: seq<Entry>, h: nat)
    requires WfForest(blobs, a, h) && WfForest(blobs, b, h)
    requires AllBefore(ForestKeys(blobs, a, h), ForestKeys(blobs, b, h))
    ensures WfForest(blobs, a + b, h)
  {
    ForestConcat(blobs, a, b, h);
    AscendingConcat(ForestKeys(blobs, a, h), ForestKeys(blobs, b, h));
  }

  /** The keys of child i lie at or above its index key and below the next index key. */
  lemma ChildBounds(blobs: Blobs, es: seq<Entry>, h: nat, i: nat)
    requires WfForest(blobs, es, h) && i < |es|
    ensures es[i].key in Keys(blobs, es[i].child, h)
    ensures AllFrom(Keys(blobs, es[i].child, h), es[i].key)
    ensures i + 1 < |es| ==> AllBelow(ForestKeys(blobs, es[..i + 1], h), es[i + 1].key)
    ensures i + 1 < |es| ==> Less(es[i].key, es[i + 1].key)
  {
    assert WfEntry(blobs, es[i], h);
    var ks := Keys(blobs, es[i].child, h);
    KeysAscending(blobs, es[i].child, h);
    forall k | k in ks
      ensures LessEq(es[i].key, k)
    {
      var j :| 0 <= j < |ks| && ks[j] == k;
    }
    ForestSplitAt(blobs, es, h, i);
    if i + 1 < |es| {
      assert WfEntry(blobs, es[i + 1], h);
      AscendingParts(ForestKeys(blobs, es[..i + 1], h), ForestKeys(blobs, es[i + 1..], h));
      assert es[i + 1].key in Keys(blobs, es[i + 1].child, h);
      assert ForestKeys(blobs, es[i + 1..], h)
          == Keys(blobs, es[i + 1].child, h) + ForestKeys(blobs, es[i + 1..][1..], h);
      assert es[i + 1].key in ForestKeys(blobs, es[i + 1..], h);
      assert es[i].key in ForestKeys(blobs, es[..i + 1], h);
    }
  }

  lemma EntryKeysAscending(blobs: Blobs, es: seq<Entry>, h: nat)
    requires WfForest(blobs, es, h)
    ensures forall i, j :: 0 <= i < j < |es| ==> Less(es[i].key, es[j].key)
  {
    hide Keys; hide ForestKeys; hide Less;
    forall i, j | 0 <= i < j < |es|
      ensures Less(es[i].key, es[j].key)
    {
      ChildBounds(blobs, es, h, j - 1);
      ForestSplitAt(blobs, es, h, i);
      assert es[..j][..i + 1] == es[..i + 1];
      ForestSplitAt(blobs, es[..j], h, i);
      assert WfEntry(blobs, es[i], h);
      assert es[i].key in Keys(blobs, es[i].child, h);
      assert es[i].key in ForestKeys(blobs, es[..j], h);
    }
  }

  // ---- copy on write: old trees read the same in every extension ----

  lemma {:induction false} KeysFrame(a: Blobs, b: Blobs, id: Id, h: nat)
    requires Extends(a, b) && Wf(a, id, h)
    ensures Wf(b, id, h) && Keys(b, id, h) == Keys(a, id, h)
    decreases h, 0
  {
    match a[id]
    case Leaf(keys) =>
    case Index(entries) =>
      ForestFrame(a, b, entries, h - 1);
  }

  lemma {:induction false} ForestFrame(a: Blobs, b: Blobs, es: seq<Entry>, h: nat)
    requires Extends(a, b) && WfForest(a, es, h)
    ensures WfForest(b, es, h) && ForestKeys(b, es, h) == ForestKeys(a, es, h)
    decreases h, 1 + |es|
  {
    if es != [] {
      assert WfEntry(a, es[0], h);
      KeysFrame(a, b, es[0].child, h);
      assert WfForest(a, es[1..], h) by {
        WfForestSlice(a, es, h, 1, |es|);
        assert es[1..|es|] == es[1..];
      }
      ForestFrame(a, b, es[1..], h);
      forall i | 0 <= i < |es|
        ensures WfEntry(b, es[i], h)
      {
        if i > 0 {
          assert es[1..][i - 1] == es[i];
          assert WfEntry(b, es[1..][i - 1], h);
        }
      }
    }
  }

  // ---- splitting an index level into pages ----

  function EntryKeys(es: seq<Entry>): (ks: seq<Key>)
    ensures |ks| == |es| && forall i :: 0 <= i < |es| ==> ks[i] == es[i].key
  {
    seq(|es|, i requires 0 <= i < |es| => es[i].key)
  }

  predicate FitsIndexPage(es: seq<Entry>)
  {
    IndexPageSize(EntryKeys(es)) <= INDEX_PAGE_MAX_SIZE
  }

  /** A page of at most 512 KiB, or with a single key or entry. */
  predicate PageSized(p: Page)
  {
    match p
    case Leaf(keys) => |keys| == 1 || TotalLen(keys) <= 524_288
    case Index(es) => |es| == 1 || IndexPageSize(EntryKeys(es)) <= 524_288
  }

  /** The pages added are of the right size. */
  ghost predicate Sized(a: Blobs, b: Blobs)
  {
    forall id :: id in b && id !in a ==> PageSized(b[id])
  }

  lemma SizedMore(a: Blobs, b: Blobs, c: Blobs)
    requires Sized(a, b) && Sized(b, c) && Extends(b, c)
    ensures Sized(a, c)
  {
    hide PageSized;
    forall id | id in c && id !in a
      ensures PageSized(c[id])
    {
      if id in b {
        assert c[id] == b[id];
      }
    }
  }

  lemma SizedOne(a: Blobs, b: Blobs, id: Id, page: Page)
    requires b == a[id := page] && PageSized(page)
    ensures Sized(a, b)
  {
  }

  lemma SizedNone(a: Blobs)
    ensures Sized(a, a)
  {
  }

  function SplitIndexEntries(es: seq<Entry>): (parts: seq<seq<Entry>>)
    decreases |es|
  {
    if es == [] then []
    else if FitsIndexPage(es) || |es| == 1 then [es]
    else SplitIndexEntries(es[..|es| / 2]) + SplitIndexEntries(es[|es| / 2..])
  }

  /** The pages of a split hold the entries in order, none is empty, and every count fits the header. */
  lemma {:induction false} SplitPartition(es: seq<Entry>)
    ensures Flatten(SplitIndexEntries(es)) == es
    ensures forall part :: part in SplitIndexEntries(es) ==> 0 < |part| < PAGE_COUNT_LIMIT
    ensures es != [] ==> SplitIndexEntries(es) != []
    decreases |es|
  {
    hide FitsIndexPage; hide Flatten;
    FlattenNone<Entry>();
    if es == [] {
    } else if FitsIndexPage(es) || |es| == 1 {
      FlattenSingle(es);
      if |es| > 1 {
        FittingCount(es);
      }
    } else {
      var mid := |es| / 2;
      SplitPartition(es[..mid]);
      SplitPartition(es[mid..]);
      FlattenConcat(SplitIndexEntries(es[..mid]), SplitIndexEntries(es[mid..]));
      assert es == es[..mid] + es[mid..];
    }
  }

  lemma LeavesSized(keys: seq<Key>)
    ensures forall part :: part in Chunks(keys) ==> PageSized(Leaf(part))
  {
    hide Chunks;
    ChunksSized(keys);
  }

  /** Every page of a split fits, unless it holds a single entry. */
  lemma {:induction false} SplitFits(es: seq<Entry>)
    ensures forall part :: part in SplitIndexEntries(es) ==> PageSized(Index(part))
    decreases |es|
  {
    if |es| > 1 && !FitsIndexPage(es) {
      SplitFits(es[..|es| / 2]);
      SplitFits(es[|es| / 2..]);
    }
  }

  lemma FittingCount(es: seq<Entry>)
    requires FitsIndexPage(es)
    ensures |es| < PAGE_COUNT_LIMIT
  {
    EntriesSizeAtLeast([], EntryKeys(es));
  }

  predicate Storable(k: Key)
  {
    9 <= |k| < 65536
  }

  /** With keys below 64 KiB a page always takes at least two entries, so a level at least halves. */
  lemma {:induction false} SplitHalves(es: seq<Entry>)
    requires |es| >= 2
    requires forall e :: e in es ==> |e.key| < 65536
    ensures 2 * |SplitIndexEntries(es)| <= |es|
    decreases |es|
  {
    if !FitsIndexPage(es) {
      var ks := EntryKeys(es);
      forall k | k in ks
        ensures |k| < 65536
      {
        var i :| 0 <= i < |ks| && ks[i] == k;
        assert es[i] in es;
      }
      EntriesSizeAtMost([], ks);
      var mid := |es| / 2;
      assert forall e :: e in es[..mid] || e in es[mid..] ==> e in es;
      SplitHalves(es[..mid]);
      SplitHalves(es[mid..]);
    }
  }

}
