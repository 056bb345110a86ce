/** Datom keys carry their version in the last eight bytes; an active scan keeps the newest version of
    each datom if it is an assertion. */
module Versions {
  import opened Bytes
  import Keys

  predicate Versioned(k: Key)
  {
    |k| >= 8
  }

  /** The key without its version. */
  function LogicalOf(k: Key): (l: Key)
    requires Versioned(k)
  {
    k[..|k| - 8]
  }

  function SuffixOf(k: Key): (s: Key)
    requires Versioned(k)
  {
    k[|k| - 8..]
  }

  /** The low bit of the suffix marks a retraction. */
  predicate Retracted(k: Key)
    requires Versioned(k)
  {
    k[|k| - 1] % 2 == 1
  }

  predicate SameDatom(a: Key, b: Key)
  {
    Versioned(a) && Versioned(b) && LogicalOf(a) == LogicalOf(b)
  }

  /** Versions of one datom are ordered by their suffixes. */
  lemma VersionOrder(a: Key, b: Key)
    requires SameDatom(a, b)
    ensures Less(a, b) <==> Less(SuffixOf(a), SuffixOf(b))
  {
    assert a == LogicalOf(a) + SuffixOf(a) && b == LogicalOf(b) + SuffixOf(b);
    LessCommonPrefix(LogicalOf(a), SuffixOf(a), SuffixOf(b));
  }

  ghost predicate Newest(s: set<Key>, k: Key)
  {
    k in s && Versioned(k) && forall x :: x in s && SameDatom(x, k) ==> LessEq(x, k)
  }

  /** The datoms that hold: newest versions that are assertions. */
  ghost function Active(s: set<Key>): set<Key>
  {
    set k | k in s && Newest(s, k) && !Retracted(k)
  }

  // ---- the backward pass ----

  datatype Option<T> = None | Some(value: T)

  function FirstVersioned(keys: seq<Key>): (k: Option<Key>)
  {
    if keys == [] then None else if Versioned(keys[0]) then Some(keys[0]) else FirstVersioned(keys[1..])
  }

  /** The pass keeps the first key: it is an assertion and the next key is of another datom. */
  predicate Keeps(k: Key, rest: seq<Key>)
  {
    && Versioned(k) && !Retracted(k)
    && var next := FirstVersioned(rest); next.Some? ==> !SameDatom(next.value, k)
  }

  function Pass(keys: seq<Key>): (out: seq<Key>)
  {
    if keys == [] then []
    else (if Keeps(keys[0], keys[1..]) then [keys[0]] else []) + Pass(keys[1..])
  }

  function Reverse(s: seq<Key>): (r: seq<Key>)
  {
    if s == [] then [] else Reverse(s[1..]) + [s[0]]
  }

  lemma {:induction false} ReverseAppend(s: seq<Key>, k: Key)
    ensures Reverse(s + [k]) == [k] + Reverse(s)
  {
    if s == [] {
      assert [k][1..] == [] && s + [k] == [k];
    } else {
      assert (s + [k])[1..] == s[1..] + [k];
      ReverseAppend(s[1..], k);
    }
  }

  /** Walks the collected keys from the end, remembering the datom it saw last. */
  method ActivePass(collected: seq<Key>) returns (out: seq<Key>)
    ensures out == Pass(collected)
  {
    hide Pass; hide FirstVersioned; hide Reverse;
    var kept: seq<Key> := [];
    var lastPrefix: Key := [];
    var hasLast := false;
    var j := |collected|;
    Ended(collected);
    while j > 0
      invariant 0 <= j <= |collected|
      invariant Reverse(kept) == Pass(collected[j..])
      invariant var next := FirstVersioned(collected[j..]);
        hasLast == next.Some? && (hasLast ==> Versioned(next.value) && lastPrefix == LogicalOf(next.value))
    {
      j := j - 1;
      var k := collected[j];
      OneKey(collected, j);
      if |k| >= 8 {
        var kp := LogicalOf(k);
        if !(hasLast && kp == lastPrefix) {
          if !Retracted(k) {
            ReverseAppend(kept, k);
            kept := kept + [k];
          }
          lastPrefix := kp;
          hasLast := true;
        }
      }
    }
    assert collected[0..] == collected;
    out := [];
    var i := |kept|;
    Reversed(kept);
    while i > 0
      invariant 0 <= i <= |kept|
      invariant out + Reverse(kept[..i]) == Reverse(kept)
    {
      i := i - 1;
      ReverseLast(kept, i);
      out := out + [kept[i]];
    }
    Reversed(kept);
  }

  lemma Ended(keys: seq<Key>)
    ensures Reverse([]) == Pass(keys[|keys|..]) && FirstVersioned(keys[|keys|..]).None?
  {
  }

  lemma Reversed(s: seq<Key>)
    ensures s[..|s|] == s && Reverse(s[..0]) == []
  {
  }

  lemma ReverseLast(s: seq<Key>, i: nat)
    requires i < |s|
    ensures Reverse(s[..i + 1]) == [s[i]] + Reverse(s[..i])
  {
    assert s[..i + 1] == s[..i] + [s[i]];
    ReverseAppend(s[..i], s[i]);
  }

  lemma OneKey(keys: seq<Key>, j: nat)
    requires j < |keys|
    ensures Pass(keys[j..]) == (if Keeps(keys[j], keys[j + 1..]) then [keys[j]] else []) + Pass(keys[j + 1..])
    ensures FirstVersioned(keys[j..]) == if Versioned(keys[j]) then Some(keys[j]) else FirstVersioned(keys[j + 1..])
  {
    assert keys[j..][1..] == keys[j + 1..];
  }

  // ---- what the pass computes ----

  /** Position i is kept. */
  ghost predicate KeptAt(keys: seq<Key>, i: nat)
    requires i < |keys|
  {
    Keeps(keys[i], keys[i + 1..])
  }

  lemma {:induction false} PassMembers(keys: seq<Key>, k: Key)
    ensures k in Pass(keys) <==> exists i :: 0 <= i < |keys| && keys[i] == k && KeptAt(keys, i)
  {
    if keys != [] {
      var rest := keys[1..];
      PassMembers(rest, k);
      if k in Pass(rest) {
        var i :| 0 <= i < |rest| && rest[i] == k && KeptAt(rest, i);
        assert keys[i + 1..][1..] == rest[i + 1..];
        assert keys[i + 2..] == rest[i + 1..];
        assert KeptAt(keys, i + 1);
      }
      if Keeps(keys[0], rest) {
        assert KeptAt(keys, 0);
      }
      forall i | 0 <= i < |keys| && keys[i] == k && KeptAt(keys, i)
        ensures k in Pass(keys)
      {
        if i > 0 {
          assert rest[i - 1] == k && rest[i..] == keys[i + 1..];
          assert KeptAt(rest, i - 1);
        }
      }
    }
  }

  lemma {:induction false} PassIn(keys: seq<Key>)
    ensures forall k :: k in Pass(keys) ==> k in keys
  {
    hide Keeps;
    if keys != [] {
      PassIn(keys[1..]);
    }
  }

  lemma {:induction false} PassAscending(keys: seq<Key>)
    requires Ascending(keys)
    ensures Ascending(Pass(keys))
  {
    hide Less; hide Keeps;
    if keys != [] {
      var rest := keys[1..];
      PassAscending(rest);
      PassIn(rest);
      HeadBelow(keys);
      if Keeps(keys[0], rest) {
        AscendingConcat([keys[0]], Pass(rest));
      }
    }
  }

  lemma HeadBelow(keys: seq<Key>)
    requires Ascending(keys) && keys != []
    ensures forall k :: k in keys[1..] ==> Less(keys[0], k)
  {
    hide Less;
    forall k | k in keys[1..]
      ensures Less(keys[0], k)
    {
      var j :| 0 <= j < |keys| - 1 && keys[1..][j] == k;
      assert keys[j + 1] == k;
    }
  }

  /** The key after position i is a version of the same datom. */
  ghost predicate VersionFollows(keys: seq<Key>, i: nat)
    requires i < |keys|
  {
    var next := FirstVersioned(keys[i + 1..]);
    next.Some? && SameDatom(next.value, keys[i])
  }

  /** No asserted version is separated from a newer version of its datom. */
  ghost predicate Unsplit(keys: seq<Key>)
  {
    forall i, m :: 0 <= i < m < |keys| && SameDatom(keys[i], keys[m]) && !Retracted(keys[i]) ==> VersionFollows(keys, i)
  }

  lemma {:induction false} FirstVersionedIn(keys: seq<Key>)
    ensures var n := FirstVersioned(keys); n.Some? ==> n.value in keys && Versioned(n.value)
  {
    if keys != [] {
      FirstVersionedIn(keys[1..]);
    }
  }

  /** The newest version of a datom is always kept when it is an assertion. */
  lemma NewestKept(keys: seq<Key>, i: nat)
    requires Ascending(keys) && i < |keys| && Newest(Elems(keys), keys[i]) && !Retracted(keys[i])
    ensures KeptAt(keys, i)
  {
    var rest := keys[i + 1..];
    var next := FirstVersioned(rest);
    FirstVersionedIn(rest);
    if next.Some? {
      var j :| 0 <= j < |rest| && rest[j] == next.value;
      assert keys[i + 1 + j] == next.value && next.value in Elems(keys);
      assert Less(keys[i], next.value);
      LessAsymmetric(keys[i], next.value);
    }
  }

  /** On ascending keys the pass answers with exactly the active datoms if and only if no asserted
      version is separated from a newer one. */
  lemma PassIsActive(keys: seq<Key>)
    requires Ascending(keys)
    ensures Ascending(Pass(keys))
    ensures Active(Elems(keys)) <= Elems(Pass(keys))
    ensures Elems(Pass(keys)) == Active(Elems(keys)) <==> Unsplit(keys)
  {
    hide Pass;
    PassAscending(keys);
    var all := Elems(keys);
    forall k | k in Active(all)
      ensures k in Elems(Pass(keys))
    {
      var i :| 0 <= i < |keys| && keys[i] == k;
      NewestKept(keys, i);
      PassMembers(keys, k);
    }
    if Unsplit(keys) {
      forall k | k in Elems(Pass(keys))
        ensures k in Active(all)
      {
        UnsplitNewest(keys, k);
      }
    }
    if Elems(Pass(keys)) == Active(all) {
      forall i, m | 0 <= i < m < |keys| && SameDatom(keys[i], keys[m]) && !Retracted(keys[i])
        ensures VersionFollows(keys, i)
      {
        PassMembers(keys, keys[i]);
        OlderNotActive(keys, i, m);
        assert keys[i] !in Elems(Pass(keys));
      }
    }
  }

  lemma OlderNotActive(keys: seq<Key>, i: nat, m: nat)
    requires Ascending(keys) && i < m < |keys| && SameDatom(keys[i], keys[m])
    ensures keys[i] !in Active(Elems(keys))
  {
    assert keys[m] in Elems(keys);
    LessAsymmetric(keys[i], keys[m]);
  }

  lemma UnsplitNewest(keys: seq<Key>, k: Key)
    requires Ascending(keys) && Unsplit(keys) && k in Pass(keys)
    ensures k in Active(Elems(keys))
  {
    hide Pass;
    PassMembers(keys, k);
    var i :| 0 <= i < |keys| && keys[i] == k && KeptAt(keys, i);
    forall x | x in Elems(keys) && SameDatom(x, k)
      ensures LessEq(x, k)
    {
      var m :| 0 <= m < |keys| && keys[m] == x;
      assert !(i < m);
    }
  }

  // ---- when versions stay together ----

  /** Keys of different datoms are ordered as their logical keys. */
  ghost predicate ByDatom(s: set<Key>)
  {
    forall a, b :: a in s && b in s && Versioned(a) && Versioned(b) && !SameDatom(a, b)
      ==> (Less(a, b) <==> Less(LogicalOf(a), LogicalOf(b)))
  }

  /** What lies between two strings with a common prefix has that prefix too. */
  lemma {:induction false} BetweenPrefixed(p: Key, x: Key, k: Key, y: Key)
    requires Less(p + x, k) && Less(k, p + y)
    ensures p <= k
  {
    if p != [] {
      assert (p + x)[1..] == p[1..] + x && (p + y)[1..] == p[1..] + y;
      assert k != [] && k[0] == p[0];
      BetweenPrefixed(p[1..], x, k[1..], y);
      assert k == [k[0]] + k[1..];
    }
  }

  /** Then everything between two versions is a version of the same datom. */
  lemma VersionsContiguous(s: set<Key>, a: Key, k: Key, b: Key)
    requires ByDatom(s) && a in s && k in s && b in s && Versioned(k)
    requires SameDatom(a, b) && Less(a, k) && Less(k, b)
    ensures SameDatom(a, k)
  {
    hide Less;
    if !SameDatom(a, k) {
      assert Less(LogicalOf(a), LogicalOf(k)) && Less(LogicalOf(k), LogicalOf(b));
      LessAsymmetric(LogicalOf(a), LogicalOf(k));
    }
  }

  lemma ByDatomUnsplit(keys: seq<Key>)
    requires Ascending(keys) && ByDatom(Elems(keys))
    ensures Unsplit(keys)
  {
    hide ByDatom;
    forall i, m | 0 <= i < m < |keys| && SameDatom(keys[i], keys[m]) && !Retracted(keys[i])
      ensures VersionFollows(keys, i)
    {
      var rest := keys[i + 1..];
      assert rest[m - i - 1] == keys[m];
      var j := FirstVersionedAt(rest, m - i - 1);
      NextIsVersion(keys, i, i + 1 + j, m);
    }
  }

  lemma NextIsVersion(keys: seq<Key>, i: nat, j: nat, m: nat)
    requires Ascending(keys) && ByDatom(Elems(keys)) && i < j <= m < |keys|
    requires SameDatom(keys[i], keys[m]) && Versioned(keys[j])
    ensures SameDatom(keys[i], keys[j])
  {
    hide ByDatom;
    assert keys[i] in Elems(keys) && keys[j] in Elems(keys) && keys[m] in Elems(keys);
    if j < m {
      VersionsContiguous(Elems(keys), keys[i], keys[j], keys[m]);
    }
  }

  lemma {:induction false} FirstVersionedAt(keys: seq<Key>, i: nat) returns (j: nat)
    requires i < |keys| && Versioned(keys[i])
    ensures j <= i && FirstVersioned(keys) == Some(keys[j]) && Versioned(keys[j])
  {
    if Versioned(keys[0]) {
      j := 0;
    } else {
      var n := FirstVersionedAt(keys[1..], i - 1);
      j := n + 1;
    }
  }

  /** A scan over keys ordered by datom returns exactly the active ones, in order. */
  method ScanPrefixActive(collected: seq<Key>) returns (out: seq<Key>)
    requires Ascending(collected) && ByDatom(Elems(collected))
    ensures Ascending(out) && Elems(out) == Active(Elems(collected))
  {
    out := ActivePass(collected);
    ByDatomUnsplit(collected);
    PassIsActive(collected);
  }

  // ---- stored keys ----

  /** A key of a column family as the write path builds it, for attributes of the given modes. */
  ghost predicate IsVersionOf(cf: nat, modes: nat -> Keys.Mode, d: Keys.Datom, t: nat, retracted: bool, k: Key)
    requires cf < 4
  {
    && Keys.WfIds(d) && Keys.Encodes(modes(d.attr), d.value) && t < Keys.TIME_LIMIT
    && (cf == 3 ==> modes(d.attr).RefMode?)
    && k == Keys.VersionKey(cf, d, t, retracted)
  }

  ghost predicate IsStoredKey(cf: nat, modes: nat -> Keys.Mode, k: Key)
    requires cf < 4
  {
    exists d: Keys.Datom, t: nat, retracted: bool :: IsVersionOf(cf, modes, d, t, retracted, k)
  }

  lemma VersionParts(cf: nat, modes: nat -> Keys.Mode, d: Keys.Datom, t: nat, retracted: bool, k: Key)
    requires cf < 4 && IsVersionOf(cf, modes, d, t, retracted, k)
    ensures Versioned(k) && |k| >= 20 && LogicalOf(k) == Keys.Logical(cf, d)
    ensures SuffixOf(k) == Keys.BigEndian(Keys.EncodeSuffix(t, retracted), 8)
    ensures Retracted(k) == retracted
  {
    hide Keys.Logical; hide Keys.Encodes; hide Keys.BigEndian; hide Keys.EncodeSuffix;
    Keys.SuffixParity(t, retracted);
    var s := Keys.BigEndian(Keys.EncodeSuffix(t, retracted), 8);
    assert k[|k| - 1] == s[7] && k[..|k| - 8] == Keys.Logical(cf, d);
  }

  /** Whatever is written, empty strings included, the keys of each column family are ordered by datom. */
  lemma StoredKeysByDatom(cf: nat, modes: nat -> Keys.Mode, s: set<Key>)
    requires cf < 4 && forall k :: k in s ==> IsStoredKey(cf, modes, k)
    ensures ByDatom(s) && forall k :: k in s ==> |k| >= 20
  {
    hide Less; hide IsVersionOf;
    forall k | k in s
      ensures |k| >= 20
    {
      var d, t, r :| IsVersionOf(cf, modes, d, t, r, k);
      VersionParts(cf, modes, d, t, r, k);
    }
    forall a, b | a in s && b in s && Versioned(a) && Versioned(b) && !SameDatom(a, b)
      ensures Less(a, b) <==> Less(LogicalOf(a), LogicalOf(b))
    {
      var d, t, r :| IsVersionOf(cf, modes, d, t, r, a);
      var e, u, q :| IsVersionOf(cf, modes, e, u, q, b);
      OneDatom(cf, modes, d, t, r, a, e, u, q, b);
    }
  }

  /** Two stored keys are versions of one datom exactly when their logical keys are equal; versions are
      ordered by time and then retraction, different datoms by their logical keys. */
  lemma OneDatom(cf: nat, modes: nat -> Keys.Mode, d: Keys.Datom, t: nat, r: bool, a: Key, e: Keys.Datom, u: nat, q: bool, b: Key)
    requires cf < 4 && IsVersionOf(cf, modes, d, t, r, a) && IsVersionOf(cf, modes, e, u, q, b)
    ensures Versioned(a) && Versioned(b)
    ensures SameDatom(a, b) <==> d == e
    ensures Less(a, b) <==> if d == e then t < u || (t == u && !r && q) else Less(LogicalOf(a), LogicalOf(b))
  {
    hide Keys.Logical; hide Keys.Encodes; hide Less; hide Keys.BigEndian;
    VersionParts(cf, modes, d, t, r, a);
    VersionParts(cf, modes, e, u, q, b);
    if d == e {
      VersionOrder(a, b);
      Keys.SuffixOrder(t, r, u, q);
    } else {
      Keys.VersionsByDatom(cf, modes, d, t, r, e, u, q);
    }
  }

  /** An active scan of any column family over whatever was written returns exactly the active datoms. */
  method ScanStored(cf: nat, ghost modes: nat -> Keys.Mode, collected: seq<Key>) returns (out: seq<Key>)
    requires cf < 4 && Ascending(collected) && forall k :: k in collected ==> IsStoredKey(cf, modes, k)
    ensures Ascending(out) && Elems(out) == Active(Elems(collected))
  {
    StoredKeysByDatom(cf, modes, Elems(collected));
    out := ScanPrefixActive(collected);
  }

  // ---- scans below a prefix ----

  ghost function WithPrefix(s: set<Key>, p: Key): set<Key>
  {
    set k | k in s && p <= k
  }

  /** The prefix ends before the version of every key it matches. */
  ghost predicate AboveVersions(s: set<Key>, p: Key)
  {
    forall k :: k in s && Versioned(k) && p <= k ==> |p| <= |k| - 8
  }

  /** Then an active scan below the prefix is the active scan cut down to it. */
  lemma ActiveBelowPrefix(s: set<Key>, p: Key)
    requires AboveVersions(s, p)
    ensures Active(WithPrefix(s, p)) == WithPrefix(Active(s), p)
  {
    forall k | k in s && Versioned(k) && p <= k
      ensures Newest(WithPrefix(s, p), k) <==> Newest(s, k)
    {
      forall x | x in s && SameDatom(x, k)
        ensures p <= x
      {
        assert p == k[..|p|] == LogicalOf(k)[..|p|] == LogicalOf(x)[..|p|] == x[..|p|];
      }
    }
  }
}
