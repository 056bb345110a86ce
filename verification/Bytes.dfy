/** Byte strings and the lexicographic order every index of the store is kept in. */
module Bytes {

  type byte = b: int | 0 <= b < 256

  type Key = seq<byte>

  /** `a` comes strictly before `b` in byte-lexicographic order. */
  predicate Less(a: Key, b: Key)
  {
    if b == [] then false
    else if a == [] then true
    else a[0] < b[0] || (a[0] == b[0] && Less(a[1..], b[1..]))
  }

  predicate LessEq(a: Key, b: Key)
  {
    a == b || Less(a, b)
  }

  lemma {:induction false} LessIrreflexive(a: Key)
    ensures !Less(a, a)
  {
    if a != [] {
      LessIrreflexive(a[1..]);
    }
  }

  lemma {:induction false} LessTotal(a: Key, b: Key)
    ensures Less(a, b) || a == b || Less(b, a)
  {
    if a != [] && b != [] && a[0] == b[0] {
      LessTotal(a[1..], b[1..]);
      assert a == [a[0]] + a[1..] && b == [b[0]] + b[1..];
    }
  }

  lemma {:induction false} LessTransitive(a: Key, b: Key, c: Key)
    requires Less(a, b) && Less(b, c)
    ensures Less(a, c)
  {
    if a != [] && a[0] == b[0] == c[0] {
      LessTransitive(a[1..], b[1..], c[1..]);
    }
  }

  lemma LessAsymmetric(a: Key, b: Key)
    requires Less(a, b)
    ensures !Less(b, a) && a != b
  {
    LessIrreflexive(a);
    if Less(b, a) {
      LessTransitive(a, b, a);
    }
  }

  /** The three-way comparison the store uses everywhere (CmpSeq, CmpKeys, CmpBytes). */
  method CmpSeq(a: Key, b: Key) returns (c: int)
    ensures c in {-1, 0, 1}
    ensures c < 0 <==> Less(a, b)
    ensures c == 0 <==> a == b
    ensures c > 0 <==> Less(b, a)
  {
    var n := if |b| < |a| then |b| else |a|;
    var i := 0;
    while i < n
      invariant 0 <= i <= n
      invariant a[..i] == b[..i]
    {
      if a[i] != b[i] {
        LessAtDifference(a, b, i);
        LessAtDifference(b, a, i);
        LessAsymmetricIf(a, b);
        return if a[i] < b[i] then -1 else 1;
      }
      assert a[..i + 1] == a[..i] + [a[i]] && b[..i + 1] == b[..i] + [b[i]];
      i := i + 1;
    }
    assert a[..n] == b[..n];
    if |a| < |b| {
      assert b[..|a|] == a;
      PrefixLess(a, b);
      LessAsymmetric(a, b);
      return -1;
    } else if |a| > |b| {
      assert a[..|b|] == b;
      PrefixLess(b, a);
      LessAsymmetric(b, a);
      return 1;
    }
    assert a == b;
    LessIrreflexive(a);
    return 0;
  }

  lemma LessAsymmetricIf(a: Key, b: Key)
    ensures !(Less(a, b) && Less(b, a))
  {
    if Less(a, b) {
      LessAsymmetric(a, b);
    }
  }

  lemma {:induction false} LessAtDifference(a: Key, b: Key, i: nat)
    requires i < |a| && i < |b|
    requires a[..i] == b[..i]
    requires a[i] != b[i]
    ensures Less(a, b) <==> a[i] < b[i]
  {
    if i > 0 {
      assert a[0] == a[..i][0] == b[..i][0] == b[0];
      assert a[1..][..i - 1] == a[..i][1..] && b[1..][..i - 1] == b[..i][1..];
      LessAtDifference(a[1..], b[1..], i - 1);
    }
  }

  lemma {:induction false} PrefixLess(a: Key, b: Key)
    requires a < b
    ensures Less(a, b)
  {
    if a != [] {
      assert a[1..] < b[1..];
      PrefixLess(a[1..], b[1..]);
    }
  }

  /** Prepending a common prefix changes nothing in the order. */
  lemma {:induction false} LessCommonPrefix(p: Key, a: Key, b: Key)
    ensures Less(p + a, p + b) <==> Less(a, b)
  {
    if p == [] {
      assert p + a == a && p + b == b;
    } else {
      assert (p + a)[1..] == p[1..] + a && (p + b)[1..] == p[1..] + b;
      LessCommonPrefix(p[1..], a, b);
    }
  }

  /** Two byte strings neither of which is a prefix of the other keep their order under any extension. */
  lemma {:induction false} LessExtend(a: Key, b: Key, x: Key, y: Key)
    requires !(a <= b) && !(b <= a)
    ensures Less(a + x, b + y) <==> Less(a, b)
  {
    assert a != [] && b != [];
    if a[0] == b[0] {
      assert a == [a[0]] + a[1..] && b == [b[0]] + b[1..];
      assert !(a[1..] <= b[1..]) && !(b[1..] <= a[1..]);
      LessExtend(a[1..], b[1..], x, y);
      assert (a + x)[1..] == a[1..] + x && (b + y)[1..] == b[1..] + y;
    }
  }

  // ---- strictly ascending key lists ----

  predicate Ascending(s: seq<Key>)
  {
    forall i, j :: 0 <= i < j < |s| ==> Less(s[i], s[j])
  }

  /** Every key of `s` lies strictly below `bound`. */
  predicate AllBelow(s: seq<Key>, bound: Key)
  {
    forall k :: k in s ==> Less(k, bound)
  }

  /** Every key of `s` is `bound` or lies above it. */
  predicate AllFrom(s: seq<Key>, bound: Key)
  {
    forall k :: k in s ==> LessEq(bound, k)
  }

  /** Every key of `a` lies strictly below every key of `b`. */
  predicate AllBefore(a: seq<Key>, b: seq<Key>)
  {
    forall x, y :: x in a && y in b ==> Less(x, y)
  }

  ghost function Elems<T>(s: seq<T>): (r: set<T>)
  {
    set x | x in s
  }

  lemma ElemsConcat<T>(a: seq<T>, b: seq<T>)
    ensures Elems(a + b) == Elems(a) + Elems(b)
  {
  }

  lemma ElemsNonempty<T>(s: seq<T>)
    ensures s != [] ==> Elems(s) != {}
  {
    if s != [] {
      assert s[0] in Elems(s);
    }
  }

  /** An ascending list is determined by the set of its keys. */
  lemma {:induction false} AscendingUnique(a: seq<Key>, b: seq<Key>)
    requires Ascending(a) && Ascending(b)
    requires Elems(a) == Elems(b)
    ensures a == b
  {
    if a == [] {
      ElemsNonempty(b);
    } else {
      assert a[0] in Elems(a);
      assert b != [];
      assert b[0] in Elems(b);
      var i :| 0 <= i < |b| && b[i] == a[0];
      var j :| 0 <= j < |a| && a[j] == b[0];
      if i > 0 && j > 0 {
        LessAsymmetric(a[0], b[0]);
      }
      assert a[0] == b[0];
      AscendingDistinct(a);
      AscendingDistinct(b);
      assert Elems(a[1..]) == Elems(a) - {a[0]};
      assert Elems(b[1..]) == Elems(b) - {b[0]};
      AscendingUnique(a[1..], b[1..]);
      assert a == [a[0]] + a[1..] && b == [b[0]] + b[1..];
    }
  }

  lemma AscendingDistinct(s: seq<Key>)
    requires Ascending(s)
    ensures forall i, j :: 0 <= i < j < |s| ==> s[i] != s[j]
  {
    forall i, j | 0 <= i < j < |s|
      ensures s[i] != s[j]
    {
      LessIrreflexive(s[i]);
    }
  }

  lemma AscendingConcat(a: seq<Key>, b: seq<Key>)
    requires Ascending(a) && Ascending(b)
    requires AllBefore(a, b)
    ensures Ascending(a + b)
  {
    forall i, j | 0 <= i < j < |a + b|
      ensures Less((a + b)[i], (a + b)[j])
    {
      if i < |a| <= j {
        assert (a + b)[i] in a && (a + b)[j] in b;
      }
    }
  }

  // ---- lists of lists ----

  function Flatten<T>(parts: seq<seq<T>>): (s: seq<T>)
  {
    if parts == [] then [] else parts[0] + Flatten(parts[1..])
  }

  lemma {:induction false} FlattenConcat<T>(a: seq<seq<T>>, b: seq<seq<T>>)
    ensures Flatten(a + b) == Flatten(a) + Flatten(b)
  {
    if a == [] {
      assert a + b == b;
    } else {
      assert (a + b)[1..] == a[1..] + b;
      FlattenConcat(a[1..], b);
    }
  }

  lemma FlattenCut(keys: seq<Key>, i: nat)
    requires i < |keys|
    ensures Flatten(keys) == Flatten(keys[..i]) + keys[i] + Flatten(keys[i + 1..])
    ensures Flatten(keys[..i + 1]) == Flatten(keys[..i]) + keys[i]
  {
    hide Flatten;
    var a, b := keys[..i], keys[i + 1..];
    FlattenAround(a, keys[i], b);
    assert keys == a + [keys[i]] + b;
    assert keys[..i + 1] == a + [keys[i]];
  }

  lemma FlattenAround(a: seq<Key>, k: Key, b: seq<Key>)
    ensures Flatten(a + [k]) == Flatten(a) + k
    ensures Flatten(a + [k] + b) == Flatten(a) + k + Flatten(b)
  {
    hide Flatten;
    FlattenConcat(a, [k]);
    FlattenSingle(k);
    FlattenConcat(a + [k], b);
  }

  lemma FlattenNone<T>()
    ensures Flatten<T>([]) == []
  {
  }

  lemma FlattenSingle<T>(a: seq<T>)
    ensures Flatten([a]) == a
  {
    assert Flatten([a]) == a + Flatten([]);
  }

  // ---- prefixes ----

  function KeysWithPrefix(s: seq<Key>, p: Key): (r: seq<Key>)
    ensures forall k :: k in r <==> k in s && p <= k
  {
    if s == [] then []
    else if p <= s[0] then [s[0]] + KeysWithPrefix(s[1..], p)
    else KeysWithPrefix(s[1..], p)
  }

  lemma {:induction false} KeysWithPrefixConcat(a: seq<Key>, b: seq<Key>, p: Key)
    ensures KeysWithPrefix(a + b, p) == KeysWithPrefix(a, p) + KeysWithPrefix(b, p)
  {
    if a == [] {
      assert a + b == b;
    } else {
      assert (a + b)[1..] == a[1..] + b;
      KeysWithPrefixConcat(a[1..], b, p);
    }
  }

  lemma {:induction false} KeysWithPrefixAscending(s: seq<Key>, p: Key)
    requires Ascending(s)
    ensures Ascending(KeysWithPrefix(s, p))
  {
    if s != [] {
      KeysWithPrefixAscending(s[1..], p);
      var rest := KeysWithPrefix(s[1..], p);
      forall k | k in rest
        ensures Less(s[0], k)
      {
        var j :| 0 <= j < |s[1..]| && s[1..][j] == k;
        assert s[j + 1] == k;
      }
    }
  }

  lemma {:induction false} KeysWithPrefixNone(s: seq<Key>, p: Key)
    requires forall k :: k in s ==> !(p <= k)
    ensures KeysWithPrefix(s, p) == []
  {
    if s != [] {
      assert s[0] in s && forall k :: k in s[1..] ==> k in s;
      KeysWithPrefixNone(s[1..], p);
    }
  }

  // ---- the interval of a prefix ----

  predicate AllFF(s: Key)
  {
    forall i :: 0 <= i < |s| ==> s[i] == 0xff
  }

  /** `end` is an exclusive upper bound for the prefix: the keys with the prefix are exactly
      those at or above it and below `end`. */
  ghost predicate IsPrefixEnd(p: Key, end: Key)
  {
    forall k :: p <= k <==> LessEq(p, k) && Less(k, end)
  }

  /** Nothing bounds the keys with prefix p from above: they are all keys at or above it. */
  ghost predicate NoPrefixEnd(p: Key)
  {
    forall k :: p <= k <==> LessEq(p, k)
  }

  lemma {:induction false} AllFFBound(s: Key, k: Key)
    requires AllFF(s)
    ensures s <= k <==> LessEq(s, k)
  {
    if s != [] && k != [] {
      AllFFBound(s[1..], k[1..]);
      assert s == [s[0]] + s[1..] && k == [k[0]] + k[1..];
    }
  }

  lemma {:induction false} PrefixEndBound(a: Key, last: byte, ffs: Key, k: Key)
    requires last < 0xff && AllFF(ffs)
    ensures a + [last] + ffs <= k <==> LessEq(a + [last] + ffs, k) && Less(k, a + [last + 1])
  {
    var p, end := a + [last] + ffs, a + [last + 1];
    if k == [] {
    } else if a == [] {
      assert p == [last] + ffs && end == [last + 1];
      assert p[1..] == ffs && end[1..] == [];
      AllFFBound(ffs, k[1..]);
      assert k == [k[0]] + k[1..];
    } else {
      assert p[1..] == a[1..] + [last] + ffs && end[1..] == a[1..] + [last + 1];
      PrefixEndBound(a[1..], last, ffs, k[1..]);
      assert k == [k[0]] + k[1..] && p == [p[0]] + p[1..];
    }
  }

  method PrefixEnd(prefix: Key) returns (found: bool, end: Key)
    ensures found ==> IsPrefixEnd(prefix, end)
    ensures !found ==> NoPrefixEnd(prefix)
  {
    var e := prefix;
    while |e| > 0
      invariant e <= prefix
      invariant AllFF(prefix[|e|..])
      decreases |e|
    {
      var last := e[|e| - 1];
      if last < 0xff {
        forall k
          ensures prefix <= k <==> LessEq(prefix, k) && Less(k, e[..|e| - 1] + [last + 1])
        {
          assert prefix == e[..|e| - 1] + [last] + prefix[|e|..];
          PrefixEndBound(e[..|e| - 1], last, prefix[|e|..], k);
        }
        return true, e[..|e| - 1] + [last + 1];
      }
      e := e[..|e| - 1];
    }
    assert prefix[0..] == prefix;
    forall k
      ensures prefix <= k <==> LessEq(prefix, k)
    {
      AllFFBound(prefix, k);
    }
    return false, [];
  }

  // ---- 32-bit numbers ----

  function Be32(n: nat): (s: seq<byte>)
    ensures |s| == 4
  {
    [n / 256 / 256 / 256 % 256, n / 256 / 256 % 256, n / 256 % 256, n % 256]
  }

  function ReadBe32(d: seq<byte>, pos: nat): (n: nat)
    requires pos + 4 <= |d|
  {
    d[pos] as int * 0x100_0000 + d[pos + 1] as int * 0x1_0000 + d[pos + 2] as int * 0x100 + d[pos + 3]
  }

  lemma Be32RoundTrip(n: nat)
    requires n < 0x1_0000_0000
    ensures ReadBe32(Be32(n), 0) == n
  {
    var a := n / 256;
    var b := a / 256;
    var c := b / 256;
    assert n == 256 * a + n % 256 && a == 256 * b + a % 256 && b == 256 * c + b % 256;
    assert c < 256;
  }
}
