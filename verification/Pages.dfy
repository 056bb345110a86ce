/** Page sizes and page splitting: how a sorted key list is cut into leaf pages
    and how the entries of an index level are cut into index pages. */
module PageSplit {
  import opened Bytes

  const MAX_RAW_SIZE := 512 * 1024
  const INDEX_PAGE_MAX_SIZE := 512 * 1024

  /** The page header stores its count in 16 bits. */
  const PAGE_COUNT_LIMIT := 65536

  function TotalLen(keys: seq<Key>): (n: nat)
  {
    if keys == [] then 0 else |keys[0]| + TotalLen(keys[1..])
  }

  /** The key lists of the leaf pages that BuildPages writes. */
  function Chunks(keys: seq<Key>): (parts: seq<seq<Key>>)
    decreases |keys|
  {
    if keys == [] then []
    else if |keys| == 1 || TotalLen(keys) <= MAX_RAW_SIZE then [keys]
    else Chunks(keys[..|keys| / 2]) + Chunks(keys[|keys| / 2..])
  }

  /** Chunks is a partition of its input into nonempty runs. */
  lemma {:induction false} ChunksPartition(keys: seq<Key>)
    ensures Flatten(Chunks(keys)) == keys
    ensures forall part :: part in Chunks(keys) ==> part != []
    ensures keys != [] ==> Chunks(keys) != []
    decreases |keys|
  {
    if keys == [] {
    } else if |keys| == 1 || TotalLen(keys) <= MAX_RAW_SIZE {
      FlattenSingle(keys);
    } else {
      var mid := |keys| / 2;
      ChunksPartition(keys[..mid]);
      ChunksPartition(keys[mid..]);
      FlattenConcat(Chunks(keys[..mid]), Chunks(keys[mid..]));
      assert keys == keys[..mid] + keys[mid..];
    }
  }

  lemma {:induction false} TotalLenAtLeast(keys: seq<Key>)
    requires forall k :: k in keys ==> 9 <= |k|
    ensures 9 * |keys| <= TotalLen(keys)
  {
    if keys != [] {
      assert keys[0] in keys && forall k :: k in keys[1..] ==> k in keys;
      TotalLenAtLeast(keys[1..]);
    }
  }

  /** With keys of at least nine bytes no leaf page ever reaches the 16-bit count limit. */
  lemma {:induction false} ChunksFit(keys: seq<Key>)
    requires forall k :: k in keys ==> 9 <= |k|
    ensures forall part :: part in Chunks(keys) ==> |part| < PAGE_COUNT_LIMIT
    decreases |keys|
  {
    if keys == [] {
    } else if |keys| == 1 || TotalLen(keys) <= MAX_RAW_SIZE {
      TotalLenAtLeast(keys);
    } else {
      var mid := |keys| / 2;
      assert forall k :: k in keys[..mid] || k in keys[mid..] ==> k in keys;
      ChunksFit(keys[..mid]);
      ChunksFit(keys[mid..]);
    }
  }

  /** A chunk holds one key or at most 512 KiB of keys, and a list that fits is one chunk. */
  lemma {:induction false} ChunksSized(keys: seq<Key>)
    ensures forall part :: part in Chunks(keys) ==> |part| == 1 || TotalLen(part) <= 524_288
    ensures keys != [] && TotalLen(keys) <= 524_288 ==> Chunks(keys) == [keys]
    decreases |keys|
  {
    if |keys| > 1 && TotalLen(keys) > MAX_RAW_SIZE {
      ChunksSized(keys[..|keys| / 2]);
      ChunksSized(keys[|keys| / 2..]);
    }
  }

  // ---- index pages ----

  function CommonPrefixLen(a: Key, b: Key): (n: nat)
    ensures n <= |a| && n <= |b| && a[..n] == b[..n]
    ensures n < |a| && n < |b| ==> a[n] != b[n]
  {
    if a == [] || b == [] || a[0] != b[0] then 0
    else
      var n := 1 + CommonPrefixLen(a[1..], b[1..]);
      assert a[..n] == [a[0]] + a[1..][..n - 1] && b[..n] == [b[0]] + b[1..][..n - 1];
      n
  }

  /** Number of bytes of the unsigned LEB128 form of n. */
  function VarintLen(n: nat): (len: nat)
    ensures 1 <= len
  {
    if n < 128 then 1 else 1 + VarintLen(n / 128)
  }

  /** Bytes taken by index entries with these keys, the key before them being `prev`. */
  function EntriesSize(prev: Key, keys: seq<Key>): (n: nat)
    decreases |keys|
  {
    if keys == [] then 0
    else
      var p := CommonPrefixLen(prev, keys[0]);
      VarintLen(p) + VarintLen(|keys[0]| - p) + (|keys[0]| - p) + 16 + EntriesSize(keys[0], keys[1..])
  }

  /** Length of SerializeIndexPage on entries with these keys. */
  function IndexPageSize(keys: seq<Key>): (n: nat)
  {
    2 + EntriesSize([], keys)
  }

  lemma {:induction false} EntriesSizeAtLeast(prev: Key, keys: seq<Key>)
    ensures 18 * |keys| <= EntriesSize(prev, keys)
    decreases |keys|
  {
    if keys != [] {
      EntriesSizeAtLeast(keys[0], keys[1..]);
    }
  }

  lemma {:induction false} EntriesSizeAtMost(prev: Key, keys: seq<Key>)
    requires forall k :: k in keys ==> |k| < 65536
    ensures EntriesSize(prev, keys) <= 65557 * |keys|
    decreases |keys|
  {
    if keys != [] {
      assert keys[0] in keys && forall k :: k in keys[1..] ==> k in keys;
      EntriesSizeAtMost(keys[0], keys[1..]);
      var p := CommonPrefixLen(prev, keys[0]);
      VarintLenSmall(p);
      VarintLenSmall(|keys[0]| - p);
    }
  }

  lemma VarintLenSmall(n: nat)
    requires n < 65536
    ensures VarintLen(n) <= 3
  {
    assert VarintLen(n) == if n < 128 then 1 else 1 + VarintLen(n / 128);
    assert n / 128 < 512;
    assert n / 128 / 128 < 128;
  }
}
