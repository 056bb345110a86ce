/** The byte format of pages: prefix compression with unsigned LEB128 lengths.  Lengths are machine
    integers when they are read: sixty-four bits that wrap around. */
module PageCodec {
  import opened Bytes
  import opened MachineInts
  import opened PageSplit

  // ---- varints ----

  /** Unsigned LEB128. */
  function Varint(n: nat): (s: seq<byte>)
    ensures |s| == VarintLen(n)
  {
    if n < 128 then [n] else [128 + n % 128] + Varint(n / 128)
  }

  method WriteVarint(buf: seq<byte>, value: nat) returns (out: seq<byte>)
    ensures out == buf + Varint(value)
  {
    out := buf;
    var v := value;
    while v >= 128
      invariant out + Varint(v) == buf + Varint(value)
    {
      assert Varint(v) == [128 + v % 128] + Varint(v / 128);
      out := out + [128 + v % 128];
      v := v / 128;
    }
    out := out + [v];
  }

  /** A value read from the head of some bytes, and the number of bytes it took. */
  datatype VarintRead = BadVarint | VarintRead(value: int, size: nat)

  /** Reads the varint at the head of `d`; `shift` is the bit position reached so far. */
  function ParseVarint(d: seq<byte>, shift: nat): (r: VarintRead)
    ensures r.VarintRead? ==> 1 <= r.size <= |d| && r.value >= 0
    decreases |d|
  {
    if d == [] then BadVarint
    else if d[0] < 128 then VarintRead(d[0], 1)
    else if shift + 7 >= 64 then BadVarint
    else
      var r := ParseVarint(d[1..], shift + 7);
      if r.BadVarint? then BadVarint else VarintRead(d[0] - 128 + 128 * r.value, 1 + r.size)
  }

  function Pow2(n: nat): (p: nat)
    ensures p > 0
  {
    if n == 0 then 1 else 2 * Pow2(n - 1)
  }

  lemma Pow2Seven(n: nat)
    ensures Pow2(n + 7) == 128 * Pow2(n)
  {
    assert Pow2(n + 7) == 2 * Pow2(n + 6) == 4 * Pow2(n + 5) == 8 * Pow2(n + 4);
    assert Pow2(n + 4) == 2 * Pow2(n + 3) == 4 * Pow2(n + 2) == 8 * Pow2(n + 1);
  }

  /** A varint as a machine integer: bits beyond the sixty-fourth are lost, the sixty-fourth is the sign. */
  function Machine(r: VarintRead): (m: VarintRead)
  {
    if r.BadVarint? then BadVarint else VarintRead(Wrap64(r.value), r.size)
  }

  /** The loop over the bytes, adding 7 bits at a time in machine arithmetic. */
  method ReadVarint(data: seq<byte>, start: nat) returns (res: VarintRead)
    requires start <= |data|
    ensures res == Machine(ParseVarint(data[start..], 0))
  {
    hide ParseVarint; hide Pow2; hide Wrap64;
    var shift: nat, bits: int, offset := 0, 0, start;
    ghost var value: nat := 0;
    ghost var target := ParseVarint(data[start..], 0);
    assert 0 * Pow2(0) == 0;
    ShiftedByZero(target);
    while true
      invariant start <= offset <= |data|
      invariant bits == Wrap64(value)
      invariant shift < 64
      invariant target == Shifted(ParseVarint(data[offset..], shift), value, shift, offset - start)
      decreases |data| - offset
    {
      VarintStep(data, offset, shift, value, offset - start);
      if offset >= |data| {
        return BadVarint;
      }
      var b := data[offset];
      offset := offset + 1;
      WrapAdd(value, (b % 128) * Pow2(shift));
      bits := Wrap64(bits + (b % 128) * Pow2(shift));
      value := value + (b % 128) * Pow2(shift);
      if b < 128 {
        return VarintRead(bits, offset - start);
      }
      shift := shift + 7;
      if shift >= 64 {
        return BadVarint;
      }
    }
  }

  /** The value of a read that continues one with `value` and `size` already seen. */
  ghost function Shifted(r: VarintRead, value: nat, shift: nat, size: nat): VarintRead
  {
    if r.BadVarint? then BadVarint else VarintRead(value + r.value * Pow2(shift), size + r.size)
  }

  lemma ShiftedByZero(r: VarintRead)
    ensures Shifted(r, 0, 0, 0) == r
  {
  }

  lemma VarintStep(data: seq<byte>, offset: nat, shift: nat, value: nat, size: nat)
    requires offset <= |data|
    ensures offset == |data| ==> Shifted(ParseVarint(data[offset..], shift), value, shift, size) == BadVarint
    ensures offset < |data| && data[offset] < 128 ==>
      Shifted(ParseVarint(data[offset..], shift), value, shift, size)
      == VarintRead(value + (data[offset] % 128) * Pow2(shift), size + 1)
    ensures offset < |data| && data[offset] >= 128 && shift + 7 >= 64 ==>
      Shifted(ParseVarint(data[offset..], shift), value, shift, size) == BadVarint
    ensures offset < |data| && data[offset] >= 128 && shift + 7 < 64 ==>
      Shifted(ParseVarint(data[offset..], shift), value, shift, size)
      == Shifted(ParseVarint(data[offset + 1..], shift + 7), value + (data[offset] % 128) * Pow2(shift), shift + 7, size + 1)
  {
    hide Pow2;
    if offset < |data| {
      var d := data[offset..];
      assert d[1..] == data[offset + 1..] && d[0] == data[offset];
      Pow2Seven(shift);
      if d[0] >= 128 && shift + 7 < 64 {
        var r := ParseVarint(d[1..], shift + 7);
        if r.VarintRead? {
          Distribute(d[0] - 128, r.value, Pow2(shift));
        }
      }
    }
  }

  lemma Distribute(b: nat, v: nat, p: nat)
    ensures (b + 128 * v) * p == b * p + v * (128 * p)
  {
  }

  /** A varint below 2^63 reads back, whatever follows it. */
  lemma {:induction false} VarintRoundTrip(n: nat, shift: nat, rest: seq<byte>)
    requires shift + 7 * (VarintLen(n) - 1) < 64
    ensures ParseVarint(Varint(n) + rest, shift) == VarintRead(n, VarintLen(n))
    decreases n
  {
    if n >= 128 {
      assert (Varint(n) + rest)[1..] == Varint(n / 128) + rest;
      VarintRoundTrip(n / 128, shift + 7, rest);
    }
  }

  function Pow128(k: nat): (p: nat)
    ensures p > 0
  {
    if k == 0 then 1 else 128 * Pow128(k - 1)
  }

  lemma {:induction false} VarintLenBound(n: nat, k: nat)
    requires k >= 1 && n < Pow128(k)
    ensures VarintLen(n) <= k
    decreases k
  {
    if n >= 128 {
      assert k > 1;
      assert n / 128 < Pow128(k - 1);
      VarintLenBound(n / 128, k - 1);
    }
  }

  lemma VarintLenBelow63(n: nat)
    requires n < TWO_63
    ensures 7 * (VarintLen(n) - 1) < 64
  {
    assert Pow128(9) == TWO_63;
    VarintLenBound(n, 9);
  }

  // ---- one entry ----

  /** What reading an entry of a page comes to: a key, an error, or a fault of the program. */
  datatype EntryRead = BadEntry | FaultEntry | EntryRead(key: Key, size: nat)

  /** Reads one entry: shared prefix length, suffix length, suffix.  A prefix length beyond
      the previous key is cut to it.  `len` is the length of the whole page, of which `d` is the rest.
      Lengths that are negative as machine integers, or that lead past the largest one, are faults. */
  function ParseEntry(d: seq<byte>, len: nat, prev: Key): (r: EntryRead)
    requires |d| <= len < TWO_63
    ensures r.EntryRead? ==> r.size <= |d|
  {
    var p := Machine(ParseVarint(d, 0));
    if p.BadVarint? then BadEntry
    else
      var s := Machine(ParseVarint(d[p.size..], 0));
      if s.BadVarint? then BadEntry
      else
        var start := p.size + s.size;
        if s.value < 0 || len - |d| + start + s.value >= TWO_63 then FaultEntry
        else if start + s.value > |d| then BadEntry
        else if p.value < 0 then FaultEntry
        else
          var plen := if p.value > |prev| then |prev| else p.value;
          EntryRead(prev[..plen] + d[start..start + s.value], start + s.value)
  }

  function EntryBytes(prev: Key, k: Key): (s: seq<byte>)
  {
    var p := CommonPrefixLen(prev, k);
    Varint(p) + Varint(|k| - p) + k[p..]
  }

  lemma EntryRoundTrip(prev: Key, k: Key, rest: seq<byte>, len: nat)
    requires |k| < TWO_63 && |EntryBytes(prev, k) + rest| <= len < TWO_63
    ensures ParseEntry(EntryBytes(prev, k) + rest, len, prev) == EntryRead(k, |EntryBytes(prev, k)|)
  {
    hide CommonPrefixLen; hide ParseVarint; hide Varint; hide VarintLen; hide Wrap64; hide ParseEntry;
    var p := CommonPrefixLen(prev, k);
    var a, b, c := Varint(p), Varint(|k| - p), k[p..];
    var d := a + b + c + rest;
    InParts(a, b, c, rest);
    VarintLenBelow63(p);
    VarintRoundTrip(p, 0, b + c + rest);
    VarintLenBelow63(|k| - p);
    VarintRoundTrip(|k| - p, 0, c + rest);
    EntryFromLengths(d, len, prev, p, |a|, |k| - p, |b|);
    assert prev[..p] + k[p..] == k;
  }

  lemma InParts(a: seq<byte>, b: seq<byte>, c: seq<byte>, rest: seq<byte>)
    ensures
      var d := a + b + c + rest;
      d == a + (b + c + rest) && d[|a|..] == b + (c + rest) && d[|a| + |b|..|a| + |b| + |c|] == c
  {
  }

  /** An entry with lengths in range decodes to the shared prefix and the suffix. */
  lemma EntryFromLengths(d: seq<byte>, len: nat, prev: Key, p: nat, psize: nat, n: nat, nsize: nat)
    requires |d| <= len < TWO_63 && p <= |prev| && p < TWO_63 && n < TWO_63 && psize + nsize + n <= |d|
    requires ParseVarint(d, 0) == VarintRead(p, psize) && ParseVarint(d[psize..], 0) == VarintRead(n, nsize)
    ensures ParseEntry(d, len, prev)
      == EntryRead(prev[..p] + d[psize + nsize..psize + nsize + n], psize + nsize + n)
  {
    hide ParseVarint; hide Wrap64;
  }

  /** One entry of the page at `offset`, given the key before it. */
  method ReadEntry(data: seq<byte>, offset: nat, prev: Key) returns (res: EntryRead)
    requires offset <= |data| < TWO_63
    ensures res == ParseEntry(data[offset..], |data|, prev)
  {
    hide ParseVarint; hide Wrap64;
    ghost var d := data[offset..];
    var p := ReadVarint(data, offset);
    if p.BadVarint? {
      return BadEntry;
    }
    assert d[p.size..] == data[offset + p.size..];
    var s := ReadVarint(data, offset + p.size);
    if s.BadVarint? {
      return BadEntry;
    }
    var start := offset + p.size + s.size;
    var extent := Wrap64(start + s.value);
    Overflowing(start, s.value);
    if extent > |data| {
      return BadEntry;
    }
    if extent < start || p.value < 0 {
      return FaultEntry;
    }
    var plen := if p.value > |prev| then |prev| else p.value;
    assert d[p.size + s.size..p.size + s.size + s.value] == data[start..extent];
    return EntryRead(prev[..plen] + data[start..extent], extent - offset);
  }

  /** A sum of a position and a machine integer wraps to something negative, or not at all. */
  lemma Overflowing(start: nat, x: int)
    requires start < TWO_63 && -TWO_63 <= x < TWO_63
    ensures start + x < TWO_63 ==> Wrap64(start + x) == start + x
    ensures start + x >= TWO_63 ==> Wrap64(start + x) == start + x - TWO_64 < 0
  {
  }

  // ---- leaf pages ----

  datatype PageRead = BadPage | FaultPage | PageRead(keys: seq<Key>)

  function Be16(n: nat): (s: seq<byte>)
    requires n < 65536
    ensures |s| == 2
  {
    [n / 256, n % 256]
  }

  function KeyEntries(prev: Key, keys: seq<Key>): (s: seq<byte>)
    decreases |keys|
  {
    if keys == [] then [] else EntryBytes(prev, keys[0]) + KeyEntries(keys[0], keys[1..])
  }

  function PageBytes(keys: seq<Key>): (s: seq<byte>)
  {
    Be16(|keys| % PAGE_COUNT_LIMIT) + KeyEntries([], keys)
  }

  method SerializePage(keys: seq<Key>) returns (out: seq<byte>)
    ensures out == PageBytes(keys)
  {
    out := Be16(|keys| % PAGE_COUNT_LIMIT);
    ghost var whole := PageBytes(keys);
    hide PageBytes; hide EntryBytes; hide CommonPrefixLen; hide Varint; hide KeyEntries;
    var prev := [];
    assert keys[0..] == keys;
    for i := 0 to |keys|
      invariant out + KeyEntries(prev, keys[i..]) == whole
    {
      ghost var before := out;
      var plen := CommonPrefixLen(prev, keys[i]);
      var suffix := keys[i][plen..];
      out := WriteVarint(out, plen);
      out := WriteVarint(out, |suffix|);
      out := out + suffix;
      EntryWritten(before, out, prev, keys[i]);
      KeyEntriesStep(before, prev, keys, i);
      prev := keys[i];
    }
    NoEntries(prev, keys);
  }

  lemma NoEntries(prev: Key, keys: seq<Key>)
    ensures KeyEntries(prev, keys[|keys|..]) == []
  {
  }

  lemma KeyEntriesStep(before: seq<byte>, prev: Key, keys: seq<Key>, i: nat)
    requires i < |keys|
    ensures before + KeyEntries(prev, keys[i..]) == before + EntryBytes(prev, keys[i]) + KeyEntries(keys[i], keys[i + 1..])
  {
    hide EntryBytes;
    assert keys[i..][0] == keys[i] && keys[i..][1..] == keys[i + 1..];
  }

  lemma EntryWritten(before: seq<byte>, after: seq<byte>, prev: Key, k: Key)
    requires
      var p := CommonPrefixLen(prev, k);
      after == before + Varint(p) + Varint(|k[p..]|) + k[p..]
    ensures after == before + EntryBytes(prev, k)
  {
  }

  function ParseKeys(d: seq<byte>, len: nat, prev: Key, count: nat): (r: PageRead)
    requires |d| <= len < TWO_63
    ensures r.PageRead? ==> |r.keys| == count
    decreases count
  {
    if count == 0 then PageRead([])
    else
      match ParseEntry(d, len, prev)
      case BadEntry => BadPage
      case FaultEntry => FaultPage
      case EntryRead(key, size) => Prepend([key], ParseKeys(d[size..], len, key, count - 1))
  }

  /** What the loops of both decoders advance by. */
  lemma ParseKeysStep(data: seq<byte>, offset: nat, prev: Key, n: nat)
    requires offset <= |data| < TWO_63 && n > 0
    ensures
      var e := ParseEntry(data[offset..], |data|, prev);
      var r := ParseKeys(data[offset..], |data|, prev, n);
      && (e.BadEntry? ==> r == BadPage)
      && (e.FaultEntry? ==> r == FaultPage)
      && (e.EntryRead? ==> r == Prepend([e.key], ParseKeys(data[offset + e.size..], |data|, e.key, n - 1)))
  {
    hide ParseEntry;
    var e := ParseEntry(data[offset..], |data|, prev);
    if e.EntryRead? {
      assert data[offset..][e.size..] == data[offset + e.size..];
    }
  }

  lemma NoMoreKeys(d: seq<byte>, len: nat, prev: Key, out: seq<Key>)
    requires |d| <= len < TWO_63
    ensures Prepend(out, ParseKeys(d, len, prev, 0)) == PageRead(out)
  {
    assert out + [] == out;
  }

  function Prepend(done: seq<Key>, r: PageRead): (p: PageRead)
  {
    if r.PageRead? then PageRead(done + r.keys) else r
  }

  lemma PrependNothing(r: PageRead)
    ensures Prepend([], r) == r
  {
    if r.PageRead? {
      assert [] + r.keys == r.keys;
    }
  }

  lemma PrependTwice(done: seq<Key>, x: Key, r: PageRead)
    ensures Prepend(done, Prepend([x], r)) == Prepend(done + [x], r)
  {
    if r.PageRead? {
      assert done + ([x] + r.keys) == done + [x] + r.keys;
    }
  }

  function ParsePage(data: seq<byte>): (r: PageRead)
    requires |data| < TWO_63
  {
    if |data| < 2 then BadPage else ParseKeys(data[2..], |data|, [], data[0] as int * 256 + data[1])
  }

  method DeserializePage(data: seq<byte>) returns (res: PageRead)
    requires |data| < TWO_63
    ensures res == ParsePage(data)
  {
    if |data| < 2 {
      return BadPage;
    }
    res := DecodeEntries(data, data[0] as int * 256 + data[1]);
  }

  method DecodeEntries(data: seq<byte>, count: nat) returns (res: PageRead)
    requires 2 <= |data| < TWO_63
    ensures res == ParseKeys(data[2..], |data|, [], count)
  {
    hide ParseEntry; hide ParseKeys; hide Prepend;
    var out: seq<Key> := [];
    var offset := 2;
    var prev: Key := [];
    ghost var target := ParseKeys(data[2..], |data|, [], count);
    PrependNothing(target);
    for i := 0 to count
      invariant 2 <= offset <= |data|
      invariant target == Prepend(out, ParseKeys(data[offset..], |data|, prev, count - i))
    {
      ParseKeysStep(data, offset, prev, count - i);
      PrependStops(out);
      var e := ReadEntry(data, offset, prev);
      if e.BadEntry? {
        return BadPage;
      }
      if e.FaultEntry? {
        return FaultPage;
      }
      PrependTwice(out, e.key, ParseKeys(data[offset + e.size..], |data|, e.key, count - i - 1));
      out := out + [e.key];
      prev := e.key;
      offset := offset + e.size;
    }
    NoMoreKeys(data[offset..], |data|, prev, out);
    return PageRead(out);
  }

  lemma PrependStops(out: seq<Key>)
    ensures Prepend(out, BadPage) == BadPage && Prepend(out, FaultPage) == FaultPage
  {
  }

  /** Entries read back in order, the key before the first being any `prev`. */
  lemma {:induction false} KeyEntriesRoundTrip(prev: Key, keys: seq<Key>, len: nat, n: nat)
    requires n <= |keys| && |KeyEntries(prev, keys)| <= len < TWO_63
    requires forall k :: k in keys ==> |k| < TWO_63
    ensures ParseKeys(KeyEntries(prev, keys), len, prev, n) == PageRead(keys[..n])
    decreases n
  {
    hide EntryBytes; hide ParseEntry;
    if n > 0 {
      assert keys[0] in keys && forall x :: x in keys[1..] ==> x in keys;
      var rest := KeyEntries(keys[0], keys[1..]);
      KeyEntriesRoundTrip(keys[0], keys[1..], len, n - 1);
      EntryRoundTrip(prev, keys[0], rest, len);
      assert (EntryBytes(prev, keys[0]) + rest)[|EntryBytes(prev, keys[0])|..] == rest;
      assert [keys[0]] + keys[1..][..n - 1] == keys[..n];
    } else {
      assert keys[..0] == [];
    }
  }

  lemma HeaderParses(n: nat, entries: seq<byte>)
    requires n < PAGE_COUNT_LIMIT && |entries| + 2 < TWO_63
    ensures ParsePage(Be16(n) + entries) == ParseKeys(entries, |entries| + 2, [], n)
  {
    hide ParseKeys; hide Be16; hide ParsePage;
    Be16Value(n);
    var head := Be16(n);
    PageAfterHeader(head[0], head[1], entries);
    assert head == [head[0], head[1]];
  }

  lemma PageAfterHeader(a: byte, b: byte, entries: seq<byte>)
    requires |entries| + 2 < TWO_63
    ensures ParsePage([a, b] + entries) == ParseKeys(entries, |entries| + 2, [], a as int * 256 + b as int)
  {
    hide ParseKeys; hide ParsePage;
    var d := [a, b] + entries;
    PageUnfolds(d);
    assert d[2..] == entries;
  }

  lemma PageUnfolds(d: seq<byte>)
    requires 2 <= |d| < TWO_63
    ensures ParsePage(d) == ParseKeys(d[2..], |d|, [], d[0] as int * 256 + d[1] as int)
  {
    hide ParseKeys;
  }

  lemma Be16Value(n: nat)
    requires n < 65536
    ensures Be16(n)[0] as int * 256 + Be16(n)[1] == n
  {
  }

  /** The page of the keys fits a slice, and so do the keys. */
  ghost predicate InMemory(keys: seq<Key>)
  {
    |PageBytes(keys)| < TWO_63 && forall k :: k in keys ==> |k| < TWO_63
  }

  /** A leaf page reads back the keys it was written from exactly when their number fits
      the 16-bit count; otherwise only the first `count mod 65536` keys come back. */
  lemma PageRoundTrip(keys: seq<Key>)
    requires InMemory(keys)
    ensures ParsePage(PageBytes(keys)) == PageRead(keys[..|keys| % PAGE_COUNT_LIMIT])
    ensures ParsePage(PageBytes(keys)) == PageRead(keys) <==> |keys| < PAGE_COUNT_LIMIT
  {
    hide ParseKeys; hide KeyEntries; hide ParsePage;
    var n := |keys| % PAGE_COUNT_LIMIT;
    HeaderParses(n, KeyEntries([], keys));
    KeyEntriesRoundTrip([], keys, |PageBytes(keys)|, n);
    if |keys| < PAGE_COUNT_LIMIT {
      assert keys[..n] == keys;
    } else {
      assert |keys[..n]| < |keys|;
    }
  }

  // ---- when a decoder faults ----

  /** Reading one entry faults exactly when a length is negative as a machine integer or the end of the
      suffix passes the largest machine integer. */
  lemma EntryFaults(d: seq<byte>, len: nat, prev: Key)
    requires |d| <= len < TWO_63
    ensures
      var p := Machine(ParseVarint(d, 0));
      ParseEntry(d, len, prev).FaultEntry? <==>
        && p.VarintRead?
        && var s := Machine(ParseVarint(d[p.size..], 0));
           && s.VarintRead?
           && var start := len - |d| + p.size + s.size;
              s.value < 0 || start + s.value >= TWO_63 || (p.value < 0 && start + s.value <= len)
  {
    hide ParseVarint; hide Wrap64;
  }

  /** A page faults exactly when one of its entries is reached and faults. */
  lemma {:induction false} PageFaults(d: seq<byte>, len: nat, prev: Key, count: nat)
    requires |d| <= len < TWO_63
    ensures ParseKeys(d, len, prev, count).FaultPage? <==> exists i: nat :: i < count && FaultsAt(d, len, prev, i)
    decreases count
  {
    hide ParseEntry; hide FaultsAt;
    if count > 0 {
      var e := ParseEntry(d, len, prev);
      FaultsFirst(d, len, prev);
      if e.EntryRead? {
        PageFaults(d[e.size..], len, e.key, count - 1);
        if ParseKeys(d, len, prev, count).FaultPage? {
          var i: nat :| i < count - 1 && FaultsAt(d[e.size..], len, e.key, i);
          FaultsLater(d, len, prev, i);
        }
        if i: nat :| i < count && FaultsAt(d, len, prev, i) {
          FaultsLater(d, len, prev, i - 1);
        }
      } else {
        forall i: nat | i > 0
          ensures !FaultsAt(d, len, prev, i)
        {
          FaultsLater(d, len, prev, i - 1);
        }
      }
    }
  }

  lemma FaultsFirst(d: seq<byte>, len: nat, prev: Key)
    requires |d| <= len < TWO_63
    ensures FaultsAt(d, len, prev, 0) <==> ParseEntry(d, len, prev).FaultEntry?
  {
    hide ParseEntry;
  }

  lemma FaultsLater(d: seq<byte>, len: nat, prev: Key, i: nat)
    requires |d| <= len < TWO_63
    ensures
      var e := ParseEntry(d, len, prev);
      FaultsAt(d, len, prev, i + 1) <==> e.EntryRead? && FaultsAt(d[e.size..], len, e.key, i)
  {
    hide ParseEntry;
  }

  /** The i-th entry is reached and faults. */
  ghost predicate FaultsAt(d: seq<byte>, len: nat, prev: Key, i: nat)
    requires |d| <= len < TWO_63
    decreases i
  {
    var e := ParseEntry(d, len, prev);
    if i == 0 then e.FaultEntry? else e.EntryRead? && FaultsAt(d[e.size..], len, e.key, i - 1)
  }

  /** Every page of one entry whose suffix length ends past the largest machine integer faults. */
  lemma LongSuffixFaults(n: nat, rest: seq<byte>)
    requires n < TWO_63 && var len := 3 + |Varint(n)| + |rest|; len < TWO_63 <= 3 + |Varint(n)| + n
    ensures ParsePage([0, 1] + Varint(0) + Varint(n) + rest) == FaultPage
  {
    hide ParseVarint; hide Varint; hide Wrap64; hide VarintLen;
    var zero := Varint(0);
    var data := [0, 1] + zero + Varint(n) + rest;
    var d := data[2..];
    ZeroVarint();
    assert d == zero + (Varint(n) + rest) && d[1..] == Varint(n) + rest;
    VarintRoundTrip(0, 0, Varint(n) + rest);
    VarintLenBelow63(n);
    VarintRoundTrip(n, 0, rest);
    assert ParseEntry(d, |data|, []) == FaultEntry;
    assert ParseKeys(d, |data|, [], 1) == FaultPage;
  }

  lemma ZeroVarint()
    ensures Varint(0) == [0] && VarintLen(0) == 1
  {
  }

  /** Twelve bytes that fault: one entry whose suffix length is the largest machine integer. */
  lemma TwelveBytesFault()
    ensures ParsePage([0, 1, 0, 255, 255, 255, 255, 255, 255, 255, 255, 127]) == FaultPage
  {
    hide ParsePage; hide Varint;
    var n := TWO_63 - 1;
    LargestVarint();
    ZeroVarint();
    LongSuffixFaults(n, []);
    assert [0, 1] + Varint(0) + Varint(n) + [] == [0, 1, 0, 255, 255, 255, 255, 255, 255, 255, 255, 127];
  }

  lemma LargestVarint()
    ensures Varint(TWO_63 - 1) == [255, 255, 255, 255, 255, 255, 255, 255, 127]
  {
    assert Varint(127) == [127] && Pow128(1) == 128;
    VarintOnes(1); VarintOnes(2); VarintOnes(3); VarintOnes(4); VarintOnes(5); VarintOnes(6); VarintOnes(7); VarintOnes(8);
    hide Varint;
    assert Pow128(9) == TWO_63;
  }

  lemma VarintOnes(k: nat)
    requires k > 0
    ensures Varint(Pow128(k + 1) - 1) == [255] + Varint(Pow128(k) - 1)
  {
    var m, n := Pow128(k), Pow128(k + 1) - 1;
    assert n == 128 * (m - 1) + 127;
    assert n / 128 == m - 1 && n % 128 == 127;
  }

  // ---- whole key lists ----

  /** A leaf as it is written: its first key and its bytes. */
  datatype BuiltPage = BuiltPage(first: Key, bytes: seq<byte>)

  /** The pages a key list is written to. */
  function BuildPages(keys: seq<Key>): (pages: seq<BuiltPage>)
    decreases |keys|
  {
    if keys == [] then []
    else if |keys| == 1 || TotalLen(keys) <= MAX_RAW_SIZE then [BuiltPage(keys[0], PageBytes(keys))]
    else BuildPages(keys[..|keys| / 2]) + BuildPages(keys[|keys| / 2..])
  }

  /** The decodings of a list of pages, one after the other. */
  function ParsePages(pages: seq<BuiltPage>): (r: PageRead)
    requires PagesInMemory(pages)
  {
    if pages == [] then PageRead([])
    else
      var p := ParsePage(pages[0].bytes);
      if p.PageRead? then Prepend(p.keys, ParsePages(pages[1..])) else p
  }

  predicate PagesInMemory(pages: seq<BuiltPage>)
  {
    forall i :: 0 <= i < |pages| ==> |pages[i].bytes| < TWO_63
  }

  lemma {:induction false} ParsePagesConcat(a: seq<BuiltPage>, b: seq<BuiltPage>)
    requires PagesInMemory(a) && PagesInMemory(b)
    requires ParsePages(a).PageRead? && ParsePages(b).PageRead?
    ensures PagesInMemory(a + b)
    ensures ParsePages(a + b) == PageRead(ParsePages(a).keys + ParsePages(b).keys)
  {
    hide ParsePages; hide ParsePage; hide PagesInMemory;
    PagesJoin(a, b);
    if a == [] {
      NoPages();
      assert a + b == b;
      PrependNothing(ParsePages(b));
    } else {
      FirstPage(a);
      FirstPage(a + b);
      assert (a + b)[1..] == a[1..] + b && (a + b)[0] == a[0];
      ParsePagesConcat(a[1..], b);
      var first := ParsePage(a[0].bytes).keys;
      assert first + (ParsePages(a[1..]).keys + ParsePages(b).keys)
          == first + ParsePages(a[1..]).keys + ParsePages(b).keys;
    }
  }

  lemma PagesJoin(a: seq<BuiltPage>, b: seq<BuiltPage>)
    requires PagesInMemory(a) && PagesInMemory(b)
    ensures PagesInMemory(a + b)
    ensures forall i :: 0 <= i < |a + b| ==> |(a + b)[i].bytes| < TWO_63
  {
  }

  lemma FirstPage(a: seq<BuiltPage>)
    requires PagesInMemory(a) && a != []
    ensures |a[0].bytes| < TWO_63
    ensures
      var p := ParsePage(a[0].bytes);
      PagesInMemory(a[1..]) && ParsePages(a) == if p.PageRead? then Prepend(p.keys, ParsePages(a[1..])) else p
  {
    hide ParsePage;
  }

  predicate PagesFit(keys: seq<Key>)
  {
    forall part :: part in Chunks(keys) ==> |part| < PAGE_COUNT_LIMIT
  }

  /** A key list a process can hold: slices of its size, each of which takes some bytes itself. */
  predicate Holdable(keys: seq<Key>)
  {
    |keys| < 0x200_0000_0000_0000 && forall k :: k in keys ==> |k| < 0x4000_0000_0000_0000
  }

  lemma {:induction false} KeyEntriesBound(prev: Key, keys: seq<Key>)
    requires forall k :: k in keys ==> |k| < TWO_63
    ensures |KeyEntries(prev, keys)| <= TotalLen(keys) + 18 * |keys|
    decreases |keys|
  {
    hide VarintLen; hide CommonPrefixLen; hide Varint;
    if keys != [] {
      assert keys[0] in keys && forall x :: x in keys[1..] ==> x in keys;
      KeyEntriesBound(keys[0], keys[1..]);
      var p := CommonPrefixLen(prev, keys[0]);
      VarintLenBound63(p);
      VarintLenBound63(|keys[0]| - p);
      EntryBytesLen(prev, keys[0]);
    }
  }

  lemma VarintLenBound63(n: nat)
    requires n < TWO_63
    ensures VarintLen(n) <= 9
  {
    assert Pow128(9) == TWO_63;
    VarintLenBound(n, 9);
  }

  /** The page of a key list that goes on one page fits a slice. */
  lemma OnePageInMemory(keys: seq<Key>)
    requires Holdable(keys) && keys != [] && (|keys| == 1 || TotalLen(keys) <= MAX_RAW_SIZE)
    ensures InMemory(keys)
  {
    hide KeyEntries;
    KeyEntriesBound([], keys);
    if |keys| == 1 {
      assert TotalLen(keys) == |keys[0]| + TotalLen([]);
      assert keys[0] in keys;
    }
  }

  lemma OnePageRoundTrip(keys: seq<Key>, first: Key)
    requires InMemory(keys)
    ensures PagesInMemory([BuiltPage(first, PageBytes(keys))])
    ensures ParsePages([BuiltPage(first, PageBytes(keys))]) == PageRead(keys[..|keys| % PAGE_COUNT_LIMIT])
  {
    hide PageBytes; hide ParsePage;
    PageRoundTrip(keys);
    var page := [BuiltPage(first, PageBytes(keys))];
    assert page[1..] == [];
    var got := keys[..|keys| % PAGE_COUNT_LIMIT];
    assert got + [] == got;
  }

  /** BuildPages loses nothing exactly when no page gets 65536 keys or more; its pages never fault. */
  lemma {:induction false} BuildPagesRoundTrip(keys: seq<Key>)
    requires Holdable(keys)
    ensures PagesInMemory(BuildPages(keys)) && ParsePages(BuildPages(keys)).PageRead?
    ensures ParsePages(BuildPages(keys)) == PageRead(keys) <==> PagesFit(keys)
    ensures PagesFit(keys) || |ParsePages(BuildPages(keys)).keys| < |keys|
    decreases |keys|
  {
    hide ParsePages; hide PageBytes; hide TotalLen; hide InMemory;
    if keys == [] {
      NoPages();
    } else if |keys| == 1 || TotalLen(keys) <= MAX_RAW_SIZE {
      OnePageInMemory(keys);
      OnePageRoundTrip(keys, keys[0]);
      assert Chunks(keys) == [keys];
      if |keys| < PAGE_COUNT_LIMIT {
        assert keys[..|keys| % PAGE_COUNT_LIMIT] == keys;
      }
    } else {
      var mid := |keys| / 2;
      var l, r := keys[..mid], keys[mid..];
      assert keys == l + r;
      assert forall k :: k in l || k in r ==> k in keys;
      BuildPagesRoundTrip(l);
      BuildPagesRoundTrip(r);
      ParsePagesConcat(BuildPages(l), BuildPages(r));
      assert Chunks(keys) == Chunks(l) + Chunks(r);
      assert PagesFit(keys) <==> PagesFit(l) && PagesFit(r);
      var pl, pr := ParsePages(BuildPages(l)).keys, ParsePages(BuildPages(r)).keys;
      assert PagesFit(l) ==> pl == l;
      assert PagesFit(r) ==> pr == r;
    }
  }

  lemma NoPages()
    ensures PagesInMemory([]) && ParsePages([]) == PageRead([])
  {
  }

  /** Keys of nine bytes or more always survive. */
  lemma BuildPagesLossless(keys: seq<Key>)
    requires Holdable(keys) && forall k :: k in keys ==> 9 <= |k|
    ensures PagesInMemory(BuildPages(keys)) && ParsePages(BuildPages(keys)) == PageRead(keys)
  {
    ChunksFit(keys);
    BuildPagesRoundTrip(keys);
  }

  // ---- the arena decoder ----

  /** A leaf held as one buffer of concatenated keys and one more 32-bit offset than keys. */
  datatype FlatLeaf = FlatLeaf(buf: seq<byte>, offs: seq<int>)

  datatype FlatRead = BadFlat | FaultFlat | FlatRead(leaf: FlatLeaf)

  datatype KeyRead = FaultKey | KeyRead(key: Key)

  /** The accessor of key i: a slice between two offsets, a fault if there is none. */
  function FlatKey(f: FlatLeaf, i: nat): (r: KeyRead)
    requires i + 1 < |f.offs|
  {
    if 0 <= f.offs[i] <= f.offs[i + 1] <= |f.buf| then KeyRead(f.buf[f.offs[i]..f.offs[i + 1]]) else FaultKey
  }

  /** The leaf holds the keys one after the other, with the offsets cut to 32 bits. */
  ghost predicate Holds(f: FlatLeaf, keys: seq<Key>)
  {
    && f.buf == Flatten(keys)
    && |f.offs| == |keys| + 1
    && forall i :: 0 <= i <= |keys| ==> f.offs[i] == Wrap32(|Flatten(keys[..i])|)
  }

  lemma FlatAppend(f: FlatLeaf, keys: seq<Key>, k: Key)
    requires Holds(f, keys)
    ensures Holds(FlatLeaf(f.buf + k, f.offs + [Wrap32(|f.buf + k|)]), keys + [k])
  {
    hide Flatten; hide Wrap32;
    var all := keys + [k];
    FlattenConcat(keys, [k]);
    FlattenSingle(k);
    forall i | 0 <= i <= |all|
      ensures (f.offs + [Wrap32(|f.buf + k|)])[i] == Wrap32(|Flatten(all[..i])|)
    {
      if i <= |keys| {
        assert all[..i] == keys[..i];
      } else {
        assert all[..i] == all;
      }
    }
  }

  /** Offsets never exceed the length of what they delimit. */
  lemma FlattenGrows(keys: seq<Key>, i: nat, j: nat)
    requires i <= j <= |keys|
    ensures |Flatten(keys[..i])| <= |Flatten(keys[..j])| <= |Flatten(keys)|
  {
    hide Flatten;
    assert keys[..j] == keys[..i] + keys[i..j];
    FlattenConcat(keys[..i], keys[i..j]);
    assert keys == keys[..j] + keys[j..];
    FlattenConcat(keys[..j], keys[j..]);
  }

  /** While the keys stay below 2^31 bytes every key reads back. */
  lemma FlatReads(f: FlatLeaf, keys: seq<Key>, i: nat)
    requires Holds(f, keys) && |f.buf| < TWO_31 && i < |keys|
    ensures FlatKey(f, i) == KeyRead(keys[i])
  {
    hide Flatten; hide Wrap32;
    FlattenCut(keys, i);
    FlattenGrows(keys, i, i + 1);
  }

  /** The first offset that does not fit 32 bits spoils the key it ends. */
  lemma {:induction false} FlatSpoiled(f: FlatLeaf, keys: seq<Key>, n: nat) returns (i: nat)
    requires Holds(f, keys) && 0 < n <= |keys| && |Flatten(keys[..n])| >= TWO_31
    ensures i < |keys| && FlatKey(f, i) != KeyRead(keys[i])
    decreases n
  {
    hide Flatten; hide Wrap32;
    if n > 1 && |Flatten(keys[..n - 1])| >= TWO_31 {
      i := FlatSpoiled(f, keys, n - 1);
    } else {
      i := n - 1;
      FlattenNone<byte>();
      assert keys[..0] == [];
      FlattenCut(keys, i);
      var a, b := |Flatten(keys[..i])|, |Flatten(keys[..n])|;
      WrapsBelow(b);
      assert b - a == |keys[i]|;
    }
  }

  lemma WrapsBelow(x: nat)
    requires x >= TWO_31
    ensures Wrap32(x) < x
  {
  }

  /** The arena answers with exactly its keys if and only if they are less than 2^31 bytes in all. */
  lemma FlatExact(f: FlatLeaf, keys: seq<Key>)
    requires Holds(f, keys)
    ensures |f.offs| == |keys| + 1
    ensures (forall i :: 0 <= i < |keys| ==> FlatKey(f, i) == KeyRead(keys[i])) <==> |f.buf| < TWO_31
  {
    hide Flatten; hide FlatKey; hide Holds;
    HoldsSizes(f, keys);
    FlattenNone<byte>();
    if |f.buf| < TWO_31 {
      forall i | 0 <= i < |keys|
        ensures FlatKey(f, i) == KeyRead(keys[i])
      {
        FlatReads(f, keys, i);
      }
    } else {
      assert keys[..|keys|] == keys;
      var i := FlatSpoiled(f, keys, |keys|);
    }
  }

  lemma HoldsSizes(f: FlatLeaf, keys: seq<Key>)
    requires Holds(f, keys)
    ensures |f.offs| == |keys| + 1 && f.buf == Flatten(keys)
  {
  }

  /** The arena decoder accepts the same pages as the nested one and holds the same keys. */
  method DecodePageFlat(data: seq<byte>) returns (res: FlatRead)
    requires |data| < TWO_63
    ensures res.BadFlat? <==> ParsePage(data).BadPage?
    ensures res.FaultFlat? <==> ParsePage(data).FaultPage?
    ensures res.FlatRead? ==> Holds(res.leaf, ParsePage(data).keys)
  {
    hide Holds;
    if |data| < 2 {
      return BadFlat;
    }
    res := DecodeEntriesFlat(data, data[0] as int * 256 + data[1]);
  }

  method DecodeEntriesFlat(data: seq<byte>, count: nat) returns (res: FlatRead)
    requires 2 <= |data| < TWO_63
    ensures res.BadFlat? <==> ParseKeys(data[2..], |data|, [], count).BadPage?
    ensures res.FaultFlat? <==> ParseKeys(data[2..], |data|, [], count).FaultPage?
    ensures res.FlatRead? ==> Holds(res.leaf, ParseKeys(data[2..], |data|, [], count).keys)
  {
    hide ParseEntry; hide ParseKeys; hide Prepend; hide Holds;
    var leaf := FlatLeaf([], [0]);
    var offset := 2;
    var prevStart, prevEnd := 0, 0;
    ghost var out: seq<Key> := [];
    ghost var target := ParseKeys(data[2..], |data|, [], count);
    PrependNothing(target);
    FlatEmpty();
    for i := 0 to count
      invariant 2 <= offset <= |data|
      invariant 0 <= prevStart <= prevEnd <= |leaf.buf|
      invariant Holds(leaf, out)
      invariant target == Prepend(out, ParseKeys(data[offset..], |data|, leaf.buf[prevStart..prevEnd], count - i))
    {
      ParseKeysStep(data, offset, leaf.buf[prevStart..prevEnd], count - i);
      PrependStops(out);
      var e := ReadEntry(data, offset, leaf.buf[prevStart..prevEnd]);
      if e.BadEntry? {
        return BadFlat;
      }
      if e.FaultEntry? {
        return FaultFlat;
      }
      FlatAppend(leaf, out, e.key);
      PrependTwice(out, e.key, ParseKeys(data[offset + e.size..], |data|, e.key, count - i - 1));
      out := out + [e.key];
      prevStart := |leaf.buf|;
      leaf := FlatLeaf(leaf.buf + e.key, leaf.offs + [Wrap32(|leaf.buf + e.key|)]);
      prevEnd := |leaf.buf|;
      offset := offset + e.size;
      assert leaf.buf[prevStart..prevEnd] == e.key;
    }
    NoMoreKeys(data[offset..], |data|, leaf.buf[prevStart..prevEnd], out);
    return FlatRead(leaf);
  }

  lemma FlatEmpty()
    ensures Holds(FlatLeaf([], [0]), [])
  {
  }

  lemma {:induction false} TotalIsFlattened(keys: seq<Key>)
    ensures |Flatten(keys)| == TotalLen(keys)
  {
    if keys != [] {
      TotalIsFlattened(keys[1..]);
    }
  }

  /** The pages BuildPages writes never fault and decode to less than 2^31 bytes, so the arena answers
      with exactly the keys of the page. */
  lemma {:induction false} BuiltPagesFlat(keys: seq<Key>, i: nat)
    requires Holdable(keys) && i < |BuildPages(keys)| && forall k :: k in keys ==> |k| < TWO_31
    ensures
      var data := BuildPages(keys)[i].bytes;
      |data| < TWO_63 && ParsePage(data).PageRead? && |Flatten(ParsePage(data).keys)| < TWO_31
    decreases |keys|
  {
    hide PageBytes; hide InMemory; hide ParsePage; hide Flatten;
    if |keys| == 1 || TotalLen(keys) <= MAX_RAW_SIZE {
      OnePageInMemory(keys);
      InMemorySize(keys);
      PageRoundTrip(keys);
      TotalIsFlattened(keys);
      FlattenGrows(keys, |keys| % PAGE_COUNT_LIMIT, |keys|);
      if |keys| == 1 {
        assert keys[0] in keys && keys[1..] == [];
        assert TotalLen(keys) == |keys[0]| + TotalLen([]);
      }
    } else {
      var mid := |keys| / 2;
      var l, r := keys[..mid], keys[mid..];
      assert forall k :: k in l || k in r ==> k in keys;
      var n := |BuildPages(l)|;
      if i < n {
        BuiltPagesFlat(l, i);
      } else {
        BuiltPagesFlat(r, i - n);
      }
    }
  }

  lemma InMemorySize(keys: seq<Key>)
    requires InMemory(keys)
    ensures |PageBytes(keys)| < TWO_63
  {
  }

  // ---- index pages ----

  /** An index entry on disk: a boundary key and the 16 bytes of a page identifier. */
  datatype DiskEntry = DiskEntry(key: Key, uuid: seq<byte>)

  datatype IndexRead = BadIndex | FaultIndex | IndexRead(entries: seq<DiskEntry>)

  predicate WfDisk(es: seq<DiskEntry>)
  {
    forall e :: e in es ==> |e.uuid| == 16 && |e.key| < TWO_63
  }

  function DiskKeys(es: seq<DiskEntry>): (ks: seq<Key>)
  {
    if es == [] then [] else [es[0].key] + DiskKeys(es[1..])
  }

  function IndexEntries(prev: Key, es: seq<DiskEntry>): (s: seq<byte>)
    decreases |es|
  {
    if es == [] then [] else EntryBytes(prev, es[0].key) + es[0].uuid + IndexEntries(es[0].key, es[1..])
  }

  function IndexPageBytes(es: seq<DiskEntry>): (s: seq<byte>)
  {
    Be16(|es| % PAGE_COUNT_LIMIT) + IndexEntries([], es)
  }

  /** Reads one index entry, of which sixteen bytes must follow the suffix. */
  function ParseIndexEntry(d: seq<byte>, len: nat, prev: Key): (r: EntryRead)
    requires |d| <= len < TWO_63
    ensures r.EntryRead? ==> r.size + 16 <= |d|
  {
    var p := Machine(ParseVarint(d, 0));
    if p.BadVarint? then BadEntry
    else
      var s := Machine(ParseVarint(d[p.size..], 0));
      if s.BadVarint? then BadEntry
      else
        var start := p.size + s.size;
        if len - |d| + start + s.value + 16 >= TWO_63 then FaultEntry
        else if start + s.value + 16 > |d| then BadEntry
        else if s.value < 0 || p.value < 0 then FaultEntry
        else
          var plen := if p.value > |prev| then |prev| else p.value;
          EntryRead(prev[..plen] + d[start..start + s.value], start + s.value)
  }

  function ParseIndexEntries(d: seq<byte>, len: nat, prev: Key, count: nat): (r: IndexRead)
    requires |d| <= len < TWO_63
    decreases count
  {
    if count == 0 then IndexRead([])
    else
      match ParseIndexEntry(d, len, prev)
      case BadEntry => BadIndex
      case FaultEntry => FaultIndex
      case EntryRead(key, size) =>
        After([DiskEntry(key, d[size..size + 16])], ParseIndexEntries(d[size + 16..], len, key, count - 1))
  }

  function ParseIndexPage(data: seq<byte>): (r: IndexRead)
    requires |data| < TWO_63
  {
    if |data| < 2 then BadIndex else ParseIndexEntries(data[2..], |data|, [], data[0] as int * 256 + data[1])
  }

  /** One index entry of the page at `offset`: the check adds the sixteen bytes in machine arithmetic. */
  method ReadIndexEntry(data: seq<byte>, offset: nat, prev: Key) returns (res: EntryRead)
    requires offset <= |data| < TWO_63
    ensures res == ParseIndexEntry(data[offset..], |data|, prev)
  {
    hide ParseVarint; hide Wrap64;
    ghost var d := data[offset..];
    var p := ReadVarint(data, offset);
    if p.BadVarint? {
      return BadEntry;
    }
    assert d[p.size..] == data[offset + p.size..];
    var s := ReadVarint(data, offset + p.size);
    if s.BadVarint? {
      return BadEntry;
    }
    var start := offset + p.size + s.size;
    var extent := Wrap64(start + s.value + 16);
    Overflowing16(start, s.value);
    if extent > |data| {
      return BadEntry;
    }
    if p.value < 0 || s.value < 0 || start + s.value + 16 > |data| {
      return FaultEntry;
    }
    var plen := if p.value > |prev| then |prev| else p.value;
    assert d[p.size + s.size..p.size + s.size + s.value] == data[start..start + s.value];
    return EntryRead(prev[..plen] + data[start..start + s.value], start + s.value - offset);
  }

  lemma Overflowing16(start: nat, x: int)
    requires start < TWO_63 && -TWO_63 <= x < TWO_63
    ensures start + x + 16 < TWO_63 ==> Wrap64(start + x + 16) == start + x + 16
    ensures start + x + 16 >= TWO_63 ==> Wrap64(start + x + 16) == start + x + 16 - TWO_64 < 16
  {
  }

  method SerializeIndexPage(es: seq<DiskEntry>) returns (out: seq<byte>)
    ensures out == IndexPageBytes(es)
  {
    out := Be16(|es| % PAGE_COUNT_LIMIT);
    ghost var whole := IndexPageBytes(es);
    hide IndexPageBytes; hide EntryBytes; hide CommonPrefixLen; hide Varint; hide IndexEntries;
    var prev := [];
    assert es[0..] == es;
    for i := 0 to |es|
      invariant out + IndexEntries(prev, es[i..]) == whole
    {
      ghost var before := out;
      var plen := CommonPrefixLen(prev, es[i].key);
      var suffix := es[i].key[plen..];
      out := WriteVarint(out, plen);
      out := WriteVarint(out, |suffix|);
      out := out + suffix;
      EntryWritten(before, out, prev, es[i].key);
      out := out + es[i].uuid;
      IndexEntriesStep(before, prev, es, i);
      prev := es[i].key;
    }
    NoIndexEntries(prev, es);
  }

  lemma NoIndexEntries(prev: Key, es: seq<DiskEntry>)
    ensures IndexEntries(prev, es[|es|..]) == []
  {
  }

  lemma IndexEntriesStep(before: seq<byte>, prev: Key, es: seq<DiskEntry>, i: nat)
    requires i < |es|
    ensures before + IndexEntries(prev, es[i..])
         == before + EntryBytes(prev, es[i].key) + es[i].uuid + IndexEntries(es[i].key, es[i + 1..])
  {
    hide EntryBytes;
    assert es[i..][0] == es[i] && es[i..][1..] == es[i + 1..];
  }

  function After(done: seq<DiskEntry>, r: IndexRead): (p: IndexRead)
  {
    if r.IndexRead? then IndexRead(done + r.entries) else r
  }

  lemma AfterNone(r: IndexRead, done: seq<DiskEntry>)
    ensures After([], r) == r && After(done, BadIndex) == BadIndex && After(done, FaultIndex) == FaultIndex
    ensures After(done, IndexRead([])) == IndexRead(done)
  {
    if r.IndexRead? {
      assert [] + r.entries == r.entries;
    }
    assert done + [] == done;
  }

  lemma AfterTwice(done: seq<DiskEntry>, x: DiskEntry, r: IndexRead)
    ensures After(done, After([x], r)) == After(done + [x], r)
  {
    if r.IndexRead? {
      assert done + ([x] + r.entries) == done + [x] + r.entries;
    }
  }

  method DeserializeIndexPage(data: seq<byte>) returns (res: IndexRead)
    requires |data| < TWO_63
    ensures res == ParseIndexPage(data)
  {
    if |data| < 2 {
      return BadIndex;
    }
    res := DecodeIndexEntries(data, data[0] as int * 256 + data[1]);
  }

  method DecodeIndexEntries(data: seq<byte>, count: nat) returns (res: IndexRead)
    requires 2 <= |data| < TWO_63
    ensures res == ParseIndexEntries(data[2..], |data|, [], count)
  {
    hide ParseIndexEntry; hide ParseIndexEntries; hide After;
    var out: seq<DiskEntry> := [];
    var offset := 2;
    var prev: Key := [];
    ghost var target := ParseIndexEntries(data[2..], |data|, [], count);
    AfterNone(target, out);
    for i := 0 to count
      invariant 2 <= offset <= |data|
      invariant target == After(out, ParseIndexEntries(data[offset..], |data|, prev, count - i))
    {
      AfterNone(target, out);
      var e := ReadIndexEntry(data, offset, prev);
      IndexStep(data, offset, prev, out, count - i);
      if e.BadEntry? {
        return BadIndex;
      }
      if e.FaultEntry? {
        return FaultIndex;
      }
      var next := offset + e.size + 16;
      out := out + [DiskEntry(e.key, data[offset + e.size..next])];
      prev := e.key;
      offset := next;
    }
    AfterNone(target, out);
    NoMoreIndex(data[offset..], |data|, prev);
    return IndexRead(out);
  }

  lemma NoMoreIndex(d: seq<byte>, len: nat, prev: Key)
    requires |d| <= len < TWO_63
    ensures ParseIndexEntries(d, len, prev, 0) == IndexRead([])
  {
  }

  lemma IndexStep(data: seq<byte>, offset: nat, prev: Key, out: seq<DiskEntry>, n: nat)
    requires offset <= |data| < TWO_63 && n > 0
    ensures
      var e := ParseIndexEntry(data[offset..], |data|, prev);
      var r := After(out, ParseIndexEntries(data[offset..], |data|, prev, n));
      && (e.BadEntry? ==> r == BadIndex)
      && (e.FaultEntry? ==> r == FaultIndex)
      && (e.EntryRead? ==>
        r == After(out + [DiskEntry(e.key, data[offset + e.size..offset + e.size + 16])],
                   ParseIndexEntries(data[offset + e.size + 16..], |data|, e.key, n - 1)))
  {
    hide ParseIndexEntry;
    var d := data[offset..];
    var e := ParseIndexEntry(d, |data|, prev);
    if e.EntryRead? {
      assert d[e.size + 16..] == data[offset + e.size + 16..];
      assert d[e.size..e.size + 16] == data[offset + e.size..offset + e.size + 16];
      AfterTwice(out, DiskEntry(e.key, d[e.size..e.size + 16]), ParseIndexEntries(d[e.size + 16..], |data|, e.key, n - 1));
    }
  }

  /** Where sixteen bytes follow, an index entry reads as a leaf entry does. */
  lemma IndexAsLeaf(d: seq<byte>, len: nat, prev: Key)
    requires |d| <= len < TWO_63
    requires var e := ParseEntry(d, len, prev); e.EntryRead? && e.size + 16 <= |d|
    ensures ParseIndexEntry(d, len, prev) == ParseEntry(d, len, prev)
  {
    hide ParseVarint; hide Wrap64;
  }

  lemma IndexEntryParses(prev: Key, e: DiskEntry, rest: seq<byte>, len: nat, n: nat)
    requires n > 0 && |e.uuid| == 16 && |e.key| < TWO_63
    requires |EntryBytes(prev, e.key) + e.uuid + rest| <= len < TWO_63
    requires ParseIndexEntries(rest, len, e.key, n - 1).IndexRead?
    ensures ParseIndexEntries(EntryBytes(prev, e.key) + e.uuid + rest, len, prev, n)
         == IndexRead([e] + ParseIndexEntries(rest, len, e.key, n - 1).entries)
  {
    hide EntryBytes; hide ParseEntry; hide ParseIndexEntry;
    var head := EntryBytes(prev, e.key);
    var d := head + e.uuid + rest;
    assert d == head + (e.uuid + rest);
    EntryRoundTrip(prev, e.key, e.uuid + rest, len);
    IndexAsLeaf(d, len, prev);
    assert d[|head|..|head| + 16] == e.uuid;
    assert d[|head| + 16..] == rest;
  }

  lemma {:induction false} IndexEntriesRoundTrip(prev: Key, es: seq<DiskEntry>, len: nat, n: nat)
    requires n <= |es| && WfDisk(es) && |IndexEntries(prev, es)| <= len < TWO_63
    ensures ParseIndexEntries(IndexEntries(prev, es), len, prev, n) == IndexRead(es[..n])
    decreases n
  {
    hide EntryBytes; hide ParseIndexEntry; hide ParseIndexEntries; hide IndexEntries;
    FirstEntries(prev, es, len);
    if n > 0 {
      IndexEntriesRoundTrip(es[0].key, es[1..], len, n - 1);
      IndexEntryParses(prev, es[0], IndexEntries(es[0].key, es[1..]), len, n);
      assert es[..n] == [es[0]] + es[1..][..n - 1];
    } else {
      NoMoreIndex(IndexEntries(prev, es), len, prev);
      assert es[..0] == [];
    }
  }

  lemma FirstEntries(prev: Key, es: seq<DiskEntry>, len: nat)
    requires WfDisk(es) && |IndexEntries(prev, es)| <= len
    ensures es != [] ==>
      && |es[0].uuid| == 16 && |es[0].key| < TWO_63 && WfDisk(es[1..])
      && IndexEntries(prev, es) == EntryBytes(prev, es[0].key) + es[0].uuid + IndexEntries(es[0].key, es[1..])
      && |IndexEntries(es[0].key, es[1..])| <= len
  {
    hide EntryBytes;
    if es != [] {
      assert es[0] in es && forall x :: x in es[1..] ==> x in es;
    }
  }

  /** An index page reads back exactly when its entries fit the 16-bit count. */
  lemma IndexPageRoundTrip(es: seq<DiskEntry>)
    requires WfDisk(es) && |IndexPageBytes(es)| < TWO_63
    ensures ParseIndexPage(IndexPageBytes(es)) == IndexRead(es[..|es| % PAGE_COUNT_LIMIT])
    ensures ParseIndexPage(IndexPageBytes(es)) == IndexRead(es) <==> |es| < PAGE_COUNT_LIMIT
  {
    hide ParseIndexEntries; hide IndexEntries; hide Be16;
    var n := |es| % PAGE_COUNT_LIMIT;
    var d := IndexPageBytes(es);
    Be16Value(n);
    assert d[2..] == IndexEntries([], es);
    assert d[0] == Be16(n)[0] && d[1] == Be16(n)[1];
    IndexEntriesRoundTrip([], es, |d|, n);
    if |es| < PAGE_COUNT_LIMIT {
      assert es[..n] == es;
    } else {
      assert |es[..n]| < |es|;
    }
  }

  lemma EntryBytesLen(prev: Key, k: Key)
    ensures
      var p := CommonPrefixLen(prev, k);
      |EntryBytes(prev, k)| == VarintLen(p) + VarintLen(|k| - p) + (|k| - p)
  {
    hide CommonPrefixLen; hide Varint; hide VarintLen;
  }

  lemma {:induction false} IndexEntriesSize(prev: Key, es: seq<DiskEntry>)
    requires WfDisk(es)
    ensures |IndexEntries(prev, es)| == EntriesSize(prev, DiskKeys(es))
    decreases |es|
  {
    hide CommonPrefixLen; hide Varint; hide VarintLen; hide EntryBytes;
    if es != [] {
      assert es[0] in es && forall x :: x in es[1..] ==> x in es;
      IndexEntriesSize(es[0].key, es[1..]);
      EntryBytesLen(prev, es[0].key);
      var ks := DiskKeys(es);
      assert ks[0] == es[0].key && ks[1..] == DiskKeys(es[1..]);
    }
  }

  /** The size the splitting decisions are made on is the length of the written page. */
  lemma IndexPageSizeExact(es: seq<DiskEntry>)
    requires WfDisk(es)
    ensures |IndexPageBytes(es)| == IndexPageSize(DiskKeys(es))
  {
    hide IndexEntries; hide EntriesSize;
    IndexEntriesSize([], es);
  }
}
