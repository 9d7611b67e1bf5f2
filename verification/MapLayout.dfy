/**
 * The byte layout that the map serializers share and that StaticMap reads: the number of nodes,
 * a table of offsets from the start of the map, a table of keys, and the values.
 */
module MapLayout {
  import opened Bytes

  function Flatten(parts: seq<seq<byte>>): (r: seq<byte>)
    ensures |r| == Total(parts, |parts|)
  {
    if parts == [] then []
    else
      var last := |parts| - 1;
      TotalPrefix(parts, last, last);
      Flatten(parts[..last]) + parts[last]
  }

  /** How many bytes the first `n` parts take. */
  function Total(parts: seq<seq<byte>>, n: nat): nat
    requires n <= |parts|
  {
    if n == 0 then 0 else Total(parts, n - 1) + |parts[n - 1]|
  }

  lemma {:induction false} TotalPrefix(parts: seq<seq<byte>>, m: nat, n: nat)
    requires n <= m <= |parts|
    ensures Total(parts[..m], n) == Total(parts, n)
  {
    if n > 0 {
      TotalPrefix(parts, m, n - 1);
    }
  }

  lemma {:induction false} TotalMonotone(parts: seq<seq<byte>>, m: nat, n: nat)
    requires m <= n <= |parts|
    ensures Total(parts, m) <= Total(parts, n)
  {
    if m < n {
      TotalMonotone(parts, m, n - 1);
    }
  }

  lemma {:induction false} PartAt(parts: seq<seq<byte>>, i: nat)
    requires i < |parts|
    ensures Total(parts, i) + |parts[i]| <= Total(parts, |parts|)
    ensures Flatten(parts)[Total(parts, i)..Total(parts, i) + |parts[i]|] == parts[i]
  {
    var last := |parts| - 1;
    TotalPrefix(parts, last, last);
    TotalPrefix(parts, last, i);
    if i < last {
      PartAt(parts[..last], i);
      var p := Total(parts, i);
      assert Flatten(parts)[p..p + |parts[i]|] == Flatten(parts[..last])[p..p + |parts[i]|];
    }
  }

  lemma FlattenTake(parts: seq<seq<byte>>, i: nat)
    requires i < |parts|
    ensures Flatten(parts[..i + 1]) == Flatten(parts[..i]) + parts[i]
  {
    assert parts[..i + 1][..i] == parts[..i];
  }

  /** A table of integers of four bytes each. */
  function Table4(ns: seq<nat>): (r: seq<seq<byte>>)
    ensures |r| == |ns| && forall i :: 0 <= i < |ns| ==> r[i] == LE(ns[i], 4)
  {
    seq(|ns|, i requires 0 <= i < |ns| => LE(ns[i], 4))
  }

  /** A table of integers of eight bytes each. */
  function Table8(ns: seq<nat>): (r: seq<seq<byte>>)
    ensures |r| == |ns| && forall i :: 0 <= i < |ns| ==> r[i] == LE(ns[i], 8)
  {
    seq(|ns|, i requires 0 <= i < |ns| => LE(ns[i], 8))
  }

  lemma {:induction false} Table4Total(ns: seq<nat>, n: nat)
    requires n <= |ns|
    ensures Total(Table4(ns), n) == 4 * n
  {
    if n > 0 {
      Table4Total(ns, n - 1);
    }
  }

  lemma {:induction false} Table8Total(ns: seq<nat>, n: nat)
    requires n <= |ns|
    ensures Total(Table8(ns), n) == 8 * n
  {
    if n > 0 {
      Table8Total(ns, n - 1);
    }
  }

  /** The size of a map with these values. */
  function MapSize(parts: seq<seq<byte>>): nat {
    4 + 12 * |parts| + Total(parts, |parts|)
  }

  /** Where value `i` starts, from the start of the map. */
  function Start(parts: seq<seq<byte>>, i: nat): nat
    requires i <= |parts|
  {
    4 + 12 * |parts| + Total(parts, i)
  }

  /** The offsets as the source stores them, cut to uint32_t. */
  function Offsets(parts: seq<seq<byte>>): (r: seq<nat>)
    ensures |r| == |parts|
    ensures forall i :: 0 <= i < |parts| ==> r[i] == Low32(Start(parts, i))
  {
    seq(|parts|, i requires 0 <= i < |parts| => Low32(Start(parts, i)))
  }

  /** The bytes of a map from `keys` to `parts`. */
  function MapBytes(keys: seq<nat>, parts: seq<seq<byte>>): (r: seq<byte>)
    requires |keys| == |parts|
    ensures |r| == MapSize(parts)
  {
    Table4Total(Offsets(parts), |parts|);
    Table8Total(keys, |parts|);
    LE(Low32(|parts|), 4) + (Flatten(Table4(Offsets(parts))) + Flatten(Table8(keys)) + Flatten(parts))
  }

  /** The four regions of a map and the sizes of its tables. */
  lemma MapBytesParts(keys: seq<nat>, parts: seq<seq<byte>>)
    requires |keys| == |parts|
    ensures MapBytes(keys, parts)
         == LE(Low32(|parts|), 4) + (Flatten(Table4(Offsets(parts))) + Flatten(Table8(keys)) + Flatten(parts))
    ensures |Flatten(Table4(Offsets(parts)))| == 4 * |parts| && |Flatten(Table8(keys))| == 8 * |parts|
  {
    Table4Total(Offsets(parts), |parts|);
    Table8Total(keys, |parts|);
  }

  /** The entries of both tables for node `i`, and where they go. */
  lemma TableEntries(keys: seq<nat>, parts: seq<seq<byte>>, i: nat)
    requires i < |keys| == |parts|
    ensures |Offsets(parts)| == |Table4(Offsets(parts))| == |parts| && |Table8(keys)| == |keys|
    ensures Total(Table4(Offsets(parts)), i) == 4 * i && Table4(Offsets(parts))[i] == LE(Low32(Start(parts, i)), 4)
    ensures Total(Table8(keys), i) == 8 * i && Table8(keys)[i] == LE(keys[i], 8)
  {
    Table4Total(Offsets(parts), i);
    Table8Total(keys, i);
  }

  // ---------------------------------------------------------------------------------------
  // Filling three regions of a buffer side by side
  // ---------------------------------------------------------------------------------------

  /** The regions from `o`, `k` and `d` have room for `a`, `b` and `c`. */
  ghost predicate Room(s: seq<byte>, o: nat, a: seq<seq<byte>>, k: nat, b: seq<seq<byte>>, d: nat, c: seq<seq<byte>>) {
    && |a| == |b| == |c|
    && o + Total(a, |a|) <= k && k + Total(b, |b|) <= d && d + Total(c, |c|) <= |s|
  }

  /** The buffer once the first `i` parts of each region have been written. */
  ghost function Filled(s: seq<byte>, o: nat, a: seq<seq<byte>>, k: nat, b: seq<seq<byte>>,
                        d: nat, c: seq<seq<byte>>, i: nat): (r: seq<byte>)
    requires Room(s, o, a, k, b, d, c) && i <= |a|
    ensures |r| == |s|
  {
    TotalPrefix(a, i, i);
    TotalPrefix(b, i, i);
    TotalPrefix(c, i, i);
    TotalMonotone(a, i, |a|);
    TotalMonotone(b, i, |b|);
    TotalMonotone(c, i, |c|);
    Put3(s, o, Flatten(a[..i]), k, Flatten(b[..i]), d, Flatten(c[..i]))
  }

  /** Writing part `i` of each region, at `o'`, `k'` and `d'`. */
  lemma FilledStep(s: seq<byte>, o: nat, a: seq<seq<byte>>, k: nat, b: seq<seq<byte>>,
                   d: nat, c: seq<seq<byte>>, i: nat, o': nat, k': nat, d': nat)
    requires Room(s, o, a, k, b, d, c) && i < |a|
    requires o' == o + Total(a, i) && k' == k + Total(b, i) && d' == d + Total(c, i)
    ensures o' + |a[i]| <= k && k' + |b[i]| <= d && d' + |c[i]| <= |s| && Total(c, i + 1) == Total(c, i) + |c[i]|
    ensures Put(Put(Put(Filled(s, o, a, k, b, d, c, i), o', a[i]), k', b[i]), d', c[i])
            == Filled(s, o, a, k, b, d, c, i + 1)
  {
    TotalPrefix(a, i, i);
    TotalPrefix(b, i, i);
    TotalPrefix(c, i, i);
    TotalMonotone(a, i + 1, |a|);
    TotalMonotone(b, i + 1, |b|);
    TotalMonotone(c, i + 1, |c|);
    FlattenTake(a, i);
    FlattenTake(b, i);
    FlattenTake(c, i);
    Put3Grow(s, o, Flatten(a[..i]), o', a[i], k, Flatten(b[..i]), k', b[i], d, Flatten(c[..i]), d', c[i]);
  }

  lemma FilledNone(s: seq<byte>, o: nat, a: seq<seq<byte>>, k: nat, b: seq<seq<byte>>, d: nat, c: seq<seq<byte>>)
    requires Room(s, o, a, k, b, d, c)
    ensures Total(c, 0) == 0 && Filled(s, o, a, k, b, d, c, 0) == s
  {
    Put3Empty(s, o, k, d);
  }

  /** Regions that touch, all filled, are one write. */
  lemma FilledAll(s: seq<byte>, o: nat, a: seq<seq<byte>>, k: nat, b: seq<seq<byte>>, d: nat, c: seq<seq<byte>>)
    requires Room(s, o, a, k, b, d, c) && k == o + Total(a, |a|) && d == k + Total(b, |b|)
    ensures Filled(s, o, a, k, b, d, c, |a|) == Put(s, o, Flatten(a) + Flatten(b) + Flatten(c))
  {
    assert a[..|a|] == a && b[..|a|] == b && c[..|a|] == c;
    Put3Full(s, o, Flatten(a), k, Flatten(b), d, Flatten(c));
  }
}
