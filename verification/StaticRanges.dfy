/**
 * StaticMap and StaticContainedRangeMap: looking up ranges directly in serialized bytes, without
 * rebuilding the tree. The result is proved equal to the lookup in the tree that was serialized.
 */
module StaticRanges {
  import opened Addresses
  import opened Options
  import opened Bytes
  import opened ContainedRanges
  import opened MapLayout
  import opened RangeSerializer

  /** The bytes are in memory at position `p`. */
  ghost predicate Holds(mem: seq<byte>, p: nat, bytes: seq<byte>) {
    p + |bytes| <= |mem| && mem[p..p + |bytes|] == bytes
  }

  /** A part of the bytes is in memory too, at position `q`. */
  lemma HoldsPart(mem: seq<byte>, p: nat, bytes: seq<byte>, from: nat, part: seq<byte>, q: nat)
    requires Holds(mem, p, bytes) && q == p + from
    requires from + |part| <= |bytes| && bytes[from..from + |part|] == part
    ensures Holds(mem, q, part)
  {
    forall i | 0 <= i < |part| ensures mem[q..q + |part|][i] == part[i] {
      assert part[i] == bytes[from..from + |part|][i] == bytes[from + i];
      assert mem[p..p + |bytes|][from + i] == mem[p + from + i];
    }
  }

  lemma HoldsConcat(mem: seq<byte>, p: nat, a: seq<byte>, q: nat, b: seq<byte>)
    requires Holds(mem, p, a + b) && q == p + |a|
    ensures Holds(mem, p, a) && Holds(mem, q, b)
  {
    HoldsPart(mem, p, a + b, 0, a, p);
    HoldsPart(mem, p, a + b, |a|, b, q);
  }

  lemma ReadHeld(mem: seq<byte>, p: nat, n: nat, w: nat)
    requires Holds(mem, p, LE(n, w)) && n < Pow256(w)
    ensures p + w <= |mem| && ReadLE(mem, p, w) == n
  {
    LERoundTrip(n, w);
  }

  lemma AddressWidths()
    ensures Pow256(4) == U32 && Pow256(8) == SPACE
  {
    Widths();
  }

  lemma HoldsInRow(mem: seq<byte>, p: nat, a: seq<byte>, p1: nat, b: seq<byte>, p2: nat, c: seq<byte>, p3: nat,
                   d: seq<byte>)
    requires Holds(mem, p, a + b + c + d) && p1 == p + |a| && p2 == p1 + |b| && p3 == p2 + |c|
    ensures Holds(mem, p, a) && Holds(mem, p1, b) && Holds(mem, p2, c) && Holds(mem, p3, d)
  {
    hide Holds;
    HoldsConcat(mem, p, a + b + c, p3, d);
    HoldsConcat(mem, p, a + b, p2, c);
    HoldsConcat(mem, p, a, p1, b);
  }

  lemma HoldsFour(mem: seq<byte>, m: nat, h: seq<byte>, o: nat, a: seq<byte>, k: nat, b: seq<byte>, d: nat,
                  c: seq<byte>)
    requires Holds(mem, m, h + (a + b + c)) && o == m + |h| && k == o + |a| && d == k + |b|
    ensures Holds(mem, m, h) && Holds(mem, o, a) && Holds(mem, k, b) && Holds(mem, d, c)
  {
    hide Holds;
    HoldsConcat(mem, m, h, o, a + b + c);
    HoldsConcat(mem, o, a + b, d, c);
    HoldsConcat(mem, o, a, k, b);
  }

  /** The regions of a map in memory. */
  lemma MapRegions(mem: seq<byte>, m: nat, keys: seq<nat>, parts: seq<seq<byte>>)
    requires |keys| == |parts| && Holds(mem, m, MapBytes(keys, parts))
    ensures Holds(mem, m, LE(Low32(|parts|), 4))
    ensures Holds(mem, m + 4, Flatten(Table4(Offsets(parts))))
    ensures Holds(mem, m + 4 + 4 * |parts|, Flatten(Table8(keys)))
    ensures Holds(mem, m + 4 + 12 * |parts|, Flatten(parts))
  {
    hide *;
    var n, h := |parts|, LE(Low32(|parts|), 4);
    var a, b, c := Flatten(Table4(Offsets(parts))), Flatten(Table8(keys)), Flatten(parts);
    MapBytesParts(keys, parts);
    HoldsFour(mem, m, h, m + 4, a, m + 4 + 4 * n, b, m + 4 + 12 * n, c);
  }

  /** An entry of a table in memory. */
  lemma HeldEntry(mem: seq<byte>, t: nat, table: seq<seq<byte>>, i: nat, q: nat)
    requires Holds(mem, t, Flatten(table)) && i < |table| && q == t + Total(table, i)
    ensures Holds(mem, q, table[i])
  {
    PartAt(table, i);
    HoldsPart(mem, t, Flatten(table), Total(table, i), table[i], q);
  }

  lemma StartBound(parts: seq<seq<byte>>, i: nat)
    requires i < |parts|
    ensures Start(parts, i) == 4 + 12 * |parts| + Total(parts, i) && Start(parts, i) + |parts[i]| <= MapSize(parts)
  {
    PartAt(parts, i);
  }

  /** The offset that StaticMap reads for node `i` leads to its value exactly if that starts below 2^32. */
  lemma MapValue(mem: seq<byte>, m: nat, keys: seq<nat>, parts: seq<seq<byte>>, i: nat)
    requires |keys| == |parts| && Holds(mem, m, MapBytes(keys, parts)) && i < |parts|
    ensures m + 4 + 4 * i + 4 <= |mem| && ReadLE(mem, m + 4 + 4 * i, 4) == Low32(Start(parts, i))
    ensures ReadLE(mem, m + 4 + 4 * i, 4) == Start(parts, i) <==> Start(parts, i) < U32
    ensures Holds(mem, m + Start(parts, i), parts[i])
  {
    hide *;
    MapRegions(mem, m, keys, parts);
    TableEntries(keys, parts, i);
    StartBound(parts, i);
    HeldEntry(mem, m + 4, Table4(Offsets(parts)), i, m + 4 + 4 * i);
    HeldEntry(mem, m + 4 + 12 * |parts|, parts, i, m + Start(parts, i));
    AddressWidths();
    ReadHeld(mem, m + 4 + 4 * i, Low32(Start(parts, i)), 4);
  }

  /** The key that StaticMap reads for node `i`. */
  lemma MapKey(mem: seq<byte>, m: nat, keys: seq<nat>, parts: seq<seq<byte>>, i: nat)
    requires |keys| == |parts| && Holds(mem, m, MapBytes(keys, parts)) && i < |parts| && keys[i] < SPACE
    ensures m + 4 + 4 * |parts| + 8 * i + 8 <= |mem|
    ensures ReadLE(mem, m + 4 + 4 * |parts| + 8 * i, 8) == keys[i]
  {
    hide *;
    MapRegions(mem, m, keys, parts);
    TableEntries(keys, parts, i);
    HeldEntry(mem, m + 4 + 4 * |parts|, Table8(keys), i, m + 4 + 4 * |parts| + 8 * i);
    AddressWidths();
    ReadHeld(mem, m + 4 + 4 * |parts| + 8 * i, keys[i], 8);
  }

  /** The number of nodes reads back exactly if it is below 2^32. */
  lemma MapCount(mem: seq<byte>, m: nat, keys: seq<nat>, parts: seq<seq<byte>>)
    requires |keys| == |parts| && Holds(mem, m, MapBytes(keys, parts))
    ensures m + 4 <= |mem| && ReadLE(mem, m, 4) == Low32(|parts|)
    ensures ReadLE(mem, m, 4) == |parts| <==> |parts| < U32
  {
    hide *;
    MapRegions(mem, m, keys, parts);
    AddressWidths();
    ReadHeld(mem, m, Low32(|parts|), 4);
  }

  /** StaticMap::lower_bound: binary search in the table of keys of the map at `m`. */
  method StaticLowerBound(mem: seq<byte>, m: nat, key: Address, ghost keys: seq<nat>, ghost parts: seq<seq<byte>>)
    returns (k: nat)
    requires |keys| == |parts| < U32 && Holds(mem, m, MapBytes(keys, parts))
    requires forall i :: 0 <= i < |keys| ==> keys[i] < SPACE
    requires forall i, j :: 0 <= i < j < |keys| ==> keys[i] < keys[j]
    ensures k <= |keys|
    ensures forall i :: 0 <= i < k ==> keys[i] < key
    ensures k < |keys| ==> key <= keys[k]
  {
    hide *;
    MapCount(mem, m, keys, parts);
    var numNodes := ReadLE(mem, m, 4);
    var begin, end := 0, numNodes;
    while begin < end
      invariant 0 <= begin <= end <= |keys|
      invariant forall i :: 0 <= i < begin ==> keys[i] < key
      invariant forall i :: end <= i < |keys| ==> key < keys[i]
    {
      var middle := begin + (end - begin) / 2;
      MapKey(mem, m, keys, parts, middle);
      var found := ReadLE(mem, m + 4 + 4 * numNodes + 8 * middle, 8);
      if key == found {
        return middle;
      } else if key < found {
        end := middle;
      } else {
        begin := middle + 1;
      }
    }
    return begin;
  }

  lemma EncodeParts(t: Node)
    ensures Encode(t) == LE(t.base, 8) + LE(Low32(|t.entry|), 4) + t.entry + MapBytes(Highs(t.kids), Records(t.kids))
    ensures SizeOf(t) == 12 + |t.entry| + MapSize(Records(t.kids))
  {
    KidsSizeCorrect(t.kids, |t.kids|);
  }

  /** Counts, sizes and offsets all fit 32 bits, so that each of them reads back as it was. */
  ghost predicate Fits32(t: Node)
    decreases t, 1
  {
    |t.entry| < U32 && |t.kids| < U32 && KidsFit32(t.kids)
  }

  ghost predicate KidsFit32(kids: seq<Node>)
    decreases kids, 0
  {
    forall k :: 0 <= k < |kids| ==> Start(Records(kids), k) < U32 && Fits32(kids[k])
  }

  /** A tree that takes fewer than 2^32 bytes is such a tree. */
  lemma {:induction false} SmallFits(t: Node)
    requires SizeOf(t) < U32
    ensures Fits32(t)
    decreases t
  {
    EncodeParts(t);
    assert MapSize(Records(t.kids)) < U32 && |t.entry| < U32 && |t.kids| < U32;
    forall k | 0 <= k < |t.kids| ensures Start(Records(t.kids), k) < U32 && Fits32(t.kids[k]) {
      StartBound(Records(t.kids), k);
      KidsSizeBound(t.kids, |t.kids|, k);
      SmallFits(t.kids[k]);
    }
    hide *;
    FitsMeans(t);
  }

  lemma FitsMeans(t: Node)
    ensures Fits32(t) <==> |t.entry| < U32 && |t.kids| < U32 && KidsFit32(t.kids)
    ensures KidsFit32(t.kids) <==>
            forall k :: 0 <= k < |t.kids| ==> Start(Records(t.kids), k) < U32 && Fits32(t.kids[k])
  {
    hide Start, Records;
  }

  /** The pieces of a node in memory: base address, entry and map of children. */
  lemma NodePieces(mem: seq<byte>, p: nat, t: Node)
    requires Holds(mem, p, Encode(t)) && |t.entry| < U32
    ensures p + 12 + |t.entry| <= |mem| && ReadLE(mem, p, 8) == t.base
    ensures ReadLE(mem, p + 8, 4) == |t.entry| && Holds(mem, p + 12, t.entry)
    ensures Holds(mem, p + 12 + |t.entry|, MapBytes(Highs(t.kids), Records(t.kids)))
    ensures |Highs(t.kids)| == |Records(t.kids)| == |t.kids|
  {
    hide *;
    var base, size, kids := LE(t.base, 8), LE(Low32(|t.entry|), 4), MapBytes(Highs(t.kids), Records(t.kids));
    EncodeParts(t);
    HoldsInRow(mem, p, base, p + 8, size, p + 12, t.entry, p + 12 + |t.entry|, kids);
    HeldSize(mem, p + 12, t.entry);
    AddressWidths();
    ReadHeld(mem, p, t.base, 8);
    ReadHeld(mem, p + 8, Low32(|t.entry|), 4);
  }

  lemma HeldSize(mem: seq<byte>, p: nat, bytes: seq<byte>)
    requires Holds(mem, p, bytes)
    ensures p + |bytes| <= |mem|
  {
  }

  /** One level of the lookup in the tree. */
  lemma RetrieveStep(kids: seq<Node>, address: Address, k: nat)
    requires k == LowerBound(kids, address)
    ensures Retrieve(kids, address)
         == if k == |kids| || address < kids[k].base then None
            else if Retrieve(kids[k].kids, address).None? then Some(kids[k].entry)
            else Retrieve(kids[k].kids, address)
  {
  }

  /**
   * StaticContainedRangeMap::RetrieveRange on the node at position `p` finds what RetrieveRange
   * finds in the tree. `t` is the tree that was serialized; its offsets must fit in uint32_t.
   */
  method StaticRetrieve(mem: seq<byte>, p: nat, address: Address, ghost t: Node) returns (r: Option<seq<byte>>)
    requires Holds(mem, p, Encode(t)) && Fits32(t) && Forest(t.kids)
    ensures r == Retrieve(t.kids, address)
    decreases t
  {
    hide Encode, MapBytes, Retrieve, ReadLE, Forest, Records, Start, LowerBound, Fits32, KidsFit32;
    FitsMeans(t);
    NodePieces(mem, p, t);
    ghost var keys, parts := Highs(t.kids), Records(t.kids);
    var entrySize := ReadLE(mem, p + 8, 4);
    var m := p + 12 + entrySize;
    MapCount(mem, m, keys, parts);
    HighsAscend(t.kids);
    var k := StaticLowerBound(mem, m, address, keys, parts);
    LowerBoundUnique(t.kids, address, k);
    RetrieveStep(t.kids, address, k);
    if k == ReadLE(mem, m, 4) {
      return None;
    }
    MapValue(mem, m, keys, parts, k);
    var child := m + ReadLE(mem, m + 4 + 4 * k, 4);
    ChildFits(t, k);
    FitsMeans(t.kids[k]);
    NodePieces(mem, child, t.kids[k]);
    if address < ReadLE(mem, child, 8) {
      return None;
    }
    r := StaticRetrieve(mem, child, address, t.kids[k]);
    if r.None? {
      r := Some(mem[child + 12..child + 12 + ReadLE(mem, child + 8, 4)]);
    }
  }

  /** ContainedRangeMapSerializer::Serialize, followed by a lookup in the memory that it fills. */
  method SerializeThenRetrieve(t: Node, address: Address) returns (r: Option<seq<byte>>)
    requires SizeOf(t) < U32 && Forest(t.kids)
    ensures r == Retrieve(t.kids, address)
  {
    hide Encode, SizeOf, Forest, Retrieve, Fits32, Put;
    SizeOfCorrect(t);
    SmallFits(t);
    var buf := new byte[SizeOf(t)](_ => 0);
    ghost var before := buf[..];
    var end := Write(t, buf, 0);
    PutRead(before, 0, Encode(t));
    r := StaticRetrieve(buf[..], 0, address, t);
  }

  lemma HighsAscend(kids: seq<Node>)
    requires Forest(kids)
    ensures forall i, j :: 0 <= i < j < |kids| ==> Highs(kids)[i] < Highs(kids)[j]
    ensures forall i :: 0 <= i < |kids| ==> Highs(kids)[i] < SPACE
  {
    forall i, j | 0 <= i < j < |kids| ensures Highs(kids)[i] < Highs(kids)[j] {
      assert kids[i].high < kids[j].base <= kids[j].high by {
        assert WellFormed(kids[j]);
      }
    }
  }

  lemma LowerBoundUnique(kids: seq<Node>, key: Address, k: nat)
    requires k <= |kids|
    requires forall i :: 0 <= i < k ==> Highs(kids)[i] < key
    requires k < |kids| ==> key <= Highs(kids)[k]
    ensures k == LowerBound(kids, key)
  {
    forall i | 0 <= i < k ensures kids[i].high < key {
      assert Highs(kids)[i] == kids[i].high;
    }
    assert IsLowerBound(kids, key, k);
    LowerBoundMonotone(kids, key, key, k, LowerBound(kids, key));
    LowerBoundMonotone(kids, key, key, LowerBound(kids, key), k);
  }

  lemma ChildFits(t: Node, k: nat)
    requires Forest(t.kids) && k < |t.kids|
    ensures Forest(t.kids[k].kids) && Records(t.kids)[k] == Encode(t.kids[k])
  {
    assert WellFormed(t.kids[k]);
  }

  lemma {:induction false} KidsSizeBound(kids: seq<Node>, n: nat, k: nat)
    requires k < n <= |kids|
    ensures SizeOf(kids[k]) <= KidsSize(kids, n)
  {
    if k < n - 1 {
      KidsSizeBound(kids, n - 1, k);
    }
  }

  // ---------------------------------------------------------------------------------------
  // Reading the whole tree back
  // ---------------------------------------------------------------------------------------

  /** The tree at position `p`, whose root has the given high address; None where the bytes run out. */
  function ReadNode(mem: seq<byte>, p: nat, high: Address): Option<Node>
    decreases |mem| - p, 0, 0
  {
    if p + 12 > |mem| then None
    else
      var size := ReadLE(mem, p + 8, 4);
      var m := p + 12 + size;
      if m + 4 > |mem| then None
      else
        var n := ReadLE(mem, m, 4);
        if m + 4 + 12 * n > |mem| then None
        else
          var kids := ReadKids(mem, m, n, n);
          if kids.None? then None
          else Some(Tree.Node(ReadAddress(mem, p), high, mem[p + 12..m], kids.value))
  }

  /** The first `k` of the `n` children in the map at position `m`. */
  function ReadKids(mem: seq<byte>, m: nat, n: nat, k: nat): Option<seq<Node>>
    requires k <= n && m + 4 + 12 * n <= |mem|
    decreases |mem| - m, 1, k
  {
    if k == 0 then Some([])
    else
      var before, offset := ReadKids(mem, m, n, k - 1), ReadLE(mem, m + 4 * k, 4);
      if before.None? then None
      else
        var kid := ReadNode(mem, m + offset, ReadAddress(mem, m + 4 + 4 * n + 8 * (k - 1)));
        if kid.None? then None else Some(before.value + [kid.value])
  }

  function ReadAddress(mem: seq<byte>, p: nat): Address
    requires p + 8 <= |mem|
  {
    FromLEBound(mem[p..p + 8]);
    AddressWidths();
    ReadLE(mem, p, 8)
  }

  /** Reading back what was serialized gives the tree. */
  lemma {:induction false} ReadEncoded(mem: seq<byte>, p: nat, t: Node)
    requires Holds(mem, p, Encode(t)) && Fits32(t)
    ensures ReadNode(mem, p, t.high) == Some(t)
    decreases t, |t.kids| + 1
  {
    hide *;
    FitsMeans(t);
    NodePieces(mem, p, t);
    var m, keys, parts := p + 12 + |t.entry|, Highs(t.kids), Records(t.kids);
    MapCount(mem, m, keys, parts);
    MapHeld(mem, m, keys, parts);
    ReadKidsEncoded(mem, m, t, |t.kids|);
    assert t.kids[..|t.kids|] == t.kids;
    ReadNodeMeans(mem, p, t, m);
  }

  lemma MapHeld(mem: seq<byte>, m: nat, keys: seq<nat>, parts: seq<seq<byte>>)
    requires |keys| == |parts| && Holds(mem, m, MapBytes(keys, parts))
    ensures m + 4 + 12 * |parts| <= |mem|
  {
    hide Total;
  }

  lemma ReadNodeMeans(mem: seq<byte>, p: nat, t: Node, m: nat)
    requires p + 12 <= |mem| && ReadLE(mem, p, 8) == t.base && ReadLE(mem, p + 8, 4) == |t.entry|
    requires m == p + 12 + |t.entry| && m + 4 <= |mem| && ReadLE(mem, m, 4) == |t.kids|
    requires Holds(mem, p + 12, t.entry) && m + 4 + 12 * |t.kids| <= |mem|
    requires ReadKids(mem, m, |t.kids|, |t.kids|) == Some(t.kids)
    ensures ReadNode(mem, p, t.high) == Some(t)
  {
    hide ReadKids, ReadLE;
  }

  lemma {:induction false} ReadKidsEncoded(mem: seq<byte>, m: nat, t: Node, k: nat)
    requires k <= |t.kids| && Fits32(t) && m + 4 + 12 * |t.kids| <= |mem|
    requires Holds(mem, m, MapBytes(Highs(t.kids), Records(t.kids)))
    ensures ReadKids(mem, m, |t.kids|, k) == Some(t.kids[..k])
    decreases t, k
  {
    hide *;
    if k == 0 {
      ReadNoKids(mem, m, |t.kids|);
      assert t.kids[..0] == [];
    } else {
      var i := k - 1;
      FitsMeans(t);
      ReadKidsEncoded(mem, m, t, i);
      MapValue(mem, m, Highs(t.kids), Records(t.kids), i);
      MapKey(mem, m, Highs(t.kids), Records(t.kids), i);
      KidParts(t.kids, i);
      ReadEncoded(mem, m + Start(Records(t.kids), i), t.kids[i]);
      ReadKidsNext(mem, m, |t.kids|, k, t.kids[i]);
      assert t.kids[..k] == t.kids[..i] + [t.kids[i]];
    }
  }

  lemma KidParts(kids: seq<Node>, i: nat)
    requires i < |kids|
    ensures Records(kids)[i] == Encode(kids[i]) && Highs(kids)[i] == kids[i].high < SPACE
  {
    hide Encode;
  }

  lemma ReadNoKids(mem: seq<byte>, m: nat, n: nat)
    requires m + 4 + 12 * n <= |mem|
    ensures ReadKids(mem, m, n, 0) == Some([])
  {
  }

  lemma ReadKidsNext(mem: seq<byte>, m: nat, n: nat, k: nat, kid: Node)
    requires 0 < k <= n && m + 4 + 12 * n <= |mem| && ReadKids(mem, m, n, k - 1).Some?
    requires ReadLE(mem, m + 4 + 4 * n + 8 * (k - 1), 8) == kid.high
    requires ReadNode(mem, m + ReadLE(mem, m + 4 * k, 4), kid.high) == Some(kid)
    ensures ReadKids(mem, m, n, k) == Some(ReadKids(mem, m, n, k - 1).value + [kid])
  {
    hide ReadNode, ReadLE;
  }

  /** The bytes determine the tree: two trees serialized to the same place are equal, but for the root's own key. */
  lemma BytesDetermineTree(mem: seq<byte>, p: nat, a: Node, b: Node)
    requires Holds(mem, p, Encode(a)) && Holds(mem, p, Encode(b)) && Fits32(a) && Fits32(b)
    ensures a.base == b.base && a.entry == b.entry && a.kids == b.kids
  {
    hide *;
    ReadEncoded(mem, p, a);
    ReadEncoded(mem, p, b);
    OnlyRoot(mem, p, a, b);
  }

  /** The key of the root is not in the bytes. */
  lemma OnlyRoot(mem: seq<byte>, p: nat, a: Node, b: Node)
    requires ReadNode(mem, p, a.high) == Some(a) && ReadNode(mem, p, b.high) == Some(b)
    ensures a.base == b.base && a.entry == b.entry && a.kids == b.kids
  {
    hide ReadKids, ReadLE;
  }
}
