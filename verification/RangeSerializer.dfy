/**
 * ContainedRangeMapSerializer: a tree of ranges as one block of bytes, with the children of every
 * node as a map from their high addresses. Entries are the bytes that their own serializer writes.
 */
module RangeSerializer {
  import opened Bytes
  import opened ContainedRanges
  import opened MapLayout

  type Node = Tree<seq<byte>>

  /** ContainedRangeMapSerializer::SizeOf. */
  function SizeOf(t: Node): nat
    decreases t, 1
  {
    8 + |t.entry| + 4 + 4 + KidsSize(t.kids, |t.kids|)
  }

  /** The table slots and the records of the first `n` children. */
  function KidsSize(kids: seq<Node>, n: nat): nat
    requires n <= |kids|
    decreases kids, 0, n
  {
    if n == 0 then 0 else KidsSize(kids, n - 1) + 4 + 8 + SizeOf(kids[n - 1])
  }

  /** The bytes of a node: base address, size of the entry, entry, and the map of its children. */
  function Encode(t: Node): (r: seq<byte>)
    decreases t, 1
  {
    LE(t.base, 8) + LE(Low32(|t.entry|), 4) + t.entry + MapBytes(Highs(t.kids), Records(t.kids))
  }

  function Highs(kids: seq<Node>): (r: seq<nat>)
    ensures |r| == |kids| && forall i :: 0 <= i < |kids| ==> r[i] == kids[i].high
  {
    seq(|kids|, i requires 0 <= i < |kids| => kids[i].high)
  }

  function Records(kids: seq<Node>): (r: seq<seq<byte>>)
    ensures |r| == |kids| && forall i :: 0 <= i < |kids| ==> r[i] == Encode(kids[i])
    decreases kids, 0
  {
    seq(|kids|, i requires 0 <= i < |kids| => Encode(kids[i]))
  }

  /** SizeOf is exactly the number of bytes of the record. */
  lemma {:induction false} SizeOfCorrect(t: Node)
    ensures |Encode(t)| == SizeOf(t)
    decreases t, 1
  {
    KidsSizeCorrect(t.kids, |t.kids|);
  }

  lemma {:induction false} KidsSizeCorrect(kids: seq<Node>, n: nat)
    requires n <= |kids|
    ensures KidsSize(kids, n) == 12 * n + Total(Records(kids), n)
    decreases kids, 0, n
  {
    hide Encode;
    if n > 0 {
      KidsSizeCorrect(kids, n - 1);
      SizeOfCorrect(kids[n - 1]);
    }
  }

  /** ContainedRangeMapSerializer::Write: fill the buffer from `dest`; return where the next record goes. */
  method Write(t: Node, buf: array<byte>, dest: nat) returns (end: nat)
    requires dest + |Encode(t)| <= buf.Length
    modifies buf
    ensures end == dest + |Encode(t)|
    ensures buf[..] == Put(old(buf[..]), dest, Encode(t))
    decreases t, 1
  {
    hide MapBytes;
    hide Put;
    hide LE;
    ghost var s, base, size := buf[..], LE(t.base, 8), LE(Low32(|t.entry|), 4);
    ghost var kids := MapBytes(Highs(t.kids), Records(t.kids));
    end := WriteBytes(buf, dest, LE(t.base, 8));
    PutJoin(s, dest, base, end, size);
    end := WriteBytes(buf, end, LE(Low32(|t.entry|), 4));
    PutJoin(s, dest, base + size, end, t.entry);
    end := WriteBytes(buf, end, t.entry);
    PutJoin(s, dest, base + size + t.entry, end, kids);
    end := WriteKids(t.kids, buf, end);
  }

  /** One round of the loop over the children: offset, key and record of `t`. */
  method WriteKid(t: Node, buf: array<byte>, slot: nat, offset: nat, keyAddress: nat, dest: nat)
    returns (keyAddress': nat, dest': nat)
    requires slot + 4 <= buf.Length && keyAddress + 8 <= buf.Length && dest + |Encode(t)| <= buf.Length
    modifies buf
    ensures keyAddress' == keyAddress + 8 && dest' == dest + |Encode(t)|
    ensures buf[..] == Put(Put(Put(old(buf[..]), slot, LE(offset, 4)), keyAddress, LE(t.high, 8)), dest, Encode(t))
    decreases t, 2
  {
    hide Encode;
    hide Put;
    hide LE;
    var _ := WriteBytes(buf, slot, LE(offset, 4));
    keyAddress' := WriteBytes(buf, keyAddress, LE(t.high, 8));
    dest' := Write(t, buf, dest);
  }

  method WriteKids(kids: seq<Node>, buf: array<byte>, mapAddress: nat) returns (dest: nat)
    requires mapAddress + MapSize(Records(kids)) <= buf.Length
    modifies buf
    ensures dest == mapAddress + MapSize(Records(kids))
    ensures buf[..] == Put(old(buf[..]), mapAddress, MapBytes(Highs(kids), Records(kids)))
    decreases kids, 0
  {
    hide Encode;
    hide Put;
    hide LE;
    hide Flatten;
    hide Filled;
    hide Records;
    hide Highs;
    hide Offsets;
    hide Table4;
    hide Table8;
    hide Total;
    ghost var n, s0 := |kids|, buf[..];
    ghost var a, b, c := Table4(Offsets(Records(kids))), Table8(Highs(kids)), Records(kids);
    Table4Total(Offsets(c), n);
    Table8Total(Highs(kids), n);
    var offsets := WriteBytes(buf, mapAddress, LE(Low32(|kids|), 4));
    ghost var s := buf[..];
    var keyAddress := offsets + 4 * |kids|;
    dest := keyAddress + 8 * |kids|;
    ghost var k, d := keyAddress, dest;
    FilledNone(s, offsets, a, k, b, d, c);
    for i := 0 to |kids|
      invariant keyAddress == k + 8 * i && dest == d + Total(c, i)
      invariant Room(s, offsets, a, k, b, d, c)
      invariant buf[..] == Filled(s, offsets, a, k, b, d, c, i)
    {
      TableEntries(Highs(kids), c, i);
      FilledStep(s, offsets, a, k, b, d, c, i, offsets + 4 * i, keyAddress, dest);
      var offset := Low32(dest - mapAddress);
      assert offset == Low32(Start(c, i));
      keyAddress, dest := WriteKid(kids[i], buf, offsets + 4 * i, offset, keyAddress, dest);
    }
    FilledAll(s, offsets, a, k, b, d, c);
    PutJoin(s0, mapAddress, LE(Low32(n), 4), offsets, Flatten(a) + Flatten(b) + Flatten(c));
  }
}
