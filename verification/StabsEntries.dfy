/** ByteCursor and StabsReader::EntryIterator: the entries of a .stab section, in either byte order. */
module StabsEntries {
  import opened Bytes

  /** A STABS entry as it is stored. */
  datatype RawEntry = RawEntry(nameOffset: nat, kind: nat, other: nat, descriptor: int, value: nat)

  // ---------------------------------------------------------------------------------------
  // Numbers
  // ---------------------------------------------------------------------------------------

  function BE(n: nat, w: nat): (r: seq<byte>)
    ensures |r| == w
  {
    if w == 0 then [] else BE(n / 256, w - 1) + [n % 256]
  }

  function FromBE(s: seq<byte>): nat {
    if s == [] then 0 else 256 * FromBE(s[..|s| - 1]) + s[|s| - 1]
  }

  lemma {:induction false} BERoundTrip(n: nat, w: nat)
    requires n < Pow256(w)
    ensures FromBE(BE(n, w)) == n
  {
    if w > 0 {
      BERoundTrip(n / 256, w - 1);
      assert BE(n, w)[..w - 1] == BE(n / 256, w - 1);
    }
  }

  /** In a number whose bytes come in big-endian order, the first byte is the highest. */
  lemma {:induction false} HighByteFirst(b: byte, s: seq<byte>)
    ensures FromBE([b] + s) == b * Pow256(|s|) + FromBE(s)
  {
    var t := [b] + s;
    if s == [] {
      assert t[..0] == [];
    } else {
      var n := |s| - 1;
      HighByteFirst(b, s[..n]);
      assert t[..|t| - 1] == [b] + s[..n] && t[|t| - 1] == s[n];
      assert 256 * (b * Pow256(n)) == b * Pow256(n + 1);
    }
  }

  function Number(s: seq<byte>, big: bool): nat {
    if big then FromBE(s) else FromLE(s)
  }

  function Stored(n: nat, w: nat, big: bool): (r: seq<byte>)
    ensures |r| == w
  {
    if big then BE(n, w) else LE(n, w)
  }

  lemma StoredNumber(n: nat, w: nat, big: bool)
    requires n < Pow256(w)
    ensures Number(Stored(n, w, big), big) == n
  {
    if big {
      BERoundTrip(n, w);
    } else {
      LERoundTrip(n, w);
    }
  }

  /** The number that the lowest `w` bytes stand for as a signed one. */
  function Signed(n: nat, w: nat): int {
    if 2 * n < Pow256(w) then n else n - Pow256(w)
  }

  /** Flipping the sign bit and taking it off again extends the sign. */
  lemma SignBits(v: bv32)
    ensures v < 0x100 ==> (v ^ 0x80) - 0x80 == if v < 0x80 then v else v - 0x100
  {
  }

  // ---------------------------------------------------------------------------------------
  // Entries
  // ---------------------------------------------------------------------------------------

  /** The conversion of a 16-bit number to short. */
  function Short(n: nat): int {
    if n < 0x8000 then n else n - 0x1_0000
  }

  function EntrySize(valueSize: nat): nat {
    8 + valueSize
  }

  function DecodeOne(s: seq<byte>, big: bool): RawEntry
    requires |s| >= 8
  {
    RawEntry(Number(s[..4], big), Number(s[4..5], big), Number(s[5..6], big), Short(Number(s[6..8], big)),
             Number(s[8..], big))
  }

  /** The entries of a section; bytes at its end that are too few for an entry are ignored. */
  function Decode(s: seq<byte>, big: bool, valueSize: nat): seq<RawEntry>
    decreases |s|
  {
    if |s| < EntrySize(valueSize) then []
    else [DecodeOne(s[..EntrySize(valueSize)], big)] + Decode(s[EntrySize(valueSize)..], big, valueSize)
  }

  ghost predicate Storable(e: RawEntry, valueSize: nat) {
    && e.nameOffset < Pow256(4) && e.kind < Pow256(1) && e.other < Pow256(1)
    && -0x8000 <= e.descriptor < 0x8000 && e.value < Pow256(valueSize)
  }

  function Encode(e: RawEntry, big: bool, valueSize: nat): (r: seq<byte>)
    ensures |r| == EntrySize(valueSize)
  {
    Stored(e.nameOffset, 4, big) + Stored(e.kind, 1, big) + Stored(e.other, 1, big)
    + Stored(e.descriptor % 0x1_0000, 2, big) + Stored(e.value, valueSize, big)
  }

  ghost function EncodeAll(es: seq<RawEntry>, big: bool, valueSize: nat): seq<byte>
    requires forall i :: 0 <= i < |es| ==> Storable(es[i], valueSize)
  {
    if es == [] then [] else Encode(es[0], big, valueSize) + EncodeAll(es[1..], big, valueSize)
  }

  lemma DecodeEncoded(e: RawEntry, big: bool, valueSize: nat)
    requires Storable(e, valueSize)
    ensures DecodeOne(Encode(e, big, valueSize), big) == e
  {
    var d := e.descriptor % 0x1_0000;
    assert Pow256(1) == 256 && Pow256(2) == 0x1_0000;
    StoredNumber(e.nameOffset, 4, big);
    StoredNumber(e.kind, 1, big);
    StoredNumber(e.other, 1, big);
    StoredNumber(d, 2, big);
    StoredNumber(e.value, valueSize, big);
    hide Stored, Number, Pow256;
    Fields(Stored(e.nameOffset, 4, big), Stored(e.kind, 1, big), Stored(e.other, 1, big), Stored(d, 2, big),
           Stored(e.value, valueSize, big));
  }

  lemma Fields(a: seq<byte>, b: seq<byte>, c: seq<byte>, d: seq<byte>, e: seq<byte>)
    requires |a| == 4 && |b| == 1 && |c| == 1 && |d| == 2
    ensures var s := a + b + c + d + e; s[..4] == a && s[4..5] == b && s[5..6] == c && s[6..8] == d && s[8..] == e
  {
  }

  lemma DecodeFirst(first: seq<byte>, rest: seq<byte>, big: bool, valueSize: nat)
    requires |first| == EntrySize(valueSize)
    ensures Decode(first + rest, big, valueSize) == [DecodeOne(first, big)] + Decode(rest, big, valueSize)
  {
    hide DecodeOne;
    assert (first + rest)[..|first|] == first && (first + rest)[|first|..] == rest;
  }

  /** The entry at position `p` of a section. */
  lemma DecodeAt(s: seq<byte>, p: nat, big: bool, valueSize: nat)
    requires p + EntrySize(valueSize) <= |s|
    ensures Decode(s[p..], big, valueSize)
         == [RawEntry(Number(s[p..p + 4], big), Number(s[p + 4..p + 5], big), Number(s[p + 5..p + 6], big),
                      Short(Number(s[p + 6..p + 8], big)), Number(s[p + 8..p + EntrySize(valueSize)], big))]
            + Decode(s[p + EntrySize(valueSize)..], big, valueSize)
  {
    hide Number, Short;
    var first := s[p..p + EntrySize(valueSize)];
    assert s[p..] == first + s[p + EntrySize(valueSize)..];
    DecodeFirst(first, s[p + EntrySize(valueSize)..], big, valueSize);
    hide Decode;
    assert first[..4] == s[p..p + 4] && first[4..5] == s[p + 4..p + 5] && first[5..6] == s[p + 5..p + 6];
    assert first[6..8] == s[p + 6..p + 8] && first[8..] == s[p + 8..p + EntrySize(valueSize)];
  }

  /** A section that holds entries, and possibly part of another, decodes to those entries. */
  lemma {:induction false} DecodeAllEncoded(es: seq<RawEntry>, big: bool, valueSize: nat, tail: seq<byte>)
    requires (forall i :: 0 <= i < |es| ==> Storable(es[i], valueSize)) && |tail| < EntrySize(valueSize)
    ensures Decode(EncodeAll(es, big, valueSize) + tail, big, valueSize) == es
  {
    if es == [] {
      assert [] + tail == tail;
    } else {
      var first, rest := Encode(es[0], big, valueSize), EncodeAll(es[1..], big, valueSize);
      DecodeAllEncoded(es[1..], big, valueSize, tail);
      DecodeEncoded(es[0], big, valueSize);
      hide Encode, DecodeOne, Storable;
      DecodeFirst(first, rest + tail, big, valueSize);
      assert first + rest + tail == first + (rest + tail);
    }
  }

  // ---------------------------------------------------------------------------------------
  // The iterator
  // ---------------------------------------------------------------------------------------

  class ByteCursor {
    const buffer: seq<byte>
    const big: bool
    var here: nat
    /** All reads so far were within the buffer. */
    var complete: bool

    ghost predicate Valid()
      reads this
    {
      here <= |buffer|
    }

    constructor (buffer: seq<byte>, big: bool)
      ensures Valid() && this.buffer == buffer && this.big == big && here == 0 && complete
    {
      this.buffer, this.big, here, complete := buffer, big, 0, true;
    }

    method CheckAvailable(size: nat) returns (ok: bool)
      requires Valid()
      modifies this
      ensures Valid() && ok == (old(here) + size <= |buffer|)
      ensures here == (if ok then old(here) else |buffer|) && complete == (old(complete) && ok)
    {
      if |buffer| - here >= size {
        return true;
      } else {
        here, complete := |buffer|, false;
        return false;
      }
    }

    /** Read a number of `size` bytes; past the end, the result means nothing. */
    method Read(size: nat, signed: bool) returns (v: int)
      requires Valid() && (signed ==> size > 0)
      modifies this
      ensures Valid() && complete == (old(complete) && old(here) + size <= |buffer|)
      ensures here == if old(here) + size <= |buffer| then old(here) + size else |buffer|
      ensures !signed ==> v >= 0
      ensures old(here) + size <= |buffer| ==>
                var n := Number(buffer[old(here)..old(here) + size], big);
                v == if signed then Signed(n, size) else n
    {
      var ok := CheckAvailable(size);
      if !ok {
        return 0xdeadbeef;
      }
      v := 0;
      ghost var s := buffer[here..here + size];
      if big {
        for i := 0 to size
          invariant v == FromBE(s[..i])
        {
          assert s[..i + 1][..i] == s[..i];
          v := 256 * v + buffer[here + i];
        }
        assert s[..size] == s;
      } else {
        for i := size downto 0
          invariant v == FromLE(s[i..])
        {
          assert s[i..][1..] == s[i + 1..];
          v := 256 * v + buffer[here + i];
        }
        assert s[0..] == s;
      }
      if signed {
        var sign := Pow256(size) / 2;
        v := (if v < sign then v + sign else v - sign) - sign;
      }
      here := here + size;
    }

    /** The fields of an entry, one after another. */
    method ReadEntry(valueSize: nat) returns (e: RawEntry)
      requires Valid()
      modifies this
      ensures Valid() && complete == (old(complete) && old(here) + EntrySize(valueSize) <= |buffer|)
      ensures var p := old(here);
              p + EntrySize(valueSize) <= |buffer| ==>
                && here == p + EntrySize(valueSize)
                && e == RawEntry(Number(buffer[p..p + 4], big), Number(buffer[p + 4..p + 5], big),
                                 Number(buffer[p + 5..p + 6], big), Short(Number(buffer[p + 6..p + 8], big)),
                                 Number(buffer[p + 8..p + EntrySize(valueSize)], big))
    {
      hide Number, Short;
      var nameOffset := Read(4, false);
      var kind := Read(1, false);
      var other := Read(1, false);
      var descriptor := Read(2, false);
      var value := Read(valueSize, false);
      e := RawEntry(nameOffset, kind, other, Short(descriptor), value);
    }
  }

  class EntryIterator {
    const valueSize: nat
    const cursor: ByteCursor
    var atEnd: bool
    var index: nat
    var entry: RawEntry

    ghost predicate Valid()
      reads this, cursor
    {
      cursor.Valid() && (atEnd <==> !cursor.complete)
    }

    /** The current entry and those after it. */
    ghost function Rest(): seq<RawEntry>
      requires Valid()
      reads this, cursor
    {
      if atEnd then [] else [entry] + Decode(cursor.buffer[cursor.here..], cursor.big, valueSize)
    }

    constructor (buffer: seq<byte>, big: bool, valueSize: nat)
      ensures Valid() && fresh(cursor) && index == 0 && Rest() == Decode(buffer, big, valueSize)
    {
      this.valueSize := valueSize;
      cursor := new ByteCursor(buffer, big);
      atEnd, index, entry := false, 0, RawEntry(0, 0, 0, 0, 0);
      new;
      assert buffer[0..] == buffer;
      Fetch();
    }

    /** Read the entry at the cursor. */
    method Fetch()
      requires Valid() && cursor.complete
      modifies this`atEnd, this`entry, cursor
      ensures Valid() && Rest() == old(Decode(cursor.buffer[cursor.here..], cursor.big, valueSize))
    {
      if cursor.here + EntrySize(valueSize) <= |cursor.buffer| {
        DecodeAt(cursor.buffer, cursor.here, cursor.big, valueSize);
      } else {
        assert Decode(cursor.buffer[cursor.here..], cursor.big, valueSize) == [];
      }
      hide Decode, Number, Short;
      entry := cursor.ReadEntry(valueSize);
      atEnd := !cursor.complete;
    }

    /** Move to the next entry. */
    method Advance()
      requires Valid() && !atEnd
      modifies this, cursor
      ensures Valid() && index == old(index) + 1 && [old(entry)] + Rest() == old(Rest())
    {
      Fetch();
      index := index + 1;
    }
  }
}
