/**
 * string_conversion.cc: buffers for the conversions between UTF-8 and UTF-16. The end of the target
 * is computed in bytes rather than units, so it lies beyond the storage; what is written does not.
 */
module StringConversion {
  import opened Utf
  import opened UtfProofs
  import opened ConvertUtf

  // ---------------------------------------------------------------------------------------
  // UTF8ToUTF16
  // ---------------------------------------------------------------------------------------

  /** More room than a conversion needs changes nothing. */
  lemma SpareRoom(c: Conversion, s: seq<nat>, room: nat, strict: bool)
    requires Units(c, s) && InRange(c, s) && Bound(c, |s|) <= room
    ensures Convert(c, s, room, strict) == Convert(c, s, Bound(c, |s|), strict)
  {
    ConvertFits(c, s, Bound(c, |s|), strict);
    Resume(c, s, Bound(c, |s|), room, strict);
    hide Convert, Units, InRange, Bound, Then;
  }

  lemma WholeCall(k: Call)
    requires k.Valid() && k.start == 0 && k.at == 0
    ensures Remaining(k, 0, k.limit) == Convert(k.c, k.source, k.limit, k.strict)
  {
    assert k.source[0..] == k.source;
    hide Convert;
  }

  /** The converted text and a terminating zero, or nothing when the text is not legal. */
  ghost function ToUTF16(source: seq<nat>): seq<nat> {
    var o := Convert(From8To16, source, |source|, true);
    if o.result == ConversionOK then o.out + [0] else []
  }

  /** `capacity` is that of the vector after as many elements as `source` has were inserted. */
  method UTF8ToUTF16(source: seq<nat>, capacity: nat) returns (out: seq<nat>)
    requires |source| <= capacity
    ensures out == ToUTF16(source)
  {
    hide *;
    var n := |source|;
    var buffer := new nat[n](i => 0);
    var k := Call(From8To16, source, 0, 0, capacity * 2, true);
    Call8(source, capacity);
    ghost var o, zeros := Remaining(k, 0, k.limit), buffer[..];
    var result, s, t := ConvertBuffer(k, buffer);
    DoneFacts(k, zeros, buffer[..], result, s, t);
    if result != ConversionOK {
      return [];
    }
    assert buffer[..][..t] == o.out;
    if t < n {
      assert buffer[..][t] == zeros[t] == 0;
      out := buffer[..t + 1];
    } else {
      out := buffer[..] + [0];
    }
  }

  /** The storage of UTF8ToUTF16 is enough. */
  lemma Call8(source: seq<nat>, capacity: nat)
    requires |source| <= capacity
    ensures var k := Call(From8To16, source, 0, 0, capacity * 2, true);
            && Enough(k, |source|)
            && var o := Remaining(k, 0, k.limit);
            && ToUTF16(source) == if o.result == ConversionOK then o.out + [0] else []
  {
    var k := Call(From8To16, source, 0, 0, capacity * 2, true);
    WholeCall(k);
    hide Convert, Remaining;
    AnyBytes(source);
    ConvertBound(From8To16, source, |source|, true);
    SpareRoom(From8To16, source, capacity * 2, true);
  }

  lemma AnyBytes(source: seq<nat>)
    ensures Units(From8To16, source) && InRange(From8To16, source)
    ensures forall n :: Bound(From8To16, n) == n
  {
  }

  lemma DoneFacts(k: Call, before: seq<nat>, now: seq<nat>, result: Result, s: nat, t: nat)
    requires Done(k, before, now, result, s, t) && k.start == 0 && k.at == 0
    ensures var o := Remaining(k, 0, k.limit);
            && result == o.result && s == o.used && t == |o.out| <= |before| && now == o.out + before[t..]
  {
    hide Remaining;
    assert before[..0] == [];
  }

  // ---------------------------------------------------------------------------------------
  // UTF16ToUTF8
  // ---------------------------------------------------------------------------------------

  function Swap(u: nat): nat
    requires u <= 0xFFFF
  {
    u / 0x100 + u % 0x100 * 0x100
  }

  /** The two bytes of a unit change places. */
  lemma SwapBytes(high: nat, low: nat)
    requires high < 0x100 && low < 0x100
    ensures Swap(0x100 * high + low) == 0x100 * low + high
  {
  }

  lemma SwapBits(u: bv16)
    ensures (u >> 8) | (u << 8) == u / 0x100 + u % 0x100 * 0x100
  {
  }

  ghost function Swapped(s: seq<nat>): (r: seq<nat>)
    requires Units16(s)
    ensures |r| == |s|
  {
    seq(|s|, i requires 0 <= i < |s| => Swap(s[i]))
  }

  lemma SwapUnit(u: nat)
    requires u <= 0xFFFF
    ensures Swap(u) <= 0xFFFF && Swap(Swap(u)) == u && (Swap(u) == 0 <==> u == 0)
  {
    var h, l := u / 0x100, u % 0x100;
    var v := Swap(u);
    assert v == h + 0x100 * l && v / 0x100 == l && v % 0x100 == h;
  }

  /** Swapping twice changes nothing, and only zero becomes zero. */
  lemma SwapTwice(s: seq<nat>)
    requires Units16(s)
    ensures Units16(Swapped(s)) && Swapped(Swapped(s)) == s
    ensures 0 in Swapped(s) <==> 0 in s
  {
    forall i | 0 <= i < |s|
      ensures Swap(s[i]) <= 0xFFFF && Swap(Swap(s[i])) == s[i] && (Swap(s[i]) == 0 <==> s[i] == 0)
    {
      SwapUnit(s[i]);
    }
    hide Swap;
    if 0 in s {
      var i :| 0 <= i < |s| && s[i] == 0;
      assert Swapped(s)[i] == 0;
    }
    if 0 in Swapped(s) {
      var i :| 0 <= i < |s| && Swapped(s)[i] == 0;
      assert s[i] == 0;
    }
  }

  /** The C string at the start of a buffer. */
  function UpToZero(s: seq<nat>): seq<nat> {
    if s == [] || s[0] == 0 then [] else [s[0]] + UpToZero(s[1..])
  }

  method SwapAll(source: seq<nat>) returns (buffer: array<nat>)
    requires Units16(source)
    ensures fresh(buffer) && buffer[..] == Swapped(source)
  {
    buffer := new nat[|source|];
    for i := 0 to |source|
      invariant forall j :: 0 <= j < i ==> buffer[j] == Swap(source[j])
    {
      buffer[i] := Swap(source[i]);
    }
  }

  /** The source is converted with success. */
  ghost predicate LegalText(source: seq<nat>)
    requires Units16(source)
  {
    StrictUnits(From16To8, source);
    Convert(From16To8, source, 3 * |source|, true).result == ConversionOK
  }

  /** What is written to the storage. */
  ghost function Written8(source: seq<nat>): (r: seq<nat>)
    requires Units16(source)
    ensures |r| <= 3 * |source|
  {
    StrictUnits(From16To8, source);
    Convert(From16To8, source, 3 * |source|, true).out
  }

  /** The text up to the first zero unit, or nothing when the source is not legal. */
  ghost function ToUTF8(source: seq<nat>): seq<nat>
    requires Units16(source)
  {
    if LegalText(source) then UpToZero(Written8(source)) else []
  }

  /**
   * UTF16ToUTF8; `storage` is what the new buffer and the memory behind it hold. The result is read
   * as a C string, from what is written and then from what was there before.
   */
  method UTF16ToUTF8(source: seq<nat>, swap: bool, storage: seq<nat>) returns (out: seq<nat>)
    requires Units16(source) && 4 * |source| <= |storage|
    ensures Units16(Swapped(source))
    ensures var s := if swap then Swapped(source) else source;
            && out == (if LegalText(s) then UpToZero(Written8(s) + storage[|Written8(s)|..]) else [])
            && (0 in source ==> out == ToUTF8(s))
  {
    hide *;
    SwapTwice(source);
    var s := source;
    if swap {
      var swapped := SwapAll(source);
      s := swapped[..];
    }
    var target := new nat[|source| * 4](i requires 0 <= i < |storage| => storage[i]);
    assert target[..] == storage[..|s| * 4];
    var k := Call(From16To8, s, 0, 0, |source| * 4, true);
    Call16(s);
    var result, n, t := ConvertBuffer(k, target);
    DoneFacts(k, storage[..|s| * 4], target[..], result, n, t);
    ReadsStorage(s);
    if result != ConversionOK {
      return [];
    }
    assert target[..] + storage[|s| * 4..] == Written8(s) + storage[t..];
    out := UpToZero(target[..] + storage[|s| * 4..]);
  }

  /** The storage of UTF16ToUTF8 is enough for every source. */
  lemma Call16(s: seq<nat>)
    requires Units16(s)
    ensures var k := Call(From16To8, s, 0, 0, |s| * 4, true);
            && Enough(k, |s| * 4)
            && var o := Remaining(k, 0, k.limit);
            (o.result == ConversionOK <==> LegalText(s)) && o.out == Written8(s)
    ensures !LegalText(s) ==> ToUTF8(s) == []
  {
    StrictUnits(From16To8, s);
    var k := Call(From16To8, s, 0, 0, |s| * 4, true);
    SpareRoom(From16To8, s, |s| * 4, true);
    WholeCall(k);
    hide Convert, Remaining;
  }

  /**
   * For legal text, the result depends only on what is written exactly if the source holds a zero
   * unit. Otherwise bytes that were never written are read.
   */
  lemma ReadsStorage(s: seq<nat>)
    requires Units16(s)
    ensures 0 in s ==> forall rest :: LegalText(s) ==> UpToZero(Written8(s) + rest) == ToUTF8(s)
    ensures LegalText(s) && 0 !in s ==> forall rest :: UpToZero(Written8(s) + rest) == Written8(s) + UpToZero(rest)
    ensures LegalText(s) ==> ((forall rest :: UpToZero(Written8(s) + rest) == ToUTF8(s)) <==> 0 in s)
  {
    if LegalText(s) {
      var w := Written8(s);
      StrictUnits(From16To8, s);
      ZeroWritten(s, 3 * |s|);
      assert UpToZero([1]) == [1];
      hide Convert, UpToZero;
      if 0 in s {
        forall rest ensures UpToZero(w + rest) == ToUTF8(s) {
          UpToZeroPrefix(w, rest);
        }
      } else {
        forall rest ensures UpToZero(w + rest) == w + UpToZero(rest) {
          UpToZeroOn(w, rest);
        }
        UpToZeroOn(w, []);
        assert w + [] == w;
        assert |UpToZero(w + [1])| == |w| + 1;
      }
    }
  }

  /** Legal text without a zero unit: what follows it in the buffer becomes part of the result. */
  lemma UnterminatedExample()
    ensures Units16([0x41]) && LegalText([0x41]) && Written8([0x41]) == [0x41]
    ensures UpToZero([0x41] + [0x42, 0]) == [0x41, 0x42]
  {
    assert Read16([0x41], true) == Char(0x41, 1) && Encode8(0x41) == [0x41];
    assert StepOf(From16To8, [0x41], 3, true) == Emit(1, [0x41], false);
    ConvertEmits(From16To8, [0x41], 3, true);
    assert [0x41][1..] == [];
    assert Convert(From16To8, [], 2, true) == Outcome(ConversionOK, 0, []);
    hide StepOf, Convert;
    var t := [0x41] + [0x42, 0];
    assert t[1..] == [0x42, 0] && t[1..][1..] == [0];
    assert UpToZero([0x42, 0]) == [0x42];
  }

  lemma {:induction false} UpToZeroOn(a: seq<nat>, b: seq<nat>)
    requires 0 !in a
    ensures UpToZero(a + b) == a + UpToZero(b)
  {
    if a == [] {
      assert a + b == b;
    } else {
      assert (a + b)[1..] == a[1..] + b;
      UpToZeroOn(a[1..], b);
    }
  }

  lemma {:induction false} UpToZeroPrefix(a: seq<nat>, b: seq<nat>)
    requires 0 in a
    ensures UpToZero(a + b) == UpToZero(a)
  {
    assert (a + b)[1..] == a[1..] + b;
    if a[0] != 0 {
      UpToZeroPrefix(a[1..], b);
    }
  }

  lemma ZeroIn(f: Form, v: nat)
    requires Scalar(v)
    ensures 0 in Encode(f, v) <==> v == 0
    ensures v == 0 ==> Encode(f, v) == [0]
  {
  }

  /** Encodings hold a zero exactly when the values do. */
  lemma {:induction false} ZeroEncoded(f: Form, vs: seq<nat>)
    requires Scalars(vs)
    ensures 0 in EncodeAll(f, vs) <==> 0 in vs
  {
    if vs != [] {
      ZeroIn(f, vs[0]);
      ZeroEncoded(f, vs[1..]);
      hide Encode;
    }
  }

  /** A successful conversion writes a zero exactly if the source holds a zero unit. */
  lemma ZeroWritten(s: seq<nat>, room: nat)
    requires Units16(s) && Units(From16To8, s) && Convert(From16To8, s, room, true).result == ConversionOK
    ensures 0 in Convert(From16To8, s, room, true).out <==> 0 in s
  {
    var vs := StopsOnBoundary(From16To8, s, room);
    OKConsumesAll(From16To8, s, room, true);
    assert s[..|s|] == s;
    ZeroEncoded(Utf16, vs);
    ZeroEncoded(Utf8, vs);
    hide Convert, EncodeAll;
  }

  // ---------------------------------------------------------------------------------------
  // There and back
  // ---------------------------------------------------------------------------------------

  lemma {:induction false} UpToZeroSkips(a: seq<nat>, b: seq<nat>)
    requires 0 !in a
    ensures UpToZero(a + [0] + b) == a
  {
    if a != [] {
      assert (a + [0] + b)[1..] == a[1..] + [0] + b;
      UpToZeroSkips(a[1..], b);
    }
  }

  lemma {:induction false} EncodeAllAppend(f: Form, vs: seq<nat>, v: nat)
    requires Scalars(vs) && Scalar(v)
    ensures Scalars(vs + [v]) && EncodeAll(f, vs + [v]) == EncodeAll(f, vs) + Encode(f, v)
  {
    if vs == [] {
      assert vs + [v] == [v];
    } else {
      EncodeAllAppend(f, vs[1..], v);
      assert (vs + [v])[1..] == vs[1..] + [v];
      hide Encode, Scalar;
    }
  }

  lemma EncodedSize(v: nat)
    requires Scalar(v)
    ensures |Encode16(v)| <= |Encode8(v)| <= 3 * |Encode16(v)|
  {
  }

  lemma {:induction false} EncodedSizes(vs: seq<nat>)
    requires Scalars(vs)
    ensures |EncodeAll(Utf16, vs)| <= |EncodeAll(Utf8, vs)| <= 3 * |EncodeAll(Utf16, vs)|
  {
    if vs != [] {
      EncodedSize(vs[0]);
      EncodedSizes(vs[1..]);
      hide Encode8, Encode16, Scalar;
    }
  }

  lemma ToUTF16Encoded(vs: seq<nat>)
    requires Scalars(vs)
    ensures ToUTF16(EncodeAll(Utf8, vs)) == EncodeAll(Utf16, vs) + [0]
  {
    EncodedSizes(vs);
    EncodedUnits(From8To16, vs);
    ConvertsEncoded(From8To16, vs, |EncodeAll(Utf8, vs)|, true);
    hide Convert, EncodeAll;
  }

  lemma Units16Encoded(vs: seq<nat>)
    requires Scalars(vs)
    ensures Units16(EncodeAll(Utf16, vs) + [0])
  {
    EncodedUnits(From16To8, vs);
    hide EncodeAll;
  }

  lemma ToUTF8Encoded(vs: seq<nat>)
    requires Scalars(vs) && 0 !in vs && Units16(EncodeAll(Utf16, vs) + [0])
    ensures ToUTF8(EncodeAll(Utf16, vs) + [0]) == EncodeAll(Utf8, vs)
  {
    var s := EncodeAll(Utf16, vs) + [0];
    EncodeAllAppend(Utf16, vs, 0);
    EncodeAllAppend(Utf8, vs, 0);
    assert s == EncodeAll(Utf16, vs + [0]);
    EncodedSizes(vs + [0]);
    EncodedUnits(From16To8, vs + [0]);
    ConvertsEncoded(From16To8, vs + [0], 3 * |s|, true);
    ZeroEncoded(Utf8, vs);
    UpToZeroSkips(EncodeAll(Utf8, vs), []);
    assert EncodeAll(Utf8, vs) + [0] + [] == EncodeAll(Utf8, vs) + [0];
    hide Convert, EncodeAll;
  }

  /**
   * Text without zeros survives UTF8ToUTF16 followed by UTF16ToUTF8, in either byte order.
   */
  lemma ThereAndBack(vs: seq<nat>)
    requires Scalars(vs) && 0 !in vs
    ensures var u := ToUTF16(EncodeAll(Utf8, vs));
            && Units16(u) && ToUTF8(u) == EncodeAll(Utf8, vs)
            && Units16(Swapped(u)) && ToUTF8(Swapped(Swapped(u))) == EncodeAll(Utf8, vs)
  {
    hide *;
    ToUTF16Encoded(vs);
    Units16Encoded(vs);
    ToUTF8Encoded(vs);
    SwapTwice(ToUTF16(EncodeAll(Utf8, vs)));
  }

  // ---------------------------------------------------------------------------------------
  // UTF8ToUTF16Char
  // ---------------------------------------------------------------------------------------

  /**
   * A window that ends before the first character is complete reads as exhausted; a longer one reads
   * that character.
   */
  lemma WindowReads(source: seq<nat>, w: nat)
    requires 0 < w <= |source|
    ensures Read8(source[..w]) == if w <= Trailing(source[0]) then Fail(SourceExhausted) else Read8(source)
  {
    var extra := Trailing(source[0]);
    if extra < w {
      assert source[..w][..extra + 1] == source[..extra + 1];
    }
  }

  lemma WindowConverts(source: seq<nat>, w: nat)
    requires 0 < w <= |source| && (w <= Trailing(source[0]) + 1 || Read8(source).Fail?)
    ensures Convert(From8To16, source[..w], 4, true) ==
            if w <= Trailing(source[0]) then Outcome(SourceExhausted, 0, [])
            else if Read8(source).Fail? then Outcome(Read8(source).result, 0, [])
            else Outcome(ConversionOK, w, Encode16(Read8(source).ch))
  {
    WindowReads(source, w);
    var s := source[..w];
    if Read8(s).Fail? {
      ConvertStops(From8To16, s, 4, true);
    } else {
      var out := Encode16(Read8(source).ch);
      assert StepOf(From8To16, s, 4, true) == Emit(w, out, false);
      ConvertEmits(From8To16, s, 4, true);
      assert s[w..] == [];
      ConvertStops(From8To16, [], 4 - |out|, true);
      assert out + [] == out;
    }
    hide Convert;
  }

  /** The bytes that are looked at: the given number, but one even when that is zero. */
  function Looked(text: seq<nat>, length: nat): (r: seq<nat>)
    requires text != [] && length <= |text|
    ensures r != []
  {
    text[..if length == 0 then 1 else length]
  }

  /** The first character in UTF-16, padded with zeros, and how many bytes it takes; zero when it is not legal. */
  method UTF8ToUTF16Char(text: seq<nat>, length: nat) returns (used: nat, out: array<nat>)
    requires text != [] && length <= |text|
    ensures fresh(out) && out.Length == 2
    ensures var r := Read8(Looked(text, length));
            && (r.Fail? ==> used == 0 && out[..] == [0, 0])
            && (r.Char? ==> used == r.used && out[..] == Encode16(r.ch) + (if r.ch <= 0xFFFF then [0] else []))
  {
    ghost var source := Looked(text, length);
    out := new nat[2](i => 0);
    var t, w := 0, 1;
    while true
      invariant t == 0 && out[..] == [0, 0] && 0 < w <= |source|
      invariant w <= Trailing(source[0]) + 1 || Read8(source).Fail?
      decreases |source| - w
    {
      var k := Call(From8To16, text[..w], 0, t, 4, true);
      assert text[..w] == source[..w];
      WindowConverts(source, w);
      WholeCall(k);
      hide Convert, Remaining, Read8, Trailing;
      var result, s, t' := ConvertBuffer(k, out);
      if result == ConversionOK {
        return s, out;
      }
      t := t';
      w := w + 1;
      if w > length {
        break;
      }
    }
    return 0, out;
  }
}
