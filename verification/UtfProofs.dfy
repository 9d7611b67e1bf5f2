/**
 * The conversions of convert_UTF.c are inverse to each other on Unicode scalar values, agree with
 * each other, stop on character boundaries and fit the buffers that their callers provide.
 */
module UtfProofs {
  import opened Utf

  // ---------------------------------------------------------------------------------------
  // One character
  // ---------------------------------------------------------------------------------------

  lemma Encode8Legal(v: nat)
    requires Scalar(v)
    ensures Trailing(Encode8(v)[0]) + 1 == |Encode8(v)| && IsLegalUTF8(Encode8(v))
  {
  }

  lemma Encode8Gathers(v: nat)
    requires Scalar(v)
    ensures Gather(Encode8(v)) == v + Offset(|Encode8(v)| - 1)
  {
    var e := Encode8(v);
    if v < 0x80 {
      assert e[..0] == [];
    } else if v < 0x800 {
      GatherTwo(e[0], e[1]);
    } else if v < 0x10000 {
      GatherThree(e[0], e[1], e[2]);
    } else {
      GatherFour(e[0], e[1], e[2], e[3]);
    }
  }

  lemma Read8Encoded(v: nat, rest: seq<nat>)
    requires Scalar(v)
    ensures Read8(Encode8(v) + rest) == Char(v, |Encode8(v)|)
  {
    var e := Encode8(v);
    assert (e + rest)[..|e|] == e;
    Encode8Legal(v);
    Encode8Gathers(v);
  }

  lemma Read16Encoded(v: nat, rest: seq<nat>, strict: bool)
    requires Scalar(v)
    ensures Read16(Encode16(v) + rest, strict) == Char(v, |Encode16(v)|)
  {
  }

  /** A strict read of UTF-16 consumes the encoding of the scalar value that it returns. */
  lemma Read16Strict(s: seq<nat>)
    requires s != [] && Read16(s, true).Char? && s[0] <= 0xFFFF
    ensures var r := Read16(s, true); Scalar(r.ch) && s[..r.used] == Encode16(r.ch)
  {
  }

  /** The second byte of a sequence is one that isLegalUTF8 ought to refuse. */
  predicate Lax(lead: nat, b: nat) {
    (lead == 0xED || lead == 0xF4) && b < 0x80
  }

  /**
   * isLegalUTF8 accepts the encodings of scalar values and, besides them, only sequences with lead
   * byte ED or F4 whose second byte is below 80.
   */
  lemma LegalExactly(bs: seq<nat>)
    requires bs != [] && |bs| == Trailing(bs[0]) + 1 && IsLegalUTF8(bs)
    ensures bs == Encode8(Decode8(bs)) <==> !(|bs| >= 2 && Lax(bs[0], bs[1]))
  {
    if |bs| == 1 {
      assert bs[..0] == [];
      assert Gather(bs) == bs[0] && bs == [bs[0]];
    } else if |bs| == 2 {
      assert bs == [bs[0], bs[1]];
      LegalTwo(bs[0], bs[1]);
    } else if |bs| == 3 {
      assert bs == [bs[0], bs[1], bs[2]];
      LegalThree(bs[0], bs[1], bs[2]);
    } else {
      assert bs == [bs[0], bs[1], bs[2], bs[3]];
      LegalFour(bs[0], bs[1], bs[2], bs[3]);
    }
  }

  lemma LegalTwo(a: nat, b: nat)
    requires Trailing(a) == 1 && IsLegalUTF8([a, b])
    ensures [a, b] == Encode8(Decode8([a, b])) && !Lax(a, b)
  {
    GatherTwo(a, b);
  }

  lemma LegalThree(a: nat, b: nat, c: nat)
    requires Trailing(a) == 2 && IsLegalUTF8([a, b, c])
    ensures [a, b, c] == Encode8(Decode8([a, b, c])) <==> !Lax(a, b)
  {
    var v := Decode8([a, b, c]);
    GatherThree(a, b, c);
    assert v == 0x1000 * a + 0x40 * b + c - 0xE2080;
    hide Gather, Decode8;
    assert v / 0x40 == 0x40 * a + b - 0x3880;
  }

  lemma LegalFour(a: nat, b: nat, c: nat, d: nat)
    requires Trailing(a) == 3 && IsLegalUTF8([a, b, c, d])
    ensures [a, b, c, d] == Encode8(Decode8([a, b, c, d])) <==> !Lax(a, b)
  {
    var v := Decode8([a, b, c, d]);
    GatherFour(a, b, c, d);
    assert v == 0x40000 * a + 0x1000 * b + 0x40 * c + d - 0x3C82080;
    hide Gather, Decode8;
    assert v / 0x40 == 0x1000 * a + 0x40 * b + c - 0xF2080;
    assert v / 0x40 / 0x40 == 0x40 * a + b - 0x3C80;
  }

  /** isLegalUTF8 accepts ED 00 80, which encodes nothing. */
  lemma LaxExample()
    ensures IsLegalUTF8([0xED, 0x00, 0x80]) && Read8([0xED, 0x00, 0x80]) == Char(0xB000, 3)
    ensures Encode8(0xB000) == [0xEB, 0x80, 0x80]
  {
    GatherThree(0xED, 0x00, 0x80);
    assert [0xED, 0x00, 0x80][..3] == [0xED, 0x00, 0x80];
  }

  // ---------------------------------------------------------------------------------------
  // Scalar values survive every conversion
  // ---------------------------------------------------------------------------------------

  function From(c: Conversion): Form {
    match c
    case From8To16 => Utf8
    case From8To32 => Utf8
    case From16To8 => Utf16
    case From16To32 => Utf16
    case From32To8 => Utf32
    case From32To16 => Utf32
  }

  function To(c: Conversion): Form {
    match c
    case From8To16 => Utf16
    case From8To32 => Utf32
    case From16To8 => Utf8
    case From16To32 => Utf32
    case From32To8 => Utf8
    case From32To16 => Utf16
  }

  lemma {:induction false} EncodedUnits(c: Conversion, vs: seq<nat>)
    requires Scalars(vs)
    ensures Units(c, EncodeAll(From(c), vs))
  {
    if vs != [] {
      EncodedUnits(c, vs[1..]);
    }
  }

  lemma StepEncoded(c: Conversion, v: nat, rest: seq<nat>, room: nat, strict: bool)
    requires Scalar(v) && |Encode(To(c), v)| <= room && Units(c, Encode(From(c), v) + rest)
    ensures StepOf(c, Encode(From(c), v) + rest, room, strict)
         == Emit(|Encode(From(c), v)|, Encode(To(c), v), false)
  {
    match c
    case From8To16 => Read8Encoded(v, rest);
    case From8To32 => Read8Encoded(v, rest);
    case From16To8 => Read16Encoded(v, rest, strict);
    case From16To32 => Read16Encoded(v, rest, strict);
    case From32To8 =>
    case From32To16 =>
  }

  lemma EncodeAllFirst(f: Form, vs: seq<nat>)
    requires Scalars(vs) && vs != []
    ensures Scalar(vs[0]) && Scalars(vs[1..]) && EncodeAll(f, vs) == Encode(f, vs[0]) + EncodeAll(f, vs[1..])
  {
  }

  lemma ConvertsNothing(c: Conversion, f: Form, room: nat, strict: bool)
    ensures EncodeAll(f, []) == [] && Units(c, []) && Convert(c, [], room, strict) == Outcome(ConversionOK, 0, [])
  {
  }

  lemma ConvertsCons(c: Conversion, s: seq<nat>, rest: seq<nat>, out: seq<nat>, room: nat, strict: bool)
    requires s != [] && Units(c, s + rest) && Units(c, rest)
    requires |out| <= room && StepOf(c, s + rest, room, strict) == Emit(|s|, out, false)
    ensures Convert(c, s + rest, room, strict) == Then(|s|, out, false, Convert(c, rest, room - |out|, strict))
  {
    hide StepOf;
    assert (s + rest)[|s|..] == rest;
  }

  /** Every conversion, strict or not, maps the encoding of scalar values in one form to their encoding in the other. */
  lemma {:induction false} ConvertsEncoded(c: Conversion, vs: seq<nat>, room: nat, strict: bool)
    requires Scalars(vs) && Units(c, EncodeAll(From(c), vs)) && |EncodeAll(To(c), vs)| <= room
    ensures Convert(c, EncodeAll(From(c), vs), room, strict)
         == Outcome(ConversionOK, |EncodeAll(From(c), vs)|, EncodeAll(To(c), vs))
  {
    hide From, To, Encode, EncodeAll, Scalar, Scalars, Units, StepOf, Convert;
    if vs == [] {
      ConvertsNothing(c, From(c), room, strict);
      ConvertsNothing(c, To(c), room, strict);
    } else {
      EncodeAllFirst(From(c), vs);
      EncodeAllFirst(To(c), vs);
      EncodedUnits(c, vs[1..]);
      var v, rest := vs[0], EncodeAll(From(c), vs[1..]);
      StepEncoded(c, v, rest, room, strict);
      ConvertsCons(c, Encode(From(c), v), rest, Encode(To(c), v), room, strict);
      ConvertsEncoded(c, vs[1..], room - |Encode(To(c), v)|, strict);
    }
  }

  lemma ConvertStops(c: Conversion, s: seq<nat>, room: nat, strict: bool)
    requires Units(c, s) && (s == [] || StepOf(c, s, room, strict).Stop?)
    ensures Convert(c, s, room, strict)
         == Outcome(if s == [] then ConversionOK else StepOf(c, s, room, strict).result, 0, [])
  {
    hide StepOf;
  }

  lemma ConvertEmits(c: Conversion, s: seq<nat>, room: nat, strict: bool)
    requires s != [] && Units(c, s) && StepOf(c, s, room, strict).Emit?
    ensures var step := StepOf(c, s, room, strict);
            && Units(c, s[step.used..])
            && Convert(c, s, room, strict)
            == Then(step.used, step.out, step.bad, Convert(c, s[step.used..], room - |step.out|, strict))
  {
    hide StepOf, Then;
  }

  /** Converting scalar values to one form and then to another, with room for each, gives their encoding in the last. */
  lemma RoundTrip(c: Conversion, d: Conversion, vs: seq<nat>, room: nat, room': nat, strict: bool)
    requires Scalars(vs) && To(c) == From(d)
    requires |EncodeAll(To(c), vs)| <= room && |EncodeAll(To(d), vs)| <= room'
    ensures var s := EncodeAll(From(c), vs);
            && Units(c, s)
            && var o := Convert(c, s, room, strict);
            && o.result == ConversionOK && o.used == |s| && Units(d, o.out)
            && Convert(d, o.out, room', strict) == Outcome(ConversionOK, |o.out|, EncodeAll(To(d), vs))
  {
    EncodedUnits(c, vs);
    EncodedUnits(d, vs);
    ConvertsEncoded(c, vs, room, strict);
    ConvertsEncoded(d, vs, room', strict);
  }

  lemma {:induction false} EncodeAll32(vs: seq<nat>)
    requires Scalars(vs)
    ensures EncodeAll(Utf32, vs) == vs
  {
    if vs != [] {
      EncodeAll32(vs[1..]);
    }
  }

  // ---------------------------------------------------------------------------------------
  // Room
  // ---------------------------------------------------------------------------------------

  /** The most units that `n` source units can turn into. */
  function Bound(c: Conversion, n: nat): nat {
    match c
    case From8To16 => n
    case From8To32 => n
    case From16To8 => 3 * n
    case From16To32 => n
    case From32To8 => 4 * n
    case From32To16 => 2 * n
  }

  lemma Read8Single(s: seq<nat>)
    requires s != [] && Read8(s).Char? && Read8(s).used == 1
    ensures Read8(s).ch < 0x80
  {
    assert s[..1] == [s[0]] && [s[0]][..0] == [];
    assert Gather([s[0]]) == s[0];
  }

  lemma StepBound(c: Conversion, s: seq<nat>, room: nat, strict: bool)
    requires s != [] && Units(c, s)
    ensures var r := StepOf(c, s, room, strict); r.Emit? ==> |r.out| <= Bound(c, r.used)
    ensures Bound(c, |s|) <= room ==> StepOf(c, s, room, strict) != Stop(TargetExhausted)
  {
    if c.From8To16? && Read8(s).Char? && Read8(s).used == 1 {
      Read8Single(s);
    }
  }

  lemma BoundAdds(c: Conversion, a: nat, b: nat)
    ensures Bound(c, a + b) == Bound(c, a) + Bound(c, b) && Bound(c, a) <= Bound(c, a + b)
  {
  }

  /** Whatever the source and the result, the output stays within the bound for the units consumed. */
  lemma {:induction false} ConvertBound(c: Conversion, s: seq<nat>, room: nat, strict: bool)
    requires Units(c, s)
    ensures var o := Convert(c, s, room, strict); |o.out| <= Bound(c, o.used) <= Bound(c, |s|)
    decreases |s|
  {
    hide StepOf, Convert, Units, Bound;
    BoundAdds(c, Convert(c, s, room, strict).used, |s| - Convert(c, s, room, strict).used);
    if s == [] || StepOf(c, s, room, strict).Stop? {
      ConvertStops(c, s, room, strict);
    } else {
      var step := StepOf(c, s, room, strict);
      StepBound(c, s, room, strict);
      ConvertEmits(c, s, room, strict);
      ConvertBound(c, s[step.used..], room - |step.out|, strict);
      BoundAdds(c, step.used, Convert(c, s[step.used..], room - |step.out|, strict).used);
    }
  }

  /** A target of the bound's size is never exhausted. */
  lemma {:induction false} ConvertFits(c: Conversion, s: seq<nat>, room: nat, strict: bool)
    requires Units(c, s) && Bound(c, |s|) <= room
    ensures Convert(c, s, room, strict).result != TargetExhausted
    decreases |s|
  {
    hide StepOf, Convert, Units, Bound;
    if s == [] {
      ConvertStops(c, s, room, strict);
    } else {
      StepBound(c, s, room, strict);
      var step := StepOf(c, s, room, strict);
      if step.Stop? {
        ConvertStops(c, s, room, strict);
      } else {
        ConvertEmits(c, s, room, strict);
        BoundAdds(c, step.used, |s[step.used..]|);
        ConvertFits(c, s[step.used..], room - |step.out|, strict);
      }
    }
  }

  // ---------------------------------------------------------------------------------------
  // Converting through successive targets
  // ---------------------------------------------------------------------------------------

  /** No source unit is above the last code point. */
  predicate InRange(c: Conversion, s: seq<nat>) {
    From(c) == Utf32 ==> forall i :: 0 <= i < |s| ==> s[i] <= MAX_LEGAL
  }

  lemma StepRoom(c: Conversion, s: seq<nat>, room: nat, room': nat, strict: bool)
    requires s != [] && Units(c, s) && InRange(c, s) && room <= room'
    ensures var r, r' := StepOf(c, s, room, strict), StepOf(c, s, room', strict);
            && (r != Stop(TargetExhausted) ==> r == r')
            && (r.Emit? ==> !r.bad)
            && (4 <= room ==> r != Stop(TargetExhausted))
  {
  }

  /** `whole`, with room for all, is what `o` leaves to do on the rest of `s`, or `o` itself. */
  ghost predicate Continues(c: Conversion, s: seq<nat>, o: Outcome, whole: Outcome, room: nat, strict: bool) {
    && o.used <= |s| && |o.out| <= room && Units(c, s[o.used..])
    && whole == if o.result == TargetExhausted
                then Then(o.used, o.out, false, Convert(c, s[o.used..], room - |o.out|, strict)) else o
  }

  lemma ContinuesCons(c: Conversion, s: seq<nat>, used: nat, out: seq<nat>, o: Outcome, whole: Outcome, room: nat,
                      strict: bool)
    requires used <= |s| && |out| <= room && Continues(c, s[used..], o, whole, room - |out|, strict)
    ensures Continues(c, s, Then(used, out, false, o), Then(used, out, false, whole), room, strict)
  {
    hide Convert, Units;
    assert s[used..][o.used..] == s[used + o.used..];
    if o.result == TargetExhausted {
      ThenThen(used, out, o.used, o.out, Convert(c, s[used + o.used..], room - |out| - |o.out|, strict));
    }
  }

  lemma ContinuesStop(c: Conversion, s: seq<nat>, o: Outcome, whole: Outcome, room: nat, strict: bool)
    requires Units(c, s) && o.used == 0 && o.out == []
    requires whole == if o.result == TargetExhausted then Convert(c, s, room, strict) else o
    ensures Continues(c, s, o, whole, room, strict)
  {
    hide Convert, Units;
    assert s[0..] == s;
  }

  /**
   * A conversion that ran out of room can be taken up again where it stopped; one that did not is the
   * same with more room.
   */
  lemma {:induction false} Resume(c: Conversion, s: seq<nat>, room: nat, room': nat, strict: bool)
    requires Units(c, s) && InRange(c, s) && room <= room'
    ensures Continues(c, s, Convert(c, s, room, strict), Convert(c, s, room', strict), room', strict)
    decreases |s|
  {
    hide *;
    if s == [] {
      ConvertStops(c, s, room, strict);
      ConvertStops(c, s, room', strict);
      ContinuesStop(c, s, Convert(c, s, room, strict), Convert(c, s, room', strict), room', strict);
    } else {
      StepRoom(c, s, room, room', strict);
      var step := StepOf(c, s, room, strict);
      if step.Emit? {
        ConvertEmits(c, s, room, strict);
        ConvertEmits(c, s, room', strict);
        var rest := s[step.used..];
        InRangeRest(c, s, step.used);
        Resume(c, rest, room - |step.out|, room' - |step.out|, strict);
        ContinuesCons(c, s, step.used, step.out, Convert(c, rest, room - |step.out|, strict),
                      Convert(c, rest, room' - |step.out|, strict), room', strict);
      } else {
        ConvertStops(c, s, room, strict);
        if step != Stop(TargetExhausted) {
          ConvertStops(c, s, room', strict);
        }
        ContinuesStop(c, s, Convert(c, s, room, strict), Convert(c, s, room', strict), room', strict);
      }
    }
  }

  lemma InRangeRest(c: Conversion, s: seq<nat>, n: nat)
    requires n <= |s| && InRange(c, s)
    ensures InRange(c, s[n..])
  {
  }

  lemma ThenThen(used: nat, out: seq<nat>, used': nat, out': seq<nat>, rest: Outcome)
    ensures Then(used, out, false, Then(used', out', false, rest)) == Then(used + used', out + out', false, rest)
  {
    assert out + (out' + rest.out) == out + out' + rest.out;
  }

  /** Convert into one target after another; `sizes(k)` is the room in the k-th. */
  ghost function InPieces(c: Conversion, s: seq<nat>, sizes: nat -> nat, k: nat, strict: bool): Outcome
    requires Units(c, s) && InRange(c, s) && forall i :: 4 <= sizes(i)
    decreases |s|
  {
    var o := Convert(c, s, sizes(k), strict);
    if o.result == TargetExhausted then
      MakesProgress(c, s, sizes(k), strict);
      Then(o.used, o.out, false, InPieces(c, s[o.used..], sizes, k + 1, strict))
    else o
  }

  lemma MakesProgress(c: Conversion, s: seq<nat>, room: nat, strict: bool)
    requires Units(c, s) && InRange(c, s) && 4 <= room && Convert(c, s, room, strict).result == TargetExhausted
    ensures 0 < Convert(c, s, room, strict).used
  {
    StepRoom(c, s, room, room, strict);
  }

  /** However the target is divided into pieces of at least four units, the result is that of one large target. */
  lemma {:induction false} PiecesMakeWhole(c: Conversion, s: seq<nat>, sizes: nat -> nat, k: nat, strict: bool,
                                           room: nat)
    requires Units(c, s) && InRange(c, s) && (forall i :: 4 <= sizes(i)) && Bound(c, |s|) <= room
    ensures InPieces(c, s, sizes, k, strict) == Convert(c, s, room, strict)
    decreases |s|
  {
    hide Convert, Units, InRange, Bound;
    var small := sizes(k);
    var large := if small <= room then room else small;
    Resume(c, s, small, large, strict);
    Resume(c, s, room, large, strict);
    ConvertFits(c, s, room, strict);
    var o := Convert(c, s, small, strict);
    if o.result == TargetExhausted {
      MakesProgress(c, s, small, strict);
      ConvertBound(c, s, small, strict);
      InRangeRest(c, s, o.used);
      BoundAdds(c, o.used, |s| - o.used);
      PiecesMakeWhole(c, s[o.used..], sizes, k + 1, strict, room - |o.out|);
    }
  }

  // ---------------------------------------------------------------------------------------
  // Character boundaries
  // ---------------------------------------------------------------------------------------

  /** The outcome consumes the encoding of `vs` from `s` and writes their encoding in form `f`. */
  ghost predicate OnBoundary(f: Form, s: seq<nat>, o: Outcome, vs: seq<nat>) {
    o.used <= |s| && Scalars(vs) && s[..o.used] == EncodeAll(Utf16, vs) && o.out == EncodeAll(f, vs)
  }

  lemma BoundaryNone(f: Form, s: seq<nat>, result: Result)
    ensures OnBoundary(f, s, Outcome(result, 0, []), [])
  {
  }

  lemma BoundaryCons(f: Form, s: seq<nat>, used: nat, out: seq<nat>, v: nat, o: Outcome, vs: seq<nat>)
    requires used <= |s| && OnBoundary(f, s[used..], o, vs)
    requires Scalar(v) && s[..used] == Encode16(v) && out == Encode(f, v)
    ensures OnBoundary(f, s, Then(used, out, false, o), [v] + vs)
  {
    hide Encode16, Encode8, Scalar;
    var all := [v] + vs;
    assert all[1..] == vs;
    assert s[..used + o.used] == s[..used] + s[used..][..o.used];
  }

  /**
   * A strict conversion from UTF-16 stops on a character boundary, whatever its result: it has
   * consumed the encoding of some scalar values and written their encoding.
   */
  lemma {:induction false} StopsOnBoundary(c: Conversion, s: seq<nat>, room: nat) returns (vs: seq<nat>)
    requires From(c) == Utf16 && Units16(s) && Units(c, s)
    ensures OnBoundary(To(c), s, Convert(c, s, room, true), vs)
    decreases |s|
  {
    hide *;
    if s == [] || StepOf(c, s, room, true).Stop? {
      ConvertStops(c, s, room, true);
      vs := [];
      BoundaryNone(To(c), s, Convert(c, s, room, true).result);
    } else {
      var step := StepOf(c, s, room, true);
      var v := StrictStep(c, s, room);
      ConvertEmits(c, s, room, true);
      var rest := s[step.used..];
      RestUnits(s, step.used);
      var after := StopsOnBoundary(c, rest, room - |step.out|);
      vs := [v] + after;
      BoundaryCons(To(c), s, step.used, step.out, v, Convert(c, rest, room - |step.out|, true), after);
    }
  }

  ghost predicate Units16(s: seq<nat>) {
    forall i :: 0 <= i < |s| ==> s[i] <= 0xFFFF
  }

  lemma RestUnits(s: seq<nat>, n: nat)
    requires Units16(s) && n <= |s|
    ensures Units16(s[n..])
  {
  }

  lemma StrictUnits(c: Conversion, s: seq<nat>)
    requires Units16(s)
    ensures Units(c, s)
  {
  }

  /** A pass of a strict conversion from UTF-16 consumes one character and writes it. */
  lemma StrictStep(c: Conversion, s: seq<nat>, room: nat) returns (v: nat)
    requires From(c) == Utf16 && s != [] && Units16(s) && Units(c, s) && StepOf(c, s, room, true).Emit?
    ensures Scalar(v)
    ensures var step := StepOf(c, s, room, true);
            s[..step.used] == Encode16(v) && step.out == Encode(To(c), v) && !step.bad
  {
    Read16Strict(s);
    v := Read16(s, true).ch;
  }

  /** Two outcomes on the same UTF-16 source, one in UTF-8 and one in UTF-32. */
  ghost predicate Agree(direct: Outcome, first: Outcome) {
    && direct.result == first.result && direct.used == first.used
    && Scalars(first.out) && direct.out == EncodeAll(Utf8, first.out)
  }

  lemma AgreeCons(v: nat, used: nat, direct: Outcome, first: Outcome)
    requires Scalar(v) && Agree(direct, first)
    ensures Agree(Then(used, Encode8(v), false, direct), Then(used, [v], false, first))
  {
    hide Encode8;
    assert ([v] + first.out)[1..] == first.out;
  }

  lemma AgreeNone(result: Result)
    ensures Agree(Outcome(result, 0, []), Outcome(result, 0, []))
  {
  }

  /** One pass of both conversions. */
  lemma BothSteps(s: seq<nat>, room: nat, room32: nat)
    requires s != [] && Units16(s) && Units(From16To8, s) && Units(From16To32, s) && 3 * |s| <= room && |s| <= room32
    ensures var r, a, b := Read16(s, true), StepOf(From16To8, s, room, true), StepOf(From16To32, s, room32, true);
            && (r.Fail? ==> a == Stop(r.result) && b == a)
            && (r.Char? ==> Scalar(r.ch) && r.used <= |s| && |Encode8(r.ch)| <= 3 * r.used
                            && a == Emit(r.used, Encode8(r.ch), false) && b == Emit(r.used, [r.ch], false))
  {
    if Read16(s, true).Char? {
      Read16Strict(s);
    }
  }

  lemma {:induction false} SameCharacters(s: seq<nat>, room: nat, room32: nat)
    requires Units16(s) && Units(From16To8, s) && Units(From16To32, s) && 3 * |s| <= room && |s| <= room32
    ensures Agree(Convert(From16To8, s, room, true), Convert(From16To32, s, room32, true))
    decreases |s|
  {
    hide *;
    if s == [] {
      ConvertStops(From16To8, s, room, true);
      ConvertStops(From16To32, s, room32, true);
      AgreeNone(ConversionOK);
    } else {
      BothSteps(s, room, room32);
      var r := Read16(s, true);
      if r.Fail? {
        ConvertStops(From16To8, s, room, true);
        ConvertStops(From16To32, s, room32, true);
        AgreeNone(r.result);
      } else {
        ConvertEmits(From16To8, s, room, true);
        ConvertEmits(From16To32, s, room32, true);
        var rest := s[r.used..];
        RestUnits(s, r.used);
        SameCharacters(rest, room - |Encode8(r.ch)|, room32 - 1);
        AgreeCons(r.ch, r.used, Convert(From16To8, rest, room - |Encode8(r.ch)|, true),
                  Convert(From16To32, rest, room32 - 1, true));
      }
    }
  }

  /**
   * Converting UTF-16 to UTF-8 directly is the same as going through UTF-32: on every source, with
   * room enough, the result and the units consumed are the same, and so is the output.
   */
  lemma ThroughUtf32(s: seq<nat>, room: nat, room32: nat)
    requires Units16(s) && Units(From16To8, s) && Units(From16To32, s) && 3 * |s| <= room && |s| <= room32
    ensures var direct, first := Convert(From16To8, s, room, true), Convert(From16To32, s, room32, true);
            && direct.result == first.result && direct.used == first.used && Units(From32To8, first.out)
            && Convert(From32To8, first.out, room, true) == Outcome(ConversionOK, |first.out|, direct.out)
  {
    SameCharacters(s, room, room32);
    var first := Convert(From16To32, s, room32, true);
    hide Convert, Units;
    EncodeAll32(first.out);
    EncodedUnits(From32To8, first.out);
    ConvertsEncoded(From32To8, first.out, room, true);
  }

  // ---------------------------------------------------------------------------------------
  // Sources that isLegalUTF8 should refuse
  // ---------------------------------------------------------------------------------------

  predicate NoLax(bs: seq<nat>) {
    forall i :: 0 <= i < |bs| - 1 ==> !Lax(bs[i], bs[i + 1])
  }

  /** Read as UTF-8, with `vs` for what was read. */
  ghost predicate Reads8(f: Form, s: seq<nat>, o: Outcome, vs: seq<nat>) {
    && o.used <= |s| && Scalars(vs) && o.out == EncodeAll(f, vs)
    && (NoLax(s[..o.used]) ==> s[..o.used] == EncodeAll(Utf8, vs))
  }

  lemma Reads8Cons(f: Form, s: seq<nat>, used: nat, out: seq<nat>, v: nat, o: Outcome, vs: seq<nat>)
    requires used <= |s| && Reads8(f, s[used..], o, vs)
    requires Scalar(v) && out == Encode(f, v) && (NoLax(s[..used]) ==> s[..used] == Encode8(v))
    ensures Reads8(f, s, Then(used, out, false, o), [v] + vs)
  {
    hide Encode8, Encode16, Scalar, Lax;
    assert ([v] + vs)[1..] == vs;
    var whole, a, b := s[..used + o.used], s[..used], s[used..][..o.used];
    assert whole == a + b;
    if NoLax(whole) {
      NoLaxParts(a, b);
    }
    hide NoLax;
  }

  lemma NoLaxParts(a: seq<nat>, b: seq<nat>)
    requires NoLax(a + b)
    ensures NoLax(a) && NoLax(b)
  {
    hide Lax;
    forall i | 0 <= i < |a| - 1 ensures !Lax(a[i], a[i + 1]) {
      assert a[i] == (a + b)[i] && a[i + 1] == (a + b)[i + 1];
    }
    forall i | 0 <= i < |b| - 1 ensures !Lax(b[i], b[i + 1]) {
      assert b[i] == (a + b)[|a| + i] && b[i + 1] == (a + b)[|a| + i + 1];
    }
  }

  lemma Reads8None(f: Form, s: seq<nat>, result: Result)
    ensures Reads8(f, s, Outcome(result, 0, []), [])
  {
  }

  lemma Step8(c: Conversion, s: seq<nat>, room: nat, strict: bool) returns (v: nat)
    requires From(c) == Utf8 && s != [] && Units(c, s) && StepOf(c, s, room, strict).Emit?
    ensures Scalar(v)
    ensures var step := StepOf(c, s, room, strict);
            step.out == Encode(To(c), v) && !step.bad && (NoLax(s[..step.used]) ==> s[..step.used] == Encode8(v))
  {
    var r := Read8(s);
    LegalExactly(s[..r.used]);
    v := r.ch;
  }

  lemma {:induction false} Consumes8(c: Conversion, s: seq<nat>, room: nat, strict: bool) returns (vs: seq<nat>)
    requires From(c) == Utf8 && Units(c, s)
    ensures Reads8(To(c), s, Convert(c, s, room, strict), vs)
    decreases |s|
  {
    hide *;
    if s == [] || StepOf(c, s, room, strict).Stop? {
      ConvertStops(c, s, room, strict);
      vs := [];
      Reads8None(To(c), s, Convert(c, s, room, strict).result);
    } else {
      var step := StepOf(c, s, room, strict);
      var v := Step8(c, s, room, strict);
      ConvertEmits(c, s, room, strict);
      var rest := s[step.used..];
      var after := Consumes8(c, rest, room - |step.out|, strict);
      vs := [v] + after;
      Reads8Cons(To(c), s, step.used, step.out, v, Convert(c, rest, room - |step.out|, strict), after);
    }
  }

  lemma Encode8NotLax(v: nat)
    requires Scalar(v)
    ensures NoLax(Encode8(v)) && !(Encode8(v)[|Encode8(v)| - 1] in {0xED, 0xF4})
  {
  }

  lemma {:induction false} EncodedNotLax(vs: seq<nat>)
    requires Scalars(vs)
    ensures NoLax(EncodeAll(Utf8, vs))
  {
    if vs != [] {
      EncodeAllFirst(Utf8, vs);
      EncodedNotLax(vs[1..]);
      Encode8NotLax(vs[0]);
      hide Encode8, EncodeAll, Scalar, Scalars;
    }
  }

  /**
   * A conversion from UTF-8 writes the encoding of some scalar values, whatever the source and the
   * result. What it has consumed is their encoding exactly when no byte ED or F4 among it is
   * followed by a byte below 80.
   */
  lemma FromUtf8(c: Conversion, s: seq<nat>, room: nat, strict: bool) returns (vs: seq<nat>)
    requires From(c) == Utf8 && Units(c, s)
    ensures var o := Convert(c, s, room, strict);
            && Scalars(vs) && o.out == EncodeAll(To(c), vs)
            && (s[..o.used] == EncodeAll(Utf8, vs) <==> NoLax(s[..o.used]))
  {
    vs := Consumes8(c, s, room, strict);
    EncodedNotLax(vs);
    hide Convert, EncodeAll, NoLax;
  }

  // ---------------------------------------------------------------------------------------
  // Sources above the last code point
  // ---------------------------------------------------------------------------------------

  /** What was consumed is scalar values, and what was written is their encoding. */
  ghost predicate Faithful(f: Form, s: seq<nat>, o: Outcome) {
    o.used <= |s| && Scalars(s[..o.used]) && o.out == EncodeAll(f, s[..o.used])
  }

  lemma FaithfulCons(f: Form, s: seq<nat>, o: Outcome)
    requires s != [] && Scalar(s[0]) && Faithful(f, s[1..], o)
    ensures Faithful(f, s, Then(1, Encode(f, s[0]), false, o))
  {
    hide Encode, Scalar;
    assert s[..1 + o.used] == [s[0]] + s[1..][..o.used];
    assert s[..1 + o.used][1..] == s[1..][..o.used];
  }

  lemma Step32(c: Conversion, s: seq<nat>, room: nat)
    requires From(c) == Utf32 && s != [] && Units(c, s) && StepOf(c, s, room, true).Emit? && s[0] <= MAX_LEGAL
    ensures Scalar(s[0]) && StepOf(c, s, room, true) == Emit(1, Encode(To(c), s[0]), false)
  {
  }

  lemma StepAdvancesOne(c: Conversion, s: seq<nat>, room: nat)
    requires From(c) == Utf32 && s != [] && Units(c, s) && StepOf(c, s, room, true).Emit?
    ensures StepOf(c, s, room, true).used == 1
  {
  }

  predicate NoneAbove(s: seq<nat>, n: nat) {
    n <= |s| && forall i :: 0 <= i < n ==> s[i] <= MAX_LEGAL
  }

  /**
   * A strict conversion from UTF-32 writes the encoding of what it has consumed exactly when it has
   * consumed no value above the last code point.
   */
  lemma FromUtf32(c: Conversion, s: seq<nat>, room: nat)
    requires From(c) == Utf32 && Units(c, s)
    ensures var o := Convert(c, s, room, true); Faithful(To(c), s, o) <==> NoneAbove(s, o.used)
  {
    var o := Convert(c, s, room, true);
    hide Convert, EncodeAll, From, To, Units;
    if Faithful(To(c), s, o) {
      forall i | 0 <= i < o.used ensures s[i] <= MAX_LEGAL {
        assert Scalar(s[..o.used][i]);
      }
    }
    if NoneAbove(s, o.used) {
      ConsumesScalars(c, s, room);
    }
  }

  lemma NoneAboveRest(s: seq<nat>, n: nat)
    requires s != [] && NoneAbove(s, n + 1)
    ensures s[0] <= MAX_LEGAL && NoneAbove(s[1..], n)
  {
  }

  lemma {:induction false} ConsumesScalars(c: Conversion, s: seq<nat>, room: nat)
    requires From(c) == Utf32 && Units(c, s) && NoneAbove(s, Convert(c, s, room, true).used)
    ensures Faithful(To(c), s, Convert(c, s, room, true))
    decreases |s|
  {
    hide Encode, EncodeAll, Faithful, StepOf, Convert, Scalar, Units, From, To, NoneAbove;
    if s == [] || StepOf(c, s, room, true).Stop? {
      ConvertStops(c, s, room, true);
      FaithfulNone(To(c), s, Convert(c, s, room, true).result);
    } else {
      ConvertEmits(c, s, room, true);
      StepAdvancesOne(c, s, room);
      var o := Convert(c, s[1..], room - |StepOf(c, s, room, true).out|, true);
      NoneAboveRest(s, o.used);
      Step32(c, s, room);
      ConsumesScalars(c, s[1..], room - |Encode(To(c), s[0])|);
      FaithfulCons(To(c), s, o);
    }
  }

  lemma FaithfulNone(f: Form, s: seq<nat>, result: Result)
    ensures Faithful(f, s, Outcome(result, 0, []))
  {
  }

  // ---------------------------------------------------------------------------------------
  // What the results say
  // ---------------------------------------------------------------------------------------

  lemma NeverStopsOK(c: Conversion, s: seq<nat>, room: nat, strict: bool)
    requires s != [] && Units(c, s)
    ensures StepOf(c, s, room, strict) != Stop(ConversionOK)
  {
  }

  /** A conversion that succeeds has consumed the whole source. */
  lemma {:induction false} OKConsumesAll(c: Conversion, s: seq<nat>, room: nat, strict: bool)
    requires Units(c, s) && Convert(c, s, room, strict).result == ConversionOK
    ensures Convert(c, s, room, strict).used == |s|
    decreases |s|
  {
    hide StepOf, Convert, Units;
    if s == [] {
      ConvertStops(c, s, room, strict);
    } else if StepOf(c, s, room, strict).Stop? {
      NeverStopsOK(c, s, room, strict);
      ConvertStops(c, s, room, strict);
    } else {
      ConvertEmits(c, s, room, strict);
      var step := StepOf(c, s, room, strict);
      OKConsumesAll(c, s[step.used..], room - |step.out|, strict);
    }
  }

  /** A UTF-8 source that is converted with success is the encoding of what was written, unless it has such bytes. */
  lemma WholeUtf8(c: Conversion, s: seq<nat>, room: nat, strict: bool) returns (vs: seq<nat>)
    requires From(c) == Utf8 && Units(c, s) && Convert(c, s, room, strict).result == ConversionOK
    ensures Scalars(vs) && Convert(c, s, room, strict).out == EncodeAll(To(c), vs)
    ensures s == EncodeAll(Utf8, vs) <==> NoLax(s)
  {
    hide Convert, EncodeAll, NoLax, From, To, Units;
    OKConsumesAll(c, s, room, strict);
    vs := FromUtf8(c, s, room, strict);
    assert s[..|s|] == s;
  }

  lemma Step32Good(c: Conversion, s: seq<nat>, room: nat)
    requires From(c) == Utf32 && s != [] && Units(c, s)
    requires StepOf(c, s, room, true).Emit? && !StepOf(c, s, room, true).bad
    ensures Scalar(s[0])
  {
  }

  lemma {:induction false} OKScalars(c: Conversion, s: seq<nat>, room: nat)
    requires From(c) == Utf32 && Units(c, s) && Convert(c, s, room, true).result == ConversionOK
    ensures Scalars(s)
    decreases |s|
  {
    hide StepOf, Convert, Units, From, Scalar;
    if s == [] {
    } else if StepOf(c, s, room, true).Stop? {
      NeverStopsOK(c, s, room, true);
      ConvertStops(c, s, room, true);
    } else {
      ConvertEmits(c, s, room, true);
      StepAdvancesOne(c, s, room);
      Step32Good(c, s, room);
      OKScalars(c, s[1..], room - |StepOf(c, s, room, true).out|);
      ScalarsCons(s);
    }
  }

  lemma ScalarsCons(s: seq<nat>)
    requires s != [] && Scalar(s[0]) && Scalars(s[1..])
    ensures Scalars(s)
  {
    hide Scalar;
    assert s == [s[0]] + s[1..];
  }

  /**
   * A strict conversion from UTF-32 succeeds exactly on scalar values with room for their encoding,
   * which it then writes.
   */
  lemma {:induction false} WholeUtf32(c: Conversion, s: seq<nat>, room: nat)
    requires From(c) == Utf32 && Units(c, s)
    ensures var o := Convert(c, s, room, true);
            && (o.result == ConversionOK <==> Scalars(s) && |EncodeAll(To(c), s)| <= room)
            && (o.result == ConversionOK ==> o.out == EncodeAll(To(c), s))
  {
    var o := Convert(c, s, room, true);
    hide Convert, EncodeAll, From, To, Units, Scalars, Faithful, NoneAbove;
    if o.result == ConversionOK {
      OKConsumesAll(c, s, room, true);
      OKScalars(c, s, room);
      WholeFaithful(c, s, room);
    } else if Scalars(s) && |EncodeAll(To(c), s)| <= room {
      EncodeAll32(s);
      ConvertsEncoded(c, s, room, true);
    }
  }

  lemma WholeFaithful(c: Conversion, s: seq<nat>, room: nat)
    requires From(c) == Utf32 && Units(c, s) && Scalars(s) && Convert(c, s, room, true).used == |s|
    ensures Convert(c, s, room, true).out == EncodeAll(To(c), s) && |EncodeAll(To(c), s)| <= room
  {
    var o := Convert(c, s, room, true);
    forall i | 0 <= i < |s| ensures s[i] <= MAX_LEGAL {
      assert Scalar(s[i]);
    }
    hide Convert, EncodeAll, From, To, Units;
    FromUtf32(c, s, room);
    assert s[..|s|] == s;
  }

  /**
   * When the source is illegal and not all of it was consumed, it is left at a value on which the
   * routine stops as illegal. It is never consumed to the end, except from UTF-32.
   */
  lemma {:induction false} IllegalPosition(c: Conversion, s: seq<nat>, room: nat, strict: bool)
    requires Units(c, s) && Convert(c, s, room, strict).result == SourceIllegal
    ensures var o := Convert(c, s, room, strict);
            && (o.used < |s| ==> Units(c, s[o.used..])
                                 && StepOf(c, s[o.used..], room - |o.out|, strict) == Stop(SourceIllegal))
            && (From(c) != Utf32 ==> o.used < |s|)
    decreases |s|
  {
    hide StepOf, Convert, Units, From;
    if s == [] || StepOf(c, s, room, strict).Stop? {
      ConvertStops(c, s, room, strict);
      assert s[0..] == s;
    } else {
      ConvertEmits(c, s, room, strict);
      var step := StepOf(c, s, room, strict);
      var rest, left := s[step.used..], room - |step.out|;
      if Convert(c, rest, left, strict).result == SourceIllegal {
        IllegalPosition(c, rest, left, strict);
        var o := Convert(c, rest, left, strict);
        assert s[step.used + o.used..] == rest[o.used..];
      } else {
        OKConsumesAll(c, rest, left, strict);
        OnlyFrom32(c, s, room, strict);
      }
    }
  }

  lemma OnlyFrom32(c: Conversion, s: seq<nat>, room: nat, strict: bool)
    requires s != [] && Units(c, s) && StepOf(c, s, room, strict).Emit? && StepOf(c, s, room, strict).bad
    ensures From(c) == Utf32
  {
  }

  ghost predicate HasSurrogate(s: seq<nat>) {
    exists i :: 0 <= i < |s| && Surrogate(s[i])
  }

  predicate Surrogate(v: nat) {
    High(v) || Low(v)
  }

  lemma SurrogateFirst(s: seq<nat>)
    requires s != []
    ensures HasSurrogate(s) <==> Surrogate(s[0]) || HasSurrogate(s[1..])
  {
    hide Surrogate;
    assert s == [s[0]] + s[1..];
    if HasSurrogate(s) && !Surrogate(s[0]) {
      var i :| 0 <= i < |s| && Surrogate(s[i]);
      assert Surrogate(s[1..][i - 1]);
    }
  }

  lemma Surrogate32(c: Conversion, s: seq<nat>, room: nat)
    requires From(c) == Utf32 && s != [] && Units(c, s)
    ensures var step := StepOf(c, s, room, true);
            (step.Emit? ==> !Surrogate(s[0])) && (step == Stop(SourceIllegal) ==> Surrogate(s[0]))
  {
  }

  /**
   * When a strict conversion from UTF-32 finds the source illegal, it leaves it at a surrogate exactly
   * if there is one in the source. Otherwise all of it was consumed, past the illegal values.
   */
  lemma {:induction false} IllegalValue(c: Conversion, s: seq<nat>, room: nat)
    requires From(c) == Utf32 && Units(c, s) && Convert(c, s, room, true).result == SourceIllegal
    ensures var o := Convert(c, s, room, true);
            && (o.used < |s| <==> HasSurrogate(s))
            && (o.used < |s| ==> Surrogate(s[o.used]))
    decreases |s|
  {
    hide StepOf, Convert, Units, From, HasSurrogate, Surrogate;
    if s == [] || StepOf(c, s, room, true).Stop? {
      ConvertStops(c, s, room, true);
      Surrogate32(c, s, room);
      SurrogateFirst(s);
    } else {
      ConvertEmits(c, s, room, true);
      StepAdvancesOne(c, s, room);
      Surrogate32(c, s, room);
      SurrogateFirst(s);
      var left := room - |StepOf(c, s, room, true).out|;
      if Convert(c, s[1..], left, true).result == SourceIllegal {
        IllegalValue(c, s[1..], left);
      } else {
        OKConsumesAll(c, s[1..], left, true);
        OKScalars(c, s[1..], left);
        ScalarsNoSurrogate(s[1..]);
      }
    }
  }

  lemma ScalarsNoSurrogate(s: seq<nat>)
    requires Scalars(s)
    ensures !HasSurrogate(s)
  {
    forall i | 0 <= i < |s| ensures !Surrogate(s[i]) {
      assert Scalar(s[i]);
    }
  }

  // ---------------------------------------------------------------------------------------
  // The result of a strict conversion from UTF-32
  // ---------------------------------------------------------------------------------------

  /** What is written for a value when there is room. */
  function Piece(c: Conversion, v: nat): seq<nat> {
    if Scalar(v) then Encode(To(c), v)
    else if c.From32To8? && v > MAX_LEGAL then Encode8(REPLACEMENT)
    else []
  }

  /** The room without which the routine stops before a value: UTF-16 needs some even to refuse or drop it. */
  function Need(c: Conversion, v: nat): nat {
    if c.From32To16? && !Scalar(v) then 1 else |Piece(c, v)|
  }

  ghost function LengthFor(c: Conversion, s: seq<nat>): nat {
    if s == [] then 0 else |Piece(c, s[0])| + LengthFor(c, s[1..])
  }

  /** There is room before each value, up to the first surrogate. */
  ghost predicate RoomFor(c: Conversion, s: seq<nat>, room: int) {
    forall i :: 0 <= i < |s| && !HasSurrogate(s[..i]) ==> LengthFor(c, s[..i]) + Need(c, s[i]) <= room
  }

  lemma RoomForFirst(c: Conversion, s: seq<nat>, room: int)
    requires s != []
    ensures RoomFor(c, s, room) <==>
            Need(c, s[0]) <= room && (Surrogate(s[0]) || RoomFor(c, s[1..], room - |Piece(c, s[0])|))
  {
    hide Piece, Need, Surrogate;
    assert s[..0] == [] && !HasSurrogate([]);
    forall i | 0 < i < |s|
      ensures (HasSurrogate(s[..i]) <==> Surrogate(s[0]) || HasSurrogate(s[1..][..i - 1]))
              && LengthFor(c, s[..i]) == |Piece(c, s[0])| + LengthFor(c, s[1..][..i - 1])
              && s[i] == s[1..][i - 1]
    {
      assert s[..i][1..] == s[1..][..i - 1];
      SurrogateFirst(s[..i]);
    }
    hide LengthFor, HasSurrogate;
    if RoomFor(c, s, room) && !Surrogate(s[0]) {
      forall j | 0 <= j < |s[1..]| && !HasSurrogate(s[1..][..j])
        ensures LengthFor(c, s[1..][..j]) + Need(c, s[1..][j]) <= room - |Piece(c, s[0])|
      {
        assert s[1..][j] == s[j + 1] && s[1..][..j + 1 - 1] == s[1..][..j];
        assert !HasSurrogate(s[..j + 1]);
      }
    }
    if Need(c, s[0]) <= room && (Surrogate(s[0]) || RoomFor(c, s[1..], room - |Piece(c, s[0])|)) {
      forall i | 0 <= i < |s| && !HasSurrogate(s[..i]) ensures LengthFor(c, s[..i]) + Need(c, s[i]) <= room {
        RoomForLater(c, s, room, i);
      }
    }
  }

  lemma RoomForLater(c: Conversion, s: seq<nat>, room: int, i: nat)
    requires i < |s| && !HasSurrogate(s[..i])
    requires Need(c, s[0]) <= room && (Surrogate(s[0]) || RoomFor(c, s[1..], room - |Piece(c, s[0])|))
    ensures LengthFor(c, s[..i]) + Need(c, s[i]) <= room
  {
    hide Piece, Need, Surrogate;
    if i > 0 {
      SurrogateFirst(s[..i]);
      assert s[..i][1..] == s[1..][..i - 1] && s[i] == s[1..][i - 1];
    }
  }

  lemma StepExactly32(c: Conversion, s: seq<nat>, room: nat)
    requires From(c) == Utf32 && s != [] && Units(c, s)
    ensures StepOf(c, s, room, true) ==
            if Need(c, s[0]) > room then Stop(TargetExhausted)
            else if Surrogate(s[0]) then Stop(SourceIllegal)
            else Emit(1, Piece(c, s[0]), s[0] > MAX_LEGAL)
  {
  }

  /**
   * The result of a strict conversion from UTF-32, told from the source and the room: the target is
   * exhausted exactly if there is not room before each value up to the first surrogate. Otherwise the
   * source is illegal exactly if some value is not scalar. So a value above the last code point is
   * reported only if the room lasts to the end, or to a surrogate.
   */
  lemma {:induction false} ResultFrom32(c: Conversion, s: seq<nat>, room: nat)
    requires From(c) == Utf32 && Units(c, s)
    ensures Convert(c, s, room, true).result
         == if !RoomFor(c, s, room) then TargetExhausted else if !Scalars(s) then SourceIllegal else ConversionOK
    decreases |s|
  {
    hide StepOf, Convert, Units, From, Piece, Need, RoomFor;
    if s == [] {
      ConvertStops(c, s, room, true);
      RoomForNone(c, s, room);
    } else {
      StepExactly32(c, s, room);
      RoomForFirst(c, s, room);
      ScalarFirst(s);
      if StepOf(c, s, room, true).Stop? {
        ConvertStops(c, s, room, true);
      } else {
        ConvertEmits(c, s, room, true);
        ResultFrom32(c, s[1..], room - |Piece(c, s[0])|);
      }
      hide Scalars, Surrogate, Scalar;
    }
  }

  lemma RoomForNone(c: Conversion, s: seq<nat>, room: int)
    requires s == []
    ensures RoomFor(c, s, room) && Scalars(s)
  {
  }

  lemma ScalarFirst(s: seq<nat>)
    requires s != []
    ensures Scalars(s) <==> !Surrogate(s[0]) && s[0] <= MAX_LEGAL && Scalars(s[1..])
  {
    assert Scalar(s[0]) <==> !Surrogate(s[0]) && s[0] <= MAX_LEGAL;
    hide Scalar, Surrogate;
    assert s == [s[0]] + s[1..];
  }

  // ---------------------------------------------------------------------------------------
  // Lenient conversions
  // ---------------------------------------------------------------------------------------

  /** The replacement character in UTF-8 and UTF-16. */
  lemma ReplacementBytes()
    ensures Encode(Utf8, REPLACEMENT) == [0xEF, 0xBF, 0xBD] && Encode(Utf16, REPLACEMENT) == [0xFFFD]
  {
  }

  /** What a lenient conversion writes for a value: itself where it can be encoded, else the replacement character. */
  function LenientPiece(c: Conversion, v: nat): seq<nat> {
    if v <= MAX_LEGAL && (Scalar(v) || c.From32To8?) then Encode(To(c), v) else Encode(To(c), REPLACEMENT)
  }

  ghost function LenientPieces(c: Conversion, s: seq<nat>): seq<nat> {
    if s == [] then [] else LenientPiece(c, s[0]) + LenientPieces(c, s[1..])
  }

  ghost predicate SomeAbove(s: seq<nat>) {
    exists i :: 0 <= i < |s| && s[i] > MAX_LEGAL
  }

  lemma LenientStep32(c: Conversion, s: seq<nat>, room: nat)
    requires From(c) == Utf32 && s != [] && Units(c, s) && |LenientPiece(c, s[0])| <= room
    ensures StepOf(c, s, room, false) == Emit(1, LenientPiece(c, s[0]), c.From32To8? && s[0] > MAX_LEGAL)
  {
  }

  lemma NoneAboveNone()
    ensures !SomeAbove([])
  {
  }

  lemma SomeAboveFirst(s: seq<nat>)
    requires s != []
    ensures SomeAbove(s) <==> s[0] > MAX_LEGAL || SomeAbove(s[1..])
  {
    if SomeAbove(s[1..]) {
      var i :| 0 <= i < |s[1..]| && s[1..][i] > MAX_LEGAL;
      assert s[i + 1] > MAX_LEGAL;
    }
    if SomeAbove(s) && s[0] <= MAX_LEGAL {
      var i :| 0 <= i < |s| && s[i] > MAX_LEGAL;
      assert s[1..][i - 1] > MAX_LEGAL;
    }
  }

  /**
   * With room, a lenient conversion from UTF-32 consumes all values and writes a piece for each. To
   * UTF-16 it always succeeds; to UTF-8 it reports values above the last code point all the same.
   */
  lemma {:induction false} LenientFrom32(c: Conversion, s: seq<nat>, room: nat)
    requires From(c) == Utf32 && Units(c, s) && |LenientPieces(c, s)| <= room
    ensures Convert(c, s, room, false)
         == Outcome(if c.From32To8? && SomeAbove(s) then SourceIllegal else ConversionOK, |s|, LenientPieces(c, s))
    decreases |s|
  {
    hide StepOf, Convert, Units, From, LenientPiece, SomeAbove;
    if s == [] {
      ConvertStops(c, s, room, false);
      NoneAboveNone();
    } else {
      LenientStep32(c, s, room);
      ConvertEmits(c, s, room, false);
      SomeAboveFirst(s);
      LenientFrom32(c, s[1..], room - |LenientPiece(c, s[0])|);
    }
  }

  ghost predicate Codes(vs: seq<nat>) {
    forall i :: 0 <= i < |vs| ==> vs[i] <= MAX_LEGAL
  }

  /** Code points one after another, surrogates as if they were characters. */
  ghost function EncodeCodes(f: Form, vs: seq<nat>): seq<nat>
    requires Codes(vs)
  {
    if vs == [] then [] else Encode(f, vs[0]) + EncodeCodes(f, vs[1..])
  }

  /** No surrogate pair is left apart. */
  ghost predicate Paired(vs: seq<nat>) {
    forall i :: 0 <= i < |vs| - 1 ==> !(High(vs[i]) && Low(vs[i + 1]))
  }

  /** A lenient pass over UTF-16 takes a pair, or a unit as it is, even half a pair. */
  lemma LenientStep16(c: Conversion, s: seq<nat>, room: nat) returns (v: nat)
    requires From(c) == Utf16 && s != [] && Units16(s) && Units(c, s) && StepOf(c, s, room, false).Emit?
    ensures var step := StepOf(c, s, room, false);
            && v <= MAX_LEGAL && s[..step.used] == Encode(Utf16, v) && step.out == Encode(To(c), v) && !step.bad
            && (High(v) ==> step.used == 1 < |s| && !Low(s[1]))
            && (Low(v) ==> s[0] == v)
  {
    v := Read16(s, false).ch;
  }

  lemma LenientStop16(c: Conversion, s: seq<nat>, room: nat)
    requires From(c) == Utf16 && s != [] && Units16(s) && Units(c, s) && StepOf(c, s, room, false).Stop?
    ensures StepOf(c, s, room, false).result == TargetExhausted
            || (StepOf(c, s, room, false).result == SourceExhausted && |s| == 1 && High(s[0]))
  {
  }

  ghost predicate Passes16(c: Conversion, s: seq<nat>, o: Outcome, vs: seq<nat>) {
    && o.used <= |s| && Codes(vs) && Paired(vs) && (vs != [] && Low(vs[0]) ==> o.used > 0 && s[0] == vs[0])
    && s[..o.used] == EncodeCodes(Utf16, vs) && o.out == EncodeCodes(To(c), vs)
    && (o.result == TargetExhausted
        || (o.result == ConversionOK && o.used == |s|)
        || (o.result == SourceExhausted && o.used == |s| - 1 && High(s[|s| - 1])))
  }

  lemma PassesNothing(c: Conversion, s: seq<nat>, o: Outcome)
    requires o.used == 0 && o.out == []
    requires o.result == TargetExhausted || (o.result == ConversionOK && s == [])
             || (o.result == SourceExhausted && |s| == 1 && High(s[0]))
    ensures Passes16(c, s, o, [])
  {
    assert s[..0] == [];
  }

  lemma Passes16Cons(c: Conversion, s: seq<nat>, used: nat, out: seq<nat>, v: nat, o: Outcome, vs: seq<nat>)
    requires v <= MAX_LEGAL && 0 < used <= |s| && Passes16(c, s[used..], o, vs)
    requires s[..used] == Encode(Utf16, v) && out == Encode(To(c), v)
    requires (High(v) ==> used == 1 < |s| && !Low(s[1])) && (Low(v) ==> s[0] == v)
    ensures Passes16(c, s, Then(used, out, false, o), [v] + vs)
  {
    hide Encode, To, High, Low;
    assert s[..used + o.used] == s[..used] + s[used..][..o.used];
    assert ([v] + vs)[1..] == vs;
    assert o.used < |s[used..]| ==> s[used..][|s[used..]| - 1] == s[|s| - 1];
  }

  /**
   * A lenient conversion from UTF-16 never finds the source illegal: it stops for want of room, or
   * before half a pair at the end, or consumes all. What it consumes and writes are the same code
   * points, with halves of pairs that stand alone kept as they are.
   */
  lemma {:induction false} LenientFrom16(c: Conversion, s: seq<nat>, room: nat) returns (vs: seq<nat>)
    requires From(c) == Utf16 && Units16(s) && Units(c, s)
    ensures Passes16(c, s, Convert(c, s, room, false), vs)
    decreases |s|
  {
    hide StepOf, Convert, Units, From, Units16, Passes16, Encode, High, Low;
    if s == [] || StepOf(c, s, room, false).Stop? {
      vs := [];
      ConvertStops(c, s, room, false);
      if s != [] {
        LenientStop16(c, s, room);
      }
      PassesNothing(c, s, Convert(c, s, room, false));
    } else {
      ConvertEmits(c, s, room, false);
      var step := StepOf(c, s, room, false);
      var v := LenientStep16(c, s, room);
      RestUnits(s, step.used);
      vs := LenientFrom16(c, s[step.used..], room - |step.out|);
      Passes16Cons(c, s, step.used, step.out, v, Convert(c, s[step.used..], room - |step.out|, false), vs);
      vs := [v] + vs;
    }
  }

  // ---------------------------------------------------------------------------------------
  // Lead bytes
  // ---------------------------------------------------------------------------------------

  /** How many bits of `b` are set before the first that is not, from the bit worth `bit`, its highest. */
  function LeadingOnes(b: nat, bit: nat): nat {
    if bit == 0 || b < bit then 0 else 1 + LeadingOnes(b - bit, bit / 2)
  }

  /** A lead byte announces as many trail bytes as it has leading one bits, less one, and at most five. */
  lemma TrailingOnes(lead: nat)
    requires lead < 0x100
    ensures var ones := LeadingOnes(lead, 128);
            Trailing(lead) == if ones < 2 then 0 else if ones > 6 then 5 else ones - 1
  {
    if lead >= 0xC0 {
      assert LeadingOnes(lead, 128) == 2 + LeadingOnes(lead - 0xC0, 32);
      if lead >= 0xF0 {
        assert LeadingOnes(lead - 0xC0, 32) == 2 + LeadingOnes(lead - 0xF0, 8);
      }
    }
  }

  /** A pass over a value above the last code point, and over an ASCII character. */
  lemma StepsTo16(s: seq<nat>, room: nat)
    requires s != [] && room > 0
    ensures s[0] > MAX_LEGAL ==> StepOf(From32To16, s, room, true) == Emit(1, [], true)
    ensures s[0] < 0x80 ==> StepOf(From32To16, s, room, true) == Emit(1, [s[0]], false)
  {
  }

  /** Values above the last code point are dropped one after another, and make the result sourceIllegal at the end. */
  lemma DropsFirst(v: nat, s: seq<nat>, room: nat)
    requires v > MAX_LEGAL && room > 0
    ensures Convert(From32To16, [v] + s, room, true) == Then(1, [], true, Convert(From32To16, s, room, true))
  {
    StepsTo16([v] + s, room);
    hide StepOf, Convert;
    ConvertEmits(From32To16, [v] + s, room, true);
    assert ([v] + s)[1..] == s;
  }

  lemma KeepsFirst(v: nat, s: seq<nat>, room: nat)
    requires v < 0x80 && room > 0
    ensures Convert(From32To16, [v] + s, room, true) == Then(1, [v], false, Convert(From32To16, s, room - 1, true))
  {
    StepsTo16([v] + s, room);
    hide StepOf, Convert;
    ConvertEmits(From32To16, [v] + s, room, true);
    assert ([v] + s)[1..] == s;
  }

  /** Strict conversion to UTF-16 drops 110000, reports it only at the end, and not at all when room runs out. */
  lemma DroppedExample()
    ensures Convert(From32To16, [0x110000] + ([0x41] + []), 2, true) == Outcome(SourceIllegal, 2, [0x41])
    ensures Convert(From32To16, [0x110000] + ([0x41] + [0x42]), 1, true) == Outcome(TargetExhausted, 2, [0x41])
  {
    assert Convert(From32To16, [], 1, true) == Outcome(ConversionOK, 0, []);
    assert Convert(From32To16, [0x42], 0, true) == Outcome(TargetExhausted, 0, []);
    hide Convert;
    KeepsFirst(0x41, [], 2);
    DropsFirst(0x110000, [0x41] + [], 2);
    KeepsFirst(0x41, [0x42], 1);
    DropsFirst(0x110000, [0x41] + [0x42], 1);
  }
}
