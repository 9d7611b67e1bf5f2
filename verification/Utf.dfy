/**
 * What the six routines of convert_UTF.c compute, on sequences of code units. Section 3 of RFC 3629
 * gives UTF-8 and section 2.1 of RFC 2781 gives UTF-16.
 */
module Utf {
  const MAX_LEGAL := 0x10FFFF
  const REPLACEMENT := 0xFFFD

  predicate High(u: nat) {
    0xD800 <= u <= 0xDBFF
  }

  predicate Low(u: nat) {
    0xDC00 <= u <= 0xDFFF
  }

  /** Unicode scalar values: all code points except surrogates. */
  predicate Scalar(v: nat) {
    v <= MAX_LEGAL && !High(v) && !Low(v)
  }

  // ---------------------------------------------------------------------------------------
  // Encoding forms
  // ---------------------------------------------------------------------------------------

  function Encode8(v: nat): (r: seq<nat>)
    requires v <= MAX_LEGAL
    ensures 1 <= |r| <= 4
  {
    if v < 0x80 then [v]
    else if v < 0x800 then [0xC0 + v / 0x40, 0x80 + v % 0x40]
    else if v < 0x10000 then [0xE0 + v / 0x40 / 0x40, 0x80 + v / 0x40 % 0x40, 0x80 + v % 0x40]
    else [0xF0 + v / 0x40 / 0x40 / 0x40, 0x80 + v / 0x40 / 0x40 % 0x40, 0x80 + v / 0x40 % 0x40, 0x80 + v % 0x40]
  }

  function Encode16(v: nat): (r: seq<nat>)
    requires v <= MAX_LEGAL
    ensures 1 <= |r| <= 2
  {
    if v < 0x10000 then [v] else [0xD800 + (v - 0x10000) / 0x400, 0xDC00 + (v - 0x10000) % 0x400]
  }

  datatype Form = Utf8 | Utf16 | Utf32

  function Encode(f: Form, v: nat): (r: seq<nat>)
    requires v <= MAX_LEGAL
    ensures 1 <= |r| <= 4
  {
    match f
    case Utf8 => Encode8(v)
    case Utf16 => Encode16(v)
    case Utf32 => [v]
  }

  ghost predicate Scalars(vs: seq<nat>) {
    forall i :: 0 <= i < |vs| ==> Scalar(vs[i])
  }

  ghost function EncodeAll(f: Form, vs: seq<nat>): seq<nat>
    requires Scalars(vs)
  {
    if vs == [] then [] else Encode(f, vs[0]) + EncodeAll(f, vs[1..])
  }

  // ---------------------------------------------------------------------------------------
  // Reading one character
  // ---------------------------------------------------------------------------------------

  datatype Result = ConversionOK | SourceExhausted | TargetExhausted | SourceIllegal

  datatype Read = Char(ch: nat, used: nat) | Fail(result: Result)

  /** trailingBytesForUTF8. */
  function Trailing(lead: nat): (n: nat)
    ensures n <= 5
  {
    if lead < 0xC0 then 0
    else if lead < 0xE0 then 1
    else if lead < 0xF0 then 2
    else if lead < 0xF8 then 3
    else if lead < 0xFC then 4
    else 5
  }

  predicate Trail(b: nat) {
    0x80 <= b <= 0xBF
  }

  /** The inner switch of isLegalUTF8, on the first two bytes. */
  predicate LegalSecond(lead: nat, b: nat) {
    b <= 0xBF &&
    if lead == 0xE0 then 0xA0 <= b
    else if lead == 0xED then b <= 0x9F
    else if lead == 0xF0 then 0x90 <= b
    else if lead == 0xF4 then b <= 0x8F
    else 0x80 <= b
  }

  predicate IsLegalUTF8(bs: seq<nat>)
    requires bs != []
  {
    && |bs| <= 4
    && (|bs| >= 4 ==> Trail(bs[3]))
    && (|bs| >= 3 ==> Trail(bs[2]))
    && (|bs| >= 2 ==> LegalSecond(bs[0], bs[1]))
    && !(0x80 <= bs[0] < 0xC2) && bs[0] <= 0xF4
  }

  /** The bytes of a sequence, six bits at a time. */
  function Gather(bs: seq<nat>): nat {
    if bs == [] then 0 else 0x40 * Gather(bs[..|bs| - 1]) + bs[|bs| - 1]
  }

  /** offsetsFromUTF8, for the lengths that are legal. */
  function Offset(extra: nat): nat {
    if extra == 0 then 0 else if extra == 1 then 0x3080 else if extra == 2 then 0xE2080 else 0x3C82080
  }

  lemma GatherTwo(a: nat, b: nat)
    ensures Gather([a, b]) == 0x40 * a + b
  {
    assert [a, b][..1] == [a] && [a][..0] == [];
    assert Gather([a]) == a;
  }

  lemma GatherThree(a: nat, b: nat, c: nat)
    ensures Gather([a, b, c]) == 0x1000 * a + 0x40 * b + c
  {
    assert [a, b, c][..2] == [a, b];
    GatherTwo(a, b);
  }

  lemma GatherFour(a: nat, b: nat, c: nat, d: nat)
    ensures Gather([a, b, c, d]) == 0x40000 * a + 0x1000 * b + 0x40 * c + d
  {
    assert [a, b, c, d][..3] == [a, b, c];
    GatherThree(a, b, c);
  }

  /** A legal sequence decodes to a scalar value: the offset never exceeds the sum, and no surrogate comes out. */
  lemma LegalIsScalar(bs: seq<nat>)
    requires bs != [] && |bs| == Trailing(bs[0]) + 1 && IsLegalUTF8(bs)
    ensures Offset(|bs| - 1) <= Gather(bs) && Scalar(Gather(bs) - Offset(|bs| - 1))
  {
    if |bs| == 1 {
      assert bs[..0] == [];
    } else if |bs| == 2 {
      assert bs == [bs[0], bs[1]];
      GatherTwo(bs[0], bs[1]);
    } else if |bs| == 3 {
      assert bs == [bs[0], bs[1], bs[2]];
      GatherThree(bs[0], bs[1], bs[2]);
    } else {
      assert bs == [bs[0], bs[1], bs[2], bs[3]];
      GatherFour(bs[0], bs[1], bs[2], bs[3]);
    }
  }

  /** The value of a legal sequence. */
  function Decode8(bs: seq<nat>): (v: nat)
    requires bs != [] && |bs| == Trailing(bs[0]) + 1 && IsLegalUTF8(bs)
    ensures Scalar(v)
  {
    LegalIsScalar(bs);
    Gather(bs) - Offset(|bs| - 1)
  }

  function Read8(s: seq<nat>): (r: Read)
    requires s != []
    ensures r.Char? ==> 0 < r.used <= |s| && Scalar(r.ch)
  {
    var extra := Trailing(s[0]);
    if |s| <= extra then Fail(SourceExhausted)
    else if !IsLegalUTF8(s[..extra + 1]) then Fail(SourceIllegal)
    else Char(Decode8(s[..extra + 1]), extra + 1)
  }

  function Read16(s: seq<nat>, strict: bool): (r: Read)
    requires s != []
    ensures r.Char? ==> 0 < r.used <= |s|
  {
    if High(s[0]) then
      if |s| == 1 then Fail(SourceExhausted)
      else if Low(s[1]) then Char(0x10000 + (s[0] - 0xD800) * 0x400 + (s[1] - 0xDC00), 2)
      else if strict then Fail(SourceIllegal)
      else Char(s[0], 1)
    else if strict && Low(s[0]) then Fail(SourceIllegal)
    else Char(s[0], 1)
  }

  // ---------------------------------------------------------------------------------------
  // One pass through a conversion loop
  // ---------------------------------------------------------------------------------------

  /** Consume some units and write some, or leave the loop. A `bad` step makes the final result sourceIllegal. */
  datatype Step = Emit(used: nat, out: seq<nat>, bad: bool) | Stop(result: Result)

  datatype Conversion = From8To16 | From8To32 | From16To8 | From16To32 | From32To8 | From32To16

  function Fit(used: nat, out: seq<nat>, bad: bool, room: nat): Step {
    if |out| <= room then Emit(used, out, bad) else Stop(TargetExhausted)
  }

  /** Source units as the routine can meet them. */
  predicate Units(c: Conversion, s: seq<nat>) {
    c.From16To8? ==> forall i :: 0 <= i < |s| ==> s[i] <= 0xFFFF
  }

  function StepOf(c: Conversion, s: seq<nat>, room: nat, strict: bool): (r: Step)
    requires s != [] && Units(c, s)
    ensures r.Emit? ==> 0 < r.used <= |s| && |r.out| <= room
  {
    match c
    case From8To16 =>
      var r := Read8(s);
      if r.Fail? then Stop(r.result) else Fit(r.used, Encode16(r.ch), false, room)
    case From8To32 =>
      var r := Read8(s);
      if r.Fail? then Stop(r.result) else Fit(r.used, [r.ch], false, room)
    case From16To8 =>
      var r := Read16(s, strict);
      if r.Fail? then Stop(r.result) else Fit(r.used, Encode8(r.ch), false, room)
    case From16To32 =>
      var r := Read16(s, strict);
      if r.Fail? then Stop(r.result) else Fit(r.used, [r.ch], false, room)
    case From32To8 =>
      if strict && (High(s[0]) || Low(s[0])) then Stop(SourceIllegal)
      else if s[0] <= MAX_LEGAL then Fit(1, Encode8(s[0]), false, room)
      else Fit(1, Encode8(REPLACEMENT), true, room)
    case From32To16 =>
      if room == 0 then Stop(TargetExhausted)
      else if Scalar(s[0]) then Fit(1, Encode16(s[0]), false, room)
      else if !strict then Emit(1, [REPLACEMENT], false)
      else if s[0] <= MAX_LEGAL then Stop(SourceIllegal)
      else Emit(1, [], true)
  }

  /** The result, how many source units are consumed, and what is written. */
  datatype Outcome = Outcome(result: Result, used: nat, out: seq<nat>)

  /** What happened before, followed by what happens on the rest. */
  function Then(used: nat, out: seq<nat>, bad: bool, rest: Outcome): Outcome {
    Outcome(if bad && rest.result == ConversionOK then SourceIllegal else rest.result, used + rest.used, out + rest.out)
  }

  function Convert(c: Conversion, s: seq<nat>, room: nat, strict: bool): (r: Outcome)
    requires Units(c, s)
    ensures r.used <= |s| && |r.out| <= room
    decreases |s|
  {
    if s == [] then Outcome(ConversionOK, 0, [])
    else
      var step := StepOf(c, s, room, strict);
      if step.Stop? then Outcome(step.result, 0, [])
      else Then(step.used, step.out, step.bad, Convert(c, s[step.used..], room - |step.out|, strict))
  }
}
