/**
 * The six conversion loops of convert_UTF.c. Each moves through its source and writes to its target
 * as the specification says, and writes nowhere else.
 *
 * The C code masks and shifts: on the values concerned, (ch | 0x80) & 0xBF is 0x80 + ch % 0x40,
 * shifting by six is division by 0x40 and or-ing in the mark of a lead byte is addition, as
 * TrailBits, LeadBits and SurrogateBits state for machine words.
 */
module ConvertUtf {
  import opened Utf
  import opened UtfProofs

  lemma TrailBits(ch: bv32)
    ensures (ch | 0x80) & 0xBF == 0x80 + ch % 0x40 && ch >> 6 == ch / 0x40
  {
  }

  lemma LeadBits(ch: bv8)
    ensures ch < 0x20 ==> ch | 0xC0 == 0xC0 + ch
    ensures ch < 0x10 ==> ch | 0xE0 == 0xE0 + ch
    ensures ch < 0x08 ==> ch | 0xF0 == 0xF0 + ch
  {
  }

  lemma SurrogateBits(ch: bv32)
    ensures ch >> 10 == ch / 0x400 && ch & 0x3FF == ch % 0x400
  {
  }

  // ---------------------------------------------------------------------------------------
  // A conversion under way
  // ---------------------------------------------------------------------------------------

  /** A call: convert `source` from `start` on into a target from `at` to `limit`. */
  datatype Call = Call(c: Conversion, source: seq<nat>, start: nat, at: nat, limit: nat, strict: bool) {
    predicate Valid() {
      start <= |source| && at <= limit && Units(c, source)
    }
  }

  /** What converting from `s` on into a target with `room` gives. */
  ghost function Remaining(k: Call, s: nat, room: int): Outcome {
    if s <= |k.source| && 0 <= room && Units(k.c, k.source[s..]) then Convert(k.c, k.source[s..], room, k.strict)
    else Outcome(ConversionOK, 0, [])
  }

  /** The step that the routine takes next. */
  ghost function NextStep(k: Call, s: nat, room: int): Step {
    if s < |k.source| && 0 <= room && Units(k.c, k.source[s..]) then StepOf(k.c, k.source[s..], room, k.strict)
    else Stop(ConversionOK)
  }

  /** `now` is `before` with `out` written at `at`. */
  ghost predicate Written(before: seq<nat>, now: seq<nat>, at: nat, out: seq<nat>) {
    at + |out| <= |before| && now == before[..at] + out + before[at + |out|..]
  }

  /** The source is consumed up to `s`, and `out` has been written; what remains completes the outcome. */
  ghost predicate Underway(k: Call, s: nat, out: seq<nat>, bad: bool) {
    && k.Valid() && k.start <= s <= |k.source| && k.at + |out| <= k.limit
    && Remaining(k, k.start, k.limit - k.at)
    == Then(s - k.start, out, bad, Remaining(k, s, k.limit - k.at - |out|))
  }

  /** What a routine promises: the outcome of the specification, written to the target. */
  ghost predicate Done(k: Call, before: seq<nat>, now: seq<nat>, result: Result, s: nat, t: nat) {
    var o := Remaining(k, k.start, k.limit - k.at);
    result == o.result && s == k.start + o.used && t == k.at + |o.out| && Written(before, now, k.at, o.out)
  }

  /** The target holds what the call writes, though `limit` may lie beyond its end. */
  ghost predicate Enough(k: Call, length: nat) {
    k.Valid() && k.at + |Remaining(k, k.start, k.limit - k.at).out| <= length
  }

  lemma WrittenNothing(now: seq<nat>, at: nat)
    requires at <= |now|
    ensures Written(now, now, at, [])
  {
  }

  lemma Begin(k: Call)
    requires k.Valid()
    ensures Underway(k, k.start, [], false)
  {
    hide Remaining, Units;
    assert [] + Remaining(k, k.start, k.limit - k.at).out == Remaining(k, k.start, k.limit - k.at).out;
  }

  lemma NextStepIs(k: Call, s: nat, room: nat)
    requires k.Valid() && s < |k.source|
    ensures Units(k.c, k.source[s..]) && NextStep(k, s, room) == StepOf(k.c, k.source[s..], room, k.strict)
    ensures NextStep(k, s, room) != Stop(ConversionOK)
    ensures var r := NextStep(k, s, room);
            r.Emit? ==> 0 < r.used <= |k.source| - s && |r.out| <= room
  {
    assert Units(k.c, k.source[s..]);
    NeverStopsOK(k.c, k.source[s..], room, k.strict);
    hide StepOf, Units;
  }

  lemma WrittenMore(before: seq<nat>, now: seq<nat>, at: nat, out: seq<nat>, more: seq<nat>, now': seq<nat>)
    requires Written(before, now, at, out) && Written(now, now', at + |out|, more)
    ensures Written(before, now', at, out + more)
  {
    assert now[..at + |out|] == before[..at] + out;
    assert now[at + |out| + |more|..] == before[at + |out| + |more|..];
  }

  lemma ThenAgain(used: nat, out: seq<nat>, bad: bool, step: Step, rest: Outcome)
    requires step.Emit?
    ensures Then(used, out, bad, Then(step.used, step.out, step.bad, rest))
         == Then(used + step.used, out + step.out, bad || step.bad, rest)
  {
    assert out + (step.out + rest.out) == out + step.out + rest.out;
  }

  lemma RemainingEmits(k: Call, s: nat, room: nat)
    requires k.Valid() && s < |k.source| && NextStep(k, s, room).Emit?
    ensures var step := NextStep(k, s, room);
            Remaining(k, s, room) == Then(step.used, step.out, step.bad, Remaining(k, s + step.used, room - |step.out|))
  {
    hide StepOf, Convert, Then;
    NextStepIs(k, s, room);
    ConvertEmits(k.c, k.source[s..], room, k.strict);
    var step := NextStep(k, s, room);
    assert k.source[s..][step.used..] == k.source[s + step.used..];
    RemainingIs(k, s, room);
    RemainingIs(k, s + step.used, room - |step.out|);
    hide NextStep, Remaining, Units;
  }

  lemma RemainingIs(k: Call, s: nat, room: nat)
    requires k.Valid() && s <= |k.source|
    ensures Units(k.c, k.source[s..]) && Remaining(k, s, room) == Convert(k.c, k.source[s..], room, k.strict)
  {
    hide Convert;
  }

  lemma RemainingStops(k: Call, s: nat, room: nat)
    requires k.Valid() && s <= |k.source| && NextStep(k, s, room).Stop?
    ensures Remaining(k, s, room)
         == Outcome(if s == |k.source| then ConversionOK else NextStep(k, s, room).result, 0, [])
  {
    assert Units(k.c, k.source[s..]);
    hide StepOf, Convert;
    ConvertStops(k.c, k.source[s..], room, k.strict);
  }

  /** There is room for what a pass writes. */
  lemma RoomForStep(k: Call, s: nat, out: seq<nat>, bad: bool, length: nat)
    requires Underway(k, s, out, bad) && s < |k.source| && Enough(k, length)
    ensures var step := NextStep(k, s, k.limit - k.at - |out|); step.Emit? ==> k.at + |out| + |step.out| <= length
  {
    hide NextStep, Remaining, Units;
    if NextStep(k, s, k.limit - k.at - |out|).Emit? {
      RemainingEmits(k, s, k.limit - k.at - |out|);
    }
  }

  /** One pass further. */
  lemma Advance(k: Call, s: nat, out: seq<nat>, bad: bool)
    requires Underway(k, s, out, bad) && s < |k.source| && NextStep(k, s, k.limit - k.at - |out|).Emit?
    ensures var step := NextStep(k, s, k.limit - k.at - |out|);
            s < s + step.used <= |k.source| && Underway(k, s + step.used, out + step.out, bad || step.bad)
  {
    hide *;
    UnderwayFacts(k, s, out, bad);
    var room := k.limit - k.at - |out|;
    var step := NextStep(k, s, room);
    NextStepIs(k, s, room);
    RemainingEmits(k, s, room);
    ThenAgain(s - k.start, out, bad, step, Remaining(k, s + step.used, room - |step.out|));
    MakeUnderway(k, s + step.used, out + step.out, bad || step.bad);
  }

  /** Leaving the loop. */
  lemma Halt(k: Call, before: seq<nat>, now: seq<nat>, s: nat, out: seq<nat>, bad: bool, result: Result)
    requires Underway(k, s, out, bad) && Written(before, now, k.at, out)
    requires if s < |k.source| then NextStep(k, s, k.limit - k.at - |out|) == Stop(result)
             else result == if bad then SourceIllegal else ConversionOK
    ensures Done(k, before, now, result, s, k.at + |out|)
  {
    hide *;
    UnderwayFacts(k, s, out, bad);
    var room := k.limit - k.at - |out|;
    if s < |k.source| {
      NextStepIs(k, s, room);
    } else {
      NextStepAtEnd(k, s, room);
    }
    RemainingStops(k, s, room);
    ThenNothing(s - k.start, out, bad, if s < |k.source| then result else ConversionOK);
    MakeDone(k, before, now, result, s, out);
  }

  lemma NextStepAtEnd(k: Call, s: nat, room: int)
    requires s >= |k.source|
    ensures NextStep(k, s, room).Stop?
  {
  }

  lemma ThenNothing(used: nat, out: seq<nat>, bad: bool, result: Result)
    ensures Then(used, out, bad, Outcome(result, 0, []))
         == Outcome(if bad && result == ConversionOK then SourceIllegal else result, used, out)
  {
    assert out + [] == out;
  }

  lemma MakeDone(k: Call, before: seq<nat>, now: seq<nat>, result: Result, s: nat, out: seq<nat>)
    requires Written(before, now, k.at, out) && s >= k.start
    requires Remaining(k, k.start, k.limit - k.at) == Outcome(result, s - k.start, out)
    ensures Done(k, before, now, result, s, k.at + |out|)
  {
    hide Remaining, Written;
  }

  lemma UnderwayFacts(k: Call, s: nat, out: seq<nat>, bad: bool)
    requires Underway(k, s, out, bad)
    ensures k.Valid() && k.start <= s <= |k.source| && k.at + |out| <= k.limit
    ensures Remaining(k, k.start, k.limit - k.at)
         == Then(s - k.start, out, bad, Remaining(k, s, k.limit - k.at - |out|))
  {
    hide Remaining, Units, Then;
  }

  lemma MakeUnderway(k: Call, s: nat, out: seq<nat>, bad: bool)
    requires k.Valid() && k.start <= s <= |k.source| && k.at + |out| <= k.limit
    requires Remaining(k, k.start, k.limit - k.at)
          == Then(s - k.start, out, bad, Remaining(k, s, k.limit - k.at - |out|))
    ensures Underway(k, s, out, bad)
  {
    hide Remaining, Units, Then;
  }

  /** What a pass through the loop has done. */
  ghost predicate Passed(step: Step, before: seq<nat>, now: seq<nat>, s: nat, t: nat, s': nat, t': nat,
                         result: Result) {
    match step
    case Stop(r) => result == r && now == before && s' == s && t' == t
    case Emit(used, out, bad) =>
      && result == (if bad then SourceIllegal else ConversionOK)
      && s' == s + used && t' == t + |out| && Written(before, now, t, out)
  }

  /** A pass may be made: the target has room for its step. */
  ghost predicate Ready(k: Call, s: nat, t: nat, length: nat) {
    && k.Valid() && s < |k.source| && t <= k.limit
    && var step := NextStep(k, s, k.limit - t); step.Emit? ==> t + |step.out| <= length
  }

  // ---------------------------------------------------------------------------------------
  // The loops
  // ---------------------------------------------------------------------------------------

  method Pass32to16(k: Call, s: nat, target: array<nat>, t: nat) returns (stop: bool, result: Result, s': nat, t': nat)
    requires k.c == From32To16 && Ready(k, s, t, target.Length)
    modifies target
    ensures stop <==> NextStep(k, s, k.limit - t).Stop?
    ensures Passed(NextStep(k, s, k.limit - t), old(target[..]), target[..], s, t, s', t', result)
  {
    if t >= k.limit {
      return true, TargetExhausted, s, t;
    }
    var ch := k.source[s];
    if ch <= 0xFFFF {
      if 0xD800 <= ch <= 0xDFFF {
        if k.strict {
          return true, SourceIllegal, s, t;
        }
        target[t] := REPLACEMENT;
      } else {
        target[t] := ch;
      }
    } else if ch > MAX_LEGAL {
      if k.strict {
        WrittenNothing(target[..], t);
        return false, SourceIllegal, s + 1, t;
      }
      target[t] := REPLACEMENT;
    } else {
      if t + 1 >= k.limit {
        return true, TargetExhausted, s, t;
      }
      target[t] := 0xD800 + (ch - 0x10000) / 0x400;
      target[t + 1] := 0xDC00 + (ch - 0x10000) % 0x400;
      return false, ConversionOK, s + 1, t + 2;
    }
    return false, ConversionOK, s + 1, t + 1;
  }

  /** The fall-through switch that adds up the bytes of a sequence. */
  method GatherBytes(source: seq<nat>, s: nat, extra: nat) returns (ch: nat)
    requires s + extra < |source|
    ensures ch == Gather(source[s..][..extra + 1])
  {
    ch := 0;
    for i := 0 to extra + 1
      invariant ch == Gather(source[s..][..i])
    {
      var bs := source[s..][..i + 1];
      assert bs[..i] == source[s..][..i] && bs[i] == source[s + i];
      ch := 0x40 * ch + source[s + i];
    }
  }

  method ReadUTF8(source: seq<nat>, s: nat) returns (r: Read)
    requires s < |source|
    ensures r == Read8(source[s..])
  {
    var extra := Trailing(source[s]);
    if s + extra >= |source| {
      return Fail(SourceExhausted);
    }
    if !IsLegalUTF8(source[s..][..extra + 1]) {
      return Fail(SourceIllegal);
    }
    LegalIsScalar(source[s..][..extra + 1]);
    hide IsLegalUTF8, Gather, Trailing, Offset, Scalar;
    var ch := GatherBytes(source, s, extra);
    return Char(ch - Offset(extra), extra + 1);
  }

  method ReadUTF16(source: seq<nat>, s: nat, strict: bool) returns (r: Read)
    requires s < |source|
    ensures r == Read16(source[s..], strict)
  {
    var ch := source[s];
    if 0xD800 <= ch <= 0xDBFF {
      if s + 1 < |source| {
        var ch2 := source[s + 1];
        if 0xDC00 <= ch2 <= 0xDFFF {
          return Char((ch - 0xD800) * 0x400 + (ch2 - 0xDC00) + 0x10000, 2);
        } else if strict {
          return Fail(SourceIllegal);
        }
      } else {
        return Fail(SourceExhausted);
      }
    } else if strict {
      if 0xDC00 <= ch <= 0xDFFF {
        return Fail(SourceIllegal);
      }
    }
    return Char(ch, 1);
  }

  /** The fall-through switch that writes the bytes of a character from the last one back to the first. */
  method PutUTF8(v: nat, bytesToWrite: nat, target: array<nat>, t: nat)
    requires v <= MAX_LEGAL && bytesToWrite == |Encode8(v)| && t + bytesToWrite <= target.Length
    modifies target
    ensures Written(old(target[..]), target[..], t, Encode8(v))
  {
    var ch := v;
    if bytesToWrite >= 4 {
      target[t + 3] := 0x80 + ch % 0x40;
      ch := ch / 0x40;
    }
    if bytesToWrite >= 3 {
      target[t + 2] := 0x80 + ch % 0x40;
      ch := ch / 0x40;
    }
    if bytesToWrite >= 2 {
      target[t + 1] := 0x80 + ch % 0x40;
      ch := ch / 0x40;
    }
    var mark := [0x00, 0x00, 0xC0, 0xE0, 0xF0][bytesToWrite];
    target[t] := mark + ch;
    WrittenByParts(old(target[..]), target[..], t, Encode8(v));
  }

  lemma WrittenByParts(before: seq<nat>, now: seq<nat>, t: nat, out: seq<nat>)
    requires |now| == |before| && t + |out| <= |now|
    requires forall i :: 0 <= i < |now| ==> now[i] == if t <= i < t + |out| then out[i - t] else before[i]
    ensures Written(before, now, t, out)
  {
  }

  method Size8(ch: nat) returns (bytesToWrite: nat)
    requires ch <= MAX_LEGAL
    ensures bytesToWrite == |Encode8(ch)|
  {
    if ch < 0x80 {
      return 1;
    } else if ch < 0x800 {
      return 2;
    } else if ch < 0x10000 {
      return 3;
    } else {
      return 4;
    }
  }

  /**
   * The code has branches for surrogates and for values above the last code point; by the
   * postcondition of Read8 they are never taken.
   */
  method Pass8to16(k: Call, s: nat, target: array<nat>, t: nat) returns (stop: bool, result: Result, s': nat, t': nat)
    requires k.c == From8To16 && Ready(k, s, t, target.Length)
    modifies target
    ensures stop <==> NextStep(k, s, k.limit - t).Stop?
    ensures Passed(NextStep(k, s, k.limit - t), old(target[..]), target[..], s, t, s', t', result)
  {
    var r := ReadUTF8(k.source, s);
    NextStepIs(k, s, k.limit - t);
    hide Read8;
    if r.Fail? {
      return true, r.result, s, t;
    }
    if t >= k.limit {
      return true, TargetExhausted, s, t;
    }
    if r.ch <= 0xFFFF {
      target[t] := r.ch;
      return false, ConversionOK, s + r.used, t + 1;
    } else {
      if t + 1 >= k.limit {
        return true, TargetExhausted, s, t;
      }
      target[t] := 0xD800 + (r.ch - 0x10000) / 0x400;
      target[t + 1] := 0xDC00 + (r.ch - 0x10000) % 0x400;
      return false, ConversionOK, s + r.used, t + 2;
    }
  }

  method Pass8to32(k: Call, s: nat, target: array<nat>, t: nat) returns (stop: bool, result: Result, s': nat, t': nat)
    requires k.c == From8To32 && Ready(k, s, t, target.Length)
    modifies target
    ensures stop <==> NextStep(k, s, k.limit - t).Stop?
    ensures Passed(NextStep(k, s, k.limit - t), old(target[..]), target[..], s, t, s', t', result)
  {
    var r := ReadUTF8(k.source, s);
    NextStepIs(k, s, k.limit - t);
    hide Read8;
    if r.Fail? {
      return true, r.result, s, t;
    }
    if t >= k.limit {
      return true, TargetExhausted, s, t;
    }
    target[t] := r.ch;
    return false, ConversionOK, s + r.used, t + 1;
  }

  method Pass16to8(k: Call, s: nat, target: array<nat>, t: nat) returns (stop: bool, result: Result, s': nat, t': nat)
    requires k.c == From16To8 && Ready(k, s, t, target.Length)
    modifies target
    ensures stop <==> NextStep(k, s, k.limit - t).Stop?
    ensures Passed(NextStep(k, s, k.limit - t), old(target[..]), target[..], s, t, s', t', result)
  {
    var r := ReadUTF16(k.source, s, k.strict);
    NextStepIs(k, s, k.limit - t);
    Read16Small(k.source[s..], k.strict);
    hide Read16, Encode8, Written;
    if r.Fail? {
      return true, r.result, s, t;
    }
    var bytesToWrite := Size8(r.ch);
    if t + bytesToWrite > k.limit {
      return true, TargetExhausted, s, t;
    }
    PutUTF8(r.ch, bytesToWrite, target, t);
    return false, ConversionOK, s + r.used, t + bytesToWrite;
  }

  lemma Read16Small(s: seq<nat>, strict: bool)
    requires s != [] && Units(From16To8, s)
    ensures Read16(s, strict).Char? ==> Read16(s, strict).ch <= MAX_LEGAL
  {
  }

  method Pass16to32(k: Call, s: nat, target: array<nat>, t: nat) returns (stop: bool, result: Result, s': nat, t': nat)
    requires k.c == From16To32 && Ready(k, s, t, target.Length)
    modifies target
    ensures stop <==> NextStep(k, s, k.limit - t).Stop?
    ensures Passed(NextStep(k, s, k.limit - t), old(target[..]), target[..], s, t, s', t', result)
  {
    var r := ReadUTF16(k.source, s, k.strict);
    NextStepIs(k, s, k.limit - t);
    hide Read16;
    if r.Fail? {
      return true, r.result, s, t;
    }
    if t >= k.limit {
      return true, TargetExhausted, s, t;
    }
    target[t] := r.ch;
    return false, ConversionOK, s + r.used, t + 1;
  }

  method Pass32to8(k: Call, s: nat, target: array<nat>, t: nat) returns (stop: bool, result: Result, s': nat, t': nat)
    requires k.c == From32To8 && Ready(k, s, t, target.Length)
    modifies target
    ensures stop <==> NextStep(k, s, k.limit - t).Stop?
    ensures Passed(NextStep(k, s, k.limit - t), old(target[..]), target[..], s, t, s', t', result)
  {
    NextStepIs(k, s, k.limit - t);
    hide Encode8, Written;
    var ch := k.source[s];
    if k.strict {
      if 0xD800 <= ch <= 0xDFFF {
        return true, SourceIllegal, s, t;
      }
    }
    result := ConversionOK;
    if ch > MAX_LEGAL {
      ch, result := REPLACEMENT, SourceIllegal;
    }
    var bytesToWrite := Size8(ch);
    if t + bytesToWrite > k.limit {
      return true, TargetExhausted, s, t;
    }
    PutUTF8(ch, bytesToWrite, target, t);
    return false, result, s + 1, t + bytesToWrite;
  }

  method Pass(k: Call, s: nat, target: array<nat>, t: nat) returns (stop: bool, result: Result, s': nat, t': nat)
    requires Ready(k, s, t, target.Length)
    modifies target
    ensures stop <==> NextStep(k, s, k.limit - t).Stop?
    ensures Passed(NextStep(k, s, k.limit - t), old(target[..]), target[..], s, t, s', t', result)
  {
    hide *;
    match k.c
    case From8To16 => stop, result, s', t' := Pass8to16(k, s, target, t);
    case From8To32 => stop, result, s', t' := Pass8to32(k, s, target, t);
    case From16To8 => stop, result, s', t' := Pass16to8(k, s, target, t);
    case From16To32 => stop, result, s', t' := Pass16to32(k, s, target, t);
    case From32To8 => stop, result, s', t' := Pass32to8(k, s, target, t);
    case From32To16 => stop, result, s', t' := Pass32to16(k, s, target, t);
  }

  /** The loop that the six routines share: pass after pass until the source is consumed or a pass stops it. */
  method ConvertBuffer(k: Call, target: array<nat>) returns (result: Result, s: nat, t: nat)
    requires Enough(k, target.Length)
    modifies target
    ensures Done(k, old(target[..]), target[..], result, s, t)
  {
    hide *;
    EnoughFacts(k, target.Length);
    result, s, t := ConversionOK, k.start, k.at;
    ghost var before, out: seq<nat> := target[..], [];
    Begin(k);
    WrittenNothing(before, t);
    while s < |k.source|
      invariant result in {ConversionOK, SourceIllegal} && t == k.at + |out|
      invariant Underway(k, s, out, result == SourceIllegal) && Written(before, target[..], k.at, out)
      decreases |k.source| - s
    {
      ghost var step, now := NextStep(k, s, k.limit - t), target[..];
      MakeReady(k, s, out, result == SourceIllegal, target.Length);
      var stop, r, s', t' := Pass(k, s, target, t);
      PassedFacts(step, now, target[..], s, t, s', t', r);
      if stop {
        Halt(k, before, target[..], s, out, result == SourceIllegal, r);
        return r, s, t;
      }
      Advance(k, s, out, result == SourceIllegal);
      WrittenMore(before, now, k.at, out, step.out, target[..]);
      out := out + step.out;
      s, t := s', t';
      result := if r == SourceIllegal then r else result;
    }
    FinishedAt(k, s, out, result == SourceIllegal);
    Halt(k, before, target[..], s, out, result == SourceIllegal, result);
  }

  lemma EnoughFacts(k: Call, length: nat)
    requires Enough(k, length)
    ensures k.Valid() && k.at <= length
  {
  }

  lemma PassedFacts(step: Step, before: seq<nat>, now: seq<nat>, s: nat, t: nat, s': nat, t': nat, result: Result)
    requires Passed(step, before, now, s, t, s', t', result)
    ensures step.Stop? ==> step == Stop(result) && now == before
    ensures step.Emit? ==> s' == s + step.used && t' == t + |step.out| && Written(before, now, t, step.out)
    ensures step.Emit? ==> result == if step.bad then SourceIllegal else ConversionOK
  {
    hide Written;
  }

  lemma MakeReady(k: Call, s: nat, out: seq<nat>, bad: bool, length: nat)
    requires Underway(k, s, out, bad) && s < |k.source| && Enough(k, length)
    ensures Ready(k, s, k.at + |out|, length)
  {
    RoomForStep(k, s, out, bad, length);
  }

  lemma FinishedAt(k: Call, s: nat, out: seq<nat>, bad: bool)
    requires Underway(k, s, out, bad) && s >= |k.source|
    ensures s == |k.source|
  {
  }
}
