/**
 * md5.cc: a context fed with a message in pieces of any size holds the state of the whole blocks so
 * far, the rest of the message and the number of bits. The digest is that of the padded message of
 * sections 3.1 and 3.2 of RFC 1321. The function on one block is a parameter.
 */
module Md5 {
  import opened Bytes

  type Word = w: int | 0 <= w < 0x1_0000_0000

  datatype State = State(a: Word, b: Word, c: Word, d: Word)

  const INITIAL := State(0x67452301, 0xefcdab89, 0x98badcfe, 0x10325476)

  /** MD5Transform, on the 64 bytes of a block. */
  type Transform = (State, seq<byte>) -> State

  // ---------------------------------------------------------------------------------------
  // The specification
  // ---------------------------------------------------------------------------------------

  /** The state after the whole blocks of `m`. */
  function Fold(f: Transform, state: State, m: seq<byte>): State
    decreases |m|
  {
    if |m| < 64 then state else Fold(f, f(state, m[..64]), m[64..])
  }

  /** The part of `m` after its whole blocks. */
  function Tail(m: seq<byte>): (r: seq<byte>)
    ensures |r| == |m| % 64
    decreases |m|
  {
    if |m| < 64 then m else Tail(m[64..])
  }

  function Zeros(n: nat): (r: seq<byte>)
    ensures |r| == n
  {
    seq(n, i => 0)
  }

  /** The number of zero bytes that brings a message of `n` bytes and the byte 80 to 56 modulo 64. */
  function Gap(n: nat): nat {
    (119 - n % 64) % 64
  }

  function Length64(n: nat): (r: seq<byte>)
    ensures |r| == 8
  {
    LE(8 * n % 0x1_0000_0000_0000_0000, 8)
  }

  function Pad(n: nat): (r: seq<byte>)
    ensures |r| == 9 + Gap(n)
  {
    [0x80] + Zeros(Gap(n)) + Length64(n)
  }

  function Padded(m: seq<byte>): seq<byte> {
    m + Pad(|m|)
  }

  function Output(s: State): (r: seq<byte>)
    ensures |r| == 16
  {
    LE(s.a, 4) + LE(s.b, 4) + LE(s.c, 4) + LE(s.d, 4)
  }

  ghost function Digest(f: Transform, m: seq<byte>): seq<byte> {
    Output(Fold(f, INITIAL, Padded(m)))
  }

  /** Word `i` of a state. */
  function WordOf(s: State, i: nat): Word
    requires i < 4
  {
    [s.a, s.b, s.c, s.d][i]
  }

  /** The words of the final state come out in order, each with its low byte first. */
  lemma OutputWords(s: State, i: nat)
    requires i < 4
    ensures |Output(s)| == 16 && FromLE(Output(s)[4 * i..4 * i + 4]) == WordOf(s, i)
  {
    Widths();
    LERoundTrip(WordOf(s, i), 4);
    hide FromLE, LE, Pow256;
    var r := Output(s);
    assert r[0..4] == LE(s.a, 4) && r[4..8] == LE(s.b, 4) && r[8..12] == LE(s.c, 4) && r[12..16] == LE(s.d, 4);
  }

  /** The digest is the state after all blocks of the padded message, word by word. */
  lemma DigestWords(f: Transform, m: seq<byte>, i: nat)
    requires i < 4
    ensures |Digest(f, m)| == 16 && FromLE(Digest(f, m)[4 * i..4 * i + 4]) == WordOf(Fold(f, INITIAL, Padded(m)), i)
  {
    hide Output, Fold, Padded;
    OutputWords(Fold(f, INITIAL, Padded(m)), i);
  }

  /** The bytes of the initial words, as section 3.3 of RFC 1321 lists them. */
  lemma InitialBytes()
    ensures LE(INITIAL.a, 4) == [0x01, 0x23, 0x45, 0x67] && LE(INITIAL.b, 4) == [0x89, 0xab, 0xcd, 0xef]
    ensures LE(INITIAL.c, 4) == [0xfe, 0xdc, 0xba, 0x98] && LE(INITIAL.d, 4) == [0x76, 0x54, 0x32, 0x10]
  {
    hide LE;
    FourBytes(INITIAL.a);
    FourBytes(INITIAL.b);
    FourBytes(INITIAL.c);
    FourBytes(INITIAL.d);
  }

  /** Padding: the byte 80, zeros, and the number of bits modulo 2^64, low byte first. */
  lemma PaddedForm(m: seq<byte>)
    ensures var p := Padded(m);
            && |m| + 9 <= |p| && p[..|m|] == m && p[|m|] == 0x80
            && (forall i :: |m| < i < |p| - 8 ==> p[i] == 0)
            && FromLE(p[|p| - 8..]) == 8 * |m| % 0x1_0000_0000_0000_0000
  {
    Widths();
    LERoundTrip(8 * |m| % 0x1_0000_0000_0000_0000, 8);
    PaddedLast(m);
    hide LE, FromLE, Pow256, Gap;
  }

  lemma {:induction false} FoldConcat(f: Transform, state: State, a: seq<byte>, b: seq<byte>)
    ensures Fold(f, state, a + b) == Fold(f, Fold(f, state, a), Tail(a) + b)
    ensures Tail(a + b) == Tail(Tail(a) + b)
    decreases |a|
  {
    if |a| >= 64 {
      assert (a + b)[..64] == a[..64] && (a + b)[64..] == a[64..] + b;
      FoldConcat(f, f(state, a[..64]), a[64..], b);
    }
  }

  /** A message that is extended to the end of a block. */
  lemma FoldBlock(f: Transform, state: State, m: seq<byte>, more: seq<byte>)
    requires |Tail(m) + more| == 64
    ensures Fold(f, state, m + more) == f(Fold(f, state, m), Tail(m) + more) && Tail(m + more) == []
  {
    FoldConcat(f, state, m, more);
    var block := Tail(m) + more;
    assert block[..64] == block && block[64..] == [];
  }

  lemma FoldShort(f: Transform, state: State, m: seq<byte>, more: seq<byte>)
    requires |Tail(m) + more| < 64
    ensures Fold(f, state, m + more) == Fold(f, state, m) && Tail(m + more) == Tail(m) + more
  {
    FoldConcat(f, state, m, more);
  }

  lemma GapSize(n: nat)
    ensures Gap(n) == if n % 64 <= 55 then 55 - n % 64 else 119 - n % 64
  {
  }

  /** Padding fills up a block. */
  lemma PaddedLength(m: seq<byte>)
    ensures |Padded(m)| % 64 == 0 && |m| + 9 <= |Padded(m)| < |m| + 9 + 64
  {
    GapSize(|m|);
    hide Gap, Pad;
    FillsUp(|m|, Gap(|m|));
  }

  lemma FillsUp(n: nat, gap: nat)
    requires gap == if n % 64 <= 55 then 55 - n % 64 else 119 - n % 64
    ensures (n + 9 + gap) % 64 == 0
  {
    assert n == 64 * (n / 64) + n % 64;
  }

  /** Different messages of fewer than 2^61 bytes are padded differently. */
  lemma PaddingInjective(m: seq<byte>, m': seq<byte>)
    requires Padded(m) == Padded(m') && |m| < 0x2000_0000_0000_0000 && |m'| < 0x2000_0000_0000_0000
    ensures m == m'
  {
    hide *;
    PaddedParts(m);
    PaddedParts(m');
    PaddedLast(m);
    PaddedLast(m');
    LengthRead(|m|);
    LengthRead(|m'|);
  }

  lemma PaddedParts(m: seq<byte>)
    ensures |m| <= |Padded(m)| && Padded(m)[..|m|] == m
  {
    hide Pad;
  }

  lemma PaddedLast(m: seq<byte>)
    ensures |Padded(m)| >= 8 && Padded(m)[|Padded(m)| - 8..] == Length64(|m|)
  {
    hide Length64, Zeros, Gap;
  }

  lemma LengthRead(n: nat)
    requires n < 0x2000_0000_0000_0000
    ensures FromLE(Length64(n)) == 8 * n
  {
    Widths();
    hide LE, FromLE, Pow256;
    LERoundTrip(8 * n, 8);
  }

  // ---------------------------------------------------------------------------------------
  // Counting bits in two words
  // ---------------------------------------------------------------------------------------

  ghost predicate Counts(low: Word, high: Word, n: nat) {
    low + 0x1_0000_0000 * high == 8 * n % 0x1_0000_0000_0000_0000
  }

  lemma CountBytes(low: Word, high: Word, n: nat)
    requires Counts(low, high, n)
    ensures low / 8 % 64 == n % 64
  {
    var q := 8 * n / 0x1_0000_0000_0000_0000;
    assert 8 * n == q * 0x1_0000_0000_0000_0000 + low + 0x1_0000_0000 * high;
    hide Counts;
    SameRemainder(n, low, q * 0x80_0000_0000_0000 + high * 0x80_0000);
  }

  lemma SameRemainder(n: nat, low: nat, k: nat)
    requires 8 * n == low + 512 * k
    ensures low / 8 % 64 == n % 64
  {
    assert low / 8 == n - 64 * k;
  }

  lemma LowBits(len: nat)
    ensures len % 0x1_0000_0000 * 8 % 0x1_0000_0000 == len % 0x2000_0000 * 8
  {
    var q, r := len / 0x2000_0000, len % 0x2000_0000;
    var q' := q / 8;
    assert len % 0x1_0000_0000 == r + 0x2000_0000 * (q - 8 * q');
  }

  /** Unsigned 32-bit addition of a number that is cut to 32 bits. */
  function Add32(a: Word, n: nat): Word {
    (a + n % 0x1_0000_0000) % 0x1_0000_0000
  }

  lemma AddedTwice(a: Word, b: nat, c: nat)
    requires b <= 1
    ensures Add32(if b == 1 then Add32(a, 1) else a, c) == (a + b + c) % 0x1_0000_0000
  {
  }

  /** Adding with a carry from the low word to the high one counts modulo 2^64. */
  lemma CountMore(low: Word, high: Word, n: nat, len: nat)
    requires Counts(low, high, n)
    ensures var low' := Add32(low, len % 0x1_0000_0000 * 8);
            var high' := Add32(if low' < low then Add32(high, 1) else high, len / 0x2000_0000);
            Counts(low', high', n + len)
  {
    hide Counts;
    var low' := Add32(low, len % 0x1_0000_0000 * 8);
    LowBits(len);
    var carry := if low' < low then 1 else 0;
    AddedTwice(high, carry, len / 0x2000_0000);
    CountWords(low, high, n, len % 0x2000_0000, len / 0x2000_0000, low',
               (high + carry + len / 0x2000_0000) % 0x1_0000_0000);
  }

  lemma CountWords(low: Word, high: Word, n: nat, r: nat, q: nat, low': Word, high': Word)
    requires Counts(low, high, n) && r < 0x2000_0000
    requires low' == (low + r * 8) % 0x1_0000_0000
    requires high' == (high + (if low' < low then 1 else 0) + q) % 0x1_0000_0000
    ensures Counts(low', high', n + r + 0x2000_0000 * q)
  {
    var carry := if low' < low then 1 else 0;
    assert low + 8 * r == low' + 0x1_0000_0000 * carry;
    CountModulo(low', high', high + carry + q, low + 0x1_0000_0000 * high, n, r + 0x2000_0000 * q);
  }

  lemma CountModulo(low: Word, high: Word, total: nat, before: nat, n: nat, len: nat)
    requires high == total % 0x1_0000_0000 && before == 8 * n % 0x1_0000_0000_0000_0000
    requires before + 8 * len == low + 0x1_0000_0000 * total
    ensures Counts(low, high, n + len)
  {
    var q, p := total / 0x1_0000_0000, 8 * n / 0x1_0000_0000_0000_0000;
    assert 8 * (n + len) == (p + q) * 0x1_0000_0000_0000_0000 + low + 0x1_0000_0000 * high;
  }

  // ---------------------------------------------------------------------------------------
  // The core functions
  // ---------------------------------------------------------------------------------------

  /** F1 and F2 are the functions F and G of section 3.4 of RFC 1321. */
  lemma CoreFunctions(x: bv32, y: bv32, z: bv32)
    ensures z ^ (x & (y ^ z)) == (x & y) | (!x & z)
    ensures y ^ (z & (x ^ y)) == (x & z) | (y & !z)
  {
  }

  lemma PutParts(s: seq<byte>, t: nat, data: seq<byte>)
    requires t + |data| <= |s|
    ensures Put(s, t, data)[..t + |data|] == s[..t] + data
    ensures Put(s, t, data)[t + |data|..] == s[t + |data|..]
  {
  }

  lemma LEWords(low: Word, high: Word)
    ensures LE(low + 0x1_0000_0000 * high, 8) == LE(low, 4) + LE(high, 4)
  {
    var l1 := low / 256;
    var l2 := l1 / 256;
    var l3 := l2 / 256;
    FourThenFour(low % 256, l1 % 256, l2 % 256, l3, high);
  }

  lemma FourThenFour(a: byte, b: byte, c: byte, d: byte, high: nat)
    ensures var low := a + 256 * (b + 256 * (c + 256 * d));
            LE(low + 0x1_0000_0000 * high, 8) == LE(low, 4) + LE(high, 4)
  {
    LEFour(a, b, c, d, 0, 4);
    LEFour(a, b, c, d, high, 8);
    assert LE(0, 0) == [];
    hide LE;
  }

  lemma LEStep(n: nat, w: nat, first: byte, rest: nat)
    requires w > 0 && n == first + 256 * rest
    ensures LE(n, w) == [first] + LE(rest, w - 1)
  {
    assert n % 256 == first && n / 256 == rest;
  }

  lemma LEFour(a: byte, b: byte, c: byte, d: byte, rest: nat, w: nat)
    requires w >= 4
    ensures LE(a + 256 * (b + 256 * (c + 256 * d)) + 0x1_0000_0000 * rest, w) == [a, b, c, d] + LE(rest, w - 4)
  {
    hide LE;
    var n3 := d + 256 * rest;
    var n2 := c + 256 * n3;
    var n1 := b + 256 * n2;
    LEStep(a + 256 * n1, w, a, n1);
    LEStep(n1, w - 1, b, n2);
    LEStep(n2, w - 2, c, n3);
    LEStep(n3, w - 3, d, rest);
  }

  lemma LengthWords(low: Word, high: Word, n: nat)
    requires Counts(low, high, n)
    ensures Length64(n) == LE(low, 4) + LE(high, 4)
  {
    LEWords(low, high);
    hide LE;
  }

  lemma PadOne(n: nat, low: Word, high: Word)
    requires n % 64 <= 55 && Counts(low, high, n)
    ensures Pad(n) == [0x80] + Zeros(55 - n % 64) + LE(low, 4) + LE(high, 4)
  {
    LengthWords(low, high, n);
    GapSize(n);
    hide LE, Zeros, Gap, Length64;
  }

  lemma ZerosConcat(a: nat, b: nat)
    ensures Zeros(a + b) == Zeros(a) + Zeros(b)
  {
  }

  lemma PadTwo(n: nat, low: Word, high: Word)
    requires 55 < n % 64 && Counts(low, high, n)
    ensures Pad(n) == ([0x80] + Zeros(63 - n % 64)) + (Zeros(56) + LE(low, 4) + LE(high, 4))
  {
    LengthWords(low, high, n);
    GapSize(n);
    ZerosConcat(63 - n % 64, 56);
    hide LE, Zeros, Gap, Length64;
  }

  /** The padding that fits in the current block. */
  lemma FinalOne(f: Transform, m: seq<byte>, low: Word, high: Word)
    requires |m| % 64 <= 55 && Counts(low, high, |m|)
    ensures Fold(f, INITIAL, Padded(m))
         == f(Fold(f, INITIAL, m), Tail(m) + ([0x80] + Zeros(55 - |m| % 64) + LE(low, 4) + LE(high, 4)))
  {
    PadOne(|m|, low, high);
    hide LE, Zeros, Gap, Length64, Fold, Tail, Pad, Counts;
    FoldBlock(f, INITIAL, m, Pad(|m|));
  }

  /** The padding that needs another block. */
  lemma FinalTwo(f: Transform, m: seq<byte>, low: Word, high: Word)
    requires 55 < |m| % 64 && Counts(low, high, |m|)
    ensures Fold(f, INITIAL, Padded(m))
         == f(f(Fold(f, INITIAL, m), Tail(m) + ([0x80] + Zeros(63 - |m| % 64))), Zeros(56) + LE(low, 4) + LE(high, 4))
  {
    PadTwo(|m|, low, high);
    hide *;
    FoldTwo(f, m, [0x80] + Zeros(63 - |m| % 64), Zeros(56) + LE(low, 4) + LE(high, 4));
    PaddedIs(m);
  }

  lemma PaddedIs(m: seq<byte>)
    ensures Padded(m) == m + Pad(|m|)
  {
  }

  lemma FoldTwo(f: Transform, m: seq<byte>, first: seq<byte>, second: seq<byte>)
    requires |Tail(m) + first| == 64 && |second| == 64
    ensures Fold(f, INITIAL, m + (first + second)) == f(f(Fold(f, INITIAL, m), Tail(m) + first), second)
  {
    hide Fold, Tail;
    FoldBlock(f, INITIAL, m, first);
    assert [] + second == second;
    FoldBlock(f, INITIAL, m + first, second);
    assert m + (first + second) == m + first + second;
  }

  // ---------------------------------------------------------------------------------------
  // The context
  // ---------------------------------------------------------------------------------------

  function Concat(chunks: seq<seq<byte>>): seq<byte> {
    if chunks == [] then [] else Concat(chunks[..|chunks| - 1]) + chunks[|chunks| - 1]
  }

  /** MD5 of a message in pieces: the same for every way to cut it up. */
  method Hash(transform: Transform, chunks: seq<seq<byte>>) returns (digest: seq<byte>)
    ensures digest == Digest(transform, Concat(chunks))
  {
    var ctx := new MD5Context(transform);
    hide Digest;
    for i := 0 to |chunks|
      invariant ctx.Valid() && ctx.message == Concat(chunks[..i]) && ctx.transform == transform
      invariant fresh(ctx) && fresh(ctx.block)
    {
      assert chunks[..i + 1][..i] == chunks[..i];
      ctx.Update(chunks[i]);
    }
    assert chunks[..|chunks|] == chunks;
    digest := ctx.Final();
  }

  class MD5Context {
    const transform: Transform
    var buf: State
    var low: Word
    var high: Word
    const block: array<byte>
    /** Everything that was fed to the context. */
    ghost var message: seq<byte>

    ghost predicate Valid()
      reads this, block
    {
      && block.Length == 64
      && buf == Fold(transform, INITIAL, message)
      && block[..|message| % 64] == Tail(message)
      && Counts(low, high, |message|)
    }

    constructor (transform: Transform)
      ensures Valid() && message == [] && this.transform == transform && fresh(block)
    {
      this.transform := transform;
      block := new byte[64];
      buf, low, high := INITIAL, 0, 0;
      message := [];
    }

    /** Add the bits of `len` bytes to the count. */
    method AddBits(len: nat)
      requires Counts(low, high, |message|)
      modifies this`low, this`high
      ensures Counts(low, high, |message| + len)
    {
      hide Counts, Add32;
      CountMore(low, high, |message|, len);
      var t := low;
      low := Add32(t, len % 0x1_0000_0000 * 8);
      if low < t {
        high := Add32(high, 1);
      }
      high := Add32(high, len / 0x2000_0000);
    }

    /** Copy `data` behind the first `t` bytes of the block. */
    method Copy(t: nat, data: seq<byte>)
      requires block.Length == 64 && t + |data| <= 64
      modifies block
      ensures block[..t + |data|] == old(block[..t]) + data
      ensures block[t + |data|..] == old(block[t + |data|..])
    {
      ghost var was := block[..];
      var _ := WriteBytes(block, t, data);
      PutParts(was, t, data);
      assert block[..t + |data|] == block[..][..t + |data|];
      assert block[t + |data|..] == block[..][t + |data|..];
    }

    /** Copy `data` behind the first `t` bytes, which it brings to 64, and transform the block. */
    method Process(t: nat, data: seq<byte>)
      requires block.Length == 64 && t + |data| == 64
      modifies this`buf, block
      ensures buf == transform(old(buf), old(block[..t]) + data)
    {
      Copy(t, data);
      assert block[..64] == block[..];
      buf := transform(buf, block[..]);
    }

    method Update(data: seq<byte>)
      requires Valid()
      modifies this, block
      ensures Valid() && message == old(message) + data
    {
      CountBytes(low, high, |message|);
      var t := low / 8 % 64;
      AddBits(|data|);
      hide Counts, Fold, Tail;
      Feed(t, data);
      message := message + data;
    }

    /** What MD5Update does after counting, with `t` bytes already in the block. */
    method Feed(t: nat, data: seq<byte>)
      requires block.Length == 64 && buf == Fold(transform, INITIAL, message)
      requires t == |message| % 64 && block[..t] == Tail(message)
      modifies this`buf, block
      ensures buf == Fold(transform, INITIAL, message + data)
      ensures block[..|message + data| % 64] == Tail(message + data)
    {
      hide Fold, Tail;
      if t != 0 {
        if |data| < 64 - t {
          FoldShort(transform, INITIAL, message, data);
          Copy(t, data);
          return;
        }
        FoldBlock(transform, INITIAL, message, data[..64 - t]);
        Process(t, data[..64 - t]);
        assert message + data == message + data[..64 - t] + data[64 - t..];
        Blocks(message + data[..64 - t], data[64 - t..]);
      } else {
        Blocks(message, data);
      }
    }

    /** Process the rest of the data from the start of a block on. */
    method Blocks(ghost done: seq<byte>, data: seq<byte>)
      requires block.Length == 64 && buf == Fold(transform, INITIAL, done) && Tail(done) == []
      modifies this`buf, block
      ensures buf == Fold(transform, INITIAL, done + data)
      ensures block[..|done + data| % 64] == Tail(done + data)
    {
      var rest := data;
      ghost var whole := done;
      while |rest| >= 64
        invariant whole + rest == done + data && Tail(whole) == [] && buf == Fold(transform, INITIAL, whole)
      {
        FoldBlock(transform, INITIAL, whole, rest[..64]);
        assert [] + rest[..64] == rest[..64];
        assert whole + rest == whole + rest[..64] + rest[64..];
        Process(0, rest[..64]);
        whole, rest := whole + rest[..64], rest[64..];
      }
      Copy(0, rest);
      FoldShort(transform, INITIAL, whole, rest);
    }

    /** Pad the message. */
    method Finish()
      requires Valid()
      modifies this`buf, block
      ensures buf == Fold(transform, INITIAL, Padded(message))
    {
      CountBytes(low, high, |message|);
      var count := low / 8 % 64;
      if 64 - 1 - count < 8 {
        // Two lots of padding.
        FinalTwo(transform, message, low, high);
        hide Fold, Tail, Zeros, LE, Counts, Padded;
        Process(count, [0x80] + Zeros(63 - count));
        Process(0, Zeros(56) + LE(low, 4) + LE(high, 4));
        assert forall s: seq<byte> :: [] + s == s;
      } else {
        FinalOne(transform, message, low, high);
        hide Fold, Tail, Zeros, LE, Counts, Padded;
        Process(count, [0x80] + Zeros(55 - count) + LE(low, 4) + LE(high, 4));
      }
    }

    /** The digest of everything fed to the context, which is cleared. */
    method Final() returns (digest: seq<byte>)
      requires Valid()
      modifies this, block
      ensures digest == Digest(transform, old(message))
      ensures buf == State(0, 0, 0, 0) && low == 0 && high == 0 && block[..] == Zeros(64)
    {
      Finish();
      hide Fold, Padded, Zeros;
      digest := Output(buf);
      buf, low, high := State(0, 0, 0, 0), 0, 0;
      Copy(0, Zeros(64));
      assert block[..] == block[..64];
    }
  }
}
