/** Little-endian integers and writes into a byte buffer. */
module Bytes {
  type byte = b: int | 0 <= b < 256

  const U32: int := 0x1_0000_0000

  /** static_cast<uint32_t>. */
  function Low32(n: nat): (r: nat)
    ensures r < U32 && (r == n <==> n < U32)
  {
    n % 0x1_0000_0000
  }

  function Pow256(w: nat): nat {
    if w == 0 then 1 else 256 * Pow256(w - 1)
  }

  lemma Widths()
    ensures Pow256(4) == U32 && Pow256(8) == U32 * U32
  {
    assert Pow256(1) == 256 && Pow256(2) == 0x1_0000 && Pow256(3) == 0x100_0000;
    assert Pow256(5) == 0x100_0000_0000 && Pow256(6) == 0x1_0000_0000_0000;
    assert Pow256(7) == 0x100_0000_0000_0000;
  }

  /** The `w` low bytes of `n`, lowest first. */
  function LE(n: nat, w: nat): (r: seq<byte>)
    ensures |r| == w
  {
    if w == 0 then [] else [n % 256] + LE(n / 256, w - 1)
  }

  function FromLE(s: seq<byte>): nat {
    if s == [] then 0 else s[0] + 256 * FromLE(s[1..])
  }

  lemma {:induction false} LERoundTrip(n: nat, w: nat)
    requires n < Pow256(w)
    ensures FromLE(LE(n, w)) == n
  {
    if w > 0 {
      LERoundTrip(n / 256, w - 1);
    }
  }

  /** The four bytes of a word, the low one first. */
  lemma FourBytes(n: nat)
    ensures LE(n, 4) == [n % 256, n / 256 % 256, n / 256 / 256 % 256, n / 256 / 256 / 256 % 256]
  {
    assert LE(n / 256 / 256 / 256, 1) == [n / 256 / 256 / 256 % 256];
    assert LE(n / 256 / 256, 2) == [n / 256 / 256 % 256] + LE(n / 256 / 256 / 256, 1);
    assert LE(n / 256, 3) == [n / 256 % 256] + LE(n / 256 / 256, 2);
  }

  lemma {:induction false} FromLEBound(s: seq<byte>)
    ensures FromLE(s) < Pow256(|s|)
  {
    if s != [] {
      FromLEBound(s[1..]);
    }
  }

  /** The integer of `w` bytes at position `p`. */
  function ReadLE(mem: seq<byte>, p: nat, w: nat): nat
    requires p + w <= |mem|
  {
    FromLE(mem[p..p + w])
  }

  /** `s` with `bytes` written over it from position `p`. */
  function Put(s: seq<byte>, p: nat, bytes: seq<byte>): (r: seq<byte>)
    requires p + |bytes| <= |s|
    ensures |r| == |s|
  {
    seq(|s|, i requires 0 <= i < |s| => if p <= i < p + |bytes| then bytes[i - p] else s[i])
  }

  /** Writes that follow each other are one write. */
  lemma PutJoin(s: seq<byte>, p: nat, a: seq<byte>, q: nat, b: seq<byte>)
    requires q == p + |a| && q + |b| <= |s|
    ensures Put(Put(s, p, a), q, b) == Put(s, p, a + b)
  {
  }

  /** Three regions filled from `o`, `k` and `d`. */
  function Put3(s: seq<byte>, o: nat, a: seq<byte>, k: nat, b: seq<byte>, d: nat, c: seq<byte>): (r: seq<byte>)
    requires o + |a| <= k && k + |b| <= d && d + |c| <= |s|
    ensures |r| == |s|
  {
    Put(Put(Put(s, o, a), k, b), d, c)
  }

  lemma Put3Empty(s: seq<byte>, o: nat, k: nat, d: nat)
    requires o <= k <= d <= |s|
    ensures Put3(s, o, [], k, [], d, []) == s
  {
  }

  /** Filling each of the three regions further, from `o'`, `k'` and `d'`. */
  lemma Put3Grow(s: seq<byte>, o: nat, a: seq<byte>, o': nat, a': seq<byte>,
                 k: nat, b: seq<byte>, k': nat, b': seq<byte>, d: nat, c: seq<byte>, d': nat, c': seq<byte>)
    requires o' == o + |a| && k' == k + |b| && d' == d + |c|
    requires o' + |a'| <= k && k' + |b'| <= d && d' + |c'| <= |s|
    ensures Put(Put(Put(Put3(s, o, a, k, b, d, c), o', a'), k', b'), d', c')
         == Put3(s, o, a + a', k, b + b', d, c + c')
  {
  }

  /** Full regions that touch are one write. */
  lemma Put3Full(s: seq<byte>, o: nat, a: seq<byte>, k: nat, b: seq<byte>, d: nat, c: seq<byte>)
    requires k == o + |a| && d == k + |b| && d + |c| <= |s|
    ensures Put3(s, o, a, k, b, d, c) == Put(s, o, a + b + c)
  {
  }

  /** What was written is there. */
  lemma PutRead(s: seq<byte>, p: nat, bytes: seq<byte>)
    requires p + |bytes| <= |s|
    ensures Put(s, p, bytes)[p..p + |bytes|] == bytes
  {
  }

  method WriteBytes(buf: array<byte>, p: nat, bytes: seq<byte>) returns (end: nat)
    requires p + |bytes| <= buf.Length
    modifies buf
    ensures end == p + |bytes|
    ensures buf[..] == Put(old(buf[..]), p, bytes)
  {
    for i := 0 to |bytes|
      invariant buf[..] == Put(old(buf[..]), p, bytes[..i])
    {
      buf[p + i] := bytes[i];
    }
    assert bytes[..|bytes|] == bytes;
    end := p + |bytes|;
  }
}
