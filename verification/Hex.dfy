/** The hex decoders of src/hex.rs: the table-driven one, and the SSE2 and NEON ones modelled lane by lane. */
module Hex {
  import opened Wrappers

  type u8 = bv8

  predicate IsDigit(c: u8) {
    0x30 <= c <= 0x39 || 0x61 <= c <= 0x66 || 0x41 <= c <= 0x46
  }

  /** The lookup table: other characters are zero. */
  function Lut(c: u8): u8 {
    if 0x30 <= c <= 0x39 then c - 0x30
    else if 0x61 <= c <= 0x66 then c - 0x61 + 10
    else if 0x41 <= c <= 0x46 then c - 0x41 + 10
    else 0
  }

  /** A byte from its two nibbles. */
  function Join(hi: u8, lo: u8): u8 {
    (hi << 4) | lo
  }

  function Byte(hi: u8, lo: u8): u8 {
    Join(Lut(hi), Lut(lo))
  }

  function Decoded(h: seq<u8>): (r: seq<u8>)
    ensures |r| == |h| / 2
    ensures forall i | 0 <= i < |r| :: r[i] == Byte(h[2 * i], h[2 * i + 1])
  {
    seq(|h| / 2, i requires 0 <= i < |h| / 2 => Byte(h[2 * i], h[2 * i + 1]))
  }

  // ---------------------------------------------------------------------------
  // Base16, section 8 of RFC 4648
  // ---------------------------------------------------------------------------

  function Digit(n: u8, upper: bool): u8 {
    if n < 10 then 0x30 + n else if upper then 0x41 + (n - 10) else 0x61 + (n - 10)
  }

  predicate Denotes(c: u8, n: u8) {
    c == Digit(n, false) || c == Digit(n, true)
  }

  /** `h` writes `bytes` in Base16, every letter in either case. */
  ghost predicate IsBase16(h: seq<u8>, bytes: seq<u8>) {
    |h| == 2 * |bytes| && forall i | 0 <= i < |bytes| ::
      Denotes(h[2 * i], bytes[i] >> 4) && Denotes(h[2 * i + 1], bytes[i] & 0x0F)
  }

  lemma LutInvertsDigit(c: u8, n: u8)
    requires n < 16
    ensures Denotes(c, n) <==> IsDigit(c) && Lut(c) == n
  {
  }

  lemma ByteOfNibbles(hi: u8, lo: u8, b: u8)
    requires hi < 16 && lo < 16
    ensures Join(hi, lo) == b <==> b >> 4 == hi && b & 0x0F == lo
  {
  }

  lemma NibblesAreSmall(b: u8)
    ensures b >> 4 < 16 && b & 0x0F < 16
  {
  }

  lemma LutIsSmall(c: u8)
    ensures Lut(c) < 16
  {
  }

  /** For strings of digits, decoding to `bytes` and being Base16 for `bytes` are the same thing. */
  lemma DecodingInvertsBase16(h: seq<u8>, bytes: seq<u8>)
    ensures IsBase16(h, bytes) <==> |h| % 2 == 0 && (forall c <- h :: IsDigit(c)) && Decoded(h) == bytes
  {
    hide Lut, Digit, IsDigit, Denotes;
    forall i | 0 <= i < |bytes| && |h| == 2 * |bytes|
      ensures Denotes(h[2 * i], bytes[i] >> 4) && Denotes(h[2 * i + 1], bytes[i] & 0x0F)
         <==> IsDigit(h[2 * i]) && IsDigit(h[2 * i + 1]) && Byte(h[2 * i], h[2 * i + 1]) == bytes[i]
    {
      var hi, lo, b := h[2 * i], h[2 * i + 1], bytes[i];
      NibblesAreSmall(b);
      LutIsSmall(hi);
      LutIsSmall(lo);
      LutInvertsDigit(hi, b >> 4);
      LutInvertsDigit(lo, b & 0x0F);
      ByteOfNibbles(Lut(hi), Lut(lo), b);
    }
    if IsBase16(h, bytes) {
      forall k | 0 <= k < |h| ensures IsDigit(h[k]) {
        var i := k / 2;
        assert k == 2 * i || k == 2 * i + 1;
        assert Denotes(h[2 * i], bytes[i] >> 4);
      }
      assert Decoded(h) == bytes;
    }
    if |h| % 2 == 0 && (forall c <- h :: IsDigit(c)) && Decoded(h) == bytes {
      forall i | 0 <= i < |bytes| ensures Denotes(h[2 * i], bytes[i] >> 4) && Denotes(h[2 * i + 1], bytes[i] & 0x0F) {
        assert h[2 * i] in h && h[2 * i + 1] in h;
      }
    }
  }

  /** The table takes whatever is no digit for the digit 0. */
  lemma OthersAreZero(h: seq<u8>)
    ensures Decoded(h) == Decoded(seq(|h|, i requires 0 <= i < |h| => if IsDigit(h[i]) then h[i] else 0x30))
  {
    var clean := seq(|h|, i requires 0 <= i < |h| => if IsDigit(h[i]) then h[i] else 0x30);
    forall i | 0 <= i < |h| ensures Lut(clean[i]) == Lut(h[i]) {
    }
    hide Lut, IsDigit;
    assert |clean| == |h|;
  }

  // ---------------------------------------------------------------------------
  // Vector registers
  // ---------------------------------------------------------------------------

  type Lanes = v: seq<u8> | |v| == 16 witness seq(16, _ => 0)
  type Words = v: seq<bv16> | |v| == 8 witness seq(8, _ => 0)

  function Splat(x: u8): Lanes {
    seq(16, _ => x)
  }

  function And(a: Lanes, b: Lanes): Lanes {
    seq(16, i requires 0 <= i < 16 => a[i] & b[i])
  }

  function Add(a: Lanes, b: Lanes): Lanes {
    seq(16, i requires 0 <= i < 16 => a[i] + b[i])
  }

  /** What a vector comparison leaves in a lane. */
  function Mask(b: bool): u8 {
    if b then 0xFF else 0
  }

  /** _mm_cmpeq_epi8. */
  function CmpEq(a: Lanes, b: Lanes): Lanes {
    seq(16, i requires 0 <= i < 16 => Mask(a[i] == b[i]))
  }

  /** vtstq_u8. */
  function Tst(a: Lanes, b: Lanes): Lanes {
    seq(16, i requires 0 <= i < 16 => Mask(a[i] & b[i] != 0))
  }

  /** The same register seen as eight little-endian 16-bit lanes. */
  function ToWords(a: Lanes): Words {
    seq(8, i requires 0 <= i < 8 => Word(a[2 * i], a[2 * i + 1]))
  }

  function Word(low: u8, high: u8): bv16 {
    (low as bv16) | ((high as bv16) << 8)
  }

  function WordTimes16(w: bv16): bv16 {
    w << 4
  }

  function HighHalf(w: bv16): bv16 {
    w >> 8
  }

  /** _mm_slli_epi16 by 4. */
  function ShiftLeft4(w: Words): Words {
    seq(8, i requires 0 <= i < 8 => WordTimes16(w[i]))
  }

  /** _mm_srli_epi16 by 8. */
  function ShiftRight8(w: Words): Words {
    seq(8, i requires 0 <= i < 8 => HighHalf(w[i]))
  }

  function AndWords(a: Words, mask: bv16): Words {
    seq(8, i requires 0 <= i < 8 => a[i] & mask)
  }

  function OrWords(a: Words, b: Words): Words {
    seq(8, i requires 0 <= i < 8 => a[i] | b[i])
  }

  /** Unsigned saturation of a signed 16-bit lane. */
  function Saturate(w: bv16): u8 {
    if w >= 0x8000 then 0 else if w > 0xFF then 0xFF else (w & 0xFF) as bv8
  }

  /** The low half of _mm_packus_epi16. */
  function PackLow(w: Words): (r: seq<u8>)
    ensures |r| == 8
  {
    seq(8, i requires 0 <= i < 8 => Saturate(w[i]))
  }

  /** vuzp1q_u8 and vuzp2q_u8. */
  function Evens(a: Lanes, b: Lanes): Lanes {
    seq(16, i requires 0 <= i < 16 => if i < 8 then a[2 * i] else b[2 * i - 16])
  }

  function Odds(a: Lanes, b: Lanes): Lanes {
    seq(16, i requires 0 <= i < 16 => if i < 8 then a[2 * i + 1] else b[2 * i - 15])
  }

  /** vsliq_n_u8 by 4. */
  function ShiftInsert4(a: Lanes, b: Lanes): Lanes {
    seq(16, i requires 0 <= i < 16 => Join(b[i], a[i] & 0x0F))
  }

  /** What the vector decoders make of one character; NEON only asks whether bit 0x40 is set. */
  function VectorNibble(c: u8): u8 {
    (c & 0x0F) + (Mask(c & 0x40 == 0x40) & 9)
  }

  lemma BitTests(c: u8)
    ensures c & 0x40 == 0x40 <==> c & 0x40 != 0
  {
  }

  function VectorByte(hi: u8, lo: u8): u8 {
    Join(VectorNibble(hi), VectorNibble(lo) & 0x0F)
  }

  /** The SSE2 shuffle of a 16-bit lane does what the NEON shift-and-insert does. */
  lemma WordLaneIsJoin(hi: u8, lo: u8)
    ensures Saturate((WordTimes16(Word(hi, lo)) & 0x00F0) | (HighHalf(Word(hi, lo)) & 0x000F)) == Join(hi, lo & 0x0F)
  {
  }

  // ---------------------------------------------------------------------------
  // One chunk
  // ---------------------------------------------------------------------------

  function Sse2Nibbles(hexChars: Lanes): Lanes {
    var lo := And(hexChars, Splat(0x0F));
    var masked := And(hexChars, Splat(0x40));
    var isLetter := CmpEq(masked, Splat(0x40));
    Add(lo, And(isLetter, Splat(9)))
  }

  /** Sixteen characters to eight bytes. */
  function Sse2Chunk(hexChars: Lanes): (r: seq<u8>)
    ensures |r| == 8
  {
    var words := ToWords(Sse2Nibbles(hexChars));
    var hi := AndWords(ShiftLeft4(words), 0x00F0);
    var lo := AndWords(ShiftRight8(words), 0x000F);
    PackLow(OrWords(hi, lo))
  }

  function NeonNibbles(hexChars: Lanes): Lanes {
    Add(And(hexChars, Splat(0x0F)), And(Tst(hexChars, Splat(0x40)), Splat(9)))
  }

  /** Thirty-two characters to sixteen bytes. */
  function NeonChunk(hex0: Lanes, hex1: Lanes): Lanes {
    var n0, n1 := NeonNibbles(hex0), NeonNibbles(hex1);
    ShiftInsert4(Odds(n0, n1), Evens(n0, n1))
  }

  lemma NibbleLanes(v: Lanes, i: nat)
    requires i < 16
    ensures Sse2Nibbles(v)[i] == VectorNibble(v[i])
    ensures NeonNibbles(v)[i] == VectorNibble(v[i])
  {
    hide Mask;
    BitTests(v[i]);
  }

  lemma Sse2ChunkLanes(v: Lanes)
    ensures forall i | 0 <= i < 8 :: Sse2Chunk(v)[i] == VectorByte(v[2 * i], v[2 * i + 1])
  {
    hide Saturate, Word, Join, WordTimes16, HighHalf, Sse2Nibbles, NeonNibbles, VectorNibble;
    forall i | 0 <= i < 8 ensures Sse2Chunk(v)[i] == VectorByte(v[2 * i], v[2 * i + 1]) {
      NibbleLanes(v, 2 * i);
      NibbleLanes(v, 2 * i + 1);
      WordLaneIsJoin(VectorNibble(v[2 * i]), VectorNibble(v[2 * i + 1]));
    }
  }

  lemma NeonChunkLanes(v0: Lanes, v1: Lanes)
    ensures forall i | 0 <= i < 16 :: NeonChunk(v0, v1)[i] == VectorByte((v0 + v1)[2 * i], (v0 + v1)[2 * i + 1])
  {
    hide Join, Sse2Nibbles, NeonNibbles, VectorNibble;
    var h := v0 + v1;
    forall i | 0 <= i < 16 ensures NeonChunk(v0, v1)[i] == VectorByte(h[2 * i], h[2 * i + 1]) {
      var v := if i < 8 then v0 else v1;
      var k := if i < 8 then 2 * i else 2 * i - 16;
      assert v[k] == h[2 * i] && v[k + 1] == h[2 * i + 1];
      NibbleLanes(v, k);
      NibbleLanes(v, k + 1);
    }
  }

  // ---------------------------------------------------------------------------
  // What a vector decoder computes
  // ---------------------------------------------------------------------------

  /** The first `n` bytes by the vector formula, the others by the table. */
  function Mixed(h: seq<u8>, n: nat): (r: seq<u8>)
    ensures |r| == |h| / 2
    ensures forall i | 0 <= i < |r| :: r[i] == MixedByte(h, n, i)
  {
    seq(|h| / 2, i requires 0 <= i < |h| / 2 => MixedByte(h, n, i))
  }

  function MixedByte(h: seq<u8>, n: nat, i: nat): u8
    requires 2 * i + 1 < |h|
  {
    if i < n then VectorByte(h[2 * i], h[2 * i + 1]) else Byte(h[2 * i], h[2 * i + 1])
  }

  predicate SameNibble(c: u8) {
    VectorNibble(c) & 0x0F == Lut(c)
  }

  lemma DigitsAgree(c: u8)
    requires IsDigit(c)
    ensures SameNibble(c)
  {
  }

  /** Other characters need not: "@" counts as 9 where the table has 0. */
  lemma AtSignDiffers()
    ensures VectorNibble(0x40) == 9 && Lut(0x40) == 0
  {
  }

  lemma BytesAgree(hi: u8, lo: u8)
    ensures VectorByte(hi, lo) == Byte(hi, lo) <==> SameNibble(hi) && SameNibble(lo)
  {
    LutIsSmall(hi);
    LutIsSmall(lo);
    JoinIsInjective(VectorNibble(hi), VectorNibble(lo) & 0x0F, Lut(hi), Lut(lo));
  }

  lemma JoinIsInjective(hi: u8, lo: u8, hi': u8, lo': u8)
    requires lo < 16 && hi' < 16 && lo' < 16
    ensures Join(hi, lo) == Join(hi', lo') <==> hi & 0x0F == hi' && lo == lo'
  {
  }

  /** The vector formula refines the table exactly on strings whose vectored characters give the same nibble. */
  lemma MixedIsDecodedExactlyWhen(h: seq<u8>, n: nat)
    requires 2 * n <= |h|
    ensures Mixed(h, n) == Decoded(h) <==> forall c <- h[..2 * n] :: SameNibble(c)
  {
    hide Byte, VectorByte, SameNibble;
    forall i | 0 <= i < n
      ensures MixedByte(h, n, i) == Decoded(h)[i] <==> SameNibble(h[2 * i]) && SameNibble(h[2 * i + 1])
    {
      BytesAgree(h[2 * i], h[2 * i + 1]);
    }
    if forall c <- h[..2 * n] :: SameNibble(c) {
      forall i | 0 <= i < n ensures SameNibble(h[2 * i]) && SameNibble(h[2 * i + 1]) {
        assert h[..2 * n][2 * i] in h[..2 * n] && h[..2 * n][2 * i + 1] in h[..2 * n];
      }
    }
    if Mixed(h, n) == Decoded(h) {
      forall k | 0 <= k < 2 * n ensures SameNibble(h[k]) {
        var i := k / 2;
        assert Mixed(h, n)[i] == Decoded(h)[i];
        assert k == 2 * i || k == 2 * i + 1;
      }
    }
  }

  /** Every hexadecimal digit does. */
  lemma VectorRefinesTableOnDigits(h: seq<u8>, n: nat)
    requires 2 * n <= |h| && forall c <- h :: IsDigit(c)
    ensures Mixed(h, n) == Decoded(h)
  {
    hide IsDigit, SameNibble;
    forall c <- h[..2 * n] ensures SameNibble(c) {
      DigitsAgree(c);
    }
    MixedIsDecodedExactlyWhen(h, n);
  }

  // ---------------------------------------------------------------------------
  // The decoders over a preallocated buffer
  // ---------------------------------------------------------------------------

  /** The preallocated result, written through a pointer; `order` is the history of the positions written. */
  class Output {
    const bytes: array<u8>
    ghost var order: seq<nat>

    constructor (length: nat)
      ensures fresh(bytes) && bytes.Length == length && (forall k | 0 <= k < length :: bytes[k] == 0) && order == []
    {
      bytes, order := new u8[length](_ => 0), [];
    }

    method Write(position: nat, b: u8)
      requires position < bytes.Length
      modifies bytes, this`order
      ensures bytes[..] == old(bytes[..])[position := b]
      ensures order == old(order) + [position]
    {
      bytes[position], order := b, order + [position];
    }

    /** Writes the bytes of a vector from `offset` on and nothing else. */
    method Store(offset: nat, part: seq<u8>)
      requires offset + |part| <= bytes.Length && order == Upto(offset)
      modifies bytes, this`order
      ensures bytes[..] == old(bytes[..])[..offset] + part + old(bytes[..])[offset + |part|..]
      ensures order == Upto(offset + |part|)
    {
      for i := 0 to |part|
        invariant forall k | 0 <= k < bytes.Length ::
                    bytes[k] == if offset <= k < offset + i then part[k - offset] else old(bytes[k])
        invariant order == Upto(offset + i)
      {
        Write(offset + i, part[i]);
      }
    }
  }

  /** Every position once, in order. */
  function Upto(n: nat): (s: seq<nat>)
    ensures |s| == n
  {
    seq(n, i => i)
  }

  /** The first `n` of the final bytes are written, the others still as allocated. */
  ghost predicate WrittenUpTo(final: seq<u8>, r: seq<u8>, n: nat) {
    |r| == |final| && n <= |r| && r[..n] == final[..n] && forall k | n <= k < |r| :: r[k] == 0
  }

  /** The table-driven loop that finishes both vector decoders, from character 2n on. */
  method ScalarRemainder(h: seq<u8>, out: Output, n: nat)
    requires |h| % 2 == 0 && WrittenUpTo(Mixed(h, n), out.bytes[..], n) && out.order == Upto(n)
    modifies out.bytes, out`order
    ensures out.bytes[..] == Mixed(h, n) && out.order == Upto(|h| / 2)
  {
    hide Byte, VectorByte;
    ghost var final := Mixed(h, n);
    var i, outIdx := 2 * n, n;
    while i + 1 < |h|
      invariant i == 2 * outIdx && n <= outIdx <= out.bytes.Length
      invariant WrittenUpTo(final, out.bytes[..], outIdx) && out.order == Upto(outIdx)
    {
      ghost var before := out.bytes[..];
      out.Write(outIdx, Byte(h[i], h[i + 1]));
      assert out.bytes[..][..outIdx] == before[..outIdx];
      assert out.bytes[..][..outIdx + 1] == before[..outIdx] + [final[outIdx]];
      assert final[..outIdx + 1] == final[..outIdx] + [final[outIdx]];
      outIdx := outIdx + 1;
      i := i + 2;
    }
    assert out.bytes[..][..out.bytes.Length] == out.bytes[..];
  }

  lemma StoredChunk(final: seq<u8>, before: seq<u8>, n: nat, chunk: seq<u8>, after: seq<u8>)
    requires WrittenUpTo(final, before, n) && n + |chunk| <= |before| && chunk == final[n..n + |chunk|]
    requires after == before[..n] + chunk + before[n + |chunk|..]
    ensures WrittenUpTo(final, after, n + |chunk|)
  {
    assert after[..n + |chunk|] == before[..n] + chunk;
    assert final[..n + |chunk|] == final[..n] + final[n..n + |chunk|];
  }

  /** Lane `i` of a chunk is byte `offset + i` of the whole. */
  lemma LaneOf(h: seq<u8>, n: nat, offset: nat, v: seq<u8>, i: nat)
    requires offset + i < n && 2 * n <= |h| && 2 * i + 1 < |v| && 2 * offset + |v| <= |h|
    requires v == h[2 * offset..2 * offset + |v|]
    ensures Mixed(h, n)[offset + i] == VectorByte(v[2 * i], v[2 * i + 1])
  {
    hide VectorByte, Byte;
    assert Mixed(h, n)[offset + i] == MixedByte(h, n, offset + i);
    assert v[2 * i] == h[2 * (offset + i)] && v[2 * i + 1] == h[2 * (offset + i) + 1];
  }

  lemma Sse2ChunkIsMixed(h: seq<u8>, n: nat, offset: nat, v: Lanes)
    requires offset + 8 <= n && 2 * n <= |h| && v == h[2 * offset..2 * offset + 16]
    ensures Sse2Chunk(v) == Mixed(h, n)[offset..offset + 8]
  {
    hide Sse2Chunk, VectorByte, MixedByte;
    Sse2ChunkLanes(v);
    forall i | 0 <= i < 8 ensures Sse2Chunk(v)[i] == Mixed(h, n)[offset..offset + 8][i] {
      LaneOf(h, n, offset, v, i);
    }
  }

  lemma NeonChunkIsMixed(h: seq<u8>, n: nat, offset: nat, v0: Lanes, v1: Lanes)
    requires offset + 16 <= n && 2 * n <= |h| && v0 + v1 == h[2 * offset..2 * offset + 32]
    ensures NeonChunk(v0, v1) == Mixed(h, n)[offset..offset + 16]
  {
    hide NeonChunk, VectorByte, MixedByte;
    NeonChunkLanes(v0, v1);
    forall i | 0 <= i < 16 ensures NeonChunk(v0, v1)[i] == Mixed(h, n)[offset..offset + 16][i] {
      LaneOf(h, n, offset, v0 + v1, i);
    }
  }

  /** Eight bytes at a time, then the table. */
  method DecodeSse2(h: seq<u8>) returns (out: Output)
    requires |h| % 2 == 0
    ensures fresh(out) && fresh(out.bytes)
    ensures out.bytes[..] == Mixed(h, |h| / 2 / 8 * 8) && out.order == Upto(|h| / 2)
  {
    hide Sse2Chunk, Mixed;
    var outLen := |h| / 2;
    out := new Output(outLen);
    var chunks := outLen / 8;
    ghost var final := Mixed(h, 8 * chunks);
    for chunk := 0 to chunks
      invariant fresh(out) && fresh(out.bytes)
      invariant WrittenUpTo(final, out.bytes[..], 8 * chunk) && out.order == Upto(8 * chunk)
    {
      var inOff, outOff := chunk * 16, chunk * 8;
      var hexChars: Lanes := h[inOff..inOff + 16];
      Sse2ChunkIsMixed(h, 8 * chunks, outOff, hexChars);
      ghost var before := out.bytes[..];
      out.Store(outOff, Sse2Chunk(hexChars));
      StoredChunk(final, before, outOff, Sse2Chunk(hexChars), out.bytes[..]);
    }
    ScalarRemainder(h, out, 8 * chunks);
  }

  /** Sixteen bytes at a time, then the table. */
  method DecodeNeon(h: seq<u8>) returns (out: Output)
    requires |h| % 2 == 0
    ensures fresh(out) && fresh(out.bytes)
    ensures out.bytes[..] == Mixed(h, |h| / 2 / 16 * 16) && out.order == Upto(|h| / 2)
  {
    hide NeonChunk, Mixed;
    var outLen := |h| / 2;
    out := new Output(outLen);
    var chunks := outLen / 16;
    ghost var final := Mixed(h, 16 * chunks);
    for chunk := 0 to chunks
      invariant fresh(out) && fresh(out.bytes)
      invariant WrittenUpTo(final, out.bytes[..], 16 * chunk) && out.order == Upto(16 * chunk)
    {
      var inOff, outOff := chunk * 32, chunk * 16;
      var hex0: Lanes := h[inOff..inOff + 16];
      var hex1: Lanes := h[inOff + 16..inOff + 32];
      assert hex0 + hex1 == h[inOff..inOff + 32];
      NeonChunkIsMixed(h, 16 * chunks, outOff, hex0, hex1);
      ghost var before := out.bytes[..];
      out.Store(outOff, NeonChunk(hex0, hex1));
      StoredChunk(final, before, outOff, NeonChunk(hex0, hex1), out.bytes[..]);
    }
    ScalarRemainder(h, out, 16 * chunks);
  }

  /** The decoder of other targets pushes one byte per pair, whatever the characters. */
  method DecodeScalar(h: seq<u8>) returns (result: seq<u8>)
    ensures result == Decoded(h)
  {
    hide Byte;
    result := [];
    var i := 0;
    while i < |h|
      invariant i % 2 == 0 && i <= |h| + 1
      invariant |result| == (if i <= |h| then i else |h|) / 2
      invariant result == Decoded(h)[..|result|]
    {
      if i + 2 <= |h| {
        assert Decoded(h)[..|result| + 1] == Decoded(h)[..|result|] + [Byte(h[i], h[i + 1])];
        result := result + [Byte(h[i], h[i + 1])];
      }
      i := i + 2;
    }
    assert Decoded(h)[..|h| / 2] == Decoded(h);
  }

  /** The three builds of the decoder. */
  datatype Target = Sse2 | Neon | Other

  /** How many bytes a build takes in whole chunks. */
  function Vectored(target: Target, outLen: nat): (n: nat)
    ensures n <= outLen
  {
    match target
    case Sse2 => outLen / 8 * 8
    case Neon => outLen / 16 * 16
    case Other => 0
  }

  lemma DecodesDigits(h: seq<u8>, n: nat)
    requires |h| % 2 == 0 && 2 * n <= |h|
    ensures n == 0 ==> Mixed(h, n) == Decoded(h)
    ensures (forall c <- h :: IsDigit(c)) ==> IsBase16(h, Mixed(h, n))
  {
    hide IsDigit, SameNibble, Denotes;
    MixedIsDecodedExactlyWhen(h, n);
    if forall c <- h :: IsDigit(c) {
      VectorRefinesTableOnDigits(h, n);
      DecodingInvertsBase16(h, Mixed(h, n));
    }
  }

  /**
   Odd lengths are refused. Every build computes the table's bytes behind its chunks, and the bytes a string of
   digits denotes wherever they are.
   */
  method HexDecode(target: Target, h: seq<u8>) returns (r: Option<seq<u8>>)
    ensures r.None? <==> |h| % 2 != 0
    ensures r.Some? ==> r.value == Mixed(h, Vectored(target, |h| / 2))
    ensures r.Some? && (forall c <- h :: IsDigit(c)) ==> IsBase16(h, r.value)
  {
    hide IsDigit, Decoded, IsBase16, Mixed;
    if |h| % 2 != 0 { return None; }
    DecodesDigits(h, Vectored(target, |h| / 2));
    match target
    case Sse2 =>
      var a := DecodeSse2(h);
      r := Some(a.bytes[..]);
    case Neon =>
      var a := DecodeNeon(h);
      r := Some(a.bytes[..]);
    case Other =>
      var bytes := DecodeScalar(h);
      DecodesDigits(h, 0);
      r := Some(bytes);
  }
}
