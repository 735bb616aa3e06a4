/**
 * The circuit-input encoder of the zero-knowledge prover.
 *
 * Before a Groth16 proof is generated for an idea, the UTF-8 bytes of the
 * idea are turned into the `preimage` input of the hash-preimage circuit:
 * at most 256 bytes are accepted, they are zero-padded to exactly 256 bytes,
 * and every byte is expanded into its 8 bits, most significant bit first,
 * giving 2048 field elements, each 0 or 1.
 */
module Zk {
  import opened Wrappers

  /** One byte of the UTF-8 encoding of an idea. */
  type Byte = x: int | 0 <= x < 256

  /** Size of the padded buffer, and the longest idea the circuit accepts. */
  const MaxIdeaBytes: nat := 256
  const BitsPerByte: nat := 8
  /** Length of the circuit's `preimage` input. */
  const PreimageBits: nat := MaxIdeaBytes * BitsPerByte

  /** The error thrown for an idea that does not fit the circuit, with its byte length. */
  datatype EncodeError = IdeaTooLong(byteLength: nat)

  // ---------------------------------------------------------------------
  // Bit operations on non-negative integers
  // ---------------------------------------------------------------------

  /** `x >> n` on a non-negative `x`: `n` successive floor halvings. */
  function ShiftRight(x: nat, n: nat): nat
  {
    if n == 0 then x else ShiftRight(x, n - 1) / 2
  }

  /** `x & 1` on a non-negative `x`. */
  function LowBit(x: nat): nat
  {
    x % 2
  }

  function Pow2(n: nat): nat
  {
    if n == 0 then 1 else 2 * Pow2(n - 1)
  }

  /** Bit `i` of `b`, counted from the least significant bit: `(b >> i) & 1`. */
  function BitOf(b: Byte, i: nat): nat
  {
    LowBit(ShiftRight(b, i))
  }

  /** The eight bits of `b`, most significant first (bit 7 down to bit 0). */
  function ByteBits(b: Byte): (bits: seq<int>)
    ensures |bits| == BitsPerByte
    ensures forall j :: 0 <= j < |bits| ==> bits[j] == 0 || bits[j] == 1
  {
    seq(BitsPerByte, j requires 0 <= j < BitsPerByte => BitOf(b, BitsPerByte - 1 - j))
  }

  // ---------------------------------------------------------------------
  // Reference definition of the encoder
  // ---------------------------------------------------------------------

  function Zeros(n: nat): seq<Byte>
  {
    seq(n, _ => 0)
  }

  /** The 256-byte zero-filled buffer with the idea copied to its front. */
  function Padded(idea: seq<Byte>): (p: seq<Byte>)
    requires |idea| <= MaxIdeaBytes
    ensures |p| == MaxIdeaBytes
    ensures p[..|idea|] == idea
    ensures forall k :: |idea| <= k < MaxIdeaBytes ==> p[k] == 0
  {
    idea + Zeros(MaxIdeaBytes - |idea|)
  }

  /** Every byte expanded into its bits, most significant first, in byte order. */
  function ExpandBits(bytes: seq<Byte>): (bits: seq<int>)
    ensures |bits| == BitsPerByte * |bytes|
    ensures forall i :: 0 <= i < |bits| ==> bits[i] == 0 || bits[i] == 1
  {
    if bytes == [] then [] else ByteBits(bytes[0]) + ExpandBits(bytes[1..])
  }

  /** What the encoder produces for the UTF-8 bytes `idea`. */
  function CircuitInput(idea: seq<Byte>): (r: Result<seq<int>, EncodeError>)
    ensures r.Err? <==> |idea| > MaxIdeaBytes
    ensures r.Err? ==> r.error == IdeaTooLong(|idea|)
    ensures r.Ok? ==> |r.value| == PreimageBits
    ensures r.Ok? ==> forall i :: 0 <= i < |r.value| ==> r.value[i] == 0 || r.value[i] == 1
  {
    if |idea| > MaxIdeaBytes then Err(IdeaTooLong(|idea|)) else Ok(ExpandBits(Padded(idea)))
  }

  // ---------------------------------------------------------------------
  // The encoder as the source runs it
  // ---------------------------------------------------------------------

  /**
   * Rejects an idea longer than 256 bytes; otherwise allocates a zero-filled
   * 256-byte buffer, copies the idea to its front, and pushes the bits of
   * each buffer byte, from bit 7 down to bit 0, onto `preimage`.
   */
  method PrepareCircuitInput(idea: seq<Byte>) returns (r: Result<seq<int>, EncodeError>)
    ensures r == CircuitInput(idea)
  {
    if |idea| > MaxIdeaBytes {
      return Err(IdeaTooLong(|idea|));
    }
    var padded := new Byte[MaxIdeaBytes](_ => 0);
    for k := 0 to |idea|
      invariant padded[..k] == idea[..k]
      invariant forall m :: k <= m < MaxIdeaBytes ==> padded[m] == 0
    {
      padded[k] := idea[k];
    }
    assert padded[..] == Padded(idea);

    var preimage: seq<int> := [];
    for k := 0 to MaxIdeaBytes
      invariant padded[..] == Padded(idea)
      invariant preimage == ExpandBits(padded[..k])
    {
      var byte := padded[k];
      var i: int := 7;
      while i >= 0
        invariant -1 <= i <= 7
        invariant preimage == ExpandBits(padded[..k]) + ByteBits(byte)[..7 - i]
      {
        assert ByteBits(byte)[..7 - (i - 1)] == ByteBits(byte)[..7 - i] + [BitOf(byte, i)];
        preimage := preimage + [LowBit(ShiftRight(byte, i))];
        i := i - 1;
      }
      assert ByteBits(byte)[..BitsPerByte] == ByteBits(byte);
      assert padded[..k + 1] == padded[..k] + [byte];
      ExpandBitsAppend(padded[..k], byte);
    }
    assert padded[..MaxIdeaBytes] == padded[..];
    return Ok(preimage);
  }

  lemma {:induction false} ExpandBitsAppend(bytes: seq<Byte>, b: Byte)
    ensures ExpandBits(bytes + [b]) == ExpandBits(bytes) + ByteBits(b)
  {
    if bytes == [] {
      assert ExpandBits([b]) == ByteBits(b) + ExpandBits([]);
    } else {
      assert (bytes + [b])[1..] == bytes[1..] + [b];
      ExpandBitsAppend(bytes[1..], b);
    }
  }

  // ---------------------------------------------------------------------
  // Bit layout
  // ---------------------------------------------------------------------

  /** Bit `j` of byte group `k` of the expansion is bit `7 - j` of byte `k`. */
  lemma {:induction false} ExpandBitsAt(bytes: seq<Byte>, k: nat, j: nat)
    requires k < |bytes| && j < BitsPerByte
    ensures ExpandBits(bytes)[BitsPerByte * k + j] == BitOf(bytes[k], BitsPerByte - 1 - j)
  {
    if k > 0 {
      ExpandBitsAt(bytes[1..], k - 1, j);
    }
  }

  lemma {:induction false} ShiftRightZero(n: nat)
    ensures ShiftRight(0, n) == 0
  {
    if n > 0 {
      ShiftRightZero(n - 1);
    }
  }

  /**
   * Element `8*k + j` of the preimage is bit `7 - j` of buffer byte `k`:
   * of idea byte `k` when the idea has one, and 0 in the padding.
   */
  lemma BitOrder(idea: seq<Byte>, k: nat, j: nat)
    requires |idea| <= MaxIdeaBytes && k < MaxIdeaBytes && j < BitsPerByte
    ensures CircuitInput(idea).Ok?
    ensures CircuitInput(idea).value[BitsPerByte * k + j] == BitOf(Padded(idea)[k], BitsPerByte - 1 - j)
    ensures CircuitInput(idea).value[BitsPerByte * k + j] ==
            if k < |idea| then BitOf(idea[k], BitsPerByte - 1 - j) else 0
  {
    ExpandBitsAt(Padded(idea), k, j);
    if k < |idea| {
      assert Padded(idea)[k] == Padded(idea)[..|idea|][k];
    } else {
      ShiftRightZero(BitsPerByte - 1 - j);
    }
  }

  /** Every preimage element past the idea's own 8*n bits is padding, hence 0. */
  lemma PaddingIsZero(idea: seq<Byte>, i: nat)
    requires |idea| <= MaxIdeaBytes && BitsPerByte * |idea| <= i < PreimageBits
    ensures CircuitInput(idea).Ok? && CircuitInput(idea).value[i] == 0
  {
    var k, j := i / BitsPerByte, i % BitsPerByte;
    assert i == BitsPerByte * k + j;
    BitOrder(idea, k, j);
  }

  // ---------------------------------------------------------------------
  // Round trip: regrouping the bits gives the padded buffer back
  // ---------------------------------------------------------------------

  /** The value of a bit string read most significant bit first. */
  function BitsValue(bits: seq<int>): int
  {
    if bits == [] then 0 else 2 * BitsValue(bits[..|bits| - 1]) + bits[|bits| - 1]
  }

  /** Regroups a bit string into bytes, eight bits a byte, most significant bit first. */
  function PackBytes(bits: seq<int>): seq<int>
    requires |bits| % BitsPerByte == 0
    decreases |bits|
  {
    if bits == [] then [] else [BitsValue(bits[..BitsPerByte])] + PackBytes(bits[BitsPerByte..])
  }

  /** The first `m` bits of `b`, read as a number, are `b >> (8 - m)`. */
  lemma {:induction false} ByteBitsPrefixValue(b: Byte, m: nat)
    requires m <= BitsPerByte
    ensures BitsValue(ByteBits(b)[..m]) == ShiftRight(b, BitsPerByte - m)
  {
    if m == 0 {
      ShiftRightBound(b, BitsPerByte, 0);
    } else {
      var bits := ByteBits(b)[..m];
      assert bits[..m - 1] == ByteBits(b)[..m - 1];
      ByteBitsPrefixValue(b, m - 1);
      var y := ShiftRight(b, BitsPerByte - m);
      assert ShiftRight(b, BitsPerByte - (m - 1)) == y / 2;
      assert bits[m - 1] == BitOf(b, BitsPerByte - m);
    }
  }

  /** A number below 2^(n+m) shifted right by n is below 2^m. */
  lemma {:induction false} ShiftRightBound(x: nat, n: nat, m: nat)
    requires x < Pow2(n + m)
    ensures ShiftRight(x, n) < Pow2(m)
  {
    if n > 0 {
      ShiftRightBound(x, n - 1, m + 1);
    }
  }

  lemma ByteRoundTrip(b: Byte)
    ensures BitsValue(ByteBits(b)) == b
  {
    ByteBitsPrefixValue(b, BitsPerByte);
    assert ByteBits(b)[..BitsPerByte] == ByteBits(b);
  }

  lemma {:induction false} PackExpandBits(bytes: seq<Byte>)
    ensures PackBytes(ExpandBits(bytes)) == bytes
  {
    if bytes != [] {
      var bits := ExpandBits(bytes);
      assert bits[..BitsPerByte] == ByteBits(bytes[0]);
      assert bits[BitsPerByte..] == ExpandBits(bytes[1..]);
      ByteRoundTrip(bytes[0]);
      PackExpandBits(bytes[1..]);
    }
  }

  /**
   * Regrouping an accepted idea's preimage into MSB-first bytes yields the
   * 256-byte padded buffer, whose first `n` bytes are the idea itself.
   */
  lemma EncodeRoundTrip(idea: seq<Byte>)
    requires |idea| <= MaxIdeaBytes
    ensures CircuitInput(idea).Ok?
    ensures PackBytes(CircuitInput(idea).value) == Padded(idea)
    ensures PackBytes(CircuitInput(idea).value)[..|idea|] == idea
  {
    PackExpandBits(Padded(idea));
  }

  // ---------------------------------------------------------------------
  // Padding collisions
  // ---------------------------------------------------------------------

  /** Appending zero bytes to an accepted idea does not change its preimage. */
  lemma TrailingZerosCollide(idea: seq<Byte>, n: nat)
    requires |idea| + n <= MaxIdeaBytes
    ensures CircuitInput(idea + Zeros(n)) == CircuitInput(idea)
  {
    assert Padded(idea + Zeros(n)) == Padded(idea);
  }

  /** Trailing zero bytes are the only way two accepted ideas share a preimage. */
  lemma SamePreimageOnlyByTrailingZeros(a: seq<Byte>, b: seq<Byte>)
    requires |a| <= |b|
    requires CircuitInput(a).Ok? && CircuitInput(b).Ok?
    requires CircuitInput(a).value == CircuitInput(b).value
    ensures b == a + Zeros(|b| - |a|)
  {
    EncodeRoundTrip(a);
    EncodeRoundTrip(b);
    var pa, pb := Padded(a), Padded(b);
    assert pa == pb;
    assert b == pb[..|b|];
    forall k | 0 <= k < |b|
      ensures b[k] == (a + Zeros(|b| - |a|))[k]
    {
      if k < |a| {
        assert a[k] == pa[..|a|][k];
      }
    }
  }
}
