/** The 40-bit frame of the single-wire protocol: each bit is one (low, high)
    pulse-width pair, shifted MSB first into five bytes; bytes 0-3 carry the
    reading and byte 4 the checksum. */
module Frame {
  import opened Ints
  import opened Arith

  const FRAME_BITS: nat := 40
  const FRAME_BYTES: nat := 5
  /** Two pulse widths (low, then high) per bit. */
  const FRAME_WIDTHS: nat := 80

  /** A bit reads as 1 exactly when its low pulse lies within [30, 70] us and
      its high pulse lasts more than 50 us; any other pair reads as 0, among
      them every pair whose low pulse timed out at 100 us. */
  predicate PulseBit(low: u64, high: u64)
    ensures PulseBit(low, high) <==> 30 <= low <= 70 && 50 < high
  {
    !(low < 30 || low > 70) && high > 50
  }

  function Pow2(n: nat): (r: nat)
    ensures r >= 1
  {
    if n == 0 then 1 else 2 * Pow2(n - 1)
  }

  /** The value of bits shifted in MSB first: each new bit doubles the value
      so far and adds itself. */
  function BitsToByte(bits: seq<bool>): nat
  {
    if |bits| == 0 then 0
    else 2 * BitsToByte(bits[..|bits| - 1]) + (if bits[|bits| - 1] then 1 else 0)
  }

  /** n bits shifted in give a value below 2^n. */
  lemma {:induction false} BitsToByteBound(bits: seq<bool>)
    ensures BitsToByte(bits) < Pow2(|bits|)
    decreases |bits|
  {
    if |bits| > 0 {
      BitsToByteBound(bits[..|bits| - 1]);
    }
  }

  /** Bit k of the sequence (counting from the first one shifted in) is bit
      |bits|-1-k of the value: the first bit is the most significant. */
  lemma {:induction false} BitsToByteBit(bits: seq<bool>, k: nat)
    requires k < |bits|
    ensures BitsToByte(bits) / Pow2(|bits| - 1 - k) % 2 == (if bits[k] then 1 else 0)
    decreases |bits|
  {
    var init := bits[..|bits| - 1];
    var b := if bits[|bits| - 1] then 1 else 0;
    if k == |bits| - 1 {
      assert Pow2(0) == 1;
    } else {
      BitsToByteBit(init, k);
      assert init[k] == bits[k];
      var p := Pow2(|init| - 1 - k);
      assert Pow2(|bits| - 1 - k) == 2 * p;
      DivDouble(BitsToByte(init), b, p);
    }
  }

  /** The 40 bits a sequence of 80 pulse widths encodes: bit i from widths
      2i (low) and 2i+1 (high). */
  function FrameBitsOf(widths: seq<u64>): (bits: seq<bool>)
    requires |widths| == FRAME_WIDTHS
    ensures |bits| == FRAME_BITS
  {
    seq(FRAME_BITS, i requires 0 <= i < FRAME_BITS => PulseBit(widths[2 * i], widths[2 * i + 1]))
  }

  /** Byte b of the frame is the value of bits 8b .. 8b+7, MSB first. */
  function FrameOf(widths: seq<u64>): (data: seq<byte>)
    requires |widths| == FRAME_WIDTHS
    ensures |data| == FRAME_BYTES
  {
    var bits := FrameBitsOf(widths);
    seq(FRAME_BYTES, b requires 0 <= b < FRAME_BYTES => ByteOf(bits[8 * b .. 8 * b + 8]))
  }

  /** Eight bits, MSB first, as a byte. */
  function ByteOf(bits: seq<bool>): (v: byte)
    requires |bits| == 8
    ensures v == BitsToByte(bits)
  {
    BitsToByteBound(bits);
    assert Pow2(8) == 256;
    BitsToByte(bits)
  }

  lemma FrameOfByte(widths: seq<u64>, b: nat)
    requires |widths| == FRAME_WIDTHS && b < FRAME_BYTES
    ensures FrameOf(widths)[b] == BitsToByte(FrameBitsOf(widths)[8 * b .. 8 * b + 8])
  {
  }

  /** Bits that are all 0 shift in to the value 0. */
  lemma {:induction false} BitsToByteZero(bits: seq<bool>)
    requires forall k :: 0 <= k < |bits| ==> !bits[k]
    ensures BitsToByte(bits) == 0
    decreases |bits|
  {
    if |bits| > 0 {
      BitsToByteZero(bits[..|bits| - 1]);
    }
  }

  /** When no pulse pair passes the width test, every byte of the frame,
      checksum included, is 0. */
  lemma FrameOfNoBits(widths: seq<u64>)
    requires |widths| == FRAME_WIDTHS
    requires forall i :: 0 <= i < FRAME_BITS ==> !PulseBit(widths[2 * i], widths[2 * i + 1])
    ensures FrameOf(widths) == [0, 0, 0, 0, 0]
  {
    var bits := FrameBitsOf(widths);
    forall b | 0 <= b < FRAME_BYTES
      ensures FrameOf(widths)[b] == 0
    {
      BitsToByteZero(bits[8 * b .. 8 * b + 8]);
    }
  }

  /** Every frame bit lands MSB first: bit k of byte b (k = 0 is the most
      significant) is 1 exactly when pulse pair 8b+k passes the width test. */
  lemma FrameBitPlacement(widths: seq<u64>, b: nat, k: nat)
    requires |widths| == FRAME_WIDTHS && b < FRAME_BYTES && k < 8
    ensures FrameOf(widths)[b] / Pow2(7 - k) % 2
            == (if PulseBit(widths[2 * (8 * b + k)], widths[2 * (8 * b + k) + 1]) then 1 else 0)
  {
    var bits := FrameBitsOf(widths);
    var chunk := bits[8 * b .. 8 * b + 8];
    FrameOfByte(widths, b);
    assert chunk[k] == bits[8 * b + k];
    BitsToByteBit(chunk, k);
  }

  /** Each byte depends only on its own 8 pulse pairs (16 widths). */
  lemma FrameByteLocal(widths: seq<u64>, widths': seq<u64>, b: nat)
    requires |widths| == FRAME_WIDTHS && |widths'| == FRAME_WIDTHS && b < FRAME_BYTES
    requires widths[16 * b .. 16 * b + 16] == widths'[16 * b .. 16 * b + 16]
    ensures FrameOf(widths)[b] == FrameOf(widths')[b]
  {
    var bits, bits' := FrameBitsOf(widths), FrameBitsOf(widths');
    forall k | 8 * b <= k < 8 * b + 8
      ensures bits[k] == bits'[k]
    {
      assert widths[2 * k] == widths[16 * b .. 16 * b + 16][2 * k - 16 * b];
      assert widths'[2 * k] == widths'[16 * b .. 16 * b + 16][2 * k - 16 * b];
      assert widths[2 * k + 1] == widths[16 * b .. 16 * b + 16][2 * k + 1 - 16 * b];
      assert widths'[2 * k + 1] == widths'[16 * b .. 16 * b + 16][2 * k + 1 - 16 * b];
    }
    assert bits[8 * b .. 8 * b + 8] == bits'[8 * b .. 8 * b + 8];
  }

  /** `v | bit` for a one-bit operand. */
  function OrBit(v: byte, bit: bool): (r: byte)
    ensures r % 2 == (if bit then 1 else v % 2)
    ensures r / 2 == v / 2
  {
    if bit && v % 2 == 0 then v + 1 else v
  }

  function Min(a: int, b: int): int { if a <= b then a else b }
  function Max(a: int, b: int): int { if a <= b then b else a }

  /** The bit-reading loop of `dht_read`: for i in 0..39, `data[i/8]` is
      shifted left in `uint8_t` arithmetic, and 1 is or-ed in only when the
      low pulse is within range and the high pulse is long; a bit with an
      out-of-range low pulse is still shifted in, as 0. The five bytes it
      builds are the frame the pulse widths encode. */
  method AssembleFrame(widths: seq<u64>) returns (data: seq<byte>)
    requires |widths| == FRAME_WIDTHS
    ensures data == FrameOf(widths)
  {
    var bits := FrameBitsOf(widths);
    data := [0, 0, 0, 0, 0];
    var i := 0;
    while i < FRAME_BITS
      invariant 0 <= i <= FRAME_BITS
      invariant FrameSoFar(bits, data, i)
    {
      var low, high := widths[2 * i], widths[2 * i + 1];
      var b := i / 8;
      var v: byte := (data[b] * 2) % TWO_8;
      if low < 30 || low > 70 {
      } else {
        v := OrBit(v, high > 50);
      }
      ShiftInBit(bits, i, data[b], low, high, v);
      FrameSoFarStep(bits, data, i, v);
      data := data[b := v];
      i := i + 1;
    }
    PartialByteComplete(widths);
  }

  /** One loop step computes the next partial value of byte i/8. */
  lemma ShiftInBit(bits: seq<bool>, i: nat, prev: byte, low: u64, high: u64, v: byte)
    requires |bits| == FRAME_BITS && i < FRAME_BITS
    requires bits[i] == PulseBit(low, high)
    requires prev == PartialByte(bits, i / 8, i)
    requires v == if low < 30 || low > 70 then (prev * 2) % TWO_8
                  else OrBit((prev * 2) % TWO_8, high > 50)
    ensures v == PartialByte(bits, i / 8, i + 1)
  {
    PartialByteStep(bits, i);
    assert (prev * 2) % TWO_8 == 2 * prev;
  }

  /** Before loop step i, each byte holds the bits shifted into it so far. */
  predicate FrameSoFar(bits: seq<bool>, data: seq<byte>, i: nat)
    requires |bits| == FRAME_BITS && i <= FRAME_BITS
  {
    |data| == FRAME_BYTES &&
    forall b :: 0 <= b < FRAME_BYTES ==> data[b] == PartialByte(bits, b, i)
  }

  lemma FrameSoFarStep(bits: seq<bool>, data: seq<byte>, i: nat, v: byte)
    requires |bits| == FRAME_BITS && i < FRAME_BITS
    requires FrameSoFar(bits, data, i)
    requires v == PartialByte(bits, i / 8, i + 1)
    ensures FrameSoFar(bits, data[i / 8 := v], i + 1)
  {
    PartialByteOthers(bits, i);
  }

  /** Loop step i shifts bit i into byte i/8 without overflowing it. */
  lemma PartialByteStep(bits: seq<bool>, i: nat)
    requires |bits| == FRAME_BITS && i < FRAME_BITS
    ensures 2 * PartialByte(bits, i / 8, i) < TWO_8
    ensures PartialByte(bits, i / 8, i + 1)
            == 2 * PartialByte(bits, i / 8, i) + (if bits[i] then 1 else 0)
  {
    var b := i / 8;
    assert 8 * b <= i < 8 * b + 8;
    ShiftInStep(bits, 8 * b, i);
  }

  /** After the 40 steps every byte holds its 8 bits. */
  lemma PartialByteComplete(widths: seq<u64>)
    requires |widths| == FRAME_WIDTHS
    ensures forall b :: 0 <= b < FRAME_BYTES ==>
              PartialByte(FrameBitsOf(widths), b, FRAME_BITS) == FrameOf(widths)[b]
  {
  }

  /** The value of the bits of byte b shifted in before loop step i. */
  function PartialByte(bits: seq<bool>, b: nat, i: nat): nat
    requires |bits| == FRAME_BITS && b < FRAME_BYTES && i <= FRAME_BITS
  {
    BitsToByte(bits[8 * b .. Min(Max(i, 8 * b), 8 * b + 8)])
  }

  /** Loop step i touches only byte i/8. */
  lemma PartialByteOthers(bits: seq<bool>, i: nat)
    requires |bits| == FRAME_BITS && i < FRAME_BITS
    ensures forall b :: 0 <= b < FRAME_BYTES && b != i / 8 ==>
              PartialByte(bits, b, i + 1) == PartialByte(bits, b, i)
  {
  }

  /** Shifting bit i onto the bits start .. i-1 (fewer than 8 of them) stays
      below 256, so the `uint8_t` shift loses nothing. */
  lemma ShiftInStep(bits: seq<bool>, start: nat, i: nat)
    requires start <= i < start + 8 && i < |bits|
    ensures (2 * BitsToByte(bits[start .. i])) % TWO_8 == 2 * BitsToByte(bits[start .. i])
    ensures 2 * BitsToByte(bits[start .. i]) % 2 == 0
    ensures BitsToByte(bits[start .. i + 1])
            == 2 * BitsToByte(bits[start .. i]) + (if bits[i] then 1 else 0)
  {
    BitsToByteBound(bits[start .. i]);
    Pow2Mono(i - start, 7);
    assert Pow2(7) == 128;
    assert bits[start .. i + 1][..i - start] == bits[start .. i];
  }

  lemma {:induction false} Pow2Mono(m: nat, n: nat)
    requires m <= n
    ensures Pow2(m) <= Pow2(n)
    decreases n
  {
    if m < n {
      Pow2Mono(m, n - 1);
    }
  }

  /** The checksum test of `dht_read`: the four data bytes, promoted to
      `int`, must add up to the checksum byte; the sum is not reduced
      modulo 256. An accepted frame's data bytes therefore add up to less
      than 256, and its checksum byte is also their sum modulo 256. */
  predicate ChecksumMatches(data: seq<byte>)
    requires |data| == FRAME_BYTES
    ensures ChecksumMatches(data) ==> DataSum(data) < TWO_8
    ensures ChecksumMatches(data) ==> data[4] == DataSum(data) % TWO_8
  {
    DataSum(data) == data[4]
  }

  /** Sum of the four data bytes in `int` arithmetic, which can exceed a
      byte. */
  function DataSum(data: seq<byte>): (r: int)
    requires |data| >= 4
    ensures 0 <= r <= 4 * (TWO_8 - 1)
    ensures r == 0 <==> data[0] == data[1] == data[2] == data[3] == 0
  {
    data[0] as int + data[1] as int + data[2] as int + data[3] as int
  }

  /** Bytes 0-3 packed big-endian into a `uint32`; the checksum byte takes no
      part. The bytes occupy disjoint bit ranges, so `|` of the shifted bytes
      is their sum. Each byte can be read back from its position. */
  function Pack(data: seq<byte>): (w: u32)
    requires |data| == FRAME_BYTES
    ensures w / TWO_24 == data[0]
    ensures w / TWO_16 % TWO_8 == data[1]
    ensures w / TWO_8 % TWO_8 == data[2]
    ensures w % TWO_8 == data[3]
  {
    var hi16 := data[0] * TWO_8 + data[1];
    var lo16 := data[2] * TWO_8 + data[3];
    DivUnique(hi16, TWO_8, data[0], data[1]);
    DivUnique(lo16, TWO_8, data[2], data[3]);
    var w := hi16 * TWO_16 + lo16;
    DivUnique(w, TWO_16, hi16, lo16);
    DivUnique(w, TWO_8, hi16 * TWO_8 + data[2], data[3]);
    DivUnique(hi16 * TWO_8 + data[2], TWO_8, hi16, data[2]);
    DivUnique(w, TWO_24, data[0], data[1] * TWO_16 + lo16);
    w
  }

  /** The four data bytes of a word, most significant first. */
  function Unpack(w: u32): (data: seq<byte>)
    ensures |data| == 4
  {
    [w / TWO_24, w / TWO_16 % TWO_8, w / TWO_8 % TWO_8, w % TWO_8]
  }

  /** Packing is a bijection between the four data bytes and `uint32`:
      every word is the packing of its own bytes, whatever the checksum. */
  lemma PackUnpack(w: u32, checksum: byte)
    ensures Pack(Unpack(w) + [checksum]) == w
  {
    var d := Unpack(w) + [checksum];
    var a, b, c := w / TWO_24, w / TWO_16, w / TWO_8;
    assert w == a * TWO_24 + w % TWO_24;
    assert w % TWO_24 == (b % TWO_8) * TWO_16 + w % TWO_16;
    assert w % TWO_16 == (c % TWO_8) * TWO_8 + w % TWO_8;
  }

  /** Two frames pack to the same word exactly when their data bytes agree. */
  lemma PackInjective(d: seq<byte>, e: seq<byte>)
    requires |d| == FRAME_BYTES && |e| == FRAME_BYTES
    ensures Pack(d) == Pack(e) <==> d[..4] == e[..4]
  {
    if d[..4] == e[..4] {
      assert d[0] == e[0] && d[1] == e[1] && d[2] == e[2] && d[3] == e[3] by {
        assert d[..4][0] == d[0] && d[..4][1] == d[1] && d[..4][2] == d[2] && d[..4][3] == d[3];
      }
    }
  }
}
