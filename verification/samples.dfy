/**
 * Decoding of the ADC's 3-byte conversion results into raw counts.
 *
 * The driver assembles the counts with shifts and ORs of byte fields that
 * never overlap; the model writes the same values as sums of byte values
 * times powers of two, and models C's int32_t wrap-around and truncating
 * division explicitly.
 */
module Samples {

  /** An unsigned byte received from the ADC, by value. */
  type uint8 = x: int | 0 <= x < 256

  /** Reading the low 32 bits of `v` as a two's-complement int32_t. */
  function Int32(v: int): (r: int)
    ensures -0x8000_0000 <= r < 0x8000_0000
    ensures (r - v) % 0x1_0000_0000 == 0
  {
    var u := v % 0x1_0000_0000;
    if u < 0x8000_0000 then u else u - 0x1_0000_0000
  }

  /** C's integer division: the quotient is truncated toward zero. */
  function CDiv(a: int, d: int): (q: int)
    requires d > 0
    ensures a >= 0 ==> q >= 0 && 0 <= a - q * d < d
    ensures a < 0 ==> q <= 0 && -d < a - q * d <= 0
  {
    if a >= 0 then a / d else -((-a) / d)
  }

  //////////////////// temperature ////////////////////

  /**
   * `_t_raw` as the driver computes it: the top 14 bits of the first two
   * response bytes, as an unsigned count. The third byte is not read.
   */
  function TemperatureRaw(b: seq<uint8>): (t: int)
    requires |b| == 3
    ensures 0 <= t < 0x4000
    ensures t * 4 <= b[0] as int * 256 + b[1] < t * 4 + 4
  {
    (b[0] as int * 256 + b[1]) / 4
  }

  /** The third response byte and the two low bits of the second are noise to the decoder. */
  lemma TemperatureIgnoresNoise(b: seq<uint8>, c: seq<uint8>)
    requires |b| == 3 && |c| == 3
    requires b[0] == c[0] && b[1] / 4 == c[1] / 4
    ensures TemperatureRaw(b) == TemperatureRaw(c)
  {
    DropLowBits(b[0], b[1]);
    DropLowBits(c[0], c[1]);
  }

  lemma DropLowBits(hi: int, lo: int)
    requires 0 <= lo
    ensures (hi * 256 + lo) / 4 == hi * 64 + lo / 4
  {
  }

  /** The response carrying a 14-bit field `f`, left-justified, with zero noise. */
  function TemperatureBytes(f: nat): (b: seq<uint8>)
    requires f < 0x4000
    ensures |b| == 3
    ensures TemperatureRaw(b) == f
  {
    [f / 64, (f % 64) * 4, 0]
  }

  /**
   * The temperature count with the 14-bit field read as two's complement,
   * as the ADC encodes it: temperatures below 0 degrees C are negative.
   */
  function TemperatureSigned(b: seq<uint8>): (t: int)
    requires |b| == 3
    ensures -0x2000 <= t < 0x2000
    ensures (t - TemperatureRaw(b)) % 0x4000 == 0
  {
    var raw := TemperatureRaw(b);
    if raw < 0x2000 then raw else raw - 0x4000
  }

  /** The response carrying a signed 14-bit count, left-justified, with zero noise. */
  function SignedTemperatureBytes(t: int): (b: seq<uint8>)
    requires -0x2000 <= t < 0x2000
    ensures |b| == 3
    ensures TemperatureSigned(b) == t
  {
    TemperatureBytes(if t >= 0 then t else t + 0x4000)
  }

  /**
   * The driver's unsigned reading agrees with the two's-complement one
   * exactly when the field's sign bit (bit 7 of the first byte) is clear.
   */
  lemma TemperatureAsWrittenAgrees(b: seq<uint8>)
    requires |b| == 3
    ensures TemperatureRaw(b) == TemperatureSigned(b) <==> b[0] < 0x80
  {
  }

  /** A count of -1 (-0.03125 degrees C) reads as 16383 (511.97 degrees C) in the driver. */
  lemma TemperatureMinusOne()
    ensures TemperatureSigned([0xFF, 0xFC, 0x00]) == -1
    ensures TemperatureRaw([0xFF, 0xFC, 0x00]) == 0x3FFF
  {
  }

  //////////////////// pressure ////////////////////

  /** The 24-bit pattern the three pressure bytes carry, most significant first. */
  function Pattern24(b: seq<uint8>): (u: nat)
    requires |b| == 3
    ensures u < 0x100_0000
  {
    b[0] as int * 0x1_0000 + b[1] as int * 0x100 + b[2]
  }

  /** The 24-bit two's-complement reading of a pattern. */
  function Signed24(u: nat): (p: int)
    requires u < 0x100_0000
    ensures -0x80_0000 <= p < 0x80_0000
    ensures p % 0x100_0000 == u
  {
    if u < 0x80_0000 then u else u - 0x100_0000
  }

  /**
   * `p_raw`: the bytes placed in bits 31..8 of an int32_t, then divided
   * by 256, which sign-extends the 24-bit two's-complement reading. The
   * shift of a byte of 128 or more into bit 31 is taken as wrapping.
   */
  function PressureRaw(b: seq<uint8>): (p: int)
    requires |b| == 3
    ensures -0x80_0000 <= p < 0x80_0000
    // the division by 256 is exact
    ensures p * 256 == Int32(Pattern24(b) * 0x100)
    // round trip: the count's low 24 bits are the transmitted pattern
    ensures p % 0x100_0000 == Pattern24(b)
  {
    var word := b[0] as int * 0x100_0000 + b[1] as int * 0x1_0000 + b[2] as int * 0x100;
    SignExtendByDivision(Pattern24(b));
    CDiv(Int32(word), 256)
  }

  /** Shifting a 24-bit pattern into the top of an int32_t and dividing by 256 sign-extends it. */
  lemma SignExtendByDivision(u: nat)
    requires u < 0x100_0000
    ensures CDiv(Int32(u * 0x100), 256) == Signed24(u)
    ensures Signed24(u) * 256 == Int32(u * 0x100)
  {
    var word := u * 0x100;
    assert 0 <= word < 0x1_0000_0000;
    if u < 0x80_0000 {
      assert Int32(word) == word;
    } else {
      var m := 0x100_0000 - u;
      assert Int32(word) == -(m * 0x100);
      assert (m * 0x100) / 256 == m;
    }
  }

  /** A count in range is the two's-complement reading of its low 24 bits. */
  lemma Signed24OfResidue(p: int)
    requires -0x80_0000 <= p < 0x80_0000
    ensures Signed24(p % 0x100_0000) == p
  {
  }

  /** A 24-bit pattern is its three bytes, most significant first. */
  lemma SplitPattern(u: nat)
    requires u < 0x100_0000
    ensures u / 0x1_0000 < 256
    ensures u == (u / 0x1_0000) * 0x1_0000 + ((u / 0x100) % 0x100) * 0x100 + u % 0x100
  {
  }

  /** The three bytes of a 24-bit pattern, most significant first. */
  function PatternBytes(u: nat): (b: seq<uint8>)
    requires u < 0x100_0000
    ensures |b| == 3 && Pattern24(b) == u
  {
    SplitPattern(u);
    [u / 0x1_0000, (u / 0x100) % 0x100, u % 0x100]
  }

  /** Three bytes are recovered from the pattern they form. */
  lemma PatternDigits(hi: nat, mid: nat, lo: nat)
    requires hi < 256 && mid < 256 && lo < 256
    ensures (hi * 0x1_0000 + mid * 0x100 + lo) / 0x1_0000 == hi
    ensures ((hi * 0x1_0000 + mid * 0x100 + lo) / 0x100) % 0x100 == mid
    ensures (hi * 0x1_0000 + mid * 0x100 + lo) % 0x100 == lo
  {
    var u := hi * 0x1_0000 + mid * 0x100 + lo;
    assert u / 0x100 == hi * 0x100 + mid;
  }

  lemma PatternBytesOfDigits(hi: nat, mid: nat, lo: nat)
    requires hi < 256 && mid < 256 && lo < 256
    ensures PatternBytes(hi * 0x1_0000 + mid * 0x100 + lo) == [hi, mid, lo]
  {
    PatternDigits(hi, mid, lo);
  }

  lemma PatternBytesOfPattern(b: seq<uint8>)
    requires |b| == 3
    ensures PatternBytes(Pattern24(b)) == b
  {
    PatternBytesOfDigits(b[0], b[1], b[2]);
    assert [b[0], b[1], b[2]] == b;
  }

  /** The bytes the ADC sends for a signed 24-bit count. */
  function PressureBytes(p: int): (b: seq<uint8>)
    requires -0x80_0000 <= p < 0x80_0000
    ensures |b| == 3
    ensures PressureRaw(b) == p
  {
    var b := PatternBytes(p % 0x100_0000);
    Signed24OfResidue(p);
    SignExtendByDivision(p % 0x100_0000);
    b
  }

  /** Decoding loses nothing: re-encoding the count gives back the bytes. */
  lemma PressureBytesOfRaw(b: seq<uint8>)
    requires |b| == 3
    ensures PressureBytes(PressureRaw(b)) == b
  {
    assert PressureRaw(b) % 0x100_0000 == Pattern24(b);
    PatternBytesOfPattern(b);
  }
}
