/**
 * Bit-field extraction on 32-bit words, as the decoder does it with C# shifts and
 * `(byte)` casts. Integers are unbounded here, so the 32-bit reinterpretation
 * (`Word32`, `AsInt32`) and the truncation to a byte are written out.
 */
module BitFields {

  const Two8: int := 0x100
  const Two16: int := 0x1_0000
  const Two24: int := 0x100_0000
  const Two30: int := 0x4000_0000
  const Two31: int := 0x8000_0000
  const Two32: int := 0x1_0000_0000

  /** The 32-bit pattern of `v`, read as an unsigned number (two's complement for negatives). */
  function Word32(v: int): (u: int)
    ensures 0 <= u < Two32
    ensures (v - u) % Two32 == 0
  {
    v % Two32
  }

  /** The 32-bit pattern of `v`, read as a C# `int`. */
  function AsInt32(v: int): (x: int)
    ensures -Two31 <= x < Two31
    ensures Word32(x) == Word32(v)
    ensures -Two31 <= v < Two31 ==> x == v
  {
    var u := Word32(v);
    if u < Two31 then u else u - Two32
  }

  // ---------------------------------------------------------------------------
  // Mark word 1: `(byte)(w >> 16)` and `(byte)((w >> 30) & 0x01)` on a C# int.
  // A right shift of an int is a floor division; the byte cast keeps the value mod 256.
  // ---------------------------------------------------------------------------

  /** `(byte)(v >> k)` where `d` is 2^k: a floor division, then the low byte. */
  function ShiftedByte(v: int, d: int): (b: int)
    requires d > 0
    ensures 0 <= b < Two8
  {
    (v / d) % Two8
  }

  /** The overtrigger count of a Mark flags word. */
  function Overtrig(w: int): (o: int)
    ensures 0 <= o < Two8
  {
    ShiftedByte(w, Two16)
  }

  /** The enable flag of a Mark flags word. */
  function Enable(w: int): (e: int)
    ensures 0 <= e <= 1
  {
    (w / Two30) % 2
  }

  /** Bits 16..23 of the 32-bit pattern `u`. */
  function Bits16To23(u: int): int
    requires 0 <= u < Two32
  {
    (u / Two16) % Two8
  }

  /** Bit 30 of the 32-bit pattern `u`. */
  function Bit30(u: int): int
    requires 0 <= u < Two32
  {
    (u / Two30) % 2
  }

  /** Adding a multiple of 2^32 does not change a floor quotient by `d` modulo `m` when `d * m` divides 2^32. */
  lemma {:induction false} ShiftTruncateIgnoresHighBits(w: int, k: int, d: int, m: int)
    requires d > 0 && m > 0 && Two32 == d * m * (Two32 / (d * m))
    ensures ((w + k * Two32) / d) % m == (w / d) % m
  {
    var c := Two32 / (d * m);
    assert k * Two32 == (k * c * m) * d by {
      assert Two32 == d * m * c;
    }
    DivAddMultiple(w, k * c * m, d);
    DivAddMultiple(w / d, k * c, m);
  }

  /** Euclidean division is determined by any quotient/remainder pair with the remainder in range. */
  lemma {:induction false} DivModUnique(x: int, d: int, q: int, r: int)
    requires d > 0 && 0 <= r < d && x == q * d + r
    ensures x / d == q && x % d == r
  {
    var q', r' := x / d, x % d;
    assert (q - q') * d == r' - r;
    if q > q' {
      MulAtLeast(q - q', d);
    } else if q < q' {
      MulAtLeast(q' - q, d);
    }
  }

  lemma {:induction false} MulAtLeast(k: int, d: int)
    requires k >= 1 && d > 0
    ensures k * d >= d
  {
    assert k * d == (k - 1) * d + d;
  }

  lemma {:induction false} DivAddMultiple(a: int, q: int, d: int)
    requires d > 0
    ensures (a + q * d) / d == a / d + q
    ensures (a + q * d) % d == a % d
  {
    var r := a % d;
    assert a == (a / d) * d + r;
    assert a + q * d == (a / d + q) * d + r;
    DivModUnique(a + q * d, d, a / d + q, r);
  }

  /**
   * The fields the source extracts from a signed word are exactly the bit fields of
   * its 32-bit pattern: bits 16..23 for the overtrigger count and bit 30 for enable.
   */
  lemma {:induction false} MarkFieldsArePatternBits(w: int)
    ensures Overtrig(w) == Bits16To23(Word32(w))
    ensures Enable(w) == Bit30(Word32(w))
  {
    var u := Word32(w);
    var k := w / Two32;
    assert w == u + k * Two32;
    ShiftTruncateIgnoresHighBits(u, k, Two16, Two8);
    ShiftTruncateIgnoresHighBits(u, k, Two30, 2);
  }

  /** The 32-bit Mark flags word with the given fields; `low`, `mid` and `top` are the other bits. */
  function MarkFlags(low: int, overtrig: int, mid: int, enable: int, top: int): (u: int)
    requires 0 <= low < Two16 && 0 <= overtrig < Two8 && 0 <= mid < 64
    requires 0 <= enable <= 1 && 0 <= top <= 1
    ensures 0 <= u < Two32
  {
    low + overtrig * Two16 + mid * Two24 + enable * Two30 + top * Two31
  }

  /** Bits 16..23 of a packed flags word are its overtrig field. */
  lemma PackedOvertrig(low: int, overtrig: int, mid: int, enable: int, top: int)
    requires 0 <= low < Two16 && 0 <= overtrig < Two8 && 0 <= mid < 64
    requires 0 <= enable <= 1 && 0 <= top <= 1
    ensures Bits16To23(MarkFlags(low, overtrig, mid, enable, top)) == overtrig
  {
    var u := MarkFlags(low, overtrig, mid, enable, top);
    var above := mid + enable * 64 + top * 128;
    assert u == low + (overtrig + above * Two8) * Two16;
    DivAddMultiple(low, overtrig + above * Two8, Two16);
    DivAddMultiple(overtrig, above, Two8);
  }

  /** Bit 30 of a packed flags word is its enable field. */
  lemma PackedEnable(low: int, overtrig: int, mid: int, enable: int, top: int)
    requires 0 <= low < Two16 && 0 <= overtrig < Two8 && 0 <= mid < 64
    requires 0 <= enable <= 1 && 0 <= top <= 1
    ensures Bit30(MarkFlags(low, overtrig, mid, enable, top)) == enable
  {
    var u := MarkFlags(low, overtrig, mid, enable, top);
    var below := low + overtrig * Two16 + mid * Two24;
    assert below < Two30;
    assert u == below + (enable + top * 2) * Two30;
    DivAddMultiple(below, enable + top * 2, Two30);
    DivAddMultiple(enable, top, 2);
  }

  /** Decoding a packed flags word, read as a C# int, gives back the packed fields. */
  lemma MarkFlagsRoundTrip(low: int, overtrig: int, mid: int, enable: int, top: int)
    requires 0 <= low < Two16 && 0 <= overtrig < Two8 && 0 <= mid < 64
    requires 0 <= enable <= 1 && 0 <= top <= 1
    ensures Overtrig(AsInt32(MarkFlags(low, overtrig, mid, enable, top))) == overtrig
    ensures Enable(AsInt32(MarkFlags(low, overtrig, mid, enable, top))) == enable
  {
    var u := MarkFlags(low, overtrig, mid, enable, top);
    MarkFieldsArePatternBits(AsInt32(u));
    assert Word32(AsInt32(u)) == u;
    PackedOvertrig(low, overtrig, mid, enable, top);
    PackedEnable(low, overtrig, mid, enable, top);
  }

  // ---------------------------------------------------------------------------
  // RGB2 words: `(byte)(v >> 24)`, `(byte)(v >> 16)`, `(byte)(v >> 8)` on a C# uint.
  // A right shift of a uint is a floor division; the words are in [0, 2^32).
  // ---------------------------------------------------------------------------

  /** The byte the source calls blue: bits 24..31. */
  function Blue(v: int): (b: int)
    ensures 0 <= b < Two8
  {
    ShiftedByte(v, Two24)
  }

  /**
   * The byte the source calls green: bits 16..23. It is the same extraction as
   * `Overtrig`, applied at a different place of the source to a `uint` word.
   */
  function Green(v: int): (g: int)
    ensures 0 <= g < Two8
  {
    ShiftedByte(v, Two16)
  }

  /** The byte the source calls red: bits 8..15. */
  function Red(v: int): (r: int)
    ensures 0 <= r < Two8
  {
    ShiftedByte(v, Two8)
  }

  /** What one RGB2 word adds to the sum: its three upper bytes, never its low byte. */
  function ColourSum(v: int): (s: int)
    ensures 0 <= s <= 765
  {
    Blue(v) + Green(v) + Red(v)
  }

  /** The RGB2 word with the given bytes, from the most significant down. */
  function PackRgb(blue: int, green: int, red: int, pad: int): (u: int)
    requires 0 <= blue < Two8 && 0 <= green < Two8 && 0 <= red < Two8 && 0 <= pad < Two8
    ensures 0 <= u < Two32
  {
    blue * Two24 + green * Two16 + red * Two8 + pad
  }

  /** Unpacking a packed RGB2 word gives back its three colour bytes; the low byte is dropped. */
  lemma {:induction false} RgbRoundTrip(blue: int, green: int, red: int, pad: int)
    requires 0 <= blue < Two8 && 0 <= green < Two8 && 0 <= red < Two8 && 0 <= pad < Two8
    ensures Blue(PackRgb(blue, green, red, pad)) == blue
    ensures Green(PackRgb(blue, green, red, pad)) == green
    ensures Red(PackRgb(blue, green, red, pad)) == red
    ensures ColourSum(PackRgb(blue, green, red, pad)) == blue + green + red
  {
    var u := PackRgb(blue, green, red, pad);
    DivAddMultiple(green * Two16 + red * Two8 + pad, blue, Two24);
    assert u / Two24 == blue;
    DivAddMultiple(red * Two8 + pad, green + blue * Two8, Two16);
    assert u / Two16 == green + blue * Two8;
    DivAddMultiple(green, blue, Two8);
    DivAddMultiple(pad, red + green * Two8 + blue * Two16, Two8);
    assert u / Two8 == red + (green + blue * Two8) * Two8;
    DivAddMultiple(red, green + blue * Two8, Two8);
  }
}
