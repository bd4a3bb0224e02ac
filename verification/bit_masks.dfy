/** The colour-mask arithmetic of the BMP decoder: bitwise AND, the set-bit
    count and lowest-set-bit shift of a mask (mask_bit_count, mask_bit_shift),
    and decode_channel, which extracts a masked field and rescales it to 8 bits. */
module BitMasks {
  import opened Machine
  import opened Colors

  /** Bitwise AND of two naturals, bit by bit from the least significant. */
  function BitAnd(a: nat, b: nat): (r: nat)
    ensures r <= a && r <= b
    decreases a
  {
    if a == 0 || b == 0 then 0
    else 2 * BitAnd(a / 2, b / 2) + (if a % 2 == 1 && b % 2 == 1 then 1 else 0)
  }

  /** The number of one bits. */
  function Popcount(m: nat): nat
  {
    if m == 0 then 0 else m % 2 + Popcount(m / 2)
  }

  /** The index of the lowest one bit of a non-zero value. */
  function LowestSetBit(m: nat): nat
    requires m > 0
  {
    if m % 2 == 1 then 0 else 1 + LowestSetBit(m / 2)
  }

  /** A value below 2^n has at most n one bits. */
  lemma {:induction false} PopcountBound(m: nat, n: nat)
    requires m < Pow2(n)
    ensures Popcount(m) <= n
  {
    if m > 0 {
      PopcountBound(m / 2, n - 1);
    }
  }

  lemma HalfMod(v: nat, p: nat)
    requires p > 0
    ensures 2 * (v / 2 % p) + v % 2 == v % (2 * p)
    ensures v / 2 / p == v / (2 * p)
  {
    var q, r := v / 2 / p, v / 2 % p;
    assert v == 2 * p * q + (2 * r + v % 2);
    DivModUnique(v, 2 * p, q, 2 * r + v % 2);
  }

  /** Below the lowest one bit everything is zero, and shifting it down to bit 0
      leaves an odd value; for a value below 2^n the index is below n. */
  lemma {:induction false} LowestSetBitSpec(m: nat, n: nat)
    requires 0 < m < Pow2(n)
    ensures LowestSetBit(m) < n
    ensures m % Pow2(LowestSetBit(m)) == 0 && m / Pow2(LowestSetBit(m)) % 2 == 1
  {
    if m % 2 == 0 {
      var s := LowestSetBit(m / 2);
      LowestSetBitSpec(m / 2, n - 1);
      HalfMod(m, Pow2(s));
    }
  }

  /** mask_bit_count: shifts the mask right, adding its low bit each time, until
      it is zero. The result is the number of one bits, at most 32. */
  method MaskBitCount(mask: u32) returns (count: int)
    ensures count == Popcount(mask) && 0 <= count <= 32
  {
    count := 0;
    var m: nat := mask;
    while m > 0
      invariant count >= 0 && count + Popcount(m) == Popcount(mask)
      decreases m
    {
      count := count + m % 2;
      m := m / 2;
    }
    Pow2Values();
    PopcountBound(mask, 32);
  }

  /** mask_bit_shift: 0 for a zero mask; otherwise the number of right shifts
      that bring the lowest one bit to bit 0, so that all bits below it are zero
      and the shifted mask is odd. */
  method MaskBitShift(mask: u32) returns (shift: int)
    ensures mask == 0 ==> shift == 0
    ensures mask != 0 ==> 0 <= shift < 32 && shift == LowestSetBit(mask)
    ensures mask != 0 ==> mask % Pow2(shift) == 0 && mask / Pow2(shift) % 2 == 1
  {
    if mask == 0 {
      return 0;
    }
    shift := 0;
    var m: nat := mask;
    while m % 2 == 0
      invariant m > 0 && shift >= 0 && shift + LowestSetBit(m) == LowestSetBit(mask)
      decreases m
    {
      m := m / 2;
      shift := shift + 1;
    }
    Pow2Values();
    LowestSetBitSpec(mask, 32);
  }

  /** The `bits`-bit field of `v` starting at bit `shift`. */
  function Field(v: nat, shift: nat, bits: nat): nat {
    Shr(v, shift) % Pow2(bits)
  }

  /** A mask of `bits` consecutive one bits starting at bit `shift`. */
  function ContiguousMask(shift: nat, bits: nat): nat {
    Shl(Pow2(bits) - 1, shift)
  }

  /** ANDing with 2^n - 1 keeps the low n bits. */
  lemma {:induction false} BitAndLow(v: nat, n: nat)
    ensures BitAnd(v, Pow2(n) - 1) == v % Pow2(n)
  {
    if n > 0 && v > 0 {
      var p := Pow2(n - 1);
      var b := Pow2(n) - 1;
      assert b / 2 == p - 1 && b % 2 == 1 && b > 0 by {
        assert b == 2 * (p - 1) + 1;
      }
      assert BitAnd(v, b) == 2 * BitAnd(v / 2, p - 1) + v % 2 by {
        OddMaskStep(v, b, p - 1);
      }
      BitAndLow(v / 2, n - 1);
      HalfMod(v, p);
      assert 2 * p == Pow2(n);
    } else if n == 0 {
      assert Pow2(0) - 1 == 0;
    } else {
      DivModUnique(v, Pow2(n), 0, 0);
    }
  }

  lemma OddMaskStep(v: nat, b: nat, h: nat)
    requires v > 0 && b > 0 && b / 2 == h && b % 2 == 1
    ensures BitAnd(v, b) == 2 * BitAnd(v / 2, h) + v % 2
  {
  }

  /** `m << s` on unbounded naturals. */
  function Shl(m: nat, s: nat): nat {
    MulMonotone(0, m, Pow2(s));
    m * Pow2(s)
  }

  /** `v >> s` on unbounded naturals. */
  function Shr(v: nat, s: nat): nat {
    DivBounds(v, Pow2(s));
    v / Pow2(s)
  }

  lemma ShlStep(m: nat, s: nat)
    requires s > 0
    ensures Shl(m, s) == 2 * Shl(m, s - 1)
  {
    var p := Pow2(s - 1);
    assert Pow2(s) == 2 * p;
    assert m * (2 * p) == 2 * (m * p);
  }

  lemma ShrStep(v: nat, s: nat)
    requires s > 0
    ensures Shr(v, s) == Shr(v / 2, s - 1)
  {
    HalfMod(v, Pow2(s - 1));
  }

  /** ANDing with a mask shifted left by s is ANDing the shifted-down value with
      the mask, shifted back. */
  lemma {:induction false} BitAndShift(v: nat, m: nat, s: nat)
    ensures BitAnd(v, Shl(m, s)) == Shl(BitAnd(Shr(v, s), m), s)
  {
    if s > 0 {
      var x := BitAnd(Shr(v, s), m);
      ShlStep(m, s);
      ShlStep(x, s);
      ShrStep(v, s);
      BitAndDouble(v, Shl(m, s - 1));
      BitAndShift(v / 2, m, s - 1);
    } else {
      assert Pow2(0) == 1;
      assert Shl(m, 0) == m && Shr(v, 0) == v && Shl(BitAnd(v, m), 0) == BitAnd(v, m);
    }
  }

  /** ANDing with an even mask clears bit 0 and ANDs the rest. */
  lemma BitAndDouble(v: nat, m: nat)
    ensures BitAnd(v, 2 * m) == 2 * BitAnd(v / 2, m)
  {
    if v > 0 && m > 0 {
      assert (2 * m) / 2 == m && (2 * m) % 2 == 0;
    }
  }

  /** Doubling adds no one bits; 2^b - 1 has exactly b. */
  lemma {:induction false} PopcountContiguous(shift: nat, bits: nat)
    ensures Popcount(ContiguousMask(shift, bits)) == bits
  {
    if shift > 0 {
      var m := ContiguousMask(shift - 1, bits);
      assert ContiguousMask(shift, bits) == 2 * m by {
        ContiguousDouble(shift, bits);
      }
      assert Popcount(2 * m) == Popcount(m) by {
        PopcountDouble(m);
      }
      PopcountContiguous(shift - 1, bits);
    } else if bits > 0 {
      var b := Pow2(bits) - 1;
      assert ContiguousMask(0, bits) == b && ContiguousMask(0, bits - 1) == Pow2(bits - 1) - 1;
      assert b / 2 == Pow2(bits - 1) - 1 && b % 2 == 1 by {
        assert b == 2 * (Pow2(bits - 1) - 1) + 1;
      }
      PopcountContiguous(0, bits - 1);
    } else {
      assert ContiguousMask(0, 0) == 0;
    }
  }

  lemma ContiguousDouble(shift: nat, bits: nat)
    requires shift > 0
    ensures ContiguousMask(shift, bits) == 2 * ContiguousMask(shift - 1, bits)
  {
    var q, p := Pow2(bits) - 1, Pow2(shift - 1);
    assert Pow2(shift) == 2 * p;
    assert q * (2 * p) == 2 * (q * p);
  }

  lemma PopcountDouble(m: nat)
    ensures Popcount(2 * m) == Popcount(m)
  {
    if m > 0 {
      assert (2 * m) / 2 == m && (2 * m) % 2 == 0;
    }
  }

  /** The lowest one bit of a contiguous mask is its start. */
  lemma {:induction false} LowestSetBitContiguous(shift: nat, bits: nat)
    requires bits > 0
    ensures ContiguousMask(shift, bits) > 0
    ensures LowestSetBit(ContiguousMask(shift, bits)) == shift
  {
    if shift > 0 {
      var m := ContiguousMask(shift - 1, bits);
      LowestSetBitContiguous(shift - 1, bits);
      ContiguousDouble(shift, bits);
      assert (2 * m) % 2 == 0 && (2 * m) / 2 == m;
    } else {
      var b := Pow2(bits) - 1;
      assert ContiguousMask(0, bits) == b;
      assert b % 2 == 1 by {
        assert b == 2 * (Pow2(bits - 1) - 1) + 1;
      }
    }
  }

  /** The scaling step of decode_channel for a field value of `bits` bits: verbatim
      modulo 256 for 8 bits, otherwise multiplied by 255 with 32-bit wrap-around,
      divided by 2^bits - 1 and truncated to a byte. An empty field gives 0, and
      below 24 bits a field value neither wraps nor truncates. */
  function Rescale(value: nat, bits: nat): (r: u8)
    ensures value == 0 ==> r == 0
    ensures 0 < bits <= 24 && bits != 8 && value < Pow2(bits) ==> r as int == value * 255 / (Pow2(bits) - 1)
  {
    if bits == 8 then value % 0x100
    else if bits == 0 then 0
    else
      RescaleDivisor(bits);
      ScaleTo8(value, Pow2(bits) - 1)
  }

  /** The divisor 2^bits - 1 of a non-empty field, below 2^24 up to 24 bits. */
  lemma RescaleDivisor(bits: nat)
    requires 0 < bits
    ensures Pow2(bits) >= 2 && (bits <= 24 ==> Pow2(bits) - 1 < 0x100_0000)
  {
    if bits <= 24 {
      Pow2Monotone(bits, 24);
      Pow2Values();
    }
  }

  /** `(uint8_t)((value * 255) / d)` with the product in 32-bit arithmetic: for
      value <= d < 2^24 the product fits and the cast keeps the exact quotient. */
  function ScaleTo8(value: nat, d: nat): (r: u8)
    requires d > 0
    ensures value <= d < 0x100_0000 ==> r as int == value * 255 / d
  {
    ScaleExact(value, d);
    (value * 255 % 0x1_0000_0000) / d % 0x100
  }

  lemma ScaleExact(f: nat, d: nat)
    requires d > 0
    ensures f <= d < 0x100_0000 ==>
      (f * 255 % 0x1_0000_0000) / d % 0x100 == f * 255 / d
  {
    if f <= d < 0x100_0000 {
      ScaleBound(f, d);
      var n := f * 255;
      assert n % 0x1_0000_0000 == n;
      assert n / d % 0x100 == n / d;
    }
  }

  /** decode_channel: 0 for a zero mask; otherwise the masked bits of the packed
      pixel shifted down to bit 0 and rescaled. */
  function DecodeChannel(p: Color, mask: u32): (r: u8)
    ensures mask == 0 ==> r == 0
  {
    DecodePixel(ColorToU32(p), mask)
  }

  /** decode_channel once the colour has been packed into `pixel`. */
  function DecodePixel(pixel: u32, mask: u32): (r: u8)
    ensures mask == 0 ==> r == 0
  {
    if mask == 0 then 0
    else Rescale(Shr(BitAnd(pixel, mask), LowestSetBit(mask)), Popcount(mask))
  }

  /** Through a contiguous mask, decode_channel rescales the pixel's field. */
  lemma DecodeContiguous(pixel: u32, mask: u32, shift: nat, bits: nat)
    requires bits > 0 && mask == ContiguousMask(shift, bits)
    ensures DecodePixel(pixel, mask) == Rescale(Field(pixel, shift, bits), bits)
  {
    PopcountContiguous(shift, bits);
    LowestSetBitContiguous(shift, bits);
    ContiguousValue(pixel, shift, bits);
  }

  /** For a contiguous mask the decoded value is the masked field of the pixel. */
  lemma ContiguousValue(v: nat, shift: nat, bits: nat)
    ensures Shr(BitAnd(v, ContiguousMask(shift, bits)), shift) == Field(v, shift, bits)
  {
    BitAndShift(v, Pow2(bits) - 1, shift);
    BitAndLow(Shr(v, shift), bits);
    ShrShl(Field(v, shift, bits), shift);
  }

  lemma ShrShl(f: nat, s: nat)
    ensures Shr(Shl(f, s), s) == f
  {
    DivModUnique(f * Pow2(s), Pow2(s), f, 0);
  }

  /** A contiguous 8-bit mask passes its field through unchanged. */
  lemma DecodeChannelByte(pixel: u32, mask: u32, shift: nat)
    requires mask == ContiguousMask(shift, 8)
    ensures DecodePixel(pixel, mask) == Field(pixel, shift, 8)
  {
    DecodeContiguous(pixel, mask, shift, 8);
    FieldByte(pixel, shift);
  }

  /** An 8-bit field is a byte, which the 8-bit rescaling keeps. */
  lemma FieldByte(v: nat, shift: nat)
    ensures Rescale(Field(v, shift, 8), 8) == Field(v, shift, 8)
  {
    Pow2Values();
  }

  /** A contiguous mask of at most 24 bits, other than 8, rescales its field
      f to f * 255 / (2^bits - 1) without wrapping. */
  lemma DecodeChannelScale(pixel: u32, mask: u32, shift: nat, bits: nat)
    requires 0 < bits <= 24 && bits != 8 && mask == ContiguousMask(shift, bits)
    ensures DecodePixel(pixel, mask) == Field(pixel, shift, bits) * 255 / (Pow2(bits) - 1)
  {
    DecodeContiguous(pixel, mask, shift, bits);
  }

  /** f * 255 / d stays a byte, and its product fits in 32 bits, for any field
      value f <= d < 2^24. */
  lemma ScaleBound(f: nat, d: nat)
    requires 0 < d < 0x100_0000 && f <= d
    ensures f * 255 < 0x1_0000_0000 && f * 255 / d <= 255
  {
    MulMonotone(f, d, 255);
    MulMonotone(d, 0x100_0000, 255);
    DivModUnique(d * 255, d, 255, 0);
    DivMonotone(f * 255, d * 255, d);
  }

  lemma DivMonotone(a: nat, b: nat, d: nat)
    requires a <= b && d > 0
    ensures a / d <= b / d
  {
    if a / d > b / d {
      MulMonotone(b / d + 1, a / d, d);
      assert false;
    }
  }

  /** A rescaled channel maps an empty field to 0 and a full field to 255. */
  lemma DecodeChannelEnds(pixel: u32, mask: u32, shift: nat, bits: nat)
    requires 0 < bits <= 24 && mask == ContiguousMask(shift, bits)
    ensures Field(pixel, shift, bits) == 0 ==> DecodePixel(pixel, mask) == 0
    ensures Field(pixel, shift, bits) == Pow2(bits) - 1 ==> DecodePixel(pixel, mask) == 255
  {
    var f := Field(pixel, shift, bits);
    DecodeContiguous(pixel, mask, shift, bits);
    RescaleEnds(f, bits);
  }

  lemma RescaleEnds(f: nat, bits: nat)
    requires 0 < bits <= 24 && f < Pow2(bits)
    ensures f == 0 ==> Rescale(f, bits) == 0
    ensures f == Pow2(bits) - 1 ==> Rescale(f, bits) == 255
  {
    var d := Pow2(bits) - 1;
    if bits == 8 {
      Pow2Values();
      assert f < 0x100;
    } else {
      if f == 0 {
        assert f * 255 == 0;
      } else if f == d {
        var n := f * 255;
        assert n == 255 * d + 0;
        DivModUnique(n, d, 255, 0);
      }
    }
  }
}
