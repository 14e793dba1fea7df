/**
 * How the simulator's handlers take an instruction word apart: bit fields,
 * the 9-bit page-replace address, and the 5-bit sign-extended immediate.
 * Each is written arithmetically, with a lemma relating it to the Java bit
 * operations it stands for.
 */
module InstructionFields {
  import opened Bits
  import ByteOperations

  /** Bits lo..hi-1 of w, shifted down to bit 0: the handlers' `extractValue(w, lo, hi)`. */
  function Field(w: int, lo: nat, hi: nat): (r: int)
    requires lo <= hi
    ensures 0 <= r < Pow2(hi - lo)
  {
    (w / Pow2(lo)) % Pow2(hi - lo)
  }

  /** The field is what `extractValue`'s mask-and-shift computes, for every int word. */
  lemma FieldIsExtractValue(w: int, lo: nat, hi: nat)
    requires lo <= hi <= 31
    ensures Field(w, lo, hi) == ByteOperations.ExtractValue(w, lo, hi)
  {
    ByteOperations.ExtractValueSpec(w, lo, hi);
  }

  /** `pc >> 9 << 9` clears the low nine bits of an int: the start of pc's 512-word page. */
  lemma PageStart(pc: int)
    requires IsInt(pc)
    ensures Shl(Shr(pc, 9), 9) == pc - pc % 512
  {
    Pow2Page();
    assert Shr(pc, 9) == pc / 512;
    assert (pc / 512) * 512 == pc - pc % 512;
  }

  /**
   * The handlers' page-replace address: pc's page with the word's low nine
   * bits as the offset in it. It lies on pc's page, at that offset.
   */
  function PageAddress(pc: int, w: int): (a: int)
    requires IsInt(pc)
    ensures IsInt(a)
    ensures a / 512 == pc / 512
    ensures a % 512 == w % 512
  {
    PageStart(pc);
    Pow2Page();
    Shl(Shr(pc, 9), 9) + Field(w, 0, 9)
  }

  /**
   * The add handler's immediate: bits 4..0 as a short, with 0xFFF0 or-ed in
   * when bit 4 (mask 0x10) is set.
   */
  function Immediate5(w: int): int
  {
    var imm := Field(w, 0, 5);
    if And(imm, 0x10) == 16 then Wrap16(Or(imm, 0xFFF0)) else imm
  }

  /** The five-bit two's-complement value of bits 4..0. */
  function SignExtend5(w: int): (r: int)
    ensures -16 <= r < 16
    ensures (r - w) % 32 == 0
  {
    var v := w % 32;
    if v >= 16 then v - 32 else v
  }

  /** The immediate built with the mask and or is bits 4..0 sign-extended. */
  lemma Immediate5Value(w: int)
    ensures Immediate5(w) == SignExtend5(w)
  {
    var v := Field(w, 0, 5);
    assert v == w % 32 by {
      assert Pow2(0) == 1 && Pow2(5) == 32;
    }
    SignBit(v);
  }

  /** For 0 <= v < 32: v & 0x10 is 16 exactly when v >= 16, and then (short)(v | 0xFFF0) is v - 32. */
  lemma SignBit(v: int)
    requires 0 <= v < 32
    ensures And(v, 0x10) == (if v >= 16 then 16 else 0)
    ensures v >= 16 ==> Wrap16(Or(v, 0xFFF0)) == v - 32
  {
    assert (Pow2(1) - 1) * Pow2(4) == 0x10 by {
      Pow2Values();
    }
    AndFieldMask(v, 1, 4);
    assert v / Pow2(4) % Pow2(1) == (if v >= 16 then 1 else 0) by {
      Pow2Values();
    }
    if v >= 16 {
      HighNibbleOr(v);
    }
  }

  /** Or-ing 0xFFF0 into a value in [16, 32) gives 0xFFF0 plus its low four bits. */
  lemma HighNibbleOr(v: int)
    requires 16 <= v < 32
    ensures Wrap16(Or(v, 0xFFF0)) == v - 32
  {
    var a := Or(v, 0xFFF0);
    var u := v - 16;
    var b := u + 0xFFF * 16;
    Pow2Values();
    OrRange(v, 0xFFF0, 16);
    forall i: nat | i <= 16
      ensures Bit(a, i) == Bit(b, i)
    {
      BitOr(v, 0xFFF0, i);
      HighOnes(i);
      if i < 4 {
        BitAddMultiple(u, 1, 4, i);
        BitAddMultiple(u, 0xFFF, 4, i);
      } else {
        assert b / Pow2(4) == 0xFFF;
        BitDivPow2(b, 4, i - 4);
        BitLowOnes(12, i - 4);
        if i == 16 {
          BitHighNonneg(v, 5, i);
        }
      }
    }
    BitsEqual(a, b, 16);
  }

  /** 0xFFF0 has exactly bits 4..15 set. */
  lemma HighOnes(i: nat)
    ensures Bit(0xFFF0, i) == (4 <= i < 16)
  {
    assert 0xFFF0 == (Pow2(12) - 1) * Pow2(4) by {
      Pow2Values();
    }
    BitMulPow2(Pow2(12) - 1, 4, i);
    if i >= 4 {
      BitLowOnes(12, i - 4);
    }
  }

  /** A three-bit register number starting at bit lo. */
  function RegisterField(w: int, lo: nat): (r: int)
    ensures 0 <= r < 8
  {
    assert Pow2(3) == 8;
    Field(w, lo, lo + 3)
  }

  /** The add handler's mode test `(instruction & 0x20) == 0` looks at bit 5 alone. */
  lemma ModeBit(w: int)
    ensures (And(w, 0x20) == 0) == (Field(w, 5, 6) == 0)
  {
    assert (Pow2(1) - 1) * Pow2(5) == 0x20 && Pow2(6 - 5) == 2;
    AndFieldMask(w, 1, 5);
  }

  /** The handlers' `index & 0x3F` after taking bits 5..0 changes nothing. */
  lemma IndexMask(w: int)
    ensures And(Field(w, 0, 6), 0x3F) == Field(w, 0, 6)
  {
    var x := Field(w, 0, 6);
    assert 0x3F == Pow2(6) - 1 && Pow2(0) == 1 && Pow2(6) == 64;
    AndLowMask(x, 6);
  }
}
