/**
 * The linker's symbol entries: an import to patch (with a symbol name) or a
 * relocation record (without one), each naming an address and the bit field
 * msb..lsb of the word there. Masks are Java shorts built by or-ing single
 * bits, so a bit above 15 falls away in the narrowing.
 */
module SymbolEntries {
  import opened Wrappers
  import opened Bits

  datatype SymbolEntry = SymbolEntry(symbol: Option<string>, address: int, msb: int, lsb: int)

  /** The four-argument constructor: an import of `symbol` into bits msb..lsb at address. */
  function NewEntry(symbol: string, address: int, msb: int, lsb: int): (e: SymbolEntry)
    ensures e.symbol == Some(symbol) && e.address == address && e.msb == msb && e.lsb == lsb
  {
    SymbolEntry(Some(symbol), address, msb, lsb)
  }

  /** The three-argument constructor: no symbol, which marks a relocation record. */
  function RelocationRecord(address: int, msb: int, lsb: int): (e: SymbolEntry)
    ensures e.symbol.None? && e.address == address && e.msb == msb && e.lsb == lsb
  {
    SymbolEntry(None, address, msb, lsb)
  }

  /**
   * The mask loops: `result |= 1 << i` for i from hi down to lo, each step
   * narrowed back to a short.
   */
  function SetBits(hi: int, lo: int, acc: int): (r: int)
    requires IsShort(acc)
    ensures IsShort(r)
    decreases hi - lo + 1
  {
    if hi < lo then acc else SetBits(hi - 1, lo, Wrap16(Or(acc, Shl(1, hi))))
  }

  /** `getMask`: bits msb down to lsb. */
  function GetMask(e: SymbolEntry): (r: int)
    ensures IsShort(r)
  {
    SetBits(e.msb, e.lsb, 0)
  }

  /** The bit the inverse mask's upper loop starts from. */
  const InverseTop := 16

  /** `getInverseMask`: bits 16 down to msb + 1, then bits lsb - 1 down to 0. */
  function GetInverseMask(e: SymbolEntry): (r: int)
    ensures IsShort(r)
  {
    SetBits(e.lsb - 1, 0, SetBits(InverseTop, e.msb + 1, 0))
  }

  /** Below bit 32, `1 << i` has exactly bit i set. */
  lemma ShlOneBit(i: int, k: nat)
    requires 0 <= i < 32 && k < 32
    ensures Bit(Shl(1, i), k) == (k == i)
  {
    assert Shl(1, i) == Wrap32(Pow2(i));
    BitWrap32(Pow2(i), k);
    BitPow2(i, k);
  }

  /** Within the low 16 bits, the loop adds exactly the bits lo..hi to acc. */
  lemma {:induction false} SetBitsSpec(hi: int, lo: int, acc: int, k: nat)
    requires IsShort(acc) && 0 <= lo && hi < 32 && k < 16
    ensures Bit(SetBits(hi, lo, acc), k) == (Bit(acc, k) || lo <= k <= hi)
    decreases hi - lo + 1
  {
    if hi >= lo {
      var acc' := Wrap16(Or(acc, Shl(1, hi)));
      SetBitsSpec(hi - 1, lo, acc', k);
      BitWrap16(Or(acc, Shl(1, hi)), k);
      BitOr(acc, Shl(1, hi), k);
      ShlOneBit(hi, k);
    }
  }

  /** The mask has, within 16 bits, exactly the bits lsb..msb. */
  lemma MaskBits(e: SymbolEntry, k: nat)
    requires 0 <= e.lsb && e.msb < 32 && k < 16
    ensures Bit(GetMask(e), k) == (e.lsb <= k <= e.msb)
  {
    SetBitsSpec(e.msb, e.lsb, 0, k);
    BitZero(k);
  }

  /** The inverse mask has, within 16 bits, exactly the bits above msb and below lsb. */
  lemma InverseMaskBits(e: SymbolEntry, k: nat)
    requires 0 <= e.lsb <= 32 && -1 <= e.msb && k < 16
    ensures Bit(GetInverseMask(e), k) == (k > e.msb || k < e.lsb)
  {
    TwoRuns(InverseTop, e.msb + 1, e.lsb - 1, k);
  }

  /** Bits top..lo set on zero, then bits hi..0 set on that: within 16 bits, those two runs. */
  lemma TwoRuns(top: int, lo: int, hi: int, k: nat)
    requires 15 <= top < 32 && 0 <= lo && hi < 32 && k < 16
    ensures Bit(SetBits(hi, 0, SetBits(top, lo, 0)), k) == (k >= lo || k <= hi)
  {
    var high := SetBits(top, lo, 0);
    assert Bit(high, k) == (k >= lo) by {
      SetBitsSpec(top, lo, 0, k);
      BitZero(k);
    }
    SetBitsSpec(hi, 0, high, k);
  }

  /**
   * For a field within bits 16..0, the mask and the inverse mask split the 16
   * bits between them: no bit is in both and every bit is in one.
   */
  lemma MasksPartition(e: SymbolEntry)
    requires 0 <= e.lsb <= e.msb <= 16
    ensures forall k: nat | k < 16 :: !Bit(And(GetMask(e), GetInverseMask(e)), k)
    ensures forall k: nat | k < 16 :: Bit(Or(GetMask(e), GetInverseMask(e)), k)
  {
    var m := GetMask(e);
    var inv := GetInverseMask(e);
    forall k: nat | k < 16
      ensures !Bit(And(m, inv), k) && Bit(Or(m, inv), k)
    {
      MaskBits(e, k);
      InverseMaskBits(e, k);
      BitAnd(m, inv, k);
      BitOr(m, inv, k);
    }
  }
}
