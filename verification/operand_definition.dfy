/**
 * Operand slots of the instruction set: which operand kinds a slot accepts,
 * which word of the instruction it writes, and which bit field of that word.
 */
module OperandDefinitions {
  import opened Bits
  import ByteOperations

  /** The four kinds of operand text. */
  datatype OperandType = ImmediateType | RegisterType | LiteralType | SymbolType

  /**
   * A slot: operands of a type in `acceptableTypes` are written into bits
   * lsb..msb of word `opIndex`; `relocatable` slots hold page offsets.
   */
  datatype OperandDefinition = OperandDefinition(
    relocatable: bool,
    acceptableTypes: seq<OperandType>,
    opIndex: int,
    msb: int,
    lsb: int)

  /** The four-argument constructor: a slot in the instruction's first word. */
  function SingleWord(relocatable: bool, acceptableTypes: seq<OperandType>, msb: int, lsb: int): (d: OperandDefinition)
    ensures d.opIndex == 0
    ensures d.relocatable == relocatable && d.acceptableTypes == acceptableTypes
    ensures d.msb == msb && d.lsb == lsb
  {
    OperandDefinition(relocatable, acceptableTypes, 0, msb, lsb)
  }

  /** `isAcceptable`: only the operand's type is checked, never its value. */
  predicate IsAcceptable(d: OperandDefinition, t: OperandType)
  {
    t in d.acceptableTypes
  }

  /** The loop of `getMask`: for i from `i` down to lsb, `result |= 1 << i`. */
  function MaskLoop(result: int, i: int, lsb: int): int
    decreases i - lsb + 1
  {
    if i < lsb then result else MaskLoop(Or(result, Shl(1, i)), i - 1, lsb)
  }

  /** `getMask`: ones in bits lsb..msb. */
  function GetMask(d: OperandDefinition): int
  {
    MaskLoop(0, d.msb, d.lsb)
  }

  /** The number whose bits lo..hi are one and all others zero. */
  function FieldOnes(lo: nat, hi: int): int
    requires lo <= hi + 1
  {
    (Pow2(hi - lo + 1) - 1) * Pow2(lo)
  }

  /** FieldOnes has exactly bits lo..hi set. */
  lemma FieldOnesBits(lo: nat, hi: int, k: nat)
    requires lo <= hi + 1
    ensures Bit(FieldOnes(lo, hi), k) <==> lo <= k <= hi
  {
    BitMulPow2(Pow2(hi - lo + 1) - 1, lo, k);
    if k >= lo {
      BitLowOnes(hi - lo + 1, k - lo);
    }
  }

  /**
   * The mask of a slot with 0 <= lsb <= msb <= 30 is (2^(msb-lsb+1) - 1) * 2^lsb,
   * and a slot with lsb > msb has mask 0.
   */
  lemma GetMaskValue(d: OperandDefinition)
    requires d.lsb > d.msb || 0 <= d.lsb <= d.msb <= 30
    ensures d.lsb > d.msb ==> GetMask(d) == 0
    ensures 0 <= d.lsb <= d.msb <= 30 ==> GetMask(d) == (Pow2(d.msb - d.lsb + 1) - 1) * Pow2(d.lsb)
  {
    if 0 <= d.lsb <= d.msb <= 30 {
      assert FieldOnes(d.msb + 1, d.msb) == 0;
      MaskLoopValue(d.msb, d.lsb, d.msb);
    }
  }

  /** The mask of a slot with 0 <= lsb <= msb <= 30 is 2^(msb+1) - 2^lsb. */
  lemma GetMaskDiff(d: OperandDefinition)
    requires 0 <= d.lsb <= d.msb <= 30
    ensures GetMask(d) == Pow2(d.msb + 1) - Pow2(d.lsb)
  {
    GetMaskValue(d);
    ByteOperations.FieldMaskAt(d.msb - d.lsb + 1, d.lsb, d.msb + 1);
  }

  /** For 0 <= lsb and msb <= 30, exactly bits lsb..msb of the mask are set. */
  lemma GetMaskBits(d: OperandDefinition, k: nat)
    requires 0 <= d.lsb && d.msb <= 30
    ensures Bit(GetMask(d), k) <==> d.lsb <= k <= d.msb
  {
    if d.lsb > d.msb {
      GetMaskValue(d);
      BitZero(k);
    } else {
      GetMaskValue(d);
      FieldOnesBits(d.lsb, d.msb, k);
    }
  }

  /** Running the loop from i down, with bits i+1..msb already set, sets bits lsb..msb. */
  lemma {:induction false} MaskLoopValue(i: int, lsb: nat, msb: nat)
    requires lsb <= i + 1 && i <= msb <= 30
    ensures MaskLoop(FieldOnes(i + 1, msb), i, lsb) == FieldOnes(lsb, msb)
    decreases i - lsb + 1
  {
    if i >= lsb {
      MaskStep(i, msb);
      MaskLoopValue(i - 1, lsb, msb);
    }
  }

  /** One round of the loop: or-ing in bit e extends the field e+1..msb down to e. */
  lemma MaskStep(e: nat, msb: nat)
    requires e <= msb <= 30
    ensures Or(FieldOnes(e + 1, msb), Shl(1, e)) == FieldOnes(e, msb)
  {
    var w: nat := msb - e;
    var p := Pow2(e);
    var a := Pow2(w);
    ByteOperations.ShlOneValue(e);
    Pow2Succ(e);
    Pow2Succ(w);
    FieldOnesWidth(e + 1, msb, w);
    FieldOnesWidth(e, msb, w + 1);
    var upper := (a - 1) * Pow2(e + 1);
    assert FieldOnes(e + 1, msb) == upper;
    assert FieldOnes(e, msb) == (2 * a - 1) * p;
    OrComm(upper, p);
    OrDisjoint(p, a - 1, e + 1);
    assert Or(upper, Shl(1, e)) == p + upper;
    assert upper == (a - 1) * (2 * p);
    FieldStepRing(a, p);
  }

  lemma FieldOnesWidth(lo: nat, hi: int, n: nat)
    requires n == hi - lo + 1
    ensures FieldOnes(lo, hi) == (Pow2(n) - 1) * Pow2(lo)
  {
  }

  lemma FieldStepRing(a: int, p: int)
    ensures p + (a - 1) * (2 * p) == (2 * a - 1) * p
  {
  }
}
