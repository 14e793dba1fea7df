/**
 * The simulator's instruction handlers, one function per handler class. Each
 * takes the instruction word (already fetched, with the program counter
 * already advanced past it), the machine state and, where it touches memory,
 * the memory bank, and returns what the handler leaves behind.
 *
 * The AND and LEA handlers are not among the source files of this model; they
 * are reconstructed from the behaviour their tests demand.
 */
module Handlers {
  import opened Bits
  import opened MachineStates
  import opened SimMemory
  import opened InstructionFields

  /** A machine state together with the memory bank a handler leaves behind. */
  datatype Effect = Effect(state: MachineState, memory: Memory)

  // ---------------------------------------------------------------------------
  // Vocabulary for the contracts
  // ---------------------------------------------------------------------------

  /** Every register other than r holds what it held before. */
  predicate OnlyRegister(s: MachineState, t: MachineState, r: int)
  {
    && |s.registers| == |t.registers| == RegisterCount
    && forall i | 0 <= i < RegisterCount && i != r :: t.registers[i] == s.registers[i]
  }

  /** The flags record the sign of v: exactly one of N, Z and P is set, the one that matches. */
  predicate SignFlags(t: MachineState, v: int)
  {
    && OneFlag(t)
    && (t.ccrNegative <==> v < 0)
    && (t.ccrZero <==> v == 0)
    && (t.ccrPositive <==> v > 0)
  }

  predicate SameFlags(s: MachineState, t: MachineState)
  {
    t.ccrNegative == s.ccrNegative && t.ccrZero == s.ccrZero && t.ccrPositive == s.ccrPositive
  }

  /** The register, pc and running flag are as before, except register r. */
  predicate Around(s: MachineState, t: MachineState, r: int)
  {
    Valid(t) && OnlyRegister(s, t, r) && t.pc == s.pc && t.executing == s.executing
  }

  /** The short that is congruent to v modulo 2^16: what `(short) v` must give. */
  predicate ShortOf(x: int, v: int)
  {
    IsShort(x) && (x - v) % 0x1_0000 == 0
  }

  /** Wrap16(x) is the short that `(short) x` gives. */
  lemma ShortOfWrap(x: int)
    ensures ShortOf(Wrap16(x), x)
  {
    var r := Wrap16(x);
    var k := (x - r) / 0x1_0000;
    assert x - r == k * 0x1_0000;
    ModAddMultiple(0, -k, 0x1_0000);
    assert r - x == 0 + (-k) * 0x1_0000;
  }

  /** Register r set to v and the flags set from v: the common tail of the handlers that load. */
  function SetAndFlag(s: MachineState, r: int, v: int): (t: MachineState)
    requires Valid(s) && 0 <= r < RegisterCount && IsShort(v)
    ensures Around(s, t, r) && t.registers[r] == v && SignFlags(t, v)
  {
    UpdateCcr(SetRegister(s, r, v), v)
  }

  function Dst(w: int): (r: int) ensures 0 <= r < RegisterCount { RegisterField(w, 9) }
  function SrcA(w: int): (r: int) ensures 0 <= r < RegisterCount { RegisterField(w, 6) }
  function SrcB(w: int): (r: int) ensures 0 <= r < RegisterCount { RegisterField(w, 0) }

  /** The second operand of ADD and AND: register bits 2..0, or the sign-extended bits 4..0 when bit 5 is set. */
  function SecondOperand(w: int, s: MachineState): (v: int)
    requires Valid(s)
    ensures IsShort(v)
  {
    if Field(w, 5, 6) == 0 then s.registers[SrcB(w)] else SignExtend5(w)
  }

  // ---------------------------------------------------------------------------
  // Arithmetic and logic
  // ---------------------------------------------------------------------------

  /**
   * ADD: the destination gets the 16-bit wrapped sum of the first source and
   * the second operand, and the flags follow the result.
   */
  function AddHandler(w: int, s: MachineState): (t: MachineState)
    requires Valid(s)
    ensures Around(s, t, Dst(w))
    ensures ShortOf(t.registers[Dst(w)], s.registers[SrcA(w)] + SecondOperand(w, s))
    ensures SignFlags(t, t.registers[Dst(w)])
  {
    Immediate5Value(w);
    var a := s.registers[SrcA(w)];
    var b := if Field(w, 5, 6) == 0 then s.registers[SrcB(w)] else Immediate5(w);
    assert b == SecondOperand(w, s);
    var sum := Wrap16(a + b);
    ShortOfWrap(a + b);
    SetAndFlag(s, Dst(w), sum)
  }

  /** A 32767 + 1 in the register-immediate form wraps round to -32768 and sets N. */
  lemma AddWraps(s: MachineState, w: int)
    requires Valid(s) && s.registers[1] == 0x7FFF && w == 0x1461
    ensures AddHandler(w, s).registers[2] == -0x8000
    ensures AddHandler(w, s).ccrNegative
  {
    assert Dst(w) == 2 && SrcA(w) == 1 && Field(w, 5, 6) == 1 by {
      Pow2Values();
      assert Pow2(1) == 2 && Pow2(3) == 8 && Pow2(5) == 32 && Pow2(6) == 64;
    }
    assert SecondOperand(w, s) == 1;
    var t := AddHandler(w, s);
    ShortOfTop(t.registers[2]);
  }

  /** The only short congruent to 2^15 is -2^15. */
  lemma ShortOfTop(x: int)
    requires ShortOf(x, 0x8000)
    ensures x == -0x8000
  {
  }

  /** Two shorts and-ed together give a short. */
  lemma {:induction false} AndWithin(a: int, b: int, k: nat)
    requires -Pow2(k) <= a < Pow2(k) && -Pow2(k) <= b < Pow2(k)
    ensures -Pow2(k) <= And(a, b) < Pow2(k)
    decreases k
  {
    AndStep(a, b);
    if k > 0 {
      AndWithin(a / 2, b / 2, k - 1);
    }
  }

  /**
   * AND: the destination gets, bit for bit, the conjunction of the first
   * source and the second operand; the flags follow the result.
   */
  function AndHandler(w: int, s: MachineState): (t: MachineState)
    requires Valid(s)
    ensures Around(s, t, Dst(w))
    ensures forall i: nat :: Bit(t.registers[Dst(w)], i) == (Bit(s.registers[SrcA(w)], i) && Bit(SecondOperand(w, s), i))
    ensures SignFlags(t, t.registers[Dst(w)])
  {
    Immediate5Value(w);
    var a := s.registers[SrcA(w)];
    var b := if Field(w, 5, 6) == 0 then s.registers[SrcB(w)] else Immediate5(w);
    assert b == SecondOperand(w, s);
    Pow2Values();
    AndWithin(a, b, 15);
    var v := Wrap16(And(a, b));
    assert forall i: nat :: Bit(v, i) == (Bit(a, i) && Bit(b, i)) by {
      forall i: nat
        ensures Bit(v, i) == (Bit(a, i) && Bit(b, i))
      {
        BitAnd(a, b, i);
      }
    }
    SetAndFlag(s, Dst(w), v)
  }

  /** NOT: the destination gets the bitwise complement of the source; the flags follow the result. */
  function NotHandler(w: int, s: MachineState): (t: MachineState)
    requires Valid(s)
    ensures Around(s, t, Dst(w))
    ensures forall i: nat :: Bit(t.registers[Dst(w)], i) == !Bit(s.registers[SrcA(w)], i)
    ensures SignFlags(t, t.registers[Dst(w)])
  {
    var v := Wrap16(Not(s.registers[SrcA(w)]));
    assert forall i: nat :: Bit(v, i) == !Bit(s.registers[SrcA(w)], i) by {
      forall i: nat
        ensures Bit(v, i) == !Bit(s.registers[SrcA(w)], i)
      {
        BitNot(s.registers[SrcA(w)], i);
      }
    }
    SetAndFlag(s, Dst(w), v)
  }

  /** Complementing a register into itself twice gives back its value. */
  lemma NotTwice(w: int, s: MachineState)
    requires Valid(s) && Dst(w) == SrcA(w)
    ensures NotHandler(w, NotHandler(w, s)).registers == s.registers
  {
    var r := Dst(w);
    var t := NotHandler(w, NotHandler(w, s));
    assert s.registers[r] == -(-s.registers[r] - 1) - 1;
    assert t.registers == s.registers;
  }

  /** The complement of -1 is 0, which sets Z alone. */
  lemma NotMinusOne(w: int, s: MachineState)
    requires Valid(s) && s.registers[SrcA(w)] == -1
    ensures NotHandler(w, s).registers[Dst(w)] == 0
    ensures NotHandler(w, s).ccrZero && !NotHandler(w, s).ccrNegative && !NotHandler(w, s).ccrPositive
  {
  }

  // ---------------------------------------------------------------------------
  // Control
  // ---------------------------------------------------------------------------

  /** The condition code's bit 2 selects N, bit 1 selects Z and bit 0 selects P. */
  predicate Selected(cond: int, s: MachineState)
  {
    || (cond / 4 % 2 == 1 && s.ccrNegative)
    || (cond / 2 % 2 == 1 && s.ccrZero)
    || (cond % 2 == 1 && s.ccrPositive)
  }

  /** The branch handler's switch on the three condition bits. */
  predicate BranchTaken(cond: int, s: MachineState)
  {
    match cond
    case 1 => s.ccrPositive
    case 2 => s.ccrZero
    case 3 => s.ccrPositive || s.ccrZero
    case 4 => s.ccrNegative
    case 5 => s.ccrPositive || s.ccrNegative
    case 6 => s.ccrNegative || s.ccrZero
    case 7 => s.ccrPositive || s.ccrNegative || s.ccrZero
    case _ => false
  }

  /** The switch agrees with the mask reading for every three-bit condition code. */
  lemma BranchTakenSelected(cond: int, s: MachineState)
    requires 0 <= cond < 8
    ensures BranchTaken(cond, s) <==> Selected(cond, s)
  {
  }

  /**
   * BR: when one of the flags the condition code selects is set, the program
   * counter moves to the given offset on its current page; otherwise nothing changes.
   */
  function BranchHandler(w: int, s: MachineState): (t: MachineState)
    requires Valid(s)
    ensures Valid(t) && t.registers == s.registers && SameFlags(s, t) && t.executing == s.executing
    ensures Selected(Field(w, 9, 12), s) ==> t.pc / 512 == s.pc / 512 && t.pc % 512 == w % 512
    ensures !Selected(Field(w, 9, 12), s) ==> t.pc == s.pc
  {
    var cond := Field(w, 9, 12);
    assert Pow2(3) == 8;
    BranchTakenSelected(cond, s);
    if BranchTaken(cond, s) then s.(pc := PageAddress(s.pc, w)) else s
  }

  /** Condition code 0 never branches, and 7 always does while exactly one flag is set. */
  lemma BranchNeverAlways(w: int, s: MachineState)
    requires Valid(s) && OneFlag(s)
    ensures Field(w, 9, 12) == 0 ==> BranchHandler(w, s).pc == s.pc
    ensures Field(w, 9, 12) == 7 ==> BranchHandler(w, s).pc == PageAddress(s.pc, w)
  {
  }

  /** The link bit, bit 11, of JSR and JSRR. */
  predicate Links(w: int)
  {
    Field(w, 11, 12) == 1
  }

  /** R7 gets the program counter as a short when the link bit is set. */
  function Link(w: int, s: MachineState): (t: MachineState)
    requires Valid(s)
    ensures Around(s, t, 7) && SameFlags(s, t)
    ensures t.registers[7] == if Links(w) then Wrap16(s.pc) else s.registers[7]
  {
    if Links(w) then SetRegister(s, 7, Wrap16(s.pc)) else s
  }

  /**
   * JSR: with the link bit set, R7 keeps the return address; the program
   * counter moves to the given offset on its current page.
   */
  function JumpSubroutineImmediateHandler(w: int, s: MachineState): (t: MachineState)
    requires Valid(s)
    ensures Valid(t) && OnlyRegister(s, t, 7) && SameFlags(s, t) && t.executing == s.executing
    ensures t.registers[7] == if Links(w) then Wrap16(s.pc) else s.registers[7]
    ensures t.pc / 512 == s.pc / 512 && t.pc % 512 == w % 512
  {
    var linked := Link(w, s);
    linked.(pc := PageAddress(s.pc, w))
  }

  /**
   * JSRR: with the link bit set, R7 keeps the return address first; then the
   * program counter is loaded from memory at the base register (read after
   * the link, so R7 as base sees the return address) plus the six-bit index.
   */
  function JumpSubroutineRegisterHandler(w: int, s: MachineState, m: Memory): (t: MachineState)
    requires Valid(s) && ShortWords(m)
    ensures Valid(t) && OnlyRegister(s, t, 7) && SameFlags(s, t) && t.executing == s.executing
    ensures t.registers[7] == if Links(w) then Wrap16(s.pc) else s.registers[7]
    ensures t.pc == Read(m, (if Links(w) && SrcA(w) == 7 then Wrap16(s.pc) else s.registers[SrcA(w)]) + Field(w, 0, 6))
  {
    var linked := Link(w, s);
    IndexMask(w);
    var index := And(Field(w, 0, 6), 0x3F);
    linked.(pc := Read(m, linked.registers[SrcA(w)] + index))
  }

  /** RET: the program counter gets R7; nothing else changes. */
  function ReturnHandler(s: MachineState): (t: MachineState)
    requires Valid(s)
    ensures Valid(t) && t.registers == s.registers && SameFlags(s, t) && t.executing == s.executing
    ensures t.pc == s.registers[7]
  {
    s.(pc := s.registers[7])
  }

  /**
   * A linking JSR followed by RET comes back to the instruction after the JSR
   * (the advanced program counter, as a short), whatever the JSR's target.
   */
  lemma JumpThenReturn(w: int, s: MachineState)
    requires Valid(s) && Links(w)
    ensures ReturnHandler(JumpSubroutineImmediateHandler(w, s)).pc == Wrap16(s.pc)
    ensures IsShort(s.pc) ==> ReturnHandler(JumpSubroutineImmediateHandler(w, s)).pc == s.pc
  {
  }

  // ---------------------------------------------------------------------------
  // Loads
  // ---------------------------------------------------------------------------

  /** LD: the destination gets the word at the page address; the flags follow it. */
  function LoadHandler(w: int, s: MachineState, m: Memory): (t: MachineState)
    requires Valid(s) && ShortWords(m)
    ensures Around(s, t, Dst(w))
    ensures exists a | a / 512 == s.pc / 512 && a % 512 == w % 512 :: t.registers[Dst(w)] == Read(m, a)
    ensures SignFlags(t, t.registers[Dst(w)])
  {
    var a := PageAddress(s.pc, w);
    SetAndFlag(s, Dst(w), Read(m, a))
  }

  /** LDI: the destination gets the word whose address is stored at the page address. */
  function LoadImmediateHandler(w: int, s: MachineState, m: Memory): (t: MachineState)
    requires Valid(s) && ShortWords(m)
    ensures Around(s, t, Dst(w))
    ensures exists a | a / 512 == s.pc / 512 && a % 512 == w % 512 :: t.registers[Dst(w)] == Read(m, Read(m, a))
    ensures SignFlags(t, t.registers[Dst(w)])
  {
    var a := PageAddress(s.pc, w);
    SetAndFlag(s, Dst(w), Read(m, Read(m, a)))
  }

  /** LDR: the destination gets the word at the base register plus the six-bit index. */
  function LoadRegisterHandler(w: int, s: MachineState, m: Memory): (t: MachineState)
    requires Valid(s) && ShortWords(m)
    ensures Around(s, t, Dst(w))
    ensures t.registers[Dst(w)] == Read(m, s.registers[SrcA(w)] + Field(w, 0, 6))
    ensures SignFlags(t, t.registers[Dst(w)])
  {
    IndexMask(w);
    var index := And(Field(w, 0, 6), 0x3F);
    SetAndFlag(s, Dst(w), Read(m, s.registers[SrcA(w)] + index))
  }

  /** LEA: the destination gets the page address itself, as a short; the flags follow it. */
  function LoadEffectiveAddressHandler(w: int, s: MachineState): (t: MachineState)
    requires Valid(s)
    ensures Around(s, t, Dst(w))
    ensures exists a | a / 512 == s.pc / 512 && a % 512 == w % 512 :: ShortOf(t.registers[Dst(w)], a)
    ensures SignFlags(t, t.registers[Dst(w)])
  {
    SetAndFlag(s, Dst(w), PageShort(s.pc, w))
  }

  /** The page address of w as a short: `(short) address`. */
  function PageShort(pc: int, w: int): (v: int)
    requires IsInt(pc)
    ensures exists a | a / 512 == pc / 512 && a % 512 == w % 512 :: ShortOf(v, a)
  {
    var a := PageAddress(pc, w);
    ShortOfWrap(a);
    Wrap16(a)
  }

  // ---------------------------------------------------------------------------
  // Stores
  // ---------------------------------------------------------------------------

  /** A write of v at a that leaves every other cell alone. */
  ghost predicate StoredAt(m: Memory, r: Memory, a: int, v: int)
  {
    Read(r, a) == v && forall b | b != a :: Read(r, b) == Read(m, b)
  }

  /** ST: the source register is written at the page address; the state is unchanged. */
  function StoreHandler(w: int, s: MachineState, m: Memory): (e: Effect)
    requires Valid(s) && ShortWords(m)
    ensures e.state == s && ShortWords(e.memory)
    ensures exists a | a / 512 == s.pc / 512 && a % 512 == w % 512 :: StoredAt(m, e.memory, a, s.registers[Dst(w)])
  {
    var a := PageAddress(s.pc, w);
    var r := Write(m, a, s.registers[Dst(w)]);
    assert StoredAt(m, r, a, s.registers[Dst(w)]);
    Effect(s, r)
  }

  /**
   * STI: the source register is written at the address stored at the page
   * address, and the flags are set from the source register.
   */
  function StoreImmediateHandler(w: int, s: MachineState, m: Memory): (e: Effect)
    requires Valid(s) && ShortWords(m)
    ensures Around(s, e.state, -1) && SignFlags(e.state, s.registers[Dst(w)]) && ShortWords(e.memory)
    ensures exists a | a / 512 == s.pc / 512 && a % 512 == w % 512 :: StoredAt(m, e.memory, Read(m, a), s.registers[Dst(w)])
  {
    var a := PageAddress(s.pc, w);
    var v := s.registers[Dst(w)];
    var r := Write(m, Read(m, a), v);
    assert StoredAt(m, r, Read(m, a), v);
    Effect(UpdateCcr(s, v), r)
  }

  /** STR: the source register is written at the base register plus the six-bit index. */
  function StoreRegisterHandler(w: int, s: MachineState, m: Memory): (e: Effect)
    requires Valid(s) && ShortWords(m)
    ensures e.state == s && ShortWords(e.memory)
    ensures StoredAt(m, e.memory, s.registers[SrcA(w)] + Field(w, 0, 6), s.registers[Dst(w)])
  {
    IndexMask(w);
    var index := And(Field(w, 0, 6), 0x3F);
    Effect(s, Write(m, s.registers[SrcA(w)] + index, s.registers[Dst(w)]))
  }
}
