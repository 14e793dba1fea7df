/**
 * The simulator's machine state, apart from memory: the N, P and Z condition
 * flags, the running flag, eight 16-bit registers and the program counter (a
 * Java int). States are values here, so a copy shares nothing with the state
 * it was copied from.
 */
module MachineStates {
  import opened Bits

  const RegisterCount := 8

  datatype MachineState = MachineState(
    ccrNegative: bool,
    ccrPositive: bool,
    ccrZero: bool,
    executing: bool,
    registers: seq<int>,
    pc: int)

  /** Eight short registers and an int program counter, as the Java fields' types guarantee. */
  predicate Valid(s: MachineState)
  {
    && |s.registers| == RegisterCount
    && (forall i | 0 <= i < RegisterCount :: IsShort(s.registers[i]))
    && IsInt(s.pc)
  }

  /** Exactly one of the three condition flags is set. */
  predicate OneFlag(s: MachineState)
  {
    (if s.ccrNegative then 1 else 0) + (if s.ccrZero then 1 else 0) + (if s.ccrPositive then 1 else 0) == 1
  }

  /** `new MachineState()`: the field initialisers. */
  const Fresh: MachineState :=
    MachineState(false, false, true, true, [0, 0, 0, 0, 0, 0, 0, 0], 0)

  /** A fresh state is well formed, running, at address 0, with all registers 0 and Z alone set. */
  lemma FreshState()
    ensures Valid(Fresh) && OneFlag(Fresh)
    ensures Fresh.ccrZero && !Fresh.ccrNegative && !Fresh.ccrPositive && Fresh.executing
    ensures Fresh.pc == 0 && forall i | 0 <= i < RegisterCount :: Fresh.registers[i] == 0
  {
  }

  /** The copy loop of `clone`: `x.registers[i] = this.registers[i]` for i from i up to 7. */
  function CopyRegisters(into: seq<int>, from: seq<int>, i: nat): (r: seq<int>)
    requires |into| == |from| == RegisterCount && i <= RegisterCount
    ensures |r| == RegisterCount
    decreases RegisterCount - i
  {
    if i == RegisterCount then into else CopyRegisters(into[i := from[i]], from, i + 1)
  }

  /** `clone()`: a fresh state whose flags, program counter and registers are set from this one. */
  function Clone(s: MachineState): MachineState
    requires |s.registers| == RegisterCount
  {
    var x := Fresh;
    x.(ccrNegative := s.ccrNegative, ccrPositive := s.ccrPositive, ccrZero := s.ccrZero,
       pc := s.pc, executing := s.executing,
       registers := CopyRegisters(x.registers, s.registers, 0))
  }

  /** From register i on, the loop replaces every register of the target by the source's. */
  lemma {:induction false} CopyRegistersSpec(into: seq<int>, from: seq<int>, i: nat)
    requires |into| == |from| == RegisterCount && i <= RegisterCount
    ensures CopyRegisters(into, from, i) == into[..i] + from[i..]
    decreases RegisterCount - i
  {
    if i < RegisterCount {
      CopyRegistersSpec(into[i := from[i]], from, i + 1);
      assert into[i := from[i]][..i + 1] + from[i + 1..] == into[..i] + from[i..];
    } else {
      assert into[..i] == into;
    }
  }

  /** A clone equals the state it was taken from: all three flags, pc, the running flag and all registers. */
  lemma CloneCopies(s: MachineState)
    requires |s.registers| == RegisterCount
    ensures Clone(s) == s
  {
    CopyRegistersSpec(Fresh.registers, s.registers, 0);
    assert s.registers[0..] == s.registers;
  }

  /**
   * `updateCcr(value)`, the rule the load handler spells out: zero sets Z
   * alone, a positive value P alone, a negative value N alone.
   */
  function UpdateCcr(s: MachineState, value: int): (r: MachineState)
    ensures OneFlag(r)
    ensures r.ccrNegative <==> value < 0
    ensures r.ccrZero <==> value == 0
    ensures r.ccrPositive <==> value > 0
    ensures r.registers == s.registers && r.pc == s.pc && r.executing == s.executing
  {
    if value == 0 then s.(ccrZero := true, ccrNegative := false, ccrPositive := false)
    else if value > 0 then s.(ccrZero := false, ccrNegative := false, ccrPositive := true)
    else s.(ccrZero := false, ccrNegative := true, ccrPositive := false)
  }

  /** `registers[r] = value`. */
  function SetRegister(s: MachineState, r: int, value: int): (t: MachineState)
    requires Valid(s) && 0 <= r < RegisterCount && IsShort(value)
    ensures Valid(t)
  {
    s.(registers := s.registers[r := value])
  }

  /** Setting a register changes that register alone. */
  lemma SetRegisterOnly(s: MachineState, r: int, value: int)
    requires Valid(s) && 0 <= r < RegisterCount && IsShort(value)
    ensures var t := SetRegister(s, r, value);
      && t.registers[r] == value
      && (forall i | 0 <= i < RegisterCount && i != r :: t.registers[i] == s.registers[i])
      && t.pc == s.pc && t.executing == s.executing
      && t.ccrNegative == s.ccrNegative && t.ccrZero == s.ccrZero && t.ccrPositive == s.ccrPositive
  {
  }
}
