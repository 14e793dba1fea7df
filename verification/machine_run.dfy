/**
 * Single trips round the machine's loop for the instructions that end or
 * skip: HALT stops the machine where it stands, and DBUG only moves the
 * program counter on.
 */
module MachineRun {
  import opened Wrappers
  import opened Bits
  import opened MachineStates
  import opened SimMemory
  import opened TrapHandlers
  import opened InstructionMappings
  import opened Machines

  /** The word at the program counter. */
  function Current(mc: Machine): int
  {
    Read(mc.memory, mc.state.pc)
  }

  /** The machine once the counter has moved past the current word. */
  function Advanced(mc: Machine): (n: Machine)
    requires Ready(mc)
    ensures Ready(n) && n.memory == mc.memory && n.io == mc.io
    ensures n.state == mc.state.(pc := n.state.pc) && IsInt(n.state.pc)
  {
    mc.(state := mc.state.(pc := Wrap32(mc.state.pc + 1)))
  }

  /** TRAP 0x25 stops the machine with the counter past it; registers, flags, memory and console stay. */
  lemma HaltStep(mc: Machine)
    requires Ready(mc) && OpCode(Current(mc)) == 0xf && Vector(Current(mc)) == Halt
    ensures Step(mc) == Ok(Advanced(mc).(state := Advanced(mc).state.(executing := false)))
  {
  }

  /** Whatever the bound, a running machine at a HALT ends halted after that one instruction. */
  lemma HaltRun(mc: Machine, fuel: nat)
    requires Ready(mc) && mc.state.executing && fuel > 0
    requires OpCode(Current(mc)) == 0xf && Vector(Current(mc)) == Halt
    ensures Loop(mc, fuel) == Halted(Advanced(mc).(state := Advanced(mc).state.(executing := false)))
  {
    var halted := Advanced(mc).(state := Advanced(mc).state.(executing := false));
    HaltStep(mc);
    assert Continue(Ok(halted), fuel - 1) == Loop(halted, fuel - 1);
  }

  /** DBUG (op code 8) changes nothing but the counter. */
  lemma DebugStep(mc: Machine)
    requires Ready(mc) && OpCode(Current(mc)) == 0x8
    ensures Step(mc) == Ok(Advanced(mc))
  {
  }
}
