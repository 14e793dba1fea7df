/**
 * The simulator's machine: a state, a memory bank and a console. Running it
 * fetches the word at the program counter, advances the counter, and
 * executes the word, for as long as the machine is executing. Since a program
 * need not halt, a run is given a bound on the number of instructions.
 */
module Machines {
  import opened Wrappers
  import opened Bits
  import opened MachineStates
  import opened SimMemory
  import opened InstructionFields
  import opened Handlers
  import opened TrapHandlers
  import opened InstructionMappings

  datatype Machine = Machine(state: MachineState, memory: Memory, io: Io)

  predicate Ready(mc: Machine)
  {
    Valid(mc.state) && ShortWords(mc.memory)
  }

  /** The constructor: the given memory and console, and a fresh state. */
  function NewMachine(m: Memory, io: Io): (mc: Machine)
    requires ShortWords(m)
    ensures Ready(mc) && mc.memory == m && mc.io == io
    ensures mc.state.executing && mc.state.ccrZero && !mc.state.ccrNegative && !mc.state.ccrPositive
    ensures forall i | 0 <= i < RegisterCount :: mc.state.registers[i] == 0
  {
    FreshState();
    Machine(Fresh, m, io)
  }

  /**
   * One trip round the loop: the word at the program counter (a short, widened
   * to an int), the counter advanced with int overflow, then `execute`.
   */
  function Step(mc: Machine): (r: Result<Machine, string>)
    requires Ready(mc)
    ensures r.Ok? && Ready(r.value)
    ensures var e := Execute(Read(mc.memory, mc.state.pc), mc.state.(pc := Wrap32(mc.state.pc + 1)), mc.memory, mc.io);
      r.value == Machine(e.value.state, e.value.memory, e.value.io)
  {
    var w := Read(mc.memory, mc.state.pc);
    var s := mc.state.(pc := Wrap32(mc.state.pc + 1));
    match Execute(w, s, mc.memory, mc.io)
    case Ok(e) => Ok(Machine(e.state, e.memory, e.io))
    case Err(message) => Err(message)
  }

  /** How a bounded run ends. */
  datatype Ending =
    | Halted(machine: Machine)
    | Failed(message: string)
    | Unfinished(machine: Machine)

  /** The `while (executing)` loop, for at most fuel instructions. */
  function Loop(mc: Machine, fuel: nat): (r: Ending)
    requires Ready(mc)
    ensures r.Halted? ==> Ready(r.machine) && !r.machine.state.executing
    ensures r.Unfinished? ==> Ready(r.machine) && r.machine.state.executing
    ensures !r.Failed?
    decreases fuel, 0
  {
    if !mc.state.executing then Halted(mc)
    else if fuel == 0 then Unfinished(mc)
    else Continue(Step(mc), fuel - 1)
  }

  /** The rest of the loop after one step: on from the machine it gave, or stopped by its exception. */
  function Continue(step: Result<Machine, string>, fuel: nat): (r: Ending)
    requires step.Ok? ==> Ready(step.value)
    ensures r.Halted? ==> Ready(r.machine) && !r.machine.state.executing
    ensures r.Unfinished? ==> Ready(r.machine) && r.machine.state.executing
    ensures r.Failed? ==> step.Err?
    decreases fuel, 1
  {
    match step
    case Ok(next) => Loop(next, fuel)
    case Err(message) => Failed(message)
  }

  /** `run(startAddress)`: start at the given address and loop. */
  function Run(mc: Machine, start: int, fuel: nat): (r: Ending)
    requires Ready(mc) && IsInt(start)
    ensures r.Halted? ==> !r.machine.state.executing
    ensures !r.Failed?
    ensures !mc.state.executing ==> r == Halted(mc.(state := mc.state.(pc := start)))
    ensures mc.state.executing && fuel == 0 ==> r == Unfinished(mc.(state := mc.state.(pc := start)))
  {
    Loop(mc.(state := mc.state.(pc := start)), fuel)
  }

  /**
   * A running machine given any fuel first executes the word at the start
   * address, with the program counter already one past it, and loops on from
   * what that gave.
   */
  lemma RunFetchesStart(mc: Machine, start: int, fuel: nat)
    requires Ready(mc) && IsInt(start) && mc.state.executing && fuel > 0
    ensures var e := Execute(Read(mc.memory, start), mc.state.(pc := Wrap32(start + 1)), mc.memory, mc.io).value;
      Run(mc, start, fuel) == Loop(Machine(e.state, e.memory, e.io), fuel - 1)
  {
    var first := mc.(state := mc.state.(pc := start));
    assert Run(mc, start, fuel) == Continue(Step(first), fuel - 1);
  }

  /**
   * Outside the branch, the jumps to subroutines and the return, a step leaves
   * the program counter one past the word it fetched, with int overflow.
   */
  lemma StepAdvancesPc(mc: Machine)
    requires Ready(mc)
    requires OpCode(Read(mc.memory, mc.state.pc)) !in {0x0, 0x4, 0xc, 0xd}
    ensures Step(mc).value.state.pc == Wrap32(mc.state.pc + 1)
  {
  }

  /**
   * A linking JSR saves the address after itself, as a short, in R7 and jumps
   * within the page of that address.
   */
  lemma StepLinks(mc: Machine)
    requires Ready(mc)
    requires OpCode(Read(mc.memory, mc.state.pc)) == 0x4 && Links(Read(mc.memory, mc.state.pc))
    ensures Step(mc).value.state.registers[7] == Wrap16(Wrap32(mc.state.pc + 1))
    ensures Step(mc).value.state.pc / 512 == Wrap32(mc.state.pc + 1) / 512
    ensures Step(mc).value.state.pc % 512 == Read(mc.memory, mc.state.pc) % 512
  {
    var w := Read(mc.memory, mc.state.pc);
    CodesOf(OpCode(w));
  }

  /** `getState`: a copy of the state, equal to it and sharing nothing with it. */
  function GetState(mc: Machine): (s: MachineState)
    requires Ready(mc)
    ensures s == mc.state
  {
    CloneCopies(mc.state);
    Clone(mc.state)
  }

  /** A run that halts within some bound halts the same way within any larger one. */
  lemma {:induction false} MoreFuel(mc: Machine, fuel: nat, more: nat)
    requires Ready(mc) && Loop(mc, fuel).Halted? && fuel <= more
    ensures Loop(mc, more) == Loop(mc, fuel)
    decreases fuel, 0
  {
    if mc.state.executing {
      ContinueMoreFuel(Step(mc), fuel - 1, more - 1);
    }
  }

  /** The same after one step, whatever that step gave. */
  lemma {:induction false} ContinueMoreFuel(step: Result<Machine, string>, fuel: nat, more: nat)
    requires (step.Ok? ==> Ready(step.value)) && Continue(step, fuel).Halted? && fuel <= more
    ensures Continue(step, more) == Continue(step, fuel)
    decreases fuel, 1
  {
    if step.Ok? {
      MoreFuel(step.value, fuel, more);
    }
  }

  /** A halted machine stays as it is. */
  lemma HaltedStays(mc: Machine, fuel: nat)
    requires Ready(mc) && !mc.state.executing
    ensures Loop(mc, fuel) == Halted(mc)
  {
  }
}
