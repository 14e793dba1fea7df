/**
 * The simulator's op-code table: the top four bits of an instruction pick
 * one of sixteen handlers, and executing an instruction runs that handler.
 */
module InstructionMappings {
  import opened Wrappers
  import opened Bits
  import opened MachineStates
  import opened SimMemory
  import opened InstructionFields
  import opened Handlers
  import opened TrapHandlers
  import ByteOperations

  /** The sixteen handlers, by mnemonic. */
  datatype Mnemonic =
    | ADD | AND | BR | DBUG | JSR | JSRR | LD | LDI
    | LDR | LEA | NOT | RET | ST | STI | STR | TRAP

  /** The lookup table from op codes to handlers. */
  const Mappings: map<int, Mnemonic> := map[
    0x1 := ADD, 0x5 := AND, 0x0 := BR, 0x8 := DBUG,
    0x4 := JSR, 0xc := JSRR, 0x2 := LD, 0xa := LDI,
    0x6 := LDR, 0xe := LEA, 0x9 := NOT, 0xd := RET,
    0x3 := ST, 0xb := STI, 0x7 := STR, 0xf := TRAP]

  /** `getOpCode`: bits 15..12 of the instruction. */
  function OpCode(w: int): (op: int)
    ensures 0 <= op < 16
  {
    assert Pow2(4) == 16;
    Field(w, 12, 16)
  }

  /** `getHandler`: the handler for an op code, or none. */
  function GetHandler(op: int): (h: Option<Mnemonic>)
    ensures h.Some? <==> op in Mappings
    ensures h.Some? ==> Mappings[op] == h.value
  {
    if op in Mappings then Some(Mappings[op]) else None
  }

  /** Every four-bit op code has a handler, and no other number does. */
  lemma TableIsComplete(op: int)
    ensures GetHandler(op).Some? <==> 0 <= op < 16
  {
  }

  /** No two op codes share a handler. */
  lemma TableIsOneToOne(a: int, b: int)
    requires a in Mappings && b in Mappings && a != b
    ensures Mappings[a] != Mappings[b]
  {
  }

  /** Which op codes name the handlers that write memory, stop the machine or do nothing. */
  lemma CodesOf(op: int)
    requires 0 <= op < 16
    ensures op in Mappings
    ensures Mappings[op] in {ST, STI, STR} <==> op in {0x3, 0xb, 0x7}
    ensures Mappings[op] == TRAP <==> op == 0xf
    ensures Mappings[op] == DBUG <==> op == 0x8
    ensures Mappings[op] in {BR, JSR, JSRR, RET} <==> op in {0x0, 0x4, 0xc, 0xd}
  {
    if op < 4 {
    } else if op < 8 {
    } else if op < 12 {
    } else {
    }
  }

  /** What an instruction leaves behind: the state, the memory and the console. */
  datatype Executed = Executed(state: MachineState, memory: Memory, io: Io)

  /** The handler's own work, each in its own terms. */
  function Dispatch(h: Mnemonic, w: int, s: MachineState, m: Memory, io: Io): (e: Executed)
    requires Valid(s) && ShortWords(m)
    ensures Valid(e.state) && ShortWords(e.memory)
    ensures h !in {ST, STI, STR} ==> e.memory == m
    ensures h != TRAP ==> e.io == io && e.state.executing == s.executing
    ensures h in {ST, STR, DBUG} ==> e.state == s
    ensures h !in {BR, JSR, JSRR, RET} ==> e.state.pc == s.pc
  {
    match h
    case ADD => Executed(AddHandler(w, s), m, io)
    case AND => Executed(AndHandler(w, s), m, io)
    case BR => Executed(BranchHandler(w, s), m, io)
    case DBUG => Executed(s, m, io)
    case JSR => Executed(JumpSubroutineImmediateHandler(w, s), m, io)
    case JSRR => Executed(JumpSubroutineRegisterHandler(w, s, m), m, io)
    case LD => Executed(LoadHandler(w, s, m), m, io)
    case LDI => Executed(LoadImmediateHandler(w, s, m), m, io)
    case LDR => Executed(LoadRegisterHandler(w, s, m), m, io)
    case LEA => Executed(LoadEffectiveAddressHandler(w, s), m, io)
    case NOT => Executed(NotHandler(w, s), m, io)
    case RET => Executed(ReturnHandler(s), m, io)
    case ST =>
      var e := StoreHandler(w, s, m);
      Executed(e.state, e.memory, io)
    case STI =>
      var e := StoreImmediateHandler(w, s, m);
      Executed(e.state, e.memory, io)
    case STR =>
      var e := StoreRegisterHandler(w, s, m);
      Executed(e.state, e.memory, io)
    case TRAP =>
      var o := TrapHandler(w, s, m, io);
      Executed(o.state, m, o.io)
  }

  /** The message `execute` throws for an op code without a handler. */
  function InvalidOpCode(op: int): string
  {
    "Execution error: invalid op code 0x" + ByteOperations.GetHex(op, 1) + "."
  }

  /**
   * `execute`: run the handler of the instruction's op code. Since every
   * four-bit code has a handler, no instruction word is ever rejected; only
   * the store handlers write memory, only TRAP touches the console or stops
   * the machine, DBUG changes nothing, and only the branch, the two jumps to
   * subroutines and the return move the program counter.
   */
  function Execute(w: int, s: MachineState, m: Memory, io: Io): (r: Result<Executed, string>)
    requires Valid(s) && ShortWords(m)
    ensures r.Ok? && Valid(r.value.state) && ShortWords(r.value.memory)
    ensures OpCode(w) !in {0x3, 0xb, 0x7} ==> r.value.memory == m
    ensures OpCode(w) != 0xf ==> r.value.io == io && r.value.state.executing == s.executing
    ensures OpCode(w) == 0x8 ==> r.value.state == s
    ensures OpCode(w) !in {0x0, 0x4, 0xc, 0xd} ==> r.value.state.pc == s.pc
  {
    var op := OpCode(w);
    CodesOf(op);
    match GetHandler(op)
    case Some(h) => Ok(Dispatch(h, w, s, m, io))
    case None => Err(InvalidOpCode(op))
  }
}
