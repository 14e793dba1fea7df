/**
 * The machine-instruction definition table and its first-match lookup.
 */
module IsaTable {
  import opened Wrappers
  import opened Bits
  import opened OperandDefinitions
  import opened InstructionDefinitions

  const Reg: seq<OperandType> := [RegisterType]
  const ImmOrSym: seq<OperandType> := [ImmediateType, SymbolType]

  /** A register field at bits msb..lsb of the single word. */
  function RegSlot(msb: int, lsb: int): OperandDefinition
  {
    SingleWord(false, Reg, msb, lsb)
  }

  /** A relocatable page offset in bits 8..0. */
  const PageSlot: OperandDefinition := SingleWord(true, ImmOrSym, 8, 0)

  /** An absolute immediate or symbol in bits msb..0. */
  function ValueSlot(msb: int): OperandDefinition
  {
    SingleWord(false, ImmOrSym, msb, 0)
  }

  function Entry(name: string, word: int, slots: seq<OperandDefinition>): InstructionDefinition
  {
    Explicit(name, [word], slots)
  }

  /** The table, in lookup order. */
  const Table: seq<InstructionDefinition> := [
    Entry("ADD", 0x1000, [RegSlot(11, 9), RegSlot(8, 6), RegSlot(2, 0)]),
    Entry("ADD", 0x1020, [RegSlot(11, 9), RegSlot(8, 6), ValueSlot(4)]),
    Entry("AND", 0x5000, [RegSlot(11, 9), RegSlot(8, 6), RegSlot(2, 0)]),
    Entry("AND", 0x5020, [RegSlot(11, 9), RegSlot(8, 6), ValueSlot(4)]),
    Entry("BRN", 0x0800, [PageSlot]),
    Entry("BRZ", 0x0400, [PageSlot]),
    Entry("BRP", 0x0200, [PageSlot]),
    Entry("BRNZ", 0x0C00, [PageSlot]),
    Entry("BRNP", 0x0A00, [PageSlot]),
    Entry("BRZP", 0x0600, [PageSlot]),
    Entry("BRNZP", 0x0E00, [PageSlot]),
    Entry("DBUG", 0x8000, []),
    Entry("JSR", 0x4000, [PageSlot]),
    Entry("JMP", 0x4800, [PageSlot]),
    Entry("JSRR", 0xC000, [RegSlot(8, 6), ValueSlot(5)]),
    Entry("JMPR", 0xC800, [RegSlot(8, 6), ValueSlot(5)]),
    Entry("LD", 0x2000, [RegSlot(11, 9), PageSlot]),
    Entry("LDI", 0xA000, [RegSlot(11, 9), PageSlot]),
    Entry("LDR", 0x6000, [RegSlot(11, 9), RegSlot(8, 6), ValueSlot(5)]),
    Entry("LEA", 0xE000, [RegSlot(11, 9), PageSlot]),
    Entry("NOT", 0x9000, [RegSlot(11, 9), RegSlot(8, 6)]),
    Entry("RET", 0xD000, []),
    Entry("ST", 0x3000, [RegSlot(11, 9), PageSlot]),
    Entry("STI", 0xB000, [RegSlot(11, 9), PageSlot]),
    Entry("STR", 0x7000, [RegSlot(11, 9), RegSlot(8, 6), ValueSlot(6)]),
    Entry("TRAP", 0xF000, [ValueSlot(7)])
  ]

  /** The first definition of `table` from index i on that accepts the instruction. */
  function LookupFrom(table: seq<InstructionDefinition>, i: nat, name: string, types: seq<OperandType>): (r: Option<nat>)
    requires i <= |table|
    ensures r.Some? ==> i <= r.value < |table| && Accepts(table[r.value], name, types)
    ensures r.Some? ==> forall j | i <= j < r.value :: !Accepts(table[j], name, types)
    ensures r.None? <==> forall j | i <= j < |table| :: !Accepts(table[j], name, types)
    decreases |table| - i
  {
    if i == |table| then None
    else if Accepts(table[i], name, types) then Some(i)
    else LookupFrom(table, i + 1, name, types)
  }

  /**
   * `getInstructionDefinition`: the first table entry that accepts the
   * instruction's name and operand types, or null (None) when none does.
   */
  function Lookup(name: string, types: seq<OperandType>): (r: Option<InstructionDefinition>)
    ensures r.None? <==> forall j | 0 <= j < |Table| :: !Accepts(Table[j], name, types)
    ensures r.Some? ==> exists i | 0 <= i < |Table| ::
      && r.value == Table[i]
      && Accepts(Table[i], name, types)
      && (forall j | 0 <= j < i :: !Accepts(Table[j], name, types))
  {
    match LookupFrom(Table, 0, name, types)
    case None => None
    case Some(i) => Some(Table[i])
  }

  /**
   * Register forms of ADD and AND come first: three registers select the
   * register form (0x1000 / 0x5000).
   */
  lemma RegisterForms(name: string)
    requires name == "ADD" || name == "AND"
    ensures Lookup(name, [RegisterType, RegisterType, RegisterType]).Some?
    ensures Lookup(name, [RegisterType, RegisterType, RegisterType]).value.operations
         == [if name == "ADD" then 0x1000 else 0x5000]
  {
    var rrr := [RegisterType, RegisterType, RegisterType];
    var d0, d1, d2 := Table[0], Table[1], Table[2];
    if name == "ADD" {
      assert d0.operands == [RegSlot(11, 9), RegSlot(8, 6), RegSlot(2, 0)];
      AcceptsAll(d0, name, rrr);
      LookupHit(Table, 0, name, rrr);
    } else {
      RejectsName(d0, name, rrr);
      RejectsName(d1, name, rrr);
      assert d2.operands == [RegSlot(11, 9), RegSlot(8, 6), RegSlot(2, 0)];
      AcceptsAll(d2, name, rrr);
      LookupSkip(Table, 0, name, rrr);
      LookupSkip(Table, 1, name, rrr);
      LookupHit(Table, 2, name, rrr);
    }
  }

  /** Two registers and an immediate or symbol select the immediate form (0x1020 / 0x5020). */
  lemma ImmediateForms(name: string, t: OperandType)
    requires name == "ADD" || name == "AND"
    requires t == ImmediateType || t == SymbolType
    ensures Lookup(name, [RegisterType, RegisterType, t]).Some?
    ensures Lookup(name, [RegisterType, RegisterType, t]).value.operations == [if name == "ADD" then 0x1020 else 0x5020]
  {
    if name == "ADD" { ImmediateAdd(name, t); } else { ImmediateAnd(name, t); }
  }

  lemma ImmediateAdd(name: string, t: OperandType)
    requires name == "ADD"
    requires t == ImmediateType || t == SymbolType
    ensures LookupFrom(Table, 0, name, [RegisterType, RegisterType, t]) == Some(1)
  {
    var rrt := [RegisterType, RegisterType, t];
    var d0, d1 := Table[0], Table[1];
    assert d0.operands[2].acceptableTypes == Reg;
    RejectsAt(d0, name, rrt, 2);
    assert d1.operands == [RegSlot(11, 9), RegSlot(8, 6), ValueSlot(4)];
    AcceptsAll(d1, name, rrt);
    LookupSkip(Table, 0, name, rrt);
    LookupHit(Table, 1, name, rrt);
  }

  lemma ImmediateAnd(name: string, t: OperandType)
    requires name == "AND"
    requires t == ImmediateType || t == SymbolType
    ensures LookupFrom(Table, 0, name, [RegisterType, RegisterType, t]) == Some(3)
  {
    var rrt := [RegisterType, RegisterType, t];
    var d0, d1, d2, d3 := Table[0], Table[1], Table[2], Table[3];
    RejectsName(d0, name, rrt);
    RejectsName(d1, name, rrt);
    assert d2.operands[2].acceptableTypes == Reg;
    RejectsAt(d2, name, rrt, 2);
    assert d3.operands == [RegSlot(11, 9), RegSlot(8, 6), ValueSlot(4)];
    AcceptsAll(d3, name, rrt);
    LookupSkip(Table, 0, name, rrt);
    LookupSkip(Table, 1, name, rrt);
    LookupSkip(Table, 2, name, rrt);
    LookupHit(Table, 3, name, rrt);
  }

  /** A definition of another name accepts nothing. */
  lemma RejectsName(d: InstructionDefinition, name: string, types: seq<OperandType>)
    requires d.name != name
    ensures !Accepts(d, name, types)
  {
  }

  /** A definition whose slot j refuses operand j rejects the instruction. */
  lemma RejectsAt(d: InstructionDefinition, name: string, types: seq<OperandType>, j: nat)
    requires j < |types| && j < |d.operands| && types[j] !in d.operands[j].acceptableTypes
    ensures !Accepts(d, name, types)
  {
    AcceptsSpec(d, name, types);
  }

  /** A definition of the name whose every slot takes its operand accepts the instruction. */
  lemma AcceptsAll(d: InstructionDefinition, name: string, types: seq<OperandType>)
    requires d.name == name && |types| == |d.operands|
    requires forall j | 0 <= j < |types| :: types[j] in d.operands[j].acceptableTypes
    ensures Accepts(d, name, types)
  {
    AcceptsSpec(d, name, types);
  }

  /** An entry that does not accept the instruction passes the search on. */
  lemma LookupSkip(table: seq<InstructionDefinition>, i: nat, name: string, types: seq<OperandType>)
    requires i < |table| && !Accepts(table[i], name, types)
    ensures LookupFrom(table, i, name, types) == LookupFrom(table, i + 1, name, types)
  {
  }

  /** An entry that accepts the instruction ends the search. */
  lemma LookupHit(table: seq<InstructionDefinition>, i: nat, name: string, types: seq<OperandType>)
    requires i < |table| && Accepts(table[i], name, types)
    ensures LookupFrom(table, i, name, types) == Some(i)
  {
  }

  /** The base word of a branch has N in bit 11, Z in bit 10 and P in bit 9, as its letters say. */
  lemma BranchWords(i: nat)
    requires 4 <= i <= 10
    ensures var d := Table[i];
      && |d.name| >= 3 && d.name[..2] == "BR"
      && d.operations == [(if 'N' in d.name then 0x800 else 0) + (if 'Z' in d.name then 0x400 else 0) + (if 'P' in d.name then 0x200 else 0)]
      && d.operands == [PageSlot]
  {
  }

  /**
   * Every table entry has exactly one base word, and every slot writes that
   * word within bits 11..0, so operand insertion never touches the opcode
   * nibble (bits 15..12).
   */
  lemma SlotsBelowOpcode(i: nat, j: nat)
    requires i < |Table| && j < |Table[i].operands|
    ensures |Table[i].operations| == 1 && Table[i].size == 1
    ensures Table[i].operands[j].opIndex == 0
    ensures 0 <= Table[i].operands[j].lsb <= Table[i].operands[j].msb <= 11
  {
  }

  /** No slot of the table has a mask bit at 12 or above. */
  lemma MasksBelowOpcode(i: nat, j: nat, k: nat)
    requires i < |Table| && j < |Table[i].operands| && k >= 12
    ensures !Bit(GetMask(Table[i].operands[j]), k)
  {
    SlotsBelowOpcode(i, j);
    GetMaskBits(Table[i].operands[j], k);
  }

  /** The last slot of a definition. */
  function LastSlot(d: InstructionDefinition): OperandDefinition
    requires |d.operands| > 0
  {
    d.operands[|d.operands| - 1]
  }

  /** The mnemonics whose last operand is a relocatable page offset. */
  const PageNames: set<string> := {"BRN", "BRZ", "BRP", "BRNZ", "BRNP", "BRZP", "BRNZP", "JSR", "JMP", "LD", "LDI", "LEA", "ST", "STI"}

  /** Branches, JSR, JMP, LD, LDI, LEA, ST and STI end in a relocatable page offset, bits 8..0. */
  lemma PageOffsetLayout(i: nat)
    requires i < |Table|
    requires Table[i].name in PageNames
    ensures |Table[i].operands| > 0
    ensures LastSlot(Table[i]).relocatable && LastSlot(Table[i]).msb == 8 && LastSlot(Table[i]).lsb == 0
  {
    if i < 11 {
      PageSlotLow(i);
    } else if i < 18 {
      PageSlotMid(i);
    } else {
      PageSlotHigh(i);
    }
  }

  lemma PageSlotLow(i: nat)
    requires i < 11 && Table[i].name in PageNames
    ensures |Table[i].operands| > 0 && LastSlot(Table[i]) == PageSlot
  {
    if i < 4 {}
  }

  lemma PageSlotMid(i: nat)
    requires 11 <= i < 18 && Table[i].name in PageNames
    ensures |Table[i].operands| > 0 && LastSlot(Table[i]) == PageSlot
  {
  }

  lemma PageSlotHigh(i: nat)
    requires 18 <= i < |Table| && Table[i].name in PageNames
    ensures |Table[i].operands| > 0 && LastSlot(Table[i]) == PageSlot
  {
  }

  /** JSRR, JMPR and LDR end in an absolute index field, bits 5..0. */
  lemma IndexLayout(i: nat)
    requires i < |Table|
    requires Table[i].name in {"JSRR", "JMPR", "LDR"}
    ensures |Table[i].operands| > 0
    ensures !LastSlot(Table[i]).relocatable && LastSlot(Table[i]).msb == 5 && LastSlot(Table[i]).lsb == 0
  {
    if i < 4 {} else if i < 11 {} else if i < 14 {} else if i < 16 {} else if i < 18 {} else if i < 21 {} else {}
  }

  /** STR's index is bits 6..0 and TRAP's vector bits 7..0, both absolute. */
  lemma StrTrapLayout(i: nat)
    requires i < |Table|
    requires Table[i].name == "STR" || Table[i].name == "TRAP"
    ensures |Table[i].operands| > 0
    ensures !LastSlot(Table[i]).relocatable && LastSlot(Table[i]).lsb == 0
    ensures LastSlot(Table[i]).msb == if Table[i].name == "STR" then 6 else 7
  {
    if i < 11 {} else if i < 21 {} else if i < 24 {} else {}
  }

  /** JSR/JMP and JSRR/JMPR have the same slots and base words that differ only in bit 11. */
  lemma LinkBit()
    ensures Table[12].name == "JSR" && Table[13].name == "JMP"
    ensures Table[14].name == "JSRR" && Table[15].name == "JMPR"
    ensures Table[12].operands == Table[13].operands && Table[14].operands == Table[15].operands
    ensures Table[13].operations[0] == Table[12].operations[0] + 0x800
    ensures Table[15].operations[0] == Table[14].operations[0] + 0x800
    ensures !Bit(Table[12].operations[0], 11) && !Bit(Table[14].operations[0], 11)
  {
    assert Table[12] == Entry("JSR", 0x4000, [PageSlot]);
    assert Table[13] == Entry("JMP", 0x4800, [PageSlot]);
    assert Table[14] == Entry("JSRR", 0xC000, [RegSlot(8, 6), ValueSlot(5)]);
    assert Table[15] == Entry("JMPR", 0xC800, [RegSlot(8, 6), ValueSlot(5)]);
    assert 0x4000 == 8 * 0x800 && 0xC000 == 24 * 0x800;
    BitOfMultiple(8, 11);
    BitOfMultiple(24, 11);
  }

  /** A multiple of 2^(e+1) has bit e clear. */
  lemma BitOfMultiple(c: int, e: nat)
    requires e == 11
    ensures !Bit(c * 2 * 0x800, e)
  {
    Pow2Page();
    assert c * 2 * 0x800 == c * Pow2(12);
    BitMulPow2(c, 12, e);
  }

  /** An unknown mnemonic finds no definition. */
  lemma UnknownMnemonic(name: string, types: seq<OperandType>)
    requires forall i | 0 <= i < |Table| :: Table[i].name != name
    ensures Lookup(name, types) == None
  {
  }
}
