/**
 * The assembler's single pass (`Assembler.assemble`). Each source line is cut
 * into label, operation and operands by column; pseudo-operations update the
 * assembler's state directly and machine operations are looked up in the
 * instruction table. Errors are collected, not thrown, and the program is
 * returned only when none was found.
 *
 * Java's exceptions are values here: a handler that would throw returns the
 * state as it stood at the throw together with the exception, and the line's
 * instruction is then neither added nor counted.
 */
module Assembler {
  import opened Wrappers
  import opened Bits
  import opened HexText
  import opened JavaLang
  import opened LineScan
  import ByteOperations
  import UtilByteOperations
  import opened LiteralTables
  import opened Symbols
  import opened OperandDefinitions
  import opened Operands
  import opened InstructionDefinitions
  import IsaTable
  import opened Instructions

  /** `MAX_SYMBOLS`, `MAX_LITERALS` and `MAX_SOURCE_RECORDS`. */
  const MaxSymbols := 100
  const MaxLiterals := 50
  const MaxSourceRecords := 200

  /** The bits of an address above the 9-bit page offset. */
  const PageMask := 0xFE00

  /** What an assembly error reports; each case stands for one message of the source. */
  datatype ErrorKind =
    | BadLabelStart                  // label starts with 'x', 'R', '#' or '='
    | BadLabelChars                  // label contains a space or a comma
    | IncorrectSpacing               // columns 8-9 or 15-17 are not blank
    | SymbolRedefinition
    | MultipleOrig
    | OrigNotFirst
    | OrigOperandCount(given: int)
    | OrigNotImmediate
    | EquUsage                       // .EQU needs a label and one operand
    | EquImport                      // .EQU of an imported symbol
    | EquOperandType
    | FillOperandCount(given: int)
    | FillOperands
    | StrzOperandCount(given: int)
    | StrzOperandType
    | EndLabel
    | MultipleEnd
    | BlkwOperandCount(given: int)
    | BlkwNegative
    | EntLabel
    | EntNoOperand
    | EntNotSymbol(operand: string)
    | ExtLabel
    | ExtNoOperand
    | ExtNotSymbol(operand: string)
    | NoDefinition(op: string)       // no table entry for the operation and operand types
    | Raised(e: Thrown)              // an exception with a message, caught per line
    | MultiplePages
    | OutOfRange
    | TooManySymbols
    | TooManyLiterals
    | TooManyRecords
    | MissingOrigOrEnd
    | UndefinedEntry(name: string)

  /** An error, with the line it was found on when the source gives one. */
  datatype Error = Error(line: Option<int>, kind: ErrorKind)

  /** The local variables of `assemble`, carried from line to line. */
  datatype AsmState = AsmState(
    errors: seq<Error>,
    symbols: SymbolTable,
    literals: LiteralTable,
    instructions: seq<Instruction>,
    segmentName: string,
    startAddress: int,
    location: int,
    origin: int,
    lineNumber: int,
    relocatable: bool,
    hasOrig: bool,
    hasEnd: bool,
    exports: seq<string>)

  /** The outcome of one operation's handler: the state, the instruction built, and what it threw. */
  datatype Handled = Handled(state: AsmState, inst: Instruction, thrown: Option<Thrown>)

  /** The assembled program (`new Program(...)`). */
  datatype Program = Program(
    segmentName: string,
    relocatable: bool,
    symbols: SymbolTable,
    literals: LiteralTable,
    instructions: seq<Instruction>,
    startAddress: int,
    origin: int)

  /** The state before the first line: nothing defined, line 1, the segment named after the file. */
  function Start(filename: string): (s: AsmState)
    ensures s.errors == [] && s.instructions == [] && s.exports == []
    ensures s.symbols == EmptyTable && s.literals == LiteralTables.Empty
    ensures |s.segmentName| == 6 && s.lineNumber == 1
    ensures s.location == 0 && s.origin == 0 && s.startAddress == 0
    ensures !s.relocatable && !s.hasOrig && !s.hasEnd
  {
    AsmState([], EmptyTable, LiteralTables.Empty, [], GetNameFromFilename(filename),
      0, 0, 0, 1, false, false, false, [])
  }

  /** `errors.add(new Error(lineNumber, ...))`. */
  function Report(s: AsmState, kind: ErrorKind): AsmState
  {
    s.(errors := s.errors + [Error(Some(s.lineNumber), kind)])
  }

  /** `instruction.setOperands(operands, literals)` against the assembler's literal table. */
  function WithOperands(s: AsmState, inst: Instruction, values: seq<string>): (AsmState, Result<Instruction, Thrown>)
  {
    var o := SetOperands(inst, values, s.literals);
    (s.(literals := o.literals), o.result)
  }

  /** What a handler may change: errors only grow, the line and the instruction list stay. */
  predicate Extends(s: AsmState, r: AsmState)
  {
    s.errors <= r.errors && r.lineNumber == s.lineNumber && r.instructions == s.instructions
  }

  /** The instruction a handler returns is the line's: same operation name, same source text. */
  predicate SameLine(a: Instruction, b: Instruction)
  {
    b.name == a.name && b.source == a.source
  }

  // ---------------------------------------------------------------------------
  // Pseudo-operations
  // ---------------------------------------------------------------------------

  /**
   * `.ORIG`: at most once and first; a label names the segment; an immediate
   * operand sets the origin and the location, no operand makes the program
   * relocatable.
   */
  function Orig(s: AsmState, labelName: string, inst: Instruction, operands: seq<string>): (h: Handled)
    ensures Extends(s, h.state)
    ensures h.state.hasOrig
    ensures SameLine(inst, h.inst)
  {
    var s2 := OrigFlagged(s);
    var (s3, built) := WithOperands(s2, inst, operands);
    match built
    case Err(e) => Handled(s3, inst, Some(e))
    case Ok(i1) =>
      OrigStart(OrigNamed(s3, labelName, |operands|), labelName, Instructions.SetDefinition(i1, Generated(".ORIG", 0, false)), operands)
  }

  /** The checks `.ORIG` makes before its operands: a second `.ORIG`, and one after instructions. */
  function OrigFlagged(s: AsmState): (r: AsmState)
    ensures Extends(s, r) && r.hasOrig
    ensures r.symbols == s.symbols && r.literals == s.literals && r.origin == s.origin && r.location == s.location
  {
    var s1 := if s.hasOrig then Report(s, MultipleOrig) else s;
    (if |s1.instructions| > 0 then Report(s1, OrigNotFirst) else s1).(hasOrig := true)
  }

  /** After the operands are built: the operand count check (without a line number) and the segment name. */
  function OrigNamed(s: AsmState, labelName: string, count: nat): (r: AsmState)
    ensures Extends(s, r) && r.hasOrig == s.hasOrig
    ensures r.symbols == s.symbols && r.literals == s.literals && r.origin == s.origin && r.location == s.location
  {
    var s4 := if count > 1 then s.(errors := s.errors + [Error(None, OrigOperandCount(count))]) else s;
    if labelName != "" then s4.(segmentName := PadRight(labelName, 6)) else s4
  }

  /** The operand of `.ORIG`: an immediate origin, or none for a relocatable program. */
  function OrigStart(s: AsmState, labelName: string, inst: Instruction, operands: seq<string>): (h: Handled)
    ensures Extends(s, h.state) && h.state.hasOrig == s.hasOrig
    ensures h.inst == inst
  {
    if |operands| == 1 then
      if DetermineType(operands[0]) != Ok(ImmediateType) then Handled(Report(s, OrigNotImmediate), inst, None)
      else match ParseConstant(operands[0])
        case Err(e) => Handled(s, inst, Some(e))
        case Ok(c) =>
          Handled(s.(origin := c, location := c, symbols := Symbols.Define(s.symbols, NewSymbol(labelName, c, true))), inst, None)
    else Handled(s.(relocatable := true), inst, None)
  }

  /**
   * `.EQU` of a symbol, as corrected: an imported target is refused, and
   * otherwise the label becomes an alias of the target, so that an undefined
   * target raises the symbol table's own error.
   */
  function EquSymbol(s: AsmState, labelName: string, target: string, inst: Instruction): (h: Handled)
    ensures Extends(s, h.state)
    ensures h.inst == inst
  {
    var sym := Get(s.symbols, target);
    if sym.Some? && sym.value.isImport then Handled(Report(s, EquImport), inst, None)
    else match DefineAlias(s.symbols, labelName, target)
      case Err(e) => Handled(s, inst, Some(e))
      case Ok(t) => Handled(s.(symbols := t), inst, None)
  }

  /**
   * `.EQU` of a symbol as written: `symbols.get(target).isImport()` dereferences
   * null for an undefined target.
   */
  function EquSymbolAsWritten(s: AsmState, labelName: string, target: string, inst: Instruction): (h: Handled)
    ensures Extends(s, h.state)
    ensures h.inst == inst
  {
    match Get(s.symbols, target)
    case None => Handled(s, inst, Some(NullPointer))
    case Some(sym) =>
      if sym.isImport then Handled(Report(s, EquImport), inst, None)
      else match DefineAlias(s.symbols, labelName, target)
        case Err(e) => Handled(s, inst, Some(e))
        case Ok(t) => Handled(s.(symbols := t), inst, None)
  }

  /** `.EQU`: the label takes the value of a constant or of another symbol; it takes no space. */
  function Equ(s: AsmState, labelName: string, inst: Instruction, operands: seq<string>): (h: Handled)
    ensures Extends(s, h.state) && h.state.location == s.location
    ensures SameLine(inst, h.inst)
  {
    var (s1, built) := WithOperands(s, inst, operands);
    match built
    case Err(e) => Handled(s1, inst, Some(e))
    case Ok(i1) =>
      var i2 := Instructions.SetDefinition(i1, Generated(".EQU", 0, false));
      if |operands| != 1 || labelName == "" then Handled(Report(s1, EquUsage), i2, None)
      else match DetermineType(operands[0])
        case Err(e) => Handled(s1, i2, Some(e))
        case Ok(t) =>
          if t == SymbolType then EquSymbol(s1, labelName, operands[0], i2)
          else if t == ImmediateType then
            match ParseConstant(operands[0])
            case Err(e) => Handled(s1, i2, Some(e))
            case Ok(c) => Handled(s1.(symbols := Symbols.Define(s1.symbols, NewSymbol(labelName, c, false))), i2, None)
          else Handled(Report(s1, EquOperandType), i2, None)
  }

  /** The one slot of `.FILL` and of `.END`: a whole word taking an immediate or a symbol. */
  function WordOperand(): OperandDefinition
  {
    SingleWord(true, [ImmediateType, SymbolType], 15, 0)
  }

  /** The definition of `.FILL`: one word, zero before its operand is inserted. */
  function FillDefinition(): InstructionDefinition
  {
    Explicit(".FILL", [0], [WordOperand()])
  }

  /** `.FILL`: one word holding one immediate or symbol operand. */
  function Fill(s: AsmState, inst: Instruction, operands: seq<string>): (h: Handled)
    ensures Extends(s, h.state) && h.state.symbols == s.symbols && h.state.location == s.location
    ensures SameLine(inst, h.inst)
  {
    if |operands| != 1 then Handled(Report(s, FillOperandCount(|operands|)), inst, None)
    else
      var (s1, built) := WithOperands(s, inst, operands);
      match built
      case Err(e) => Handled(s1, inst, Some(e))
      case Ok(i1) =>
        var i2 := Instructions.SetDefinition(i1, FillDefinition());
        if !Accepts(FillDefinition(), i2.name, Types(i2.operands)) then Handled(Report(s1, FillOperands), i2, None)
        else Handled(s1, i2, None)
  }

  /** The operand text of a character: `"x" + getHex(c, 4)`. */
  function CharOperand(c: char): string
  {
    "x" + ByteOperations.GetHex(c as int, 4)
  }

  /** The operands of `.STRZ`: one per character, then the terminating zero. */
  function StrzOperands(text: string): (r: seq<string>)
    ensures |r| == |text| + 1
  {
    seq(|text|, i requires 0 <= i < |text| => CharOperand(text[i])) + ["x0000"]
  }

  /**
   * `.STRZ`: a quoted string becomes one word per character and a zero word.
   * The quote check only reports: the first and last characters are dropped
   * whatever they are.
   */
  function Strz(s: AsmState, inst: Instruction, operands: seq<string>): (h: Handled)
    ensures Extends(s, h.state) && h.state.symbols == s.symbols && h.state.location == s.location
    ensures SameLine(inst, h.inst)
  {
    if |operands| != 1 then Handled(Report(s, StrzOperandCount(|operands|)), inst, None)
    else
      var lit := operands[0];
      if |lit| == 0 then Handled(s, inst, Some(IndexOutOfBounds))
      else
        var s1 := if lit[0] != '"' then Report(s, StrzOperandType) else s;
        if |lit| < 2 then Handled(s1, inst, Some(IndexOutOfBounds))
        else
          var text := lit[1..|lit| - 1];
          var (s2, built) := WithOperands(s1, inst, StrzOperands(text));
          match built
          case Err(e) => Handled(s2, inst, Some(e))
          case Ok(i1) => Handled(s2, Instructions.SetDefinition(i1, Generated(".STRZ", |text| + 1, true)), None)
  }

  /** `.END`: at most once and unlabelled; its optional operand is the start address, the origin otherwise. */
  function End(s: AsmState, labelName: string, inst: Instruction, operands: seq<string>): (h: Handled)
    ensures Extends(s, h.state) && h.state.symbols == s.symbols && h.state.location == s.location
    ensures h.state.hasEnd
    ensures SameLine(inst, h.inst)
  {
    var s2 := EndFlagged(s, labelName);
    var (s3, built) := WithOperands(s2, inst, operands);
    match built
    case Err(e) => Handled(s3, inst, Some(e))
    case Ok(i1) =>
      var slots := if |operands| > 0 then [WordOperand()] else [];
      var i2 := Instructions.SetDefinition(i1, Explicit(".END", [], slots));
      if |operands| > 0 then
        match GetValue(operands[0], s3.symbols, s3.literals)
        case Err(e) => Handled(s3, i2, Some(e))
        case Ok(a) => Handled(s3.(startAddress := a), i2, None)
      else Handled(s3.(startAddress := s3.origin), i2, None)
  }

  /**
   * `.BLKW`: reserves as many words as its operand's value, which is read
   * before the operand is built, so a literal not yet in the table throws.
   */
  function Blkw(s: AsmState, inst: Instruction, operands: seq<string>): (h: Handled)
    ensures Extends(s, h.state) && h.state.symbols == s.symbols && h.state.location == s.location
    ensures SameLine(inst, h.inst)
  {
    var sized :=
      if |operands| != 1 then Ok((Report(s, BlkwOperandCount(|operands|)), 0))
      else match GetValue(operands[0], s.symbols, s.literals)
        case Err(e) => Err(e)
        case Ok(v) => if v < 0 then Ok((Report(s, BlkwNegative), 0)) else Ok((s, v));
    match sized
    case Err(e) => Handled(s, inst, Some(e))
    case Ok(pair) =>
      var (s2, built) := WithOperands(pair.0, inst, operands);
      match built
      case Err(e) => Handled(s2, inst, Some(e))
      case Ok(i1) => Handled(s2, Instructions.SetDefinition(i1, Generated(".BLKW", pair.1, false)), None)
  }

  /** The `.ENT` operand loop: an error for each operand that is not a symbol name. */
  function EntChecks(s: AsmState, operands: seq<string>, i: nat): (r: AsmState)
    requires i <= |operands| && forall k | i <= k < |operands| :: |operands[k]| > 0
    ensures Extends(s, r) && r.symbols == s.symbols && r.location == s.location
    decreases |operands| - i
  {
    if i == |operands| then s
    else
      var s1 := if DetermineType(operands[i]).value != SymbolType then Report(s, EntNotSymbol(operands[i])) else s;
      EntChecks(s1, operands, i + 1)
  }

  /** `.ENT`: names the symbols to export; they are checked once the whole source is read. */
  function Ent(s: AsmState, labelName: string, inst: Instruction, operands: seq<string>): (h: Handled)
    ensures Extends(s, h.state) && h.state.symbols == s.symbols && h.state.location == s.location
    ensures SameLine(inst, h.inst)
  {
    var (s1, built) := WithOperands(s, inst, operands);
    match built
    case Err(e) => Handled(s1, inst, Some(e))
    case Ok(i1) =>
      SetOperandsSpec(inst, operands, s.literals);
      var i2 := Instructions.SetDefinition(i1, Generated(".ENT", 0, false));
      var s2 := if labelName != "" then Report(s1, EntLabel) else s1;
      if |operands| == 0 then Handled(Report(s2, EntNoOperand), i2, None)
      else Handled(EntChecks(s2, operands, 0).(exports := operands), i2, None)
  }

  /** The `.EXT` operand loop: each symbol name is defined as an import, anything else is an error. */
  function ExtChecks(s: AsmState, operands: seq<string>, i: nat): (r: AsmState)
    requires i <= |operands| && forall k | i <= k < |operands| :: |operands[k]| > 0
    ensures Extends(s, r) && r.location == s.location
    decreases |operands| - i
  {
    if i == |operands| then s
    else
      var s1 :=
        if DetermineType(operands[i]).value != SymbolType then Report(s, ExtNotSymbol(operands[i]))
        else s.(symbols := Symbols.Define(s.symbols, ImportSymbol(operands[i])));
      ExtChecks(s1, operands, i + 1)
  }

  /** `.EXT`: declares the symbols this segment imports. */
  function Ext(s: AsmState, labelName: string, inst: Instruction, operands: seq<string>): (h: Handled)
    ensures Extends(s, h.state) && h.state.location == s.location
    ensures SameLine(inst, h.inst)
  {
    var (s1, built) := WithOperands(s, inst, operands);
    match built
    case Err(e) => Handled(s1, inst, Some(e))
    case Ok(i1) =>
      SetOperandsSpec(inst, operands, s.literals);
      var i2 := Instructions.SetDefinition(i1, Generated(".EXT", 0, false));
      var s2 := if labelName != "" then Report(s1, ExtLabel) else s1;
      if |operands| == 0 then Handled(Report(s2, ExtNoOperand), i2, None)
      else Handled(ExtChecks(s2, operands, 0), i2, None)
  }

  /**
   * A machine operation: the first table entry accepting the name and operand
   * types; with none, an error and a placeholder as many words long as there
   * are operands.
   */
  function Machine(s: AsmState, inst: Instruction, operands: seq<string>): (h: Handled)
    ensures Extends(s, h.state) && h.state.symbols == s.symbols && h.state.location == s.location
    ensures SameLine(inst, h.inst)
  {
    var (s1, built) := WithOperands(s, inst, operands);
    match built
    case Err(e) => Handled(s1, inst, Some(e))
    case Ok(i1) =>
      match IsaTable.Lookup(i1.name, Types(i1.operands))
      case Some(d) => Handled(s1, Instructions.SetDefinition(i1, d), None)
      case None =>
        Handled(Report(s1, NoDefinition(i1.name)), Instructions.SetDefinition(i1, Generated(i1.name, |operands|, false)), None)
  }

  // ---------------------------------------------------------------------------
  // Lines
  // ---------------------------------------------------------------------------

  /** The label checks: a bad first character, and a space or comma inside. */
  function LabelErrors(labelName: string): (r: seq<ErrorKind>)
    ensures BadLabelStart in r <==> labelName != "" && labelName[0] in "xR#="
    ensures BadLabelChars in r <==> ' ' in labelName || ',' in labelName
    ensures |r| <= 2
  {
    if labelName == "" then []
    else
      (if labelName[0] in "xR#=" then [BadLabelStart] else [])
      + (if ' ' in labelName || ',' in labelName then [BadLabelChars] else [])
  }

  /** The handler for an operation name. */
  function Dispatch(s: AsmState, labelName: string, inst: Instruction, operands: seq<string>): (h: Handled)
    ensures Extends(s, h.state)
    ensures SameLine(inst, h.inst)
    ensures inst.name != ".ORIG" && inst.name != ".EQU" && inst.name != ".EXT" ==> h.state.symbols == s.symbols
    ensures inst.name != ".ORIG" ==> h.state.location == s.location
  {
    var op := inst.name;
    if op == ".ORIG" then Orig(s, labelName, inst, operands)
    else if op == ".EQU" then Equ(s, labelName, inst, operands)
    else if op == ".FILL" then Fill(s, inst, operands)
    else if op == ".STRZ" then Strz(s, inst, operands)
    else if op == ".END" then End(s, labelName, inst, operands)
    else if op == ".BLKW" then Blkw(s, inst, operands)
    else if op == ".ENT" then Ent(s, labelName, inst, operands)
    else if op == ".EXT" then Ext(s, labelName, inst, operands)
    else Machine(s, inst, operands)
  }

  /** The words an instruction takes: its definition's size, or none without a definition. */
  function WordCount(inst: Instruction): int
  {
    if inst.definition.Some? then inst.definition.value.size else 0
  }

  /** The total size of the instructions from index i on, over unbounded integers. */
  ghost function SizeSum(insts: seq<Instruction>, i: nat): int
    requires i <= |insts|
    decreases |insts| - i
  {
    if i == |insts| then 0 else WordCount(insts[i]) + SizeSum(insts, i + 1)
  }

  /**
   * The location counter of `after` is that of `before` moved on by the size
   * of the one instruction added since, or unchanged when none was added.
   */
  ghost predicate Advanced(before: AsmState, after: AsmState)
  {
    after.location == if |after.instructions| > |before.instructions| then Wrap32(before.location + WordCount(after.instructions[|before.instructions|])) else before.location
  }

  /** After a handler that did not throw: the location advances by the definition's size and the instruction is kept. */
  function Commit(h: Handled): (r: (AsmState, Option<Thrown>))
    ensures r.1 == h.thrown
    ensures r.0.errors == h.state.errors && r.0.lineNumber == h.state.lineNumber && r.0.symbols == h.state.symbols
    ensures h.thrown.Some? ==> r.0 == h.state
    ensures h.thrown.None? ==> r.0.instructions == h.state.instructions + [h.inst]
    ensures h.thrown.None? ==> r.0.location == Wrap32(h.state.location + WordCount(h.inst))
    ensures Advanced(h.state, r.0)
  {
    if h.thrown.Some? then (h.state, h.thrown)
    else (h.state.(location := Wrap32(h.state.location + WordCount(h.inst)), instructions := h.state.instructions + [h.inst]), None)
  }

  /** Errors of the given kinds, all on one line. */
  function OnLine(line: int, kinds: seq<ErrorKind>): (r: seq<Error>)
    ensures |r| == |kinds|
    ensures forall i | 0 <= i < |r| :: r[i] == Error(Some(line), kinds[i])
  {
    seq(|kinds|, i requires 0 <= i < |kinds| => Error(Some(line), kinds[i]))
  }

  /** The body of the line loop's `try` block for a non-comment line. */
  function ProcessLine(s: AsmState, line: string): (r: (AsmState, Option<Thrown>))
    ensures s.errors <= r.0.errors && r.0.lineNumber == s.lineNumber
    ensures r.1.Some? ==> r.0.instructions == s.instructions
    ensures r.1.None? ==>
      && |r.0.instructions| == |s.instructions| + 1
      && r.0.instructions[..|s.instructions|] == s.instructions
      && r.0.instructions[|s.instructions|].name == OpField(line)
      && r.0.instructions[|s.instructions|].source == line
  {
    var s2 := LabelChecked(s, line);
    match GetOperands(line)
    case Err(e) => (s2, Some(e))
    case Ok(operands) => ProcessOperation(s2, Label(line), NewInstruction(OpField(line), line), operands)
  }

  /** The checks made before the operands are split: the label's form and the line's spacing. */
  function LabelChecked(s: AsmState, line: string): (r: AsmState)
    ensures s.errors <= r.errors
  {
    s.(errors := s.errors + LineFormErrors(s.lineNumber, line))
  }

  /** The errors those checks report, in order. */
  function LineFormErrors(lineNumber: int, line: string): seq<Error>
  {
    OnLine(lineNumber, LabelErrors(Label(line))) + if SpacingBad(line) then [Error(Some(lineNumber), IncorrectSpacing)] else []
  }

  /**
   * After the operands are split: a label is checked for redefinition and,
   * unless the operation is `.EQU`, bound to the current location before the
   * operation's handler runs.
   */
  function ProcessOperation(s: AsmState, labelName: string, inst: Instruction, operands: seq<string>): (r: (AsmState, Option<Thrown>))
    ensures s.errors <= r.0.errors && r.0.lineNumber == s.lineNumber
    ensures r.1.Some? ==> r.0.instructions == s.instructions
    ensures r.1.None? ==>
      && |r.0.instructions| == |s.instructions| + 1
      && r.0.instructions[..|s.instructions|] == s.instructions
      && SameLine(inst, r.0.instructions[|s.instructions|])
    ensures inst.name != ".ORIG" ==> Advanced(s, r.0)
  {
    var s1 := if labelName != "" && HasSymbol(s.symbols, labelName) then Report(s, SymbolRedefinition) else s;
    var s2 := if labelName != "" && inst.name != ".EQU" then s1.(symbols := Symbols.Define(s1.symbols, NewSymbol(labelName, s1.location, true))) else s1;
    var h := Dispatch(s2, labelName, inst, operands);
    var r := Commit(h);
    if inst.name != ".ORIG" then AdvancedFrom(h.state, s, r.0); r else r
  }

  /**
   * One pass of the line loop: comment lines are skipped; an exception with a
   * message becomes an error on this line, one without (a null dereference) is
   * dropped; the line number then advances.
   */
  function Step(s: AsmState, line: string): (r: AsmState)
    ensures r.lineNumber == s.lineNumber + 1
    ensures s.errors <= r.errors
    ensures s.instructions <= r.instructions && |r.instructions| <= |s.instructions| + 1
    ensures |line| >= 1 && line[0] == ';' ==> r == s.(lineNumber := s.lineNumber + 1)
    ensures !(|line| >= 1 && line[0] == ';') ==>
      r.location == ProcessLine(s, line).0.location && r.instructions == ProcessLine(s, line).0.instructions
  {
    if |line| >= 1 && line[0] == ';' then s.(lineNumber := s.lineNumber + 1)
    else
      var (s1, thrown) := ProcessLine(s, line);
      var s2 := if thrown.Some? && thrown.value.HasMessage() then Report(s1, Raised(thrown.value)) else s1;
      s2.(lineNumber := s2.lineNumber + 1)
  }

  /** The line loop over `data.split("\n")`. */
  function ScanLines(s: AsmState, lines: seq<string>): AsmState
    decreases |lines|
  {
    if |lines| == 0 then s else ScanLines(Step(s, lines[0]), lines[1..])
  }

  // ---------------------------------------------------------------------------
  // After the last line
  // ---------------------------------------------------------------------------

  /** `literals.getOffset() + literals.getEntries().size()` once the literals follow the code. */
  function LastAddress(s: AsmState): int
  {
    Wrap32(s.location + |Entries(SetOffset(s.literals, s.location))|)
  }

  /** The whole-program checks, in the source's order; none carries a line number. */
  function FinalChecks(s: AsmState): seq<Error>
  {
    var last := LastAddress(s);
    (if s.relocatable && And(last, PageMask) > 0 then [Error(None, MultiplePages)] else [])
    + (if s.origin < 0 || last > 0xFFFF then [Error(None, OutOfRange)] else [])
    + (if Size(s.symbols) > MaxSymbols then [Error(None, TooManySymbols)] else [])
    + (if |Entries(SetOffset(s.literals, s.location))| > MaxLiterals then [Error(None, TooManyLiterals)] else [])
    + (if Wrap32(last - s.origin) > MaxSourceRecords then [Error(None, TooManyRecords)] else [])
    + (if !s.hasOrig || !s.hasEnd then [Error(None, MissingOrigOrEnd)] else [])
  }

  /** The `.ENT` loop: each named symbol is marked exported, an undefined one is an error. */
  function ExportAll(errors: seq<Error>, symbols: SymbolTable, exports: seq<string>, i: nat): (r: (seq<Error>, SymbolTable))
    requires i <= |exports|
    ensures errors <= r.0
    ensures r.1.entries.Keys == symbols.entries.Keys
    decreases |exports| - i
  {
    if i == |exports| then (errors, symbols)
    else if !HasSymbol(symbols, exports[i]) then
      ExportAll(errors + [Error(None, UndefinedEntry(exports[i]))], symbols, exports, i + 1)
    else ExportAll(errors, MarkExported(symbols, exports[i]), exports, i + 1)
  }

  /** The end of `assemble`: literals are placed after the code, the limits checked, the exports marked. */
  function Finish(s: AsmState): (r: Result<Program, seq<Error>>)
    ensures r.Err? ==> s.errors <= r.error && |r.error| > 0
  {
    var lits := SetOffset(s.literals, s.location);
    var (errors, symbols) := ExportAll(s.errors + FinalChecks(s), s.symbols, s.exports, 0);
    if |errors| > 0 then Err(errors)
    else Ok(Program(s.segmentName, s.relocatable, symbols, lits, s.instructions, s.startAddress, s.origin))
  }

  /** `assemble(filename, data)`: the program, or every error found. */
  function Assemble(filename: string, data: string): Result<Program, seq<Error>>
  {
    Finish(ScanLines(Start(filename), SplitLines(data)))
  }

  // ---------------------------------------------------------------------------
  // Properties of the pass
  // ---------------------------------------------------------------------------

  /**
   * The line loop counts every line, comment or not, and never takes back an
   * error or an instruction; each line adds at most one instruction.
   */
  lemma {:induction false} ScanLinesSpec(s: AsmState, lines: seq<string>)
    ensures var r := ScanLines(s, lines);
      && r.lineNumber == s.lineNumber + |lines|
      && s.errors <= r.errors
      && s.instructions <= r.instructions
      && |r.instructions| <= |s.instructions| + |lines|
    decreases |lines|
  {
    if |lines| > 0 {
      ScanLinesSpec(Step(s, lines[0]), lines[1..]);
    }
  }

  /**
   * Outside `.ORIG`, a line moves the location counter on by exactly the size
   * of the instruction it adds, and not at all when it adds none.
   */
  lemma StepAdvances(s: AsmState, line: string)
    requires OpField(line) != ".ORIG"
    ensures Advanced(s, Step(s, line))
  {
    if !(|line| >= 1 && line[0] == ';') {
      LineAdvances(s, line);
      AdvancedFrame(s, ProcessLine(s, line).0, Step(s, line));
    }
  }

  /** Whether a state has advanced depends only on its location and its instructions. */
  lemma AdvancedFrame(before: AsmState, a: AsmState, b: AsmState)
    requires Advanced(before, a)
    requires b.location == a.location && b.instructions == a.instructions
    ensures Advanced(before, b)
  {
  }

  /** Likewise it depends only on the location and the instructions of the state it started from. */
  lemma AdvancedFrom(a: AsmState, b: AsmState, after: AsmState)
    requires Advanced(a, after)
    requires b.location == a.location && b.instructions == a.instructions
    ensures Advanced(b, after)
  {
  }

  /** The same fact one level down, for the line's own processing. */
  lemma LineAdvances(s: AsmState, line: string)
    requires OpField(line) != ".ORIG"
    ensures Advanced(s, ProcessLine(s, line).0)
  {
    match GetOperands(line)
    case Err(e) =>
      assert ProcessLine(s, line) == (LabelChecked(s, line), Some(e));
    case Ok(operands) =>
      OperationAdvances(s, line, operands);
      assert ProcessLine(s, line) == ProcessOperation(LabelChecked(s, line), Label(line), NewInstruction(OpField(line), line), operands);
  }

  /** The operation a line names moves the counter on from where the line started. */
  lemma OperationAdvances(s: AsmState, line: string, operands: seq<string>)
    requires OpField(line) != ".ORIG"
    ensures Advanced(s, ProcessOperation(LabelChecked(s, line), Label(line), NewInstruction(OpField(line), line), operands).0)
  {
    var s2 := LabelChecked(s, line);
    var inst := NewInstruction(OpField(line), line);
    AdvancedFrom(s2, s, ProcessOperation(s2, Label(line), inst, operands).0);
  }

  /**
   * Without `.ORIG` lines, the location counter after the line loop is where
   * it started plus the total size of the instructions the loop added, with
   * int wrap-around.
   */
  lemma {:induction false} ScanLinesLocation(s: AsmState, lines: seq<string>)
    requires IsInt(s.location)
    requires forall j | 0 <= j < |lines| :: OpField(lines[j]) != ".ORIG"
    ensures AdvancedBySum(s, ScanLines(s, lines))
    decreases |lines|
  {
    if |lines| > 0 {
      StepKeepsInt(s, lines[0]);
      ScanLinesLocation(Step(s, lines[0]), lines[1..]);
      StepThenRest(s, lines[0], ScanLines(Step(s, lines[0]), lines[1..]));
    }
  }

  /** A line leaves the location counter within int range. */
  lemma StepKeepsInt(s: AsmState, line: string)
    requires IsInt(s.location) && OpField(line) != ".ORIG"
    ensures IsInt(Step(s, line).location)
  {
    StepAdvances(s, line);
  }

  /** A line's advance followed by the advances of the lines after it add up to the total size. */
  lemma StepThenRest(s: AsmState, line: string, r: AsmState)
    requires IsInt(s.location) && OpField(line) != ".ORIG"
    requires AdvancedBySum(Step(s, line), r)
    ensures AdvancedBySum(s, r)
  {
    StepAdvances(s, line);
    AdvanceThenRest(s, Step(s, line), r);
  }

  /**
   * The instructions of `after` extend those of `before`, and its location
   * counter is that of `before` moved on by the size of all that was added.
   */
  ghost predicate AdvancedBySum(before: AsmState, after: AsmState)
  {
    before.instructions <= after.instructions && after.location == Wrap32(before.location + SizeSum(after.instructions, |before.instructions|))
  }

  /** One advance followed by the advances of the rest add up to the total size. */
  lemma AdvanceThenRest(s: AsmState, s1: AsmState, r: AsmState)
    requires IsInt(s.location) && Advanced(s, s1)
    requires s.instructions <= s1.instructions && |s1.instructions| <= |s.instructions| + 1
    requires AdvancedBySum(s1, r)
    ensures AdvancedBySum(s, r)
  {
    var n := |s.instructions|;
    if |s1.instructions| > n {
      assert s1.instructions[n] == r.instructions[n];
      SumOfWraps(s.location, WordCount(r.instructions[n]), SizeSum(r.instructions, n + 1));
    } else {
      assert s1.instructions == s.instructions;
    }
  }

  /** Wrapping after each addition is wrapping once after both. */
  lemma SumOfWraps(a: int, b: int, c: int)
    ensures Wrap32(Wrap32(a + b) + c) == Wrap32(a + (b + c))
  {
    assert Cong32(Wrap32(a + b) + c, a + (b + c)) by {
      CongAdd(Wrap32(a + b), a + b, c, c);
    }
    Wrap32Cong(Wrap32(a + b) + c, a + (b + c));
  }

  /**
   * A label on any line but `.ORIG`, `.EQU` and `.EXT` names the location the
   * line starts at, whatever the operation's handler then does.
   */
  lemma LabelBinds(s: AsmState, line: string)
    requires Label(line) != "" && GetOperands(line).Ok?
    requires OpField(line) != ".ORIG" && OpField(line) != ".EQU" && OpField(line) != ".EXT"
    ensures Get(ProcessLine(s, line).0.symbols, Label(line)) == Some(NewSymbol(Label(line), s.location, true))
  {
    var labelName := Label(line);
    var s2 := LabelChecked(s, line);
    var inst := NewInstruction(OpField(line), line);
    assert ProcessLine(s, line) == ProcessOperation(s2, labelName, inst, GetOperands(line).value);
    OperationBinds(s2, labelName, inst, GetOperands(line).value);
  }

  lemma OperationBinds(s: AsmState, labelName: string, inst: Instruction, operands: seq<string>)
    requires labelName != ""
    requires inst.name != ".ORIG" && inst.name != ".EQU" && inst.name != ".EXT"
    ensures Get(ProcessOperation(s, labelName, inst, operands).0.symbols, labelName) == Some(NewSymbol(labelName, s.location, true))
  {
    var s1 := if HasSymbol(s.symbols, labelName) then Report(s, SymbolRedefinition) else s;
    var s2 := s1.(symbols := Symbols.Define(s1.symbols, NewSymbol(labelName, s1.location, true)));
    var h := Dispatch(s2, labelName, inst, operands);
    assert h.state.symbols == s2.symbols;
  }

  /** The 16-bit value of a `.STRZ` character word, read back from its operand text. */
  lemma CharOperandValue(c: char, symbols: SymbolTable, literals: LiteralTable)
    ensures |CharOperand(c)| > 0 && CharOperand(c)[0] == 'x'
    ensures GetValue(CharOperand(c), symbols, literals) == Ok(c as int % 0x1_0000)
  {
    var op := CharOperand(c);
    var h := ByteOperations.GetHex(c as int, 4);
    CharDigits(c, h);
    assert op[1..] == h;
    HexOperandValue(op, symbols, literals);
  }

  /** The four hex digits of a character read back as its 16-bit code. */
  lemma CharDigits(c: char, h: string)
    requires h == ByteOperations.GetHex(c as int, 4)
    ensures |h| == 4 && UtilByteOperations.ParseHex(h) == Ok(c as int % 0x1_0000)
  {
    var code := c as int;
    ByteOperations.GetHexSpec(code, 4);
    var v := HexValue(h);
    assert v == code % 0x1_0000 by {
      assert Pow2(4 * 4) == 0x1_0000 by { Pow2Values(); }
    }
    assert IsInt(v);
  }

  /** An operand starting with 'x' has the value of the hex digits after it. */
  lemma HexOperandValue(op: string, symbols: SymbolTable, literals: LiteralTable)
    requires |op| > 0 && op[0] == 'x'
    ensures GetValue(op, symbols, literals) == UtilByteOperations.ParseHex(op[1..])
  {
  }

  /** The terminating word of `.STRZ` reads as 0. */
  lemma ZeroOperandValue(symbols: SymbolTable, literals: LiteralTable)
    ensures GetValue("x0000", symbols, literals) == Ok(0)
  {
    assert "x0000"[1..] == "0000";
    ZerosValue(4);
    assert seq(4, _ => '0') == "0000";
  }

  /** The words `.STRZ` stores for a text: each character's 16-bit code, then 0. */
  function CharCodes(text: string): (r: seq<int>)
  {
    seq(|text|, i requires 0 <= i < |text| => text[i] as int % 0x1_0000) + [0]
  }

  /** Every `.STRZ` operand builds, and reads back as the corresponding code. */
  lemma StrzOperandValues(text: string, symbols: SymbolTable, literals: LiteralTable)
    ensures var values := StrzOperands(text);
      forall j | 0 <= j < |values| ::
        && Builds(values[j]) && values[j][0] == 'x'
        && GetValue(values[j], symbols, literals) == Ok(CharCodes(text)[j])
  {
    var values := StrzOperands(text);
    forall j | 0 <= j < |values|
      ensures Builds(values[j]) && values[j][0] == 'x'
      ensures GetValue(values[j], symbols, literals) == Ok(CharCodes(text)[j])
    {
      if j < |text| {
        CharOperandValue(text[j], symbols, literals);
      } else {
        ZeroOperandValue(symbols, literals);
      }
    }
  }

  /** `.STRZ "text"` raises no error and stores the instruction its operand words build. */
  lemma StrzHandled(s: AsmState, inst: Instruction, text: string)
    ensures var h := Strz(s, inst, ["\"" + text + "\""]);
      var o := SetOperands(inst, StrzOperands(text), s.literals);
      && o.result.Ok?
      && h.thrown.None? && h.state.errors == s.errors
      && h.inst == Instructions.SetDefinition(o.result.value, Generated(".STRZ", |text| + 1, true))
  {
    var lit := "\"" + text + "\"";
    assert lit[0] == '"' && lit[1..|lit| - 1] == text;
    StrzOperandValues(text, EmptyTable, s.literals);
    SetOperandsSpec(inst, StrzOperands(text), s.literals);
  }

  /**
   * `.STRZ "text"` assembles to one word per character holding its 16-bit
   * code, then a zero word, with no error; the quotes are not part of it.
   */
  lemma StrzCodes(s: AsmState, inst: Instruction, text: string, symbols: SymbolTable, literals: LiteralTable, origin: int)
    ensures var h := Strz(s, inst, ["\"" + text + "\""]);
      && h.thrown.None? && h.state.errors == s.errors
      && h.inst.definition.Some? && h.inst.definition.value.size == |text| + 1
      && GetCodes(h.inst, symbols, literals, origin) == Ok(CharCodes(text))
  {
    var values := StrzOperands(text);
    StrzHandled(s, inst, text);
    StrzOperandValues(text, symbols, literals);
    SetOperandsSpec(inst, values, s.literals);
    var i1 := SetOperands(inst, values, s.literals).result.value;
    StrzBuiltEncodes(i1, values, text, symbols, literals, origin);
  }

  /** Operands built from the `.STRZ` operand texts encode, as generated words, to the character codes. */
  lemma StrzBuiltEncodes(i1: Instruction, values: seq<string>, text: string, symbols: SymbolTable, literals: LiteralTable, origin: int)
    requires |values| == |text| + 1 && |i1.operands| == |values|
    requires forall j | 0 <= j < |values| :: i1.operands[j].value == values[j]
    requires forall j | 0 <= j < |values| :: GetValue(values[j], symbols, literals) == Ok(CharCodes(text)[j])
    ensures GetCodes(Instructions.SetDefinition(i1, Generated(".STRZ", |text| + 1, true)), symbols, literals, origin) == Ok(CharCodes(text))
  {
    var codes := CharCodes(text);
    assert |codes| == |text| + 1;
    forall j | 0 <= j < |codes|
      ensures GetValue(i1.operands[j].value, symbols, literals) == Ok(codes[j])
      ensures 0 <= codes[j] < 0x1_0000
    {
      if j < |text| {
        assert codes[j] == text[j] as int % 0x1_0000;
      } else {
        assert codes[j] == 0;
      }
    }
    GeneratedEncodes(i1, ".STRZ", symbols, literals, origin, codes);
  }

  // ---------------------------------------------------------------------------
  // Handlers
  // ---------------------------------------------------------------------------

  /**
   * `.ORIG` with an immediate operand: origin and location both become its
   * value and the label names it; only a repeated or late `.ORIG` is reported.
   */
  lemma OrigSetsOrigin(s: AsmState, labelName: string, inst: Instruction, operand: string)
    requires |operand| > 0 && (operand[0] == '#' || operand[0] == 'x') && ParseConstant(operand).Ok?
    ensures var h := Orig(s, labelName, inst, [operand]);
      var c := ParseConstant(operand).value;
      && h.thrown.None? && h.state.hasOrig
      && h.state.origin == c && h.state.location == c && h.state.relocatable == s.relocatable
      && Get(h.state.symbols, labelName) == Some(NewSymbol(labelName, c, true))
      && h.state.errors == s.errors
           + (if s.hasOrig then [Error(Some(s.lineNumber), MultipleOrig)] else [])
           + (if |s.instructions| > 0 then [Error(Some(s.lineNumber), OrigNotFirst)] else [])
      && h.inst.definition.Some? && h.inst.definition.value.size == 0
  {
    SetOperandsSpec(inst, [operand], s.literals);
  }

  /** `.ORIG` without an operand makes the program relocatable and leaves origin and location alone. */
  lemma OrigRelocatable(s: AsmState, labelName: string, inst: Instruction)
    ensures var h := Orig(s, labelName, inst, []);
      && h.thrown.None? && h.state.relocatable && h.state.hasOrig
      && h.state.location == s.location && h.state.origin == s.origin
      && h.state.segmentName == (if labelName != "" then PadRight(labelName, 6) else s.segmentName)
  {
    SetOperandsSpec(inst, [], s.literals);
  }

  /** `.EQU` of an immediate: the label becomes an absolute symbol of that value, with no error. */
  lemma EquConstant(s: AsmState, labelName: string, inst: Instruction, operand: string)
    requires labelName != "" && |operand| > 0 && (operand[0] == '#' || operand[0] == 'x') && ParseConstant(operand).Ok?
    ensures var h := Equ(s, labelName, inst, [operand]);
      && h.thrown.None? && h.state.errors == s.errors
      && Get(h.state.symbols, labelName) == Some(NewSymbol(labelName, ParseConstant(operand).value, false))
      && h.inst.definition.Some? && h.inst.definition.value.size == 0
  {
    SetOperandsSpec(inst, [operand], s.literals);
  }

  /** `.EQU` of a defined, local symbol: the label takes its value and relocatability, with no error. */
  lemma EquAlias(s: AsmState, labelName: string, inst: Instruction, target: string)
    requires labelName != "" && labelName != target && |target| > 0 && target[0] !in "=#xR"
    requires HasSymbol(s.symbols, target) && !s.symbols.entries[target].isImport
    ensures var h := Equ(s, labelName, inst, [target]);
      var t := s.symbols.entries[target];
      && h.thrown.None? && h.state.errors == s.errors
      && Get(h.state.symbols, labelName) == Some(NewSymbol(labelName, t.value, t.relocatable))
  {
    SetOperandsSpec(inst, [target], s.literals);
  }

  /** `.EQU` of an imported symbol is reported and defines nothing. */
  lemma EquImported(s: AsmState, labelName: string, inst: Instruction, target: string)
    requires labelName != "" && |target| > 0 && target[0] !in "=#xR"
    requires HasSymbol(s.symbols, target) && s.symbols.entries[target].isImport
    ensures var h := Equ(s, labelName, inst, [target]);
      && h.thrown.None? && h.state.errors == s.errors + [Error(Some(s.lineNumber), EquImport)]
      && h.state.symbols == s.symbols
  {
    SetOperandsSpec(inst, [target], s.literals);
  }

  /**
   * As written, `.EQU` of an undefined symbol dereferences null: the line
   * throws an exception without a message, which the line loop drops, so no
   * error is reported and the label stays as it was.
   */
  lemma EquUndefinedDropped(s: AsmState, labelName: string, inst: Instruction, target: string)
    requires !HasSymbol(s.symbols, target)
    ensures var h := EquSymbolAsWritten(s, labelName, target, inst);
      && h.thrown == Some(NullPointer) && !h.thrown.value.HasMessage()
      && h.state == s
  {
  }

  /**
   * Corrected, the same line raises the symbol table's own exception, which
   * has a message and so becomes an error on the line.
   */
  lemma EquUndefinedReported(s: AsmState, labelName: string, inst: Instruction, target: string)
    requires !HasSymbol(s.symbols, target)
    ensures var h := EquSymbol(s, labelName, target, inst);
      && h.thrown == Some(if labelName == target then AliasToSelf(labelName) else AliasToUndefined(target))
      && h.thrown.value.HasMessage()
      && h.state == s
  {
  }

  /** The correction changes nothing when the target is defined. */
  lemma EquCorrectionAgrees(s: AsmState, labelName: string, inst: Instruction, target: string)
    requires HasSymbol(s.symbols, target)
    ensures EquSymbolAsWritten(s, labelName, target, inst) == EquSymbol(s, labelName, target, inst)
  {
  }

  /**
   * `.FILL` with one operand takes one word and reports exactly when the
   * operand is neither an immediate nor a symbol.
   */
  lemma FillChecksType(s: AsmState, inst: Instruction, v: string)
    requires inst.name == ".FILL" && Builds(v)
    ensures var h := Fill(s, inst, [v]);
      var t := DetermineType(v).value;
      && h.thrown.None? && h.inst.definition == Some(FillDefinition())
      && h.state.errors == s.errors +
           (if t == ImmediateType || t == SymbolType then [] else [Error(Some(s.lineNumber), FillOperands)])
  {
    SetOperandsSpec(inst, [v], s.literals);
    var i1 := SetOperands(inst, [v], s.literals).result.value;
    var i2 := Instructions.SetDefinition(i1, FillDefinition());
    assert Types(i2.operands) == [DetermineType(v).value];
    AcceptsSpec(FillDefinition(), i2.name, Types(i2.operands));
  }

  /** `.BLKW #n` reserves n words, or none with an error when n is negative. */
  lemma BlkwReserves(s: AsmState, inst: Instruction, n: int)
    requires IsInt(n)
    ensures var h := Blkw(s, inst, ["#" + IntToString(n)]);
      && h.thrown.None? && h.inst.definition.Some?
      && h.inst.definition.value.size == (if n < 0 then 0 else n)
      && h.state.errors == s.errors + (if n < 0 then [Error(Some(s.lineNumber), BlkwNegative)] else [])
  {
    var op := "#" + IntToString(n);
    DecimalOperand(s, n, op);
    var s1 := if n < 0 then Report(s, BlkwNegative) else s;
    DecimalOperandBuilds(inst, n, op, s1.literals);
  }

  /** A decimal constant operand has its value whatever the tables hold. */
  lemma DecimalOperand(s: AsmState, n: int, op: string)
    requires IsInt(n) && op == "#" + IntToString(n)
    ensures GetValue(op, s.symbols, s.literals) == Ok(n)
  {
    DecimalConstantRoundTrip(n);
  }

  /** A lone decimal constant operand builds and leaves the definition alone. */
  lemma DecimalOperandBuilds(inst: Instruction, n: int, op: string, literals: LiteralTable)
    requires IsInt(n) && op == "#" + IntToString(n)
    ensures SetOperands(inst, [op], literals).result.Ok?
    ensures SetOperands(inst, [op], literals).result.value.definition == inst.definition
  {
    DecimalConstantRoundTrip(n);
    SetOperandsSpec(inst, [op], literals);
  }

  /**
   * `.BLKW` reads its operand before building it, so a literal that no
   * earlier line defined dereferences null and the line is dropped silently.
   */
  lemma BlkwLiteralUnread(s: AsmState, inst: Instruction, v: string)
    requires |v| > 0 && v[0] == '=' && ParseConstant(v).Ok? && ParseConstant(v).value !in s.literals.slots
    ensures Blkw(s, inst, [v]) == Handled(s, inst, Some(NullPointer))
  {
  }

  /**
   * `.END`: the start address is the operand's value, or the origin without
   * one; a label and a second `.END` are reported.
   */
  lemma EndStart(s: AsmState, labelName: string, inst: Instruction, operands: seq<string>)
    requires AllBuild(operands)
    ensures var h := End(s, labelName, inst, operands);
      && h.state.hasEnd
      && h.state.errors == s.errors
           + (if labelName != "" then [Error(Some(s.lineNumber), EndLabel)] else [])
           + (if s.hasEnd then [Error(Some(s.lineNumber), MultipleEnd)] else [])
      && (|operands| == 0 ==> h.thrown.None? && h.state.startAddress == s.origin)
      && (|operands| > 0 && operands[0][0] != '=' ==>
            var a := GetValue(operands[0], s.symbols, s.literals);
            && (h.thrown.None? <==> a.Ok?)
            && (a.Ok? ==> h.state.startAddress == a.value))
  {
    EndErrors(s, labelName, inst, operands);
    if |operands| == 0 {
      EndWithout(s, labelName, inst);
    } else if operands[0][0] != '=' {
      EndWith(s, labelName, inst, operands);
    }
  }

  /** The state `.END` reaches before building its operands. */
  function EndFlagged(s: AsmState, labelName: string): (r: AsmState)
    ensures r.hasEnd && r.symbols == s.symbols && r.literals == s.literals && r.origin == s.origin
    ensures r.errors == s.errors
      + (if labelName != "" then [Error(Some(s.lineNumber), EndLabel)] else [])
      + (if s.hasEnd then [Error(Some(s.lineNumber), MultipleEnd)] else [])
  {
    var s1 := if labelName != "" then Report(s, EndLabel) else s;
    (if s1.hasEnd then Report(s1, MultipleEnd) else s1).(hasEnd := true)
  }

  lemma EndErrors(s: AsmState, labelName: string, inst: Instruction, operands: seq<string>)
    requires AllBuild(operands)
    ensures var h := End(s, labelName, inst, operands);
      && h.state.hasEnd
      && h.state.errors == EndFlagged(s, labelName).errors
  {
    SetOperandsSpec(inst, operands, s.literals);
  }

  lemma EndWithout(s: AsmState, labelName: string, inst: Instruction)
    ensures var h := End(s, labelName, inst, []);
      h.thrown.None? && h.state.startAddress == s.origin
  {
    SetOperandsSpec(inst, [], s.literals);
  }

  lemma EndWith(s: AsmState, labelName: string, inst: Instruction, operands: seq<string>)
    requires AllBuild(operands) && |operands| > 0 && operands[0][0] != '='
    ensures var h := End(s, labelName, inst, operands);
      var a := GetValue(operands[0], s.symbols, s.literals);
      && (h.thrown.None? <==> a.Ok?)
      && (a.Ok? ==> h.state.startAddress == a.value)
  {
    SetOperandsSpec(inst, operands, s.literals);
  }

  /** The operand types of operand texts that all build. */
  function TextTypes(values: seq<string>): seq<OperandType>
    requires forall j | 0 <= j < |values| :: |values[j]| > 0
  {
    seq(|values|, j requires 0 <= j < |values| => DetermineType(values[j]).value)
  }

  /**
   * A machine operation takes the first table entry for its name and operand
   * types; with none, it is reported and occupies one word per operand.
   */
  lemma MachineLookup(s: AsmState, inst: Instruction, operands: seq<string>)
    requires AllBuild(operands)
    ensures var h := Machine(s, inst, operands);
      var d := IsaTable.Lookup(inst.name, TextTypes(operands));
      && h.thrown.None?
      && (d.Some? ==> h.inst.definition == d && h.state.errors == s.errors)
      && (d.None? ==>
            && h.inst.definition.Some? && h.inst.definition.value.size == |operands|
            && h.inst.definition.value.operations == []
            && h.state.errors == s.errors + [Error(Some(s.lineNumber), NoDefinition(inst.name))])
  {
    SetOperandsSpec(inst, operands, s.literals);
    var i1 := SetOperands(inst, operands, s.literals).result.value;
    assert Types(i1.operands) == TextTypes(operands);
  }

  // ---------------------------------------------------------------------------
  // The final checks
  // ---------------------------------------------------------------------------

  /** On 16-bit addresses, `(last & 0xFE00) > 0` says the address lies beyond the first page. */
  lemma PageCheck(v: int, m: int)
    requires 0 <= v <= 0xFFFF && m == PageMask
    ensures And(v, m) > 0 <==> v >= 0x200
  {
    Pow2Page();
    AndFieldMask(v, 7, 9);
    assert (Pow2(7) - 1) * Pow2(9) == m;
    var q := v / 512;
    PageOfAddress(v, q);
    assert And(v, m) == q * 512;
  }

  /** The page number of a 16-bit address is below 128 and is zero exactly on the first page. */
  lemma PageOfAddress(v: int, q: int)
    requires 0 <= v <= 0xFFFF && q == v / 512
    ensures 0 <= q < 128 && q % 128 == q
    ensures q * 512 > 0 <==> v >= 0x200
  {
  }

  /** The limits a program must keep, over unbounded integers. */
  ghost predicate WithinLimits(s: AsmState)
  {
    var last := s.location + |s.literals.slots|;
    && (s.relocatable ==> last < 0x200)
    && 0 <= s.origin && last <= 0xFFFF
    && Size(s.symbols) <= MaxSymbols
    && |s.literals.slots| <= MaxLiterals
    && last - s.origin <= MaxSourceRecords
    && s.hasOrig && s.hasEnd
  }

  /** The final checks pass exactly when the program keeps every limit. */
  lemma FinalChecksSpec(s: AsmState)
    requires 0 <= s.location && IsInt(s.location + |s.literals.slots|) && IsInt(s.origin)
    ensures FinalChecks(s) == [] <==> WithinLimits(s)
  {
    var lits := SetOffset(s.literals, s.location);
    assert Entries(lits).Keys == s.literals.slots.Keys;
    assert |Entries(lits)| == |s.literals.slots|;
    var last := s.location + |s.literals.slots|;
    assert LastAddress(s) == last;
    if last <= 0xFFFF {
      PageCheck(last, PageMask);
    }
    if 0 <= s.origin && last <= 0xFFFF {
      assert Wrap32(last - s.origin) == last - s.origin;
    }
  }

  /**
   * The export loop adds an error exactly when some export is undefined, and
   * marks every defined export while leaving all other symbols alone.
   */
  lemma {:induction false} ExportAllSpec(errors: seq<Error>, symbols: SymbolTable, exports: seq<string>, i: nat)
    requires i <= |exports|
    ensures var r := ExportAll(errors, symbols, exports, i);
      && (r.0 == errors <==> forall k | i <= k < |exports| :: HasSymbol(symbols, exports[k]))
      && (forall n | n in exports[i..] && HasSymbol(symbols, n) :: Get(r.1, n) == Some(SetExport(symbols.entries[n])))
      && (forall n | n !in exports[i..] :: Get(r.1, n) == Get(symbols, n))
    decreases |exports| - i
  {
    if i < |exports| {
      var n := exports[i];
      assert exports[i..] == [n] + exports[i + 1..];
      if !HasSymbol(symbols, n) {
        var e1 := errors + [Error(None, UndefinedEntry(n))];
        ExportAllSpec(e1, symbols, exports, i + 1);
        assert |ExportAll(e1, symbols, exports, i + 1).0| >= |e1|;
      } else {
        var t := MarkExported(symbols, n);
        ExportAllSpec(errors, t, exports, i + 1);
        forall k | i + 1 <= k < |exports| ensures HasSymbol(t, exports[k]) == HasSymbol(symbols, exports[k]) {
        }
      }
    }
  }

  /**
   * `assemble` returns a program exactly when no line reported an error, the
   * limits hold, and every `.ENT` name is defined; the program then carries
   * the literal pool placed right after the code and its exports marked.
   */
  lemma FinishSpec(s: AsmState)
    requires 0 <= s.location && IsInt(s.location + |s.literals.slots|) && IsInt(s.origin)
    ensures Finish(s).Ok? <==>
      s.errors == [] && WithinLimits(s) && forall n | n in s.exports :: HasSymbol(s.symbols, n)
    ensures Finish(s).Ok? ==>
      var p := Finish(s).value;
      && p.literals.slots == s.literals.slots && p.literals.offset == s.location
      && p.instructions == s.instructions && p.origin == s.origin && p.startAddress == s.startAddress
      && p.segmentName == s.segmentName && p.relocatable == s.relocatable
      && (forall n | n in s.exports :: Get(p.symbols, n) == Some(SetExport(s.symbols.entries[n])))
      && (forall n | n !in s.exports :: Get(p.symbols, n) == Get(s.symbols, n))
  {
    FinalChecksSpec(s);
    ExportAllSpec(s.errors + FinalChecks(s), s.symbols, s.exports, 0);
    assert s.exports[0..] == s.exports;
  }
}
