/**
 * One assembled source line: its mnemonic, its text, its operands and the
 * definition it was matched to, and the words and relocation masks it
 * produces.
 */
module Instructions {
  import opened Wrappers
  import opened Bits
  import opened JavaLang
  import opened LiteralTables
  import opened Symbols
  import opened OperandDefinitions
  import opened Operands
  import opened InstructionDefinitions

  /** An instruction; `definition` is None until one is set (Java's null). */
  datatype Instruction = Instruction(
    name: string,
    source: string,
    operands: seq<Operand>,
    definition: Option<InstructionDefinition>)

  /** `new Instruction(name, source)`: no operands and no definition yet. */
  function NewInstruction(name: string, source: string): (r: Instruction)
    ensures r.name == name && r.source == source
    ensures r.operands == [] && r.definition.None?
  {
    Instruction(name, source, [], None)
  }

  /**
   * The result of a step that may throw part-way: the literal table as it was
   * left (literals defined before the throw stay defined) and the value or the
   * exception.
   */
  datatype Outcome<+T> = Outcome(literals: LiteralTable, result: Result<T, Thrown>)

  /** The constants of the literal operands among values, in order. */
  function LiteralConstants(values: seq<string>): seq<int>
  {
    if |values| == 0 then []
    else
      var v := values[|values| - 1];
      var init := LiteralConstants(values[..|values| - 1]);
      if |v| > 0 && v[0] == '=' && ParseConstant(v).Ok? then init + [ParseConstant(v).value] else init
  }

  /** The loop of `setOperands` from index i on; `acc` holds the operands built so far. */
  function OperandsFrom(values: seq<string>, i: nat, literals: LiteralTable, acc: seq<Operand>): (r: Outcome<seq<Operand>>)
    requires i <= |values|
    ensures r.result.Ok? ==> |r.result.value| == |acc| + |values| - i
    decreases |values| - i
  {
    if i == |values| then Outcome(literals, Ok(acc))
    else match NewOperand(values[i], literals)
      case Err(e) => Outcome(literals, Err(e))
      case Ok(pair) => OperandsFrom(values, i + 1, pair.1, acc + [pair.0])
  }

  /** `setOperands(values, literals)`: one Operand per string, in order; the first bad string throws. */
  function SetOperands(inst: Instruction, values: seq<string>, literals: LiteralTable): (r: Outcome<Instruction>)
    ensures r.result.Ok? ==>
      && |r.result.value.operands| == |values|
      && r.result.value == inst.(operands := r.result.value.operands)
  {
    var o := OperandsFrom(values, 0, literals, []);
    match o.result
    case Err(e) => Outcome(o.literals, Err(e))
    case Ok(ops) => Outcome(o.literals, Ok(inst.(operands := ops)))
  }

  /** The operand types of ops, in order, as `isAcceptable` compares them. */
  function Types(ops: seq<Operand>): seq<OperandType>
  {
    seq(|ops|, i requires 0 <= i < |ops| => ops[i].opType)
  }

  /** The string builds an operand: it is non-empty, and a literal's constant parses. */
  predicate Builds(v: string)
  {
    |v| > 0 && (v[0] == '=' ==> ParseConstant(v).Ok?)
  }

  /** The operand `new Operand(v, literals)` builds from a non-empty string. */
  function Built(v: string): Operand
    requires |v| > 0
  {
    Operand(v, DetermineType(v).value, None)
  }

  /** Every string of values builds an operand. */
  predicate AllBuild(values: seq<string>)
  {
    forall i | 0 <= i < |values| :: Builds(values[i])
  }

  /** Appending one string appends its constant to the literal constants when it is a literal. */
  lemma LiteralConstantsStep(values: seq<string>, i: nat)
    requires i < |values| && Builds(values[i])
    ensures LiteralConstants(values[..i + 1]) ==
      if values[i][0] == '=' then LiteralConstants(values[..i]) + [ParseConstant(values[i]).value]
      else LiteralConstants(values[..i])
  {
    assert values[..i + 1][..i] == values[..i];
  }

  lemma {:induction false} OperandsFromSpec(values: seq<string>, i: nat, literals0: LiteralTable, acc: seq<Operand>)
    requires i <= |values| && |acc| == i
    requires AllBuild(values[..i])
    requires forall j | 0 <= j < i :: |values[j]| > 0 && acc[j] == Built(values[j])
    ensures var o := OperandsFrom(values, i, LiteralTables.DefineAll(literals0, LiteralConstants(values[..i])), acc);
      && (o.result.Ok? <==> AllBuild(values))
      && (o.result.Ok? ==>
            && o.literals == LiteralTables.DefineAll(literals0, LiteralConstants(values))
            && |o.result.value| == |values|
            && forall j | 0 <= j < |values| :: |values[j]| > 0 && o.result.value[j] == Built(values[j]))
    decreases |values| - i
  {
    var lits := LiteralTables.DefineAll(literals0, LiteralConstants(values[..i]));
    if i == |values| {
      assert values[..i] == values;
    } else {
      var v := values[i];
      if !Builds(v) {
        assert !AllBuild(values);
      } else {
        var pair := NewOperand(v, lits).value;
        LiteralConstantsStep(values, i);
        assert pair.1 == LiteralTables.DefineAll(literals0, LiteralConstants(values[..i + 1]));
        assert AllBuild(values[..i + 1]) by {
          var pre := values[..i + 1];
          forall j | 0 <= j < |pre|
            ensures Builds(pre[j])
          {
            if j < i { assert pre[j] == values[..i][j]; }
          }
        }
        assert pair.0 == Built(v);
        OperandsFromSpec(values, i + 1, literals0, acc + [pair.0]);
      }
    }
  }

  /**
   * setOperands succeeds iff every string builds an operand; then the
   * instruction has exactly one operand per string, in order, and the literal
   * table has every literal constant defined in order of appearance.
   */
  lemma SetOperandsSpec(inst: Instruction, values: seq<string>, literals: LiteralTable)
    ensures var o := SetOperands(inst, values, literals);
      && (o.result.Ok? <==> AllBuild(values))
      && (o.result.Ok? ==>
            && o.literals == LiteralTables.DefineAll(literals, LiteralConstants(values))
            && o.result.value.name == inst.name && o.result.value.source == inst.source
            && o.result.value.definition == inst.definition
            && |o.result.value.operands| == |values|
            && forall j | 0 <= j < |values| :: |values[j]| > 0 && o.result.value.operands[j] == Built(values[j]))
  {
    assert values[..0] == [];
    OperandsFromSpec(values, 0, literals, []);
  }

  /**
   * `setDefinition`: slot i goes to operand i for every slot; operands beyond
   * the slots keep no definition of their own. The caller supplies at least as
   * many operands as slots.
   */
  function SetDefinition(inst: Instruction, d: InstructionDefinition): (r: Instruction)
    requires |d.operands| <= |inst.operands|
    ensures r.definition == Some(d) && r.name == inst.name && r.source == inst.source
    ensures |r.operands| == |inst.operands|
    ensures forall i | 0 <= i < |d.operands| :: r.operands[i] == Operands.SetDefinition(inst.operands[i], d.operands[i])
    ensures forall i | |d.operands| <= i < |r.operands| :: r.operands[i] == inst.operands[i]
  {
    var ops := seq(|inst.operands|, i requires 0 <= i < |inst.operands| =>
      if i < |d.operands| then Operands.SetDefinition(inst.operands[i], d.operands[i]) else inst.operands[i]);
    inst.(operands := ops, definition := Some(d))
  }

  /** The loop of `getCodes`: each operand from index i on is inserted into the words. */
  function InsertFrom(ops: seq<Operand>, i: nat, words: seq<int>, symbols: SymbolTable, literals: LiteralTable, origin: int): (r: Result<seq<int>, Thrown>)
    requires i <= |ops|
    ensures r.Ok? ==> |r.value| == |words|
    decreases |ops| - i
  {
    if i == |ops| then Ok(words)
    else match Insert(ops[i], words, symbols, literals, origin)
      case Err(e) => Err(e)
      case Ok(w) => InsertFrom(ops, i + 1, w, symbols, literals, origin)
  }

  /**
   * `getCodes(symbols, literals, origin)`: a copy of the base words with every
   * operand inserted, each with the same origin; no definition, or no base
   * words, gives no codes.
   */
  function GetCodes(inst: Instruction, symbols: SymbolTable, literals: LiteralTable, origin: int): (r: Result<seq<int>, Thrown>)
    ensures inst.definition.None? ==> r == Ok([])
    ensures inst.definition.Some? && inst.definition.value.operations == [] ==> r == Ok([])
    ensures r.Ok? && inst.definition.Some? ==> |r.value| == |inst.definition.value.operations|
  {
    match inst.definition
    case None => Ok([])
    case Some(d) =>
      var words := GetOperations(d);
      if |words| == 0 then Ok(words)
      else InsertFrom(inst.operands, 0, words, symbols, literals, origin)
  }

  /** Some operand from index i on has a slot that targets word w and has bit k in its mask. */
  ghost predicate Touches(ops: seq<Operand>, i: nat, w: int, k: nat)
  {
    exists j | i <= j < |ops| ::
      ops[j].definition.Some? && ops[j].definition.value.opIndex == w && Bit(GetMask(ops[j].definition.value), k)
  }

  lemma {:induction false} InsertFromBits(ops: seq<Operand>, i: nat, words: seq<int>, symbols: SymbolTable, literals: LiteralTable, origin: int, w: nat, k: nat)
    requires i <= |ops| && w < |words|
    requires InsertFrom(ops, i, words, symbols, literals, origin).Ok?
    ensures Bit(words[w], k) ==> Bit(InsertFrom(ops, i, words, symbols, literals, origin).value[w], k)
    ensures !Touches(ops, i, w, k) ==> Bit(InsertFrom(ops, i, words, symbols, literals, origin).value[w], k) == Bit(words[w], k)
    decreases |ops| - i
  {
    if i < |ops| {
      var w1 := Insert(ops[i], words, symbols, literals, origin).value;
      InsertFromBits(ops, i + 1, w1, symbols, literals, origin, w, k);
      var d := ops[i].definition.value;
      if w == d.opIndex {
        InsertKeepsBits(ops[i], words, symbols, literals, origin, k);
      }
      if Touches(ops, i + 1, w, k) {
        var j :| i + 1 <= j < |ops| && ops[j].definition.Some? && ops[j].definition.value.opIndex == w
          && Bit(GetMask(ops[j].definition.value), k);
        assert i <= j;
      }
    }
  }

  /**
   * getCodes never clears a bit of a base word, and a bit no operand's slot
   * covers is exactly the base word's bit.
   */
  lemma GetCodesBits(inst: Instruction, symbols: SymbolTable, literals: LiteralTable, origin: int, w: nat, k: nat)
    requires inst.definition.Some? && w < |inst.definition.value.operations|
    requires GetCodes(inst, symbols, literals, origin).Ok?
    ensures var base := inst.definition.value.operations;
      var codes := GetCodes(inst, symbols, literals, origin).value;
      && (Bit(base[w], k) ==> Bit(codes[w], k))
      && (!Touches(inst.operands, 0, w, k) ==> Bit(codes[w], k) == Bit(base[w], k))
  {
    InsertFromBits(inst.operands, 0, inst.definition.value.operations, symbols, literals, origin, w, k);
  }

  /** A non-relocatable slot over bits 15..0 inserts a 16-bit value unchanged. */
  lemma WholeWordInsert(d: OperandDefinition, v: int)
    requires d.lsb == 0 && d.msb == 15 && 0 <= v < 0x1_0000
    ensures InsertedBits(d, v) == v
  {
    var m := GetMask(d);
    var x := Shl(v, d.lsb);
    WholeWordMask(d);
    assert x == v by { assert Pow2(d.lsb % 32) == 1; }
    LowWordAnd(m, v);
  }

  lemma WholeWordMask(d: OperandDefinition)
    requires d.lsb == 0 && d.msb == 15
    ensures GetMask(d) == 0xFFFF
  {
    GetMaskDiff(d);
    Pow2Word();
  }

  lemma LowWordAnd(m: int, v: int)
    requires m == 0xFFFF && 0 <= v < 0x1_0000
    ensures And(m, v) == v
  {
    AndComm(m, v);
    AndLowMask(v, 16);
    Pow2Word();
  }

  /** Operand j of a generated definition: its slot is the whole of word j. */
  predicate WholeWord(op: Operand, j: int)
  {
    && op.definition.Some?
    && op.definition.value.opIndex == j
    && op.definition.value.msb == 15
    && op.definition.value.lsb == 0
    && !op.definition.value.relocatable
  }

  /** The first i values in place and zeros after them. */
  function Filled(vals: seq<int>, i: nat): (w: seq<int>)
    requires i <= |vals|
    ensures |w| == |vals|
  {
    vals[..i] + seq(|vals| - i, _ => 0)
  }

  lemma FilledNext(vals: seq<int>, i: nat)
    requires i < |vals|
    ensures Filled(vals, i)[i] == 0
    ensures Filled(vals, i)[i := vals[i]] == Filled(vals, i + 1)
  {
    var w := Filled(vals, i)[i := vals[i]];
    forall j | 0 <= j < |vals|
      ensures w[j] == Filled(vals, i + 1)[j]
    {
      if j < i + 1 {
        assert Filled(vals, i + 1)[j] == vals[..i + 1][j];
      } else {
        assert Filled(vals, i + 1)[j] == seq(|vals| - (i + 1), _ => 0)[j - (i + 1)];
      }
    }
  }

  lemma {:induction false} InsertWholeWords(ops: seq<Operand>, i: nat, symbols: SymbolTable, literals: LiteralTable, origin: int, vals: seq<int>)
    requires i <= |ops| && |ops| == |vals|
    requires forall j | 0 <= j < |ops| ::
      && WholeWord(ops[j], j)
      && GetValue(ops[j].value, symbols, literals) == Ok(vals[j])
      && 0 <= vals[j] < 0x1_0000
    ensures InsertFrom(ops, i, Filled(vals, i), symbols, literals, origin) == Ok(vals)
    decreases |ops| - i
  {
    if i == |ops| {
      assert Filled(vals, i) == vals;
    } else {
      FilledStep(ops, i, symbols, literals, origin, vals);
      InsertWholeWords(ops, i + 1, symbols, literals, origin, vals);
    }
  }

  /** One turn of the whole-word insert loop: operand i's value goes into the first zero word. */
  lemma FilledStep(ops: seq<Operand>, i: nat, symbols: SymbolTable, literals: LiteralTable, origin: int, vals: seq<int>)
    requires i < |ops| == |vals| && WholeWord(ops[i], i)
    requires GetValue(ops[i].value, symbols, literals) == Ok(vals[i]) && 0 <= vals[i] < 0x1_0000
    ensures InsertFrom(ops, i, Filled(vals, i), symbols, literals, origin) == InsertFrom(ops, i + 1, Filled(vals, i + 1), symbols, literals, origin)
  {
    FilledNext(vals, i);
    WholeWordStep(ops, i, Filled(vals, i), symbols, literals, origin, vals[i]);
  }

  /** One turn of the insert loop over whole-word operands. */
  lemma WholeWordStep(ops: seq<Operand>, i: nat, words: seq<int>, symbols: SymbolTable, literals: LiteralTable, origin: int, v: int)
    requires i < |ops| && WholeWord(ops[i], i) && i < |words| && words[i] == 0
    requires GetValue(ops[i].value, symbols, literals) == Ok(v) && 0 <= v < 0x1_0000
    ensures InsertFrom(ops, i, words, symbols, literals, origin) == InsertFrom(ops, i + 1, words[i := v], symbols, literals, origin)
  {
    InsertWholeWord(ops[i], i, words, symbols, literals, origin, v);
    InsertFromStep(ops, i, words, symbols, literals, origin, words[i := v]);
  }

  /** A whole-word operand put into an empty word leaves its value there. */
  lemma InsertWholeWord(op: Operand, j: nat, words: seq<int>, symbols: SymbolTable, literals: LiteralTable, origin: int, v: int)
    requires WholeWord(op, j) && j < |words| && words[j] == 0
    requires GetValue(op.value, symbols, literals) == Ok(v) && 0 <= v < 0x1_0000
    ensures Insert(op, words, symbols, literals, origin) == Ok(words[j := v])
  {
    var d := op.definition.value;
    WholeWordInsert(d, v);
    WholeWordAdjusted(op, d, symbols, literals, origin, v);
    Operands.InsertAt(op, words, symbols, literals, origin, d, v);
    OrIntoZero(words, j, InsertedBits(d, v));
  }

  /** Or-ing a value into a zero word puts the value there. */
  lemma OrIntoZero(words: seq<int>, j: nat, x: int)
    requires j < |words| && words[j] == 0
    ensures words[j := Or(words[j], x)] == words[j := x]
  {
  }

  /** One turn of the insert loop: a successful insert of operand i hands its words to the rest. */
  lemma InsertFromStep(ops: seq<Operand>, i: nat, words: seq<int>, symbols: SymbolTable, literals: LiteralTable, origin: int, w1: seq<int>)
    requires i < |ops| && Insert(ops[i], words, symbols, literals, origin) == Ok(w1)
    ensures InsertFrom(ops, i, words, symbols, literals, origin) == InsertFrom(ops, i + 1, w1, symbols, literals, origin)
  {
  }

  /** A whole-word slot is not relocatable, so insert uses getValue's result as it is. */
  lemma WholeWordAdjusted(op: Operand, d: OperandDefinition, symbols: SymbolTable, literals: LiteralTable, origin: int, v: int)
    requires !d.relocatable && GetValue(op.value, symbols, literals) == Ok(v)
    ensures AdjustedValue(op, d, symbols, literals, origin) == Ok(v)
  {
  }

  /**
   * An instruction whose definition is generated with whole-word slots
   * (`new InstructionDefinition(name, n, true)`) encodes to exactly its
   * operands' 16-bit values, operand j in word j.
   */
  lemma GeneratedCodes(inst: Instruction, name: string, symbols: SymbolTable, literals: LiteralTable, origin: int, vals: seq<int>)
    requires inst.definition == Some(Generated(name, |vals|, true))
    requires |inst.operands| == |vals|
    requires forall j | 0 <= j < |vals| ::
      && WholeWord(inst.operands[j], j)
      && GetValue(inst.operands[j].value, symbols, literals) == Ok(vals[j])
      && 0 <= vals[j] < 0x1_0000
    ensures GetCodes(inst, symbols, literals, origin) == Ok(vals)
  {
    var d := inst.definition.value;
    if |vals| > 0 {
      assert d.operations == Filled(vals, 0);
      InsertWholeWords(inst.operands, 0, symbols, literals, origin, vals);
    }
  }

  /**
   * Giving an instruction a generated definition with whole-word slots makes
   * it encode to its operands' 16-bit values, one word each.
   */
  lemma GeneratedEncodes(inst: Instruction, name: string, symbols: SymbolTable, literals: LiteralTable, origin: int, vals: seq<int>)
    requires |inst.operands| == |vals|
    requires forall j | 0 <= j < |vals| ::
      && GetValue(inst.operands[j].value, symbols, literals) == Ok(vals[j])
      && 0 <= vals[j] < 0x1_0000
    ensures GetCodes(SetDefinition(inst, Generated(name, |vals|, true)), symbols, literals, origin) == Ok(vals)
  {
    var i1 := SetDefinition(inst, Generated(name, |vals|, true));
    forall j | 0 <= j < |vals|
      ensures WholeWord(i1.operands[j], j)
      ensures GetValue(i1.operands[j].value, symbols, literals) == Ok(vals[j])
    {
      assert i1.operands[j] == Operands.SetDefinition(inst.operands[j], WordSlot(j));
    }
    GeneratedCodes(i1, name, symbols, literals, origin, vals);
  }

  /**
   * The loop of the instruction-level `getRelocationMasks` from operand i on:
   * an operand that reports itself relocatable ors its slot's mask into the
   * entry of the slot's word. Whether an operand reports relocatable is
   * decided by Operand.isRelocatable, whose body is not part of this model, so
   * it is the parameter `reports`.
   */
  function OperandMasksFrom(ops: seq<Operand>, i: nat, masks: seq<int>, reports: Operand -> bool): (r: Result<seq<int>, Thrown>)
    requires i <= |ops|
    ensures r.Ok? ==> |r.value| == |masks|
    decreases |ops| - i
  {
    if i == |ops| then Ok(masks)
    else if !reports(ops[i]) then OperandMasksFrom(ops, i + 1, masks, reports)
    else match ops[i].definition
      case None => Err(NullPointer)
      case Some(d) =>
        if !(0 <= d.opIndex < |masks|) then Err(IndexOutOfBounds)
        else OperandMasksFrom(ops, i + 1, masks[d.opIndex := Or(masks[d.opIndex], GetMask(d))], reports)
  }

  /** `getRelocationMasks(symbols)` of an instruction: one mask per base word of its definition. */
  function GetRelocationMasks(inst: Instruction, reports: Operand -> bool): (r: Result<seq<int>, Thrown>)
    ensures inst.definition.None? ==> r == Err(NullPointer)
    ensures r.Ok? ==> inst.definition.Some? && |r.value| == |inst.definition.value.operations|
  {
    match inst.definition
    case None => Err(NullPointer)
    case Some(d) => OperandMasksFrom(inst.operands, 0, seq(|d.operations|, _ => 0), reports)
  }

  /** Some reporting operand from index i on has a slot targeting word w with bit k in its mask. */
  ghost predicate Reported(ops: seq<Operand>, i: nat, w: int, k: nat, reports: Operand -> bool)
  {
    exists j | i <= j < |ops| ::
      reports(ops[j]) && ops[j].definition.Some? && ops[j].definition.value.opIndex == w
      && Bit(GetMask(ops[j].definition.value), k)
  }

  lemma {:induction false} OperandMasksBits(ops: seq<Operand>, i: nat, masks: seq<int>, reports: Operand -> bool, w: nat, k: nat)
    requires i <= |ops| && w < |masks|
    requires OperandMasksFrom(ops, i, masks, reports).Ok?
    ensures Bit(OperandMasksFrom(ops, i, masks, reports).value[w], k) <==> Bit(masks[w], k) || Reported(ops, i, w, k, reports)
    decreases |ops| - i
  {
    if i < |ops| {
      if !reports(ops[i]) {
        OperandMasksBits(ops, i + 1, masks, reports, w, k);
        if Reported(ops, i, w, k, reports) {
          var j :| i <= j < |ops| && reports(ops[j]) && ops[j].definition.Some? && ops[j].definition.value.opIndex == w
            && Bit(GetMask(ops[j].definition.value), k);
          assert j != i;
        }
      } else {
        var d := ops[i].definition.value;
        var m' := masks[d.opIndex := Or(masks[d.opIndex], GetMask(d))];
        OperandMasksBits(ops, i + 1, m', reports, w, k);
        BitOr(masks[d.opIndex], GetMask(d), k);
        if Reported(ops, i, w, k, reports) && !Reported(ops, i + 1, w, k, reports) {
          var j :| i <= j < |ops| && reports(ops[j]) && ops[j].definition.Some? && ops[j].definition.value.opIndex == w
            && Bit(GetMask(ops[j].definition.value), k);
          assert j == i;
        }
      }
    }
  }

  /**
   * When getRelocationMasks succeeds, bit k of entry w is set iff some operand
   * that reports relocatable has a slot targeting word w with bit k in its
   * mask; operands that do not report contribute nothing.
   */
  lemma GetRelocationMasksSpec(inst: Instruction, reports: Operand -> bool, w: nat, k: nat)
    requires GetRelocationMasks(inst, reports).Ok?
    requires w < |GetRelocationMasks(inst, reports).value|
    ensures Bit(GetRelocationMasks(inst, reports).value[w], k) <==> Reported(inst.operands, 0, w, k, reports)
  {
    var d := inst.definition.value;
    OperandMasksBits(inst.operands, 0, seq(|d.operations|, _ => 0), reports, w, k);
    BitZero(k);
  }
}
