/**
 * Instruction definitions: an instruction name, the base words it assembles
 * to, and the operand slots whose values are or-ed into those words.
 */
module InstructionDefinitions {
  import opened Wrappers
  import opened Bits
  import opened JavaLang
  import opened OperandDefinitions

  /**
   * `operations` are the base words, `operands` the slots, and `size` the
   * number of words the instruction occupies (which need not equal the number
   * of base words for pseudo-ops).
   */
  datatype InstructionDefinition = InstructionDefinition(
    name: string,
    operations: seq<int>,
    operands: seq<OperandDefinition>,
    size: int)

  /** The slot a generated definition gives word i: bits 15..0, immediates only, absolute. */
  function WordSlot(i: int): OperandDefinition
  {
    OperandDefinition(false, [ImmediateType], i, 15, 0)
  }

  /**
   * `new InstructionDefinition(name, n, createOperands)`: with createOperands,
   * n zero words and one whole-word slot per word; without, no words and no
   * slots; the size is n either way. (A negative n with createOperands would
   * fail to allocate the arrays; no caller passes one.)
   */
  function Generated(name: string, n: int, createOperands: bool): (d: InstructionDefinition)
    requires createOperands ==> n >= 0
    ensures d.name == name && d.size == n
    ensures createOperands ==> |d.operations| == n && |d.operands| == n
    ensures createOperands ==> forall i | 0 <= i < n :: d.operations[i] == 0 && d.operands[i] == WordSlot(i)
    ensures !createOperands ==> d.operations == [] && d.operands == []
  {
    if createOperands then InstructionDefinition(name, seq(n, _ => 0), seq(n, i => WordSlot(i)), n)
    else InstructionDefinition(name, [], [], n)
  }

  /** `new InstructionDefinition(name, operations, operands)`: the size is the number of base words. */
  function Explicit(name: string, operations: seq<int>, operands: seq<OperandDefinition>): (d: InstructionDefinition)
    ensures d.name == name && d.operations == operations && d.operands == operands
    ensures d.size == |operations|
  {
    InstructionDefinition(name, operations, operands, |operations|)
  }

  /** The loop of `isAcceptable` over the slots from index i on, stopping at the first refusal. */
  function AcceptFrom(d: InstructionDefinition, types: seq<OperandType>, i: nat): bool
    requires |types| == |d.operands| && i <= |d.operands|
    decreases |d.operands| - i
  {
    if i == |d.operands| then true
    else if !IsAcceptable(d.operands[i], types[i]) then false
    else AcceptFrom(d, types, i + 1)
  }

  /**
   * `isAcceptable(instruction)`: the names match, there are as many operands as
   * slots, and each slot accepts the operand at its index. `types` are the
   * instruction's operand types in order.
   */
  function Accepts(d: InstructionDefinition, name: string, types: seq<OperandType>): bool
  {
    d.name == name && |types| == |d.operands| && AcceptFrom(d, types, 0)
  }

  /** The loop accepts exactly when every remaining slot accepts its operand. */
  lemma {:induction false} AcceptFromAll(d: InstructionDefinition, types: seq<OperandType>, i: nat)
    requires |types| == |d.operands| && i <= |d.operands|
    ensures AcceptFrom(d, types, i) <==> forall j | i <= j < |d.operands| :: IsAcceptable(d.operands[j], types[j])
    decreases |d.operands| - i
  {
    if i < |d.operands| {
      AcceptFromAll(d, types, i + 1);
    }
  }

  /** `isAcceptable` holds iff names are equal, counts are equal, and every slot accepts its operand. */
  lemma AcceptsSpec(d: InstructionDefinition, name: string, types: seq<OperandType>)
    ensures Accepts(d, name, types) <==>
      && d.name == name
      && |types| == |d.operands|
      && (forall j | 0 <= j < |types| :: types[j] in d.operands[j].acceptableTypes)
  {
    if |types| == |d.operands| {
      AcceptFromAll(d, types, 0);
    }
  }

  /**
   * `getOperations`: a copy of the base words. Values are immutable here, so a
   * caller's later changes to the copy cannot reach the definition.
   */
  function GetOperations(d: InstructionDefinition): (r: seq<int>)
    ensures |r| == |d.operations| && forall i | 0 <= i < |r| :: r[i] == d.operations[i]
  {
    d.operations
  }

  /**
   * The loop of `getRelocationMasks` from slot i on: each relocatable slot ors
   * its mask into the entry of the word it targets; a target outside the words
   * throws.
   */
  function MaskFrom(slots: seq<OperandDefinition>, i: nat, masks: seq<int>): (r: Result<seq<int>, Thrown>)
    requires i <= |slots|
    ensures r.Ok? ==> |r.value| == |masks|
    decreases |slots| - i
  {
    if i == |slots| then Ok(masks)
    else
      var s := slots[i];
      if !s.relocatable then MaskFrom(slots, i + 1, masks)
      else if !(0 <= s.opIndex < |masks|) then Err(IndexOutOfBounds)
      else MaskFrom(slots, i + 1, masks[s.opIndex := Or(masks[s.opIndex], GetMask(s))])
  }

  /** `getRelocationMasks`: one mask per base word. */
  function RelocationMasks(d: InstructionDefinition): (r: Result<seq<int>, Thrown>)
    ensures r.Ok? ==> |r.value| == |d.operations|
  {
    MaskFrom(d.operands, 0, seq(|d.operations|, _ => 0))
  }

  /** Every relocatable slot targets one of the base words. */
  predicate RelocatableInRange(d: InstructionDefinition)
  {
    forall i | 0 <= i < |d.operands| && d.operands[i].relocatable :: 0 <= d.operands[i].opIndex < |d.operations|
  }

  /** Some relocatable slot at index >= i targets word w and has bit k in its mask. */
  ghost predicate Covered(slots: seq<OperandDefinition>, i: nat, w: int, k: nat)
  {
    exists j | i <= j < |slots| :: slots[j].relocatable && slots[j].opIndex == w && Bit(GetMask(slots[j]), k)
  }

  lemma {:induction false} MaskFromBits(slots: seq<OperandDefinition>, i: nat, masks: seq<int>, w: nat, k: nat)
    requires i <= |slots| && w < |masks|
    requires forall j | i <= j < |slots| && slots[j].relocatable :: 0 <= slots[j].opIndex < |masks|
    ensures MaskFrom(slots, i, masks).Ok?
    ensures Bit(MaskFrom(slots, i, masks).value[w], k) <==> Bit(masks[w], k) || Covered(slots, i, w, k)
    decreases |slots| - i
  {
    if i < |slots| {
      var s := slots[i];
      if !s.relocatable {
        MaskFromBits(slots, i + 1, masks, w, k);
        if Covered(slots, i, w, k) {
          var j :| i <= j < |slots| && slots[j].relocatable && slots[j].opIndex == w && Bit(GetMask(slots[j]), k);
          assert j > i;
        }
      } else {
        var m' := masks[s.opIndex := Or(masks[s.opIndex], GetMask(s))];
        MaskFromBits(slots, i + 1, m', w, k);
        BitOr(masks[s.opIndex], GetMask(s), k);
        if Covered(slots, i, w, k) && !Covered(slots, i + 1, w, k) {
          var j :| i <= j < |slots| && slots[j].relocatable && slots[j].opIndex == w && Bit(GetMask(slots[j]), k);
          assert j == i;
        }
      }
    }
  }

  /**
   * When every relocatable slot targets a base word, getRelocationMasks
   * succeeds, and bit k of entry w is set iff some relocatable slot targeting
   * word w has bit k in its mask.
   */
  lemma RelocationMasksSpec(d: InstructionDefinition, w: nat, k: nat)
    requires RelocatableInRange(d) && w < |d.operations|
    ensures RelocationMasks(d).Ok?
    ensures Bit(RelocationMasks(d).value[w], k) <==>
      exists j | 0 <= j < |d.operands| :: d.operands[j].relocatable && d.operands[j].opIndex == w && Bit(GetMask(d.operands[j]), k)
  {
    var zeros := seq(|d.operations|, _ => 0);
    MaskFromBits(d.operands, 0, zeros, w, k);
    BitZero(k);
  }

  /** A relocatable slot targeting a missing word makes getRelocationMasks throw. */
  lemma RelocationMasksOutOfRange(d: InstructionDefinition)
    requires !RelocatableInRange(d)
    ensures RelocationMasks(d) == Err(IndexOutOfBounds)
  {
    var zeros := seq(|d.operations|, _ => 0);
    MaskFromFails(d.operands, 0, zeros);
  }

  lemma {:induction false} MaskFromFails(slots: seq<OperandDefinition>, i: nat, masks: seq<int>)
    requires i <= |slots|
    requires exists j | i <= j < |slots| :: slots[j].relocatable && !(0 <= slots[j].opIndex < |masks|)
    ensures MaskFrom(slots, i, masks) == Err(IndexOutOfBounds)
    decreases |slots| - i
  {
    var s := slots[i];
    if !(s.relocatable && !(0 <= s.opIndex < |masks|)) {
      var j :| i <= j < |slots| && slots[j].relocatable && !(0 <= slots[j].opIndex < |masks|);
      assert j > i;
      if s.relocatable {
        MaskFromFails(slots, i + 1, masks[s.opIndex := Or(masks[s.opIndex], GetMask(s))]);
      } else {
        MaskFromFails(slots, i + 1, masks);
      }
    }
  }
}
