/**
 * Operands of an assembler line: the text's kind, the constant it denotes,
 * the value it resolves to against the symbol and literal tables, and the
 * insertion of that value into its slot's bit field.
 */
module Operands {
  import opened Wrappers
  import opened Bits
  import opened JavaLang
  import opened LiteralTables
  import opened Symbols
  import opened OperandDefinitions
  import UtilByteOperations

  /** An operand: its source text, its kind, and the slot it was paired with (null until set). */
  datatype Operand = Operand(value: string, opType: OperandType, definition: Option<OperandDefinition>)

  /**
   * `determineType`: only the first character counts. '=' is a literal, '#' or
   * 'x' an immediate, 'R' a register, anything else a symbol; empty text throws.
   */
  function DetermineType(value: string): (r: Result<OperandType, Thrown>)
    ensures |value| == 0 <==> r.Err?
    ensures r.Err? ==> r.error == IndexOutOfBounds
    ensures r.Ok? ==> (r.value == LiteralType <==> value[0] == '=')
    ensures r.Ok? ==> (r.value == ImmediateType <==> value[0] == '#' || value[0] == 'x')
    ensures r.Ok? ==> (r.value == RegisterType <==> value[0] == 'R')
    ensures r.Ok? ==> (r.value == SymbolType <==> value[0] !in "=#xR")
  {
    if |value| == 0 then Err(IndexOutOfBounds)
    else if value[0] == '=' then Ok(LiteralType)
    else if value[0] == '#' || value[0] == 'x' then Ok(ImmediateType)
    else if value[0] == 'R' then Ok(RegisterType)
    else Ok(SymbolType)
  }

  /** The text after one leading '=' is dropped. */
  function StripLiteral(value: string): string
  {
    if |value| > 0 && value[0] == '=' then value[1..] else value
  }

  /**
   * `parseConstant`: after one '=' is dropped, '#' reads the rest as decimal,
   * 'x' as hex without prefix, 'R' as a decimal register number, and any other
   * lead gives 0. Nothing left to read throws.
   */
  function ParseConstant(value: string): (r: Result<int, Thrown>)
    ensures |StripLiteral(value)| == 0 ==> r == Err(IndexOutOfBounds)
    ensures |StripLiteral(value)| > 0 ==>
      var v := StripLiteral(value);
      && (v[0] == '#' || v[0] == 'R' ==> r == ParseInt(v[1..]))
      && (v[0] == 'x' ==> r == UtilByteOperations.ParseHex(v[1..]))
      && (v[0] !in "#xR" ==> r == Ok(0))
  {
    var v := StripLiteral(value);
    if |v| == 0 then Err(IndexOutOfBounds)
    else
      var rest := v[1..];
      if v[0] == '#' then ParseInt(rest)
      else if v[0] == 'x' then UtilByteOperations.ParseHex(rest)
      else if v[0] == 'R' then ParseInt(rest)
      else Ok(0)
  }

  /** A literal denotes the same constant as the text after its '='. */
  lemma LiteralConstant(s: string)
    requires |s| > 0 && s[0] != '='
    ensures ParseConstant("=" + s) == ParseConstant(s)
  {
    assert StripLiteral("=" + s) == s;
  }

  /** Printing an int after '#' (or "=#") and parsing it back gives the int. */
  lemma DecimalConstantRoundTrip(n: int)
    requires IsInt(n)
    ensures ParseConstant("#" + IntToString(n)) == Ok(n)
    ensures ParseConstant("=#" + IntToString(n)) == Ok(n)
  {
    ParseIntToString(n);
    assert ("#" + IntToString(n))[1..] == IntToString(n);
    assert StripLiteral("=#" + IntToString(n)) == "#" + IntToString(n);
  }

  /** A 16-bit value written as 'x' and four hex digits (or "=x…") parses back to itself. */
  lemma HexConstantRoundTrip(v: int)
    requires 0 <= v < 0x1_0000
    ensures ParseConstant("x" + UtilByteOperations.GetHex(v, 4)) == Ok(v)
    ensures ParseConstant("=x" + UtilByteOperations.GetHex(v, 4)) == Ok(v)
  {
    Pow2Word();
    UtilByteOperations.HexRoundTrip(v, 4);
    HexConstantOf(UtilByteOperations.GetHex(v, 4), v);
  }

  /** Hex digits that parse to v, after 'x' or "=x", parse as a constant to v. */
  lemma HexConstantOf(h: string, v: int)
    requires UtilByteOperations.ParseHex(h) == Ok(v)
    ensures ParseConstant("x" + h) == Ok(v) && ParseConstant("=x" + h) == Ok(v)
  {
    assert ("x" + h)[1..] == h;
    assert ("=x" + h)[1..] == "x" + h;
  }

  /** A constant of any other lead is 0, whatever follows. */
  lemma OtherLeadIsZero(c: char, rest: string)
    requires c !in "=#xR"
    ensures ParseConstant([c] + rest) == Ok(0)
  {
  }

  /**
   * The Operand constructor: the text's kind is determined (empty text throws)
   * and a literal's constant is defined in the literal table; any other kind
   * leaves the table as it was. A throw leaves the table untouched.
   */
  function NewOperand(value: string, literals: LiteralTable): (r: Result<(Operand, LiteralTable), Thrown>)
    ensures |value| == 0 ==> r == Err(IndexOutOfBounds)
    ensures r.Ok? <==> |value| > 0 && (value[0] == '=' ==> ParseConstant(value).Ok?)
    ensures r.Ok? ==> r.value.0.value == value && r.value.0.definition.None?
    ensures r.Ok? ==> Ok(r.value.0.opType) == DetermineType(value)
    ensures r.Ok? && r.value.0.opType == LiteralType ==>
      && ParseConstant(value).value in r.value.1.slots
      && r.value.1 == LiteralTables.Define(literals, ParseConstant(value).value)
    ensures r.Ok? && r.value.0.opType != LiteralType ==> r.value.1 == literals
  {
    var t :- DetermineType(value);
    if t == LiteralType then
      var c :- ParseConstant(value);
      Ok((Operand(value, t, None), LiteralTables.Define(literals, c)))
    else Ok((Operand(value, t, None), literals))
  }

  /** `setDefinition`. */
  function SetDefinition(op: Operand, d: OperandDefinition): (r: Operand)
    ensures r.definition == Some(d) && r.value == op.value && r.opType == op.opType
  {
    op.(definition := Some(d))
  }

  /**
   * `getValue`: a literal's pool address, an immediate's or register's constant,
   * a defined symbol's value, and 0 for an undefined symbol.
   */
  function GetValue(value: string, symbols: SymbolTable, literals: LiteralTable): (r: Result<int, Thrown>)
    ensures |value| == 0 ==> r == Err(IndexOutOfBounds)
    ensures |value| > 0 && value[0] == '=' ==>
      r == (match ParseConstant(value)
              case Ok(c) => GetAddress(literals, c)
              case Err(e) => Err(e))
    ensures |value| > 0 && value[0] in "#xR" ==> r == ParseConstant(value)
    ensures |value| > 0 && value[0] !in "=#xR" ==>
      r == Ok(if HasSymbol(symbols, value) then symbols.entries[value].value else 0)
  {
    var t :- DetermineType(value);
    match t
    case LiteralType =>
      var c :- ParseConstant(value);
      GetAddress(literals, c)
    case ImmediateType => ParseConstant(value)
    case RegisterType => ParseConstant(value)
    case SymbolType =>
      if HasSymbol(symbols, value) then Ok(symbols.entries[value].value) else Ok(0)
  }

  /** A defined literal resolves to its slot plus the pool offset. */
  lemma LiteralValue(value: string, symbols: SymbolTable, literals: LiteralTable)
    requires |value| > 0 && value[0] == '='
    requires ParseConstant(value).Ok? && ParseConstant(value).value in literals.slots
    requires IsInt(literals.slots[ParseConstant(value).value] + literals.offset)
    ensures GetValue(value, symbols, literals) == Ok(literals.slots[ParseConstant(value).value] + literals.offset)
  {
  }

  /**
   * The value insert writes: getValue's result, minus (origin & 0x1FF) when the
   * slot is relocatable and the operand is an immediate (int arithmetic).
   */
  function AdjustedValue(op: Operand, d: OperandDefinition, symbols: SymbolTable, literals: LiteralTable, origin: int): (r: Result<int, Thrown>)
    ensures r.Ok? <==> GetValue(op.value, symbols, literals).Ok?
    ensures r.Err? ==> r == GetValue(op.value, symbols, literals)
    ensures r.Ok? && !(d.relocatable && op.opType == ImmediateType) ==> r.value == GetValue(op.value, symbols, literals).value
    ensures r.Ok? && d.relocatable && op.opType == ImmediateType ==>
      Cong32(r.value, GetValue(op.value, symbols, literals).value - origin % 0x200)
  {
    var x :- GetValue(op.value, symbols, literals);
    if d.relocatable && op.opType == ImmediateType then
      var y := Wrap32(x - And(origin, 0x1FF));
      PageAdjust(x, origin, y);
      Ok(y)
    else Ok(x)
  }

  /** Subtracting the origin's low nine bits, with wrap-around, is subtracting origin mod 512. */
  lemma PageAdjust(x: int, origin: int, y: int)
    requires y == Wrap32(x - And(origin, 0x1FF))
    ensures Cong32(y, x - origin % 0x200)
  {
    AndLowMask(origin, 9);
    Pow2Page();
    var z := x - And(origin, 0x1FF);
    assert z == x - origin % 0x200;
    assert (z - y) % 0x1_0000_0000 == 0;
  }

  /** The bits insert ors into the target word. */
  function InsertedBits(d: OperandDefinition, x: int): int
  {
    And(GetMask(d), Shl(x, d.lsb))
  }

  /**
   * `insert(ops, symbols, literals, origin)`: ors mask & (x << lsb) into word
   * opIndex. A missing slot throws a null pointer, an index outside the words
   * throws, and a failing getValue throws first.
   */
  function Insert(op: Operand, ops: seq<int>, symbols: SymbolTable, literals: LiteralTable, origin: int): (r: Result<seq<int>, Thrown>)
    ensures r.Ok? <==>
      && GetValue(op.value, symbols, literals).Ok?
      && op.definition.Some?
      && 0 <= op.definition.value.opIndex < |ops|
    ensures GetValue(op.value, symbols, literals).Err? ==> r == Err(GetValue(op.value, symbols, literals).error)
    ensures GetValue(op.value, symbols, literals).Ok? && op.definition.None? ==> r == Err(NullPointer)
    ensures r.Ok? ==> |r.value| == |ops|
    ensures r.Ok? ==> forall j | 0 <= j < |ops| && j != op.definition.value.opIndex :: r.value[j] == ops[j]
  {
    var x :- GetValue(op.value, symbols, literals);
    match op.definition
    case None => Err(NullPointer)
    case Some(d) =>
      if !(0 <= d.opIndex < |ops|) then Err(IndexOutOfBounds)
      else
        var x' := AdjustedValue(op, d, symbols, literals, origin).value;
        Ok(ops[d.opIndex := Or(ops[d.opIndex], InsertedBits(d, x'))])
  }

  /** With a slot inside the words and an adjusted value x, insert ors x's bits into the slot's word. */
  lemma InsertAt(op: Operand, words: seq<int>, symbols: SymbolTable, literals: LiteralTable, origin: int, d: OperandDefinition, x: int)
    requires op.definition == Some(d) && 0 <= d.opIndex < |words|
    requires AdjustedValue(op, d, symbols, literals, origin) == Ok(x)
    ensures Insert(op, words, symbols, literals, origin) == Ok(words[d.opIndex := Or(words[d.opIndex], InsertedBits(d, x))])
  {
  }

  /**
   * Insertion never clears a bit, and a bit outside the slot's mask keeps its
   * old value.
   */
  lemma InsertKeepsBits(op: Operand, ops: seq<int>, symbols: SymbolTable, literals: LiteralTable, origin: int, k: nat)
    requires Insert(op, ops, symbols, literals, origin).Ok?
    ensures var w := op.definition.value.opIndex;
      var r := Insert(op, ops, symbols, literals, origin).value;
      && (Bit(ops[w], k) ==> Bit(r[w], k))
      && (!Bit(GetMask(op.definition.value), k) ==> Bit(r[w], k) == Bit(ops[w], k))
  {
    var d := op.definition.value;
    var x' := AdjustedValue(op, d, symbols, literals, origin).value;
    BitOr(ops[d.opIndex], InsertedBits(d, x'), k);
    BitAnd(GetMask(d), Shl(x', d.lsb), k);
  }

  /**
   * For a slot with 0 <= lsb <= msb <= 30 and a bit below 32, the new word has
   * bit k set iff the old word had it, or k lies in lsb..msb and bit k-lsb of
   * the adjusted value is set.
   */
  lemma InsertField(op: Operand, ops: seq<int>, symbols: SymbolTable, literals: LiteralTable, origin: int, k: nat)
    requires Insert(op, ops, symbols, literals, origin).Ok?
    requires 0 <= op.definition.value.lsb <= op.definition.value.msb <= 30 && k < 32
    ensures var d := op.definition.value;
      var x := AdjustedValue(op, d, symbols, literals, origin).value;
      var r := Insert(op, ops, symbols, literals, origin).value;
      Bit(r[d.opIndex], k) <==> Bit(ops[d.opIndex], k) || (d.lsb <= k <= d.msb && Bit(x, k - d.lsb))
  {
    var d := op.definition.value;
    var x := AdjustedValue(op, d, symbols, literals, origin).value;
    var s: nat := d.lsb;
    BitOr(ops[d.opIndex], InsertedBits(d, x), k);
    BitAnd(GetMask(d), Shl(x, s), k);
    GetMaskBits(d, k);
    assert s % 32 == s;
    BitWrap32(x * Pow2(s), k);
    BitMulPow2(x, s, k);
  }
}
