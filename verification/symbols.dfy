/**
 * Symbols and the symbol table shared by the assembler and the linker: a
 * symbol is a name with a value and three flags, and the table maps each name
 * to the symbol last defined under it.
 */
module Symbols {
  import opened Wrappers
  import opened Bits
  import opened JavaLang

  /** A named value; `relocatable` values move with their segment. */
  datatype Symbol = Symbol(name: string, value: int, relocatable: bool, isImport: bool, isExport: bool)

  /** `new Symbol(name, value, isRelocatable)`: a local definition, neither imported nor exported. */
  function NewSymbol(name: string, value: int, relocatable: bool): (s: Symbol)
    ensures s.name == name && s.value == value && s.relocatable == relocatable
    ensures !s.isImport && !s.isExport
  {
    Symbol(name, value, relocatable, false, false)
  }

  /** `new Symbol(name)`: an imported name, value 0 and absolute until resolved. */
  function ImportSymbol(name: string): (s: Symbol)
    ensures s.name == name && s.value == 0 && !s.relocatable
    ensures s.isImport && !s.isExport
  {
    Symbol(name, 0, false, true, false)
  }

  /** `setValue`: only the value changes. */
  function SetValue(s: Symbol, value: int): (r: Symbol)
    ensures r.value == value
    ensures r.name == s.name && r.relocatable == s.relocatable
    ensures r.isImport == s.isImport && r.isExport == s.isExport
  {
    s.(value := value)
  }

  /** `setExport`: only the export flag changes, and it is then set. */
  function SetExport(s: Symbol): (r: Symbol)
    ensures r.isExport
    ensures r.name == s.name && r.value == s.value && r.relocatable == s.relocatable
    ensures r.isImport == s.isImport
  {
    s.(isExport := true)
  }

  /** The table: symbols keyed by name. */
  datatype SymbolTable = SymbolTable(entries: map<string, Symbol>)

  const EmptyTable: SymbolTable := SymbolTable(map[])

  /** Every symbol is filed under its own name. */
  ghost predicate Valid(t: SymbolTable)
  {
    forall n | n in t.entries :: t.entries[n].name == n
  }

  /** `hasSymbol(name)`. */
  predicate HasSymbol(t: SymbolTable, name: string)
  {
    name in t.entries
  }

  /** `get(name)`: the symbol, or null (None) for an undefined name. */
  function Get(t: SymbolTable, name: string): (r: Option<Symbol>)
    ensures r.Some? <==> HasSymbol(t, name)
    ensures Valid(t) && r.Some? ==> r.value.name == name
  {
    if name in t.entries then Some(t.entries[name]) else None
  }

  /** `size()`. */
  function Size(t: SymbolTable): nat
  {
    |t.entries|
  }

  /** `define(symbol)`: files the symbol under its name, replacing any earlier one of that name. */
  function Define(t: SymbolTable, s: Symbol): (r: SymbolTable)
    ensures HasSymbol(r, s.name) && Get(r, s.name) == Some(s)
    ensures forall n | n != s.name :: Get(r, n) == Get(t, n)
    ensures Valid(t) ==> Valid(r)
  {
    SymbolTable(t.entries[s.name := s])
  }

  /**
   * `define(alias, target)`: a new local symbol named alias with the target's
   * value and relocatability. Aliasing a name to itself, or to an undefined
   * target, throws.
   */
  function DefineAlias(t: SymbolTable, alias: string, target: string): (r: Result<SymbolTable, Thrown>)
    ensures alias == target ==> r == Err(AliasToSelf(alias))
    ensures alias != target && !HasSymbol(t, target) ==> r == Err(AliasToUndefined(target))
    ensures r.Ok? <==> alias != target && HasSymbol(t, target)
    ensures r.Ok? ==>
      var a := Get(r.value, alias);
      && a.Some? && a.value.name == alias
      && a.value.value == t.entries[target].value
      && a.value.relocatable == t.entries[target].relocatable
      && !a.value.isImport && !a.value.isExport
      && Get(r.value, target) == Get(t, target)
      && (forall n | n != alias :: Get(r.value, n) == Get(t, n))
  {
    if alias == target then Err(AliasToSelf(alias))
    else match Get(t, target)
      case None => Err(AliasToUndefined(target))
      case Some(sym) => Ok(Define(t, NewSymbol(alias, sym.value, sym.relocatable)))
  }

  /** `get(name).setExport()`: the symbol filed under name becomes an export; nothing else changes. */
  function MarkExported(t: SymbolTable, name: string): (r: SymbolTable)
    requires HasSymbol(t, name)
    ensures Get(r, name) == Some(SetExport(t.entries[name]))
    ensures forall n | n != name :: Get(r, n) == Get(t, n)
    ensures r.entries.Keys == t.entries.Keys
  {
    SymbolTable(t.entries[name := SetExport(t.entries[name])])
  }

  /** Defining each symbol of ss in turn. */
  function DefineAll(t: SymbolTable, ss: seq<Symbol>): SymbolTable
  {
    if |ss| == 0 then t else Define(DefineAll(t, ss[..|ss| - 1]), ss[|ss| - 1])
  }

  /** The names of a sequence of symbols. */
  function Names(ss: seq<Symbol>): set<string>
  {
    set i | 0 <= i < |ss| :: ss[i].name
  }

  /**
   * After defining ss into an empty table, a name is defined iff some symbol
   * in ss has it, it maps to the last such symbol, and the size is the number
   * of distinct names.
   */
  lemma {:induction false} DefineAllContents(ss: seq<Symbol>)
    ensures var t := DefineAll(EmptyTable, ss);
      && t.entries.Keys == Names(ss)
      && Size(t) == |Names(ss)|
      && (forall i | 0 <= i < |ss| && LastOfName(ss, i) :: Get(t, ss[i].name) == Some(ss[i]))
  {
    if |ss| > 0 {
      var init := ss[..|ss| - 1];
      var last := ss[|ss| - 1];
      var t0 := DefineAll(EmptyTable, init);
      var t := DefineAll(EmptyTable, ss);
      DefineAllContents(init);
      NamesSnoc(ss);
      assert t == Define(t0, last);
      assert t.entries.Keys == t0.entries.Keys + {last.name};
      forall i | 0 <= i < |ss| && LastOfName(ss, i)
        ensures Get(t, ss[i].name) == Some(ss[i])
      {
        if i < |ss| - 1 {
          LastOfNameSnoc(ss, i);
        }
      }
    }
  }

  /** No later symbol in ss shares the name of symbol i. */
  predicate LastOfName(ss: seq<Symbol>, i: int)
    requires 0 <= i < |ss|
  {
    forall j | i < j < |ss| :: ss[j].name != ss[i].name
  }

  /** The names of ss are those of all but its last symbol, and the last one's. */
  lemma NamesSnoc(ss: seq<Symbol>)
    requires |ss| > 0
    ensures Names(ss) == Names(ss[..|ss| - 1]) + {ss[|ss| - 1].name}
  {
    var init := ss[..|ss| - 1];
    forall n | n in Names(ss) ensures n in Names(init) + {ss[|ss| - 1].name} {
      var i :| 0 <= i < |ss| && ss[i].name == n;
      if i < |ss| - 1 { assert init[i] == ss[i]; }
    }
    forall n | n in Names(init) ensures n in Names(ss) {
      var i :| 0 <= i < |init| && init[i].name == n;
      assert ss[i] == init[i];
    }
  }

  /** The last of its name before the final symbol stays the last of its name without it. */
  lemma LastOfNameSnoc(ss: seq<Symbol>, i: int)
    requires 0 <= i < |ss| - 1 && LastOfName(ss, i)
    ensures LastOfName(ss[..|ss| - 1], i) && ss[..|ss| - 1][i] == ss[i]
    ensures ss[i].name != ss[|ss| - 1].name
  {
  }

  /**
   * The relocation of a table by delta (SymbolTable.relocate, whose body is not
   * part of this model): every relocatable symbol's value moves by delta with
   * int wrap-around; absolute symbols and all names and flags stay.
   */
  function Relocate(t: SymbolTable, delta: int): (r: SymbolTable)
    ensures r.entries.Keys == t.entries.Keys
    ensures forall n | n in t.entries ::
      var s := t.entries[n];
      var s' := r.entries[n];
      && s'.name == s.name && s'.relocatable == s.relocatable
      && s'.isImport == s.isImport && s'.isExport == s.isExport
      && (s.relocatable ==> Cong32(s'.value, s.value + delta) && IsInt(s'.value))
      && (!s.relocatable ==> s'.value == s.value)
    ensures Valid(t) ==> Valid(r)
  {
    SymbolTable(map n | n in t.entries ::
      var s := t.entries[n];
      if s.relocatable then SetValue(s, Wrap32(s.value + delta)) else s)
  }
}
