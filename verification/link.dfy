/**
 * The linker's main loop: every object file is loaded (the first failure
 * stops everything); the first file's bank becomes the program, and each
 * later file has its symbol table relocated, its imports patched from all
 * the tables, its words relocated to just past the program's last address
 * and merged into the program.
 */
module Link {
  import opened Wrappers
  import opened Bits
  import opened JavaLang
  import opened Symbols
  import opened SymbolEntries
  import opened LinkerMemory
  import opened ObjectLoader

  /** The linked program: the start address and the merged bank, absent when no file was given. */
  datatype Linked = Linked(startAddress: int, bank: Option<Bank>)

  /** Why linking stopped: a file failed to load, or patching threw. */
  datatype LinkError = LoadFailed(errors: seq<LoadError>) | PatchFailed(thrown: Thrown)

  /** Collects the files' load results from index i on, stopping at the first failure. */
  function LoadAll(loads: seq<Result<ObjectFile, seq<LoadError>>>, i: nat): (r: Result<seq<ObjectFile>, seq<LoadError>>)
    requires i <= |loads|
    ensures r.Ok? ==> |r.value| == |loads| - i && forall j | 0 <= j < |r.value| :: loads[i + j] == Ok(r.value[j])
    decreases |loads| - i
  {
    if i == |loads| then Ok([])
    else
      var file :- loads[i];
      var rest :- LoadAll(loads, i + 1);
      Ok([file] + rest)
  }

  /** Loading all files fails exactly when one of them fails, and reports the first such file's errors. */
  lemma {:induction false} LoadAllFails(loads: seq<Result<ObjectFile, seq<LoadError>>>, i: nat)
    requires i <= |loads|
    ensures LoadAll(loads, i).Err? <==> exists j | i <= j < |loads| :: loads[j].Err?
    ensures LoadAll(loads, i).Err? ==> exists j | i <= j < |loads| ::
      loads[j].Err? && LoadAll(loads, i).error == loads[j].error &&
      forall l | i <= l < j :: loads[l].Ok?
    decreases |loads| - i
  {
    if i < |loads| {
      LoadAllFails(loads, i + 1);
      if loads[i].Ok? && LoadAll(loads, i + 1).Err? {
        var j :| i + 1 <= j < |loads| && loads[j].Err? && LoadAll(loads, i + 1).error == loads[j].error &&
          forall l | i + 1 <= l < j :: loads[l].Ok?;
        assert forall l | i <= l < j :: loads[l].Ok?;
      }
    }
  }

  /** Every file's load result, in order. */
  function LoadEach(data: seq<string>): (r: seq<Result<ObjectFile, seq<LoadError>>>)
    ensures |r| == |data| && forall j | 0 <= j < |data| :: r[j] == Load(data[j])
  {
    seq(|data|, j requires 0 <= j < |data| => Load(data[j]))
  }

  /** The symbol tables of the files, shared with the loop that relocates them. */
  function Tables(files: seq<ObjectFile>): (r: seq<SymbolTable>)
    ensures |r| == |files| && forall j | 0 <= j < |files| :: r[j] == files[j].symbols
  {
    seq(|files|, j requires 0 <= j < |files| => files[j].symbols)
  }

  /**
   * One later file: its table (in the shared list) is relocated to the address
   * past the program's last one, its imports are patched from all tables, and
   * its bank, relocated by its records, is merged into the program.
   */
  function Place(program: Bank, tables: seq<SymbolTable>, i: nat, f: ObjectFile): (r: Result<(Bank, seq<SymbolTable>), Thrown>)
    requires i < |tables|
    ensures r.Ok? ==> |r.value.1| == |tables|
  {
    var target := Wrap32(program.last + 1);
    // the table and the words move by b - a, with a = 0 and b = target
    var tables' := tables[i := Symbols.Relocate(tables[i], target)];
    match ResolveSymbols(f.memory, tables', f.symbolEntries)
    case Err(t) => Err(t)
    case Ok(resolved) => Ok((InsertInto(LinkerMemory.Relocate(resolved, 0, target, f.relocationRecords), program), tables'))
  }

  /** The loop over the later files (all but the first), from file i of the whole list on. */
  function LinkFrom(later: seq<ObjectFile>, tables: seq<SymbolTable>, i: nat, program: Bank): (r: Result<Bank, Thrown>)
    requires 1 <= i <= |later| + 1 && |tables| == |later| + 1
    decreases |later| + 1 - i
  {
    if i == |later| + 1 then Ok(program)
    else
      var (merged, tables') :- Place(program, tables, i, later[i - 1]);
      LinkFrom(later, tables', i + 1, merged)
  }

  /** The link loop: the first file is the base and supplies the start address. */
  function LinkFiles(files: seq<ObjectFile>): (r: Result<Linked, Thrown>)
  {
    if |files| == 0 then Ok(Linked(0, None))
    else
      var program :- LinkFrom(files[1..], Tables(files), 1, files[0].memory);
      Ok(Linked(files[0].startAddress, Some(program)))
  }

  /** The linker over the files' texts. */
  function Link(data: seq<string>): (r: Result<Linked, LinkError>)
  {
    match LoadAll(LoadEach(data), 0)
    case Err(errors) => Err(LoadFailed(errors))
    case Ok(files) =>
      match LinkFiles(files)
      case Err(t) => Err(PatchFailed(t))
      case Ok(linked) => Ok(linked)
  }

  // ---------------------------------------------------------------------------
  // Properties
  // ---------------------------------------------------------------------------

  /**
   * The program's start address is the first file's, and a lone file is taken
   * as it is: its own imports and relocation records are never applied.
   */
  lemma FirstFileIsBase(files: seq<ObjectFile>)
    requires |files| >= 1
    ensures LinkFiles(files).Ok? ==> LinkFiles(files).value.startAddress == files[0].startAddress
    ensures |files| == 1 ==> LinkFiles(files) == Ok(Linked(files[0].startAddress, Some(files[0].memory)))
  {
  }

  /**
   * Whatever number of files is linked, the first file's own imports and
   * relocation records play no part: replacing them changes nothing.
   */
  lemma FirstFileIgnoresOwnRecords(files: seq<ObjectFile>, entries: seq<SymbolEntry>, records: seq<SymbolEntry>)
    requires |files| >= 1
    ensures LinkFiles(files[0 := files[0].(symbolEntries := entries, relocationRecords := records)]) == LinkFiles(files)
  {
    var files' := files[0 := files[0].(symbolEntries := entries, relocationRecords := records)];
    assert files'[1..] == files[1..];
    assert Tables(files') == Tables(files);
  }

  /** Placing a later file fails exactly when one of its imports is defined by no table. */
  lemma PlaceFails(program: Bank, tables: seq<SymbolTable>, i: nat, f: ObjectFile)
    requires i < |tables|
    ensures var target := Wrap32(program.last + 1);
      var tables' := tables[i := Symbols.Relocate(tables[i], target)];
      && (Place(program, tables, i, f).Ok? <==> forall j | 0 <= j < |f.symbolEntries| :: Defined(tables', f.symbolEntries[j]))
      && (Place(program, tables, i, f).Ok? ==> Place(program, tables, i, f).value.1 == tables')
  {
    var target := Wrap32(program.last + 1);
    var tables' := tables[i := Symbols.Relocate(tables[i], target)];
    PlaceSteps(program, tables, i, f, target, tables');
    ResolveFromOk(f.memory, tables', f.symbolEntries, 0);
  }

  /** Placing a file is patching, then relocating, then merging. */
  lemma PlaceSteps(program: Bank, tables: seq<SymbolTable>, i: nat, f: ObjectFile, target: int, tables': seq<SymbolTable>)
    requires i < |tables|
    requires target == Wrap32(program.last + 1)
    requires tables' == tables[i := Symbols.Relocate(tables[i], target)]
    ensures ResolveSymbols(f.memory, tables', f.symbolEntries).Err? ==>
      Place(program, tables, i, f) == Err(ResolveSymbols(f.memory, tables', f.symbolEntries).error)
    ensures ResolveSymbols(f.memory, tables', f.symbolEntries).Ok? ==>
      Place(program, tables, i, f) ==
      Ok((InsertInto(LinkerMemory.Relocate(ResolveSymbols(f.memory, tables', f.symbolEntries).value, 0, target, f.relocationRecords), program), tables'))
  {
  }

  /**
   * Relocating from address 0 to target is moving a record-patched copy of the
   * bank by target, where the patched copy still has every word no record
   * names and lacks every address neither the bank nor a record had.
   */
  lemma RelocateFromZero(resolved: Bank, target: int, records: seq<SymbolEntry>, k: int, a: int) returns (patched: Bank)
    requires IsInt(target)
    ensures LinkerMemory.Relocate(resolved, 0, target, records) == Move(patched, target)
    ensures k in resolved.data && Untouched(records, 0, k) ==> k in patched.data && Read(patched, k) == Read(resolved, k)
    ensures a !in resolved.data && Untouched(records, 0, a) ==> a !in patched.data
  {
    assert Wrap32(target - 0) == target;
    patched := RelocateRecords(resolved, target, records, 0);
    if k in resolved.data && Untouched(records, 0, k) {
      RelocateRecordsKeepKeys(resolved, target, records, 0);
      RelocateRecordsKeeps(resolved, target, records, 0, k);
    }
    if a !in resolved.data && Untouched(records, 0, a) {
      RecordsKeepOut(resolved, target, records, 0, a);
    }
  }

  /** Moving by delta takes the word at k to k + delta. */
  lemma MoveWord(patched: Bank, delta: int, k: int)
    requires k in patched.data
    ensures k + delta in Move(patched, delta).data && Read(Move(patched, delta), k + delta) == Read(patched, k)
  {
    ShiftAt(patched.data, delta, k);
  }

  /** Moving by delta leaves k + delta empty when nothing was at k. */
  lemma MoveHole(patched: Bank, delta: int, k: int)
    requires k !in patched.data
    ensures k + delta !in Move(patched, delta).data
  {
    ShiftAt(patched.data, delta, k);
  }

  /** Merging a relocated bank into the program: a word no relocation record names lands at its address plus target. */
  lemma MergedWord(program: Bank, resolved: Bank, target: int, records: seq<SymbolEntry>, k: int)
    requires IsInt(target) && k in resolved.data && Untouched(records, 0, k)
    ensures Read(InsertInto(LinkerMemory.Relocate(resolved, 0, target, records), program), k + target) == Read(resolved, k)
  {
    var patched := RelocateFromZero(resolved, target, records, k, k);
    MoveWord(patched, target, k);
    InsertIntoHas(Move(patched, target), program, k + target);
  }

  /** Merging a relocated bank into the program keeps the program's word where neither the bank nor a record reaches. */
  lemma MergedHole(program: Bank, resolved: Bank, target: int, records: seq<SymbolEntry>, k: int)
    requires IsInt(target) && k !in resolved.data && Untouched(records, 0, k)
    ensures Read(InsertInto(LinkerMemory.Relocate(resolved, 0, target, records), program), k + target) == Read(program, k + target)
  {
    var patched := RelocateFromZero(resolved, target, records, k, k);
    MoveHole(patched, target, k);
    InsertIntoLacks(Move(patched, target), program, k + target);
  }

  /**
   * Placing a later file merges the relocation of its patched bank, which
   * still has every word no import entry names and lacks every address
   * neither the file nor an entry had.
   */
  lemma Resolved(program: Bank, tables: seq<SymbolTable>, i: nat, f: ObjectFile, target: int, k: int, a: int) returns (resolved: Bank)
    requires i < |tables| && Place(program, tables, i, f).Ok?
    requires target == Wrap32(program.last + 1)
    ensures Place(program, tables, i, f).value.0 == InsertInto(LinkerMemory.Relocate(resolved, 0, target, f.relocationRecords), program)
    ensures k in f.memory.data && Untouched(f.symbolEntries, 0, k) ==> k in resolved.data && Read(resolved, k) == Read(f.memory, k)
    ensures a !in f.memory.data && Untouched(f.symbolEntries, 0, a) ==> a !in resolved.data
  {
    var tables' := tables[i := Symbols.Relocate(tables[i], target)];
    PlaceSteps(program, tables, i, f, target, tables');
    resolved := ResolveSymbols(f.memory, tables', f.symbolEntries).value;
    ResolveEntriesKeepKeys(f.memory, tables', f.symbolEntries, 0);
    if k in f.memory.data && Untouched(f.symbolEntries, 0, k) {
      ResolveFromKeeps(f.memory, tables', f.symbolEntries, 0, k);
    }
    AddressesUntouched(f.symbolEntries, 0, a);
  }

  /**
   * Placing a later file moves each of its words that no import entry or
   * relocation record names from address k to k + target, where target is one
   * past the program's last address.
   */
  lemma PlaceMoves(program: Bank, tables: seq<SymbolTable>, i: nat, f: ObjectFile, target: int, k: int)
    requires i < |tables| && Place(program, tables, i, f).Ok?
    requires target == Wrap32(program.last + 1)
    requires k in f.memory.data && Untouched(f.symbolEntries, 0, k) && Untouched(f.relocationRecords, 0, k)
    ensures Read(Place(program, tables, i, f).value.0, k + target) == Read(f.memory, k)
  {
    var resolved := Resolved(program, tables, i, f, target, k, k);
    MergedWord(program, resolved, target, f.relocationRecords, k);
  }

  /**
   * Placing a later file keeps the program's word at every address k + target
   * the moved file does not reach: neither the file nor any of its import
   * entries or relocation records has address k.
   */
  lemma PlaceKeeps(program: Bank, tables: seq<SymbolTable>, i: nat, f: ObjectFile, target: int, k: int)
    requires i < |tables| && Place(program, tables, i, f).Ok?
    requires target == Wrap32(program.last + 1)
    requires k !in f.memory.data && Untouched(f.symbolEntries, 0, k) && Untouched(f.relocationRecords, 0, k)
    ensures Read(Place(program, tables, i, f).value.0, k + target) == Read(program, k + target)
  {
    var resolved := Resolved(program, tables, i, f, target, k, k);
    MergedHole(program, resolved, target, f.relocationRecords, k);
  }

  /** An address neither in the bank nor named by a record stays out of it through the record loop. */
  lemma {:induction false} RecordsKeepOut(b: Bank, delta: int, records: seq<SymbolEntry>, i: nat, x: int)
    requires i <= |records| && x !in b.data && Untouched(records, i, x)
    ensures x !in RelocateRecords(b, delta, records, i).data
    decreases |records| - i
  {
    if i < |records| {
      var e := records[i];
      var b' := Write(b, e.address, RelocateWord(Read(b, e.address), e, delta));
      assert RelocateRecords(b, delta, records, i) == RelocateRecords(b', delta, records, i + 1);
      RecordsKeepOut(b', delta, records, i + 1, x);
    }
  }

  /** The addresses the entries from index i on name. */
  function Addresses(entries: seq<SymbolEntry>, i: nat): (r: set<int>)
    requires i <= |entries|
    decreases |entries| - i
  {
    if i == |entries| then {} else {entries[i].address} + Addresses(entries, i + 1)
  }

  /** An address is outside the named ones exactly when no entry from index i on names it. */
  lemma {:induction false} AddressesUntouched(entries: seq<SymbolEntry>, i: nat, a: int)
    requires i <= |entries|
    ensures a !in Addresses(entries, i) <==> Untouched(entries, i, a)
    decreases |entries| - i
  {
    if i < |entries| {
      AddressesUntouched(entries, i + 1, a);
    }
  }

  /** Import patching stores only at the bank's addresses and the entries' own. */
  lemma {:induction false} ResolveEntriesKeepKeys(b: Bank, tables: seq<SymbolTable>, entries: seq<SymbolEntry>, i: nat)
    requires i <= |entries| && ResolveFrom(b, tables, entries, i).Ok?
    ensures ResolveFrom(b, tables, entries, i).value.data.Keys == b.data.Keys + Addresses(entries, i)
    decreases |entries| - i
  {
    if i < |entries| {
      var e := entries[i];
      var v := FindFrom(tables, e.symbol, 0, None).value;
      var b' := Write(b, e.address, Reinsert(Read(b, e.address), e, v));
      assert ResolveFrom(b, tables, entries, i) == ResolveFrom(b', tables, entries, i + 1);
      ResolveEntriesKeepKeys(b', tables, entries, i + 1);
    }
  }

  /** The record loop stores only at the bank's addresses and the records' own. */
  lemma {:induction false} RelocateRecordsKeepKeys(b: Bank, delta: int, records: seq<SymbolEntry>, i: nat)
    requires i <= |records|
    ensures RelocateRecords(b, delta, records, i).data.Keys == b.data.Keys + Addresses(records, i)
    decreases |records| - i
  {
    if i < |records| {
      var e := records[i];
      var b' := Write(b, e.address, RelocateWord(Read(b, e.address), e, delta));
      assert RelocateRecords(b, delta, records, i) == RelocateRecords(b', delta, records, i + 1);
      RelocateRecordsKeepKeys(b', delta, records, i + 1);
    }
  }

  /**
   * Placing file i relocates only table i of the shared list, so the imports
   * of file i are patched from tables where every later file's symbols are
   * still at their unrelocated values.
   */
  lemma PlaceTouchesOneTable(program: Bank, tables: seq<SymbolTable>, i: nat, f: ObjectFile)
    requires i < |tables| && Place(program, tables, i, f).Ok?
    ensures var tables' := Place(program, tables, i, f).value.1;
      forall j | 0 <= j < |tables| && j != i :: tables'[j] == tables[j]
  {
  }

  /** Linking stops with load errors exactly when some file fails to load, and then reports the first such file's. */
  lemma LinkFailures(data: seq<string>)
    ensures Link(data).Err? && Link(data).error.LoadFailed? <==> exists j | 0 <= j < |data| :: Load(data[j]).Err?
    ensures Link(data).Err? && Link(data).error.LoadFailed? ==> exists j | 0 <= j < |data| ::
      Load(data[j]).Err? && Link(data).error.errors == Load(data[j]).error
  {
    var loads := LoadEach(data);
    LoadAllFails(loads, 0);
    if LoadAll(loads, 0).Err? {
      var j :| 0 <= j < |loads| && loads[j].Err? && LoadAll(loads, 0).error == loads[j].error;
      assert Load(data[j]).Err?;
    }
  }
}
