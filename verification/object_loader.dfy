/**
 * The linker's object-file loader: reads the header, text, export, import and
 * end records of one object file into a memory bank, a symbol table and the
 * lists of import entries and relocation records, collecting every error; the
 * file loads only when no line produced an error.
 */
module ObjectLoader {
  import opened Wrappers
  import opened Bits
  import opened JavaLang
  import opened Symbols
  import opened SymbolEntries
  import opened LinkerMemory
  import ByteOperations

  const HeaderRecordLength := 15
  const TextRecordLength := 9
  const TextRecordModificationLength := 11
  const EndRecordLength := 5
  const ExportRecordMinLength := 7
  const MaxAddress := 65535

  /** What went wrong, in place of the message text. */
  datatype LoadErrorKind =
    | HeaderLength                     // a header record is not 15 characters
    | SegmentTooLarge                  // the first or last address is above 65535
    | TextOutOfRange(address: int)     // a text record outside [first, last]
    | BadModification                  // an 11-character text record not ending in M0 or M1
    | TextLength                       // a text record of neither 9 nor 11 characters
    | ExportLength                     // an export or import record under 7 characters
    | ExportKind                       // an export record's second character is not R or A
    | SymbolStart                      // a symbol name starts with x, R, # or =
    | SymbolChars                      // a symbol name holds a space or a comma
    | EndLength                        // an end record is not 5 characters
    | StartOutOfRange(address: int)    // the start address is outside [first, last]
    | BadRecordType                    // a line starts with none of H, T, X, I, E
    | Raised(thrown: Thrown)           // an exception caught for the line
    | MissingHeader                    // no header record
    | MissingEnd                       // no end record

  /** An error, with the line it belongs to when there is one. */
  datatype LoadError = LoadError(line: Option<int>, kind: LoadErrorKind)

  /** A loaded object file. */
  datatype ObjectFile = ObjectFile(
    symbolEntries: seq<SymbolEntry>,
    relocationRecords: seq<SymbolEntry>,
    symbols: SymbolTable,
    memory: Bank,
    relocatable: bool,
    startAddress: int,
    segmentName: string)

  /** The local variables of `load`. */
  datatype LoadState = LoadState(
    startAddress: int,
    firstAddress: int,
    lastAddress: int,
    lineNumber: int,
    hasHeader: bool,
    hasEnd: bool,
    relocatable: bool,
    errors: seq<LoadError>,
    symbols: SymbolTable,
    memory: Bank,
    symbolEntries: seq<SymbolEntry>,
    relocationRecords: seq<SymbolEntry>,
    segmentName: string)

  const Initial: LoadState :=
    LoadState(0, 0, 0, 1, false, false, false, [], EmptyTable, Empty, [], [], "")

  /** A record handler cut short by an exception: the state so far and what was thrown. */
  datatype Stop = Stop(st: LoadState, thrown: Thrown)

  /** Lifts a call that may throw into a handler, keeping the state reached before it. */
  function Try<T>(r: Result<T, Thrown>, st: LoadState): (o: Result<T, Stop>)
    ensures r.Ok? ==> o == Ok(r.value)
    ensures r.Err? ==> o == Err(Stop(st, r.error))
  {
    match r
    case Ok(v) => Ok(v)
    case Err(t) => Err(Stop(st, t))
  }

  /** Appends an error for the current line. */
  function AddError(st: LoadState, kind: LoadErrorKind): (r: LoadState)
    ensures r == st.(errors := st.errors + [LoadError(Some(st.lineNumber), kind)])
  {
    st.(errors := st.errors + [LoadError(Some(st.lineNumber), kind)])
  }

  /**
   * `validateSymbolName`: reading the first character of an empty name
   * throws; otherwise the name's fault, if it has one.
   */
  function ValidateSymbolName(name: string): (r: Result<Option<LoadErrorKind>, Thrown>)
    ensures r.Err? <==> |name| == 0
    ensures r.Err? ==> r.error == IndexOutOfBounds
    ensures r == Ok(None) <==>
      |name| > 0 && name[0] !in {'x', 'R', '#', '='} && (forall i | 0 <= i < |name| :: name[i] != ' ' && name[i] != ',')
    ensures r.Ok? && r.value.Some? ==> r.value.value in {SymbolStart, SymbolChars}
  {
    if |name| == 0 then Err(IndexOutOfBounds)
    else if name[0] == 'x' || name[0] == 'R' || name[0] == '#' || name[0] == '=' then Ok(Some(SymbolStart))
    else if ' ' in name || ',' in name then Ok(Some(SymbolChars))
    else Ok(None)
  }

  /** A header record: length check, first address or MMMM, segment name, last address, range check. */
  function Header(st: LoadState, line: string): Result<LoadState, Stop>
  {
    var st1 := if |line| != HeaderRecordLength then AddError(st, HeaderLength) else st;
    var field :- Try(Substring(line, 7, 11), st1);
    var st2 :-
      if field == "MMMM" then Ok(st1.(relocatable := true))
      else
        var first :- Try(ByteOperations.ParseHex(field), st1);
        Ok(st1.(firstAddress := first));
    HeaderRest(st2, line)
  }

  /** The rest of a header record once the first address is read: name, length, range check. */
  function HeaderRest(st2: LoadState, line: string): Result<LoadState, Stop>
  {
    var name :- Try(Substring(line, 1, 7), st2);
    var st3 := st2.(segmentName := name);
    var lengthText :- Try(SubstringFrom(line, 11), st3);
    var length :- Try(ByteOperations.ParseHex(lengthText), st3);
    var st4 := st3.(lastAddress := Wrap32(st3.firstAddress + length - 1));
    var st5 :=
      if st4.firstAddress > MaxAddress || st4.lastAddress > MaxAddress then AddError(st4, SegmentTooLarge)
      else st4;
    Ok(st5.(hasHeader := true))
  }

  /**
   * A text record: the word is written whatever the range check says; an
   * 11-character record also adds a relocation record for bits 5..0 (M0) or
   * 16..0 (M1).
   */
  function Text(st: LoadState, line: string): Result<LoadState, Stop>
  {
    if |line| >= TextRecordLength then
      var address :- Try(ByteOperations.ParseHex(line[1..5]), st);
      var st1 :=
        if address < st.firstAddress || address > st.lastAddress then AddError(st, TextOutOfRange(address))
        else st;
      var value :- Try(ByteOperations.ParseHex(line[5..9]), st1);
      Ok(TextWord(st1, line, address, value))
    else Ok(AddError(st, TextLength))
  }

  /** The rest of a text record once both fields are read: the write, then the modification or length check. */
  function TextWord(st: LoadState, line: string, address: int, value: int): (r: LoadState)
    requires |line| >= TextRecordLength
    ensures st.errors <= r.errors && r.hasHeader == st.hasHeader && r.hasEnd == st.hasEnd
  {
    var st1 := st.(memory := Write(st.memory, address, Wrap16(value)));
    if |line| == TextRecordModificationLength then
      var isShortRecord := line[10] == '0';
      var isLongRecord := line[10] == '1';
      if line[9] != 'M' || (!isShortRecord && !isLongRecord) then AddError(st1, BadModification)
      else st1.(relocationRecords := st1.relocationRecords + [RelocationRecord(address, if isShortRecord then 5 else 16, 0)])
    else if |line| != TextRecordLength then AddError(st1, TextLength)
    else st1
  }

  /**
   * An export record: a bad kind character is reported but the symbol is
   * still defined (as absolute); a bad name is reported instead of defining.
   */
  function Export(st: LoadState, line: string): Result<LoadState, Stop>
  {
    if |line| < ExportRecordMinLength then Ok(AddError(st, ExportLength))
    else
      var st1 := if line[1] != 'R' && line[1] != 'A' then AddError(st, ExportKind) else st;
      var name := line[6..];
      var fault :- Try(ValidateSymbolName(name), st1);
      if fault.Some? then Ok(AddError(st1, fault.value))
      else
        var value :- Try(ByteOperations.ParseHex(line[2..6]), st1);
        Ok(st1.(symbols := Define(st1.symbols, NewSymbol(name, value, line[1] == 'R'))))
  }

  /** An import record: address, msb and lsb digits, then the name from the eighth character on. */
  function Import(st: LoadState, line: string): Result<LoadState, Stop>
  {
    if |line| < ExportRecordMinLength then Ok(AddError(st, ExportLength))
    else
      var name := line[7..];
      var fault :- Try(ValidateSymbolName(name), st);
      if fault.Some? then Ok(AddError(st, fault.value))
      else ImportEntry(st, line, name)
  }

  /** The fields of an import record whose name is valid: address, msb and lsb. */
  function ImportEntry(st: LoadState, line: string, name: string): Result<LoadState, Stop>
    requires |line| >= ExportRecordMinLength
  {
    var address :- Try(ByteOperations.ParseHex(line[1..5]), st);
    var msb :- Try(ByteOperations.ParseHex(line[5..6]), st);
    var lsb :- Try(ByteOperations.ParseHex(line[6..7]), st);
    Ok(st.(symbolEntries := st.symbolEntries + [NewEntry(name, address, msb, lsb)]))
  }

  /** An end record: the start address is taken even when the length or range check fails. */
  function End(st: LoadState, line: string): Result<LoadState, Stop>
    requires |line| >= 1
  {
    var st1 := if |line| != EndRecordLength then AddError(st, EndLength) else st;
    var start :- Try(ByteOperations.ParseHex(line[1..]), st1);
    var st2 := st1.(startAddress := start);
    var st3 :=
      if start < st2.firstAddress || start > st2.lastAddress then AddError(st2, StartOutOfRange(start))
      else st2;
    Ok(st3.(hasEnd := true))
  }

  /** The record a non-empty trimmed line holds, chosen by its first character. */
  function Record(st: LoadState, line: string): Result<LoadState, Stop>
    requires |line| >= 1
  {
    match line[0]
    case 'H' => Header(st, line)
    case 'T' => Text(st, line)
    case 'X' => Export(st, line)
    case 'I' => Import(st, line)
    case 'E' => End(st, line)
    case _ => Ok(AddError(st, BadRecordType))
  }

  /**
   * One pass of the line loop: a blank line is skipped without counting it;
   * otherwise the record is handled, an exception becomes an error for the
   * line, and the line number advances.
   */
  function Step(st: LoadState, raw: string): LoadState
  {
    var line := Trim(raw);
    if |line| == 0 then st
    else
      var handled :=
        match Record(st, line)
        case Ok(s) => s
        case Err(stop) => AddError(stop.st, Raised(stop.thrown));
      handled.(lineNumber := handled.lineNumber + 1)
  }

  /** The line loop from line i on. */
  function LoadFrom(st: LoadState, lines: seq<string>, i: nat): LoadState
    requires i <= |lines|
    decreases |lines| - i
  {
    if i == |lines| then st else LoadFrom(Step(st, lines[i]), lines, i + 1)
  }

  /** After the loop: the missing-record checks, then all or nothing. */
  function Finish(st: LoadState): Result<ObjectFile, seq<LoadError>>
  {
    var e1 := if !st.hasHeader then st.errors + [LoadError(None, MissingHeader)] else st.errors;
    var e2 := if !st.hasEnd then e1 + [LoadError(None, MissingEnd)] else e1;
    if |e2| > 0 then Err(e2)
    else Ok(ObjectFile(st.symbolEntries, st.relocationRecords, st.symbols, st.memory,
                       st.relocatable, st.startAddress, st.segmentName))
  }

  /** The loader over the lines of a file. */
  function LoadLines(lines: seq<string>): Result<ObjectFile, seq<LoadError>>
  {
    Finish(LoadFrom(Initial, lines, 0))
  }

  /** `load(data)`: the file is split at line feeds (trailing empty lines dropped). */
  function Load(data: string): Result<ObjectFile, seq<LoadError>>
  {
    LoadLines(SplitLines(data))
  }

  // ---------------------------------------------------------------------------
  // Record handlers
  // ---------------------------------------------------------------------------

  /**
   * A text record of at least nine characters whose two hex fields parse:
   * the word is written (narrowed to a short) even when its address is out of
   * range, the range error is reported exactly when it is out of range, and a
   * relocation record is added exactly for an 11-character record ending in
   * M0 (bits 5..0) or M1 (bits 16..0); any other length but 9 is reported.
   */
  lemma TextRecordSpec(st: LoadState, line: string, address: int, value: int)
    requires |line| >= TextRecordLength
    requires ByteOperations.ParseHex(line[1..5]) == Ok(address)
    requires ByteOperations.ParseHex(line[5..9]) == Ok(value)
    ensures Text(st, line).Ok?
    ensures var r := Text(st, line).value;
      var outside := address < st.firstAddress || address > st.lastAddress;
      var modified := |line| == TextRecordModificationLength && line[9] == 'M' && (line[10] == '0' || line[10] == '1');
      var rangeErrors := if outside then [LoadError(Some(st.lineNumber), TextOutOfRange(address))] else [];
      && r.memory == Write(st.memory, address, Wrap16(value))
      && (modified ==>
            && r.errors == st.errors + rangeErrors
            && r.relocationRecords == st.relocationRecords + [RelocationRecord(address, if line[10] == '0' then 5 else 16, 0)])
      && (!modified ==> r.relocationRecords == st.relocationRecords)
      && (!modified && |line| == TextRecordModificationLength ==>
            r.errors == st.errors + rangeErrors + [LoadError(Some(st.lineNumber), BadModification)])
      && (|line| != TextRecordModificationLength && |line| != TextRecordLength ==>
            r.errors == st.errors + rangeErrors + [LoadError(Some(st.lineNumber), TextLength)])
      && (|line| == TextRecordLength ==> r.errors == st.errors + rangeErrors)
      && r.symbols == st.symbols && r.symbolEntries == st.symbolEntries && r.hasHeader == st.hasHeader
      && r.hasEnd == st.hasEnd
  {
  }

  /** A header whose address field is MMMM makes the file relocatable and leaves the first address as it was. */
  lemma RelocatableHeader(st: LoadState, line: string, length: int)
    requires |line| == HeaderRecordLength && line[7..11] == "MMMM"
    requires ByteOperations.ParseHex(line[11..]) == Ok(length)
    ensures Header(st, line).Ok?
    ensures var r := Header(st, line).value;
      && r.relocatable && r.hasHeader && r.firstAddress == st.firstAddress
      && r.segmentName == line[1..7]
      && r.lastAddress == Wrap32(st.firstAddress + length - 1)
      && (r.errors == st.errors <==> st.firstAddress <= MaxAddress && r.lastAddress <= MaxAddress)
  {
  }

  /**
   * An export record whose kind character is neither R nor A is reported, yet
   * its symbol is still defined, as absolute.
   */
  lemma ExportKindStillDefines(st: LoadState, line: string, value: int)
    requires |line| >= ExportRecordMinLength && line[1] != 'R' && line[1] != 'A'
    requires ValidateSymbolName(line[6..]) == Ok(None)
    requires ByteOperations.ParseHex(line[2..6]) == Ok(value)
    ensures Export(st, line).Ok?
    ensures var r := Export(st, line).value;
      && r.errors == st.errors + [LoadError(Some(st.lineNumber), ExportKind)]
      && Get(r.symbols, line[6..]) == Some(NewSymbol(line[6..], value, false))
  {
  }

  /**
   * A well-formed export record defines the name from its seventh character
   * on, with the value of its four address digits, relocatable exactly when
   * its kind character is R; nothing is reported and no other name changes.
   */
  lemma ExportDefines(st: LoadState, line: string, value: int)
    requires |line| >= ExportRecordMinLength && line[0] == 'X' && (line[1] == 'R' || line[1] == 'A')
    requires ValidateSymbolName(line[6..]) == Ok(None)
    requires ByteOperations.ParseHex(line[2..6]) == Ok(value)
    ensures Record(st, line).Ok?
    ensures var r := Record(st, line).value;
      && r.errors == st.errors
      && Get(r.symbols, line[6..]) == Some(NewSymbol(line[6..], value, line[1] == 'R'))
      && (forall n | n != line[6..] :: Get(r.symbols, n) == Get(st.symbols, n))
      && r == st.(symbols := r.symbols)
  {
  }

  /**
   * A well-formed import record appends one entry to the symbol entries: the
   * name from its eighth character on, the address of its four digits after
   * the I, and the msb and lsb of the two digits after those; nothing else
   * changes.
   */
  lemma ImportAddsEntry(st: LoadState, line: string, address: int, msb: int, lsb: int)
    requires |line| >= ExportRecordMinLength && line[0] == 'I'
    requires ValidateSymbolName(line[7..]) == Ok(None)
    requires ByteOperations.ParseHex(line[1..5]) == Ok(address)
    requires ByteOperations.ParseHex(line[5..6]) == Ok(msb)
    requires ByteOperations.ParseHex(line[6..7]) == Ok(lsb)
    ensures Record(st, line).Ok?
    ensures var r := Record(st, line).value;
      && r.symbolEntries == st.symbolEntries + [NewEntry(line[7..], address, msb, lsb)]
      && r == st.(symbolEntries := r.symbolEntries)
  {
  }

  /** An import record of exactly seven characters has an empty name, and reading its first character throws. */
  lemma ImportEmptyName(st: LoadState, line: string)
    requires |line| == ExportRecordMinLength && line[0] == 'I' && !IsBlank(line[6]) && !IsBlank(line[0])
    ensures Record(st, line) == Err(Stop(st, IndexOutOfBounds))
    ensures Step(st, line).errors == st.errors + [LoadError(Some(st.lineNumber), Raised(IndexOutOfBounds))]
  {
    TrimOf(line);
  }

  /** A line with no blank at either end is its own trimmed text. */
  lemma TrimOf(line: string)
    requires |line| > 0 && !IsBlank(line[0]) && !IsBlank(line[|line| - 1])
    ensures Trim(line) == line
  {
  }

  /** A blank line changes nothing, not even the line number. */
  lemma BlankLineSkipped(st: LoadState, raw: string)
    requires forall i | 0 <= i < |raw| :: IsBlank(raw[i])
    ensures Step(st, raw) == st
  {
  }

  // ---------------------------------------------------------------------------
  // The whole file
  // ---------------------------------------------------------------------------

  /** A line holds a header record. */
  predicate IsHeaderLine(raw: string)
  {
    var line := Trim(raw);
    |line| > 0 && line[0] == 'H'
  }

  /** A line holds an end record. */
  predicate IsEndLine(raw: string)
  {
    var line := Trim(raw);
    |line| > 0 && line[0] == 'E'
  }

  /** The state a handler leaves, whether it finished or threw. */
  function Reached(r: Result<LoadState, Stop>): LoadState
  {
    match r
    case Ok(s) => s
    case Err(stop) => stop.st
  }

  /** A handler kept the errors so far and, unless allowed, both flags. */
  predicate Kept(st: LoadState, r: Result<LoadState, Stop>, header: bool, end: bool)
  {
    var s := Reached(r);
    && st.errors <= s.errors
    && (header || s.hasHeader == st.hasHeader)
    && (end || s.hasEnd == st.hasEnd)
  }

  lemma HeaderKept(st: LoadState, line: string)
    ensures Kept(st, Header(st, line), true, false)
  {
    var st1 := if |line| != HeaderRecordLength then AddError(st, HeaderLength) else st;
    var field := Substring(line, 7, 11);
    if field.Ok? && field.value == "MMMM" {
      HeaderRestKept(st1.(relocatable := true), line);
    } else if field.Ok? && ByteOperations.ParseHex(field.value).Ok? {
      HeaderRestKept(st1.(firstAddress := ByteOperations.ParseHex(field.value).value), line);
    }
  }

  lemma HeaderRestKept(st2: LoadState, line: string)
    ensures Kept(st2, HeaderRest(st2, line), true, false)
  {
  }

  lemma TextKept(st: LoadState, line: string)
    ensures Kept(st, Text(st, line), false, false)
  {
  }

  lemma ExportKept(st: LoadState, line: string)
    ensures Kept(st, Export(st, line), false, false)
  {
  }

  lemma ImportKept(st: LoadState, line: string)
    ensures Kept(st, Import(st, line), false, false)
  {
    if |line| >= ExportRecordMinLength {
      ImportEntryKept(st, line, line[7..]);
    }
  }

  lemma ImportEntryKept(st: LoadState, line: string, name: string)
    requires |line| >= ExportRecordMinLength
    ensures Kept(st, ImportEntry(st, line, name), false, false)
  {
  }

  lemma EndKept(st: LoadState, line: string)
    requires |line| >= 1
    ensures Kept(st, End(st, line), false, true)
  {
  }

  /** A line's errors are kept; only header and end records set their flags. */
  lemma StepKeeps(st: LoadState, raw: string)
    ensures var r := Step(st, raw);
      && st.errors <= r.errors
      && (!IsHeaderLine(raw) ==> r.hasHeader == st.hasHeader)
      && (!IsEndLine(raw) ==> r.hasEnd == st.hasEnd)
  {
    var line := Trim(raw);
    if |line| > 0 {
      RecordKept(st, line);
      HandledKeeps(st, Record(st, line), line[0] == 'H', line[0] == 'E');
    }
  }

  /** Whichever record a line holds, its handler keeps the errors and the flags it does not own. */
  lemma RecordKept(st: LoadState, line: string)
    requires |line| > 0
    ensures Kept(st, Record(st, line), line[0] == 'H', line[0] == 'E')
  {
    HeaderKept(st, line);
    TextKept(st, line);
    ExportKept(st, line);
    ImportKept(st, line);
    EndKept(st, line);
  }

  /** Turning a throw into an error keeps what the handler kept. */
  lemma HandledKeeps(st: LoadState, out: Result<LoadState, Stop>, header: bool, end: bool)
    requires Kept(st, out, header, end)
    ensures var handled := match out case Ok(s) => s case Err(stop) => AddError(stop.st, Raised(stop.thrown));
      && st.errors <= handled.errors
      && (header || handled.hasHeader == st.hasHeader)
      && (end || handled.hasEnd == st.hasEnd)
  {
  }

  /** Errors only accumulate over the line loop, and the flags stay unset without their records. */
  lemma {:induction false} LoadFromKeeps(st: LoadState, lines: seq<string>, i: nat)
    requires i <= |lines|
    ensures var r := LoadFrom(st, lines, i);
      && st.errors <= r.errors
      && ((forall j | i <= j < |lines| :: !IsHeaderLine(lines[j])) ==> r.hasHeader == st.hasHeader)
      && ((forall j | i <= j < |lines| :: !IsEndLine(lines[j])) ==> r.hasEnd == st.hasEnd)
    decreases |lines| - i
  {
    if i < |lines| {
      StepKeeps(st, lines[i]);
      LoadFromKeeps(Step(st, lines[i]), lines, i + 1);
    }
  }

  /** The state after the first k lines. */
  function LoadPrefix(st: LoadState, lines: seq<string>, k: nat): LoadState
    requires k <= |lines|
  {
    if k == 0 then st else Step(LoadPrefix(st, lines, k - 1), lines[k - 1])
  }

  /** The loop from line 0 passes through the state reached after the first k lines. */
  lemma {:induction false} LoadFromSplit(st: LoadState, lines: seq<string>, k: nat)
    requires k <= |lines|
    ensures LoadFrom(st, lines, 0) == LoadFrom(LoadPrefix(st, lines, k), lines, k)
  {
    if k > 0 {
      LoadFromSplit(st, lines, k - 1);
      var p := LoadPrefix(st, lines, k - 1);
      var q := Step(p, lines[k - 1]);
      assert LoadFrom(p, lines, k - 1) == LoadFrom(q, lines, k);
      assert LoadPrefix(st, lines, k) == q;
    }
  }

  /**
   * All or nothing: an error on any line makes the whole load fail, and the
   * failure lists that error.
   */
  lemma LineErrorFails(lines: seq<string>, k: nat)
    requires k < |lines|
    ensures var before := LoadPrefix(Initial, lines, k);
      var after := Step(before, lines[k]);
      |after.errors| > |before.errors| ==>
        LoadLines(lines).Err? && after.errors[|before.errors|] in LoadLines(lines).error
  {
    var before := LoadPrefix(Initial, lines, k);
    var after := Step(before, lines[k]);
    LoadFromSplit(Initial, lines, k + 1);
    assert LoadPrefix(Initial, lines, k + 1) == after;
    LoadFromKeeps(after, lines, k + 1);
    var final := LoadFrom(Initial, lines, 0);
    if |after.errors| > |before.errors| {
      assert final.errors[|before.errors|] == after.errors[|before.errors|];
      FinishKeeps(final);
    }
  }

  /** A file without a header record fails, and says so. */
  lemma NoHeaderFails(lines: seq<string>)
    requires forall j | 0 <= j < |lines| :: !IsHeaderLine(lines[j])
    ensures LoadLines(lines).Err? && LoadError(None, MissingHeader) in LoadLines(lines).error
  {
    LoadFromKeeps(Initial, lines, 0);
  }

  /** A file without an end record fails, and says so. */
  lemma NoEndFails(lines: seq<string>)
    requires forall j | 0 <= j < |lines| :: !IsEndLine(lines[j])
    ensures LoadLines(lines).Err? && LoadError(None, MissingEnd) in LoadLines(lines).error
  {
    LoadFromKeeps(Initial, lines, 0);
  }

  /** The final checks report every error collected over the lines, first to last. */
  lemma FinishKeeps(st: LoadState)
    ensures Finish(st).Ok? <==> st.errors == [] && st.hasHeader && st.hasEnd
    ensures Finish(st).Err? ==> st.errors <= Finish(st).error
  {
  }

  // ---------------------------------------------------------------------------
  // Reading back the records the linker writes
  // ---------------------------------------------------------------------------

  /** A header record for an absolute segment: "H", the six-character name, the first address and the length. */
  function HeaderLine(name: string, first: int, length: int): string
  {
    "H" + name + ByteOperations.GetHex(first, 4) + ByteOperations.GetHex(length, 4)
  }

  /** An end record: "E" and the start address. */
  function EndLine(start: int): string
  {
    "E" + ByteOperations.GetHex(start, 4)
  }

  /** An absolute object file holding a bank's words as text records. */
  function ObjectLines(name: string, first: int, length: int, b: Bank, start: int): seq<string>
  {
    [HeaderLine(name, first, length)] + Records(b) + [EndLine(start)]
  }

  /** The segment fits the machine, every stored word lies in it, and so does the start address. */
  ghost predicate Fits(name: string, first: int, length: int, b: Bank, start: int)
  {
    && |name| == 6
    && 0 <= first && 0 <= length <= MaxAddress && first + length - 1 <= MaxAddress
    && Recordable(b)
    && (forall a | a in b.data :: first <= a <= first + length - 1)
    && first <= start <= first + length - 1
  }

  /**
   * Round trip: the object file that lists a bank's words between a header
   * and an end record loads without error, as an absolute segment with that
   * name and start address, no symbols, imports or relocations, and exactly
   * the bank's words.
   */
  lemma ObjectLinesLoad(name: string, first: int, length: int, b: Bank, start: int)
    requires Fits(name, first, length, b, start)
    ensures var r := LoadLines(ObjectLines(name, first, length, b, start));
      && r.Ok?
      && r.value.memory.data == b.data
      && r.value.startAddress == start
      && r.value.segmentName == name
      && !r.value.relocatable
      && r.value.symbols == EmptyTable
      && r.value.symbolEntries == [] && r.value.relocationRecords == []
  {
    var lines := ObjectLines(name, first, length, b, start);
    var last := first + length - 1;
    var keys := Sorted(b.data.Keys);
    assert |keys| == |Records(b)| by {
      assert |b.data.Keys| == |b.data|;
    }
    assert lines[0] == HeaderLine(name, first, length);
    HeaderStep(Initial, name, first, length);
    var st := Step(Initial, lines[0]);
    PrefixEmpty(b, keys);
    SortedSpec(b.data.Keys);
    ObjectLinesListed(name, first, length, b, start);
    RecordLoop(st, lines, name, first, length, last, b, keys, start, 1);
    LoadFromSplit(Initial, lines, 1);
    assert LoadPrefix(Initial, lines, 1) == st;
    var final := LoadFrom(st, lines, 1);
    assert LoadFrom(Initial, lines, 0) == final;
    FinishKeeps(final);
  }

  /** The state after the header and the first i - 1 text records. */
  ghost predicate Loaded(st: LoadState, name: string, first: int, last: int, data: map<int, int>)
  {
    && st.errors == [] && st.hasHeader && !st.hasEnd && !st.relocatable
    && st.firstAddress == first && st.lastAddress == last && st.segmentName == name
    && st.symbols == EmptyTable && st.symbolEntries == [] && st.relocationRecords == []
    && st.memory.data == data
  }

  /** The bank's words at the first n sorted addresses. */
  ghost function PrefixData(b: Bank, keys: seq<int>, n: nat): map<int, int>
    requires n <= |keys| && forall i | 0 <= i < |keys| :: keys[i] in b.data
  {
    map k | k in keys[..n] :: b.data[k]
  }

  lemma PrefixEmpty(b: Bank, keys: seq<int>)
    requires forall i | 0 <= i < |keys| :: keys[i] in b.data
    ensures PrefixData(b, keys, 0) == map[]
  {
  }

  lemma PrefixStep(b: Bank, keys: seq<int>, n: nat)
    requires n < |keys| && forall i | 0 <= i < |keys| :: keys[i] in b.data
    ensures PrefixData(b, keys, n + 1) == PrefixData(b, keys, n)[keys[n] := b.data[keys[n]]]
  {
    assert keys[..n + 1] == keys[..n] + [keys[n]];
  }

  lemma PrefixAll(b: Bank, keys: seq<int>)
    requires SortedOf(keys, b.data.Keys)
    ensures PrefixData(b, keys, |keys|) == b.data
  {
    assert keys[..|keys|] == keys;
    var m := PrefixData(b, keys, |keys|);
    assert forall k :: k in m <==> k in b.data;
  }

  /** A load that ended cleanly with the given name, words and start address, and nothing else. */
  ghost predicate Completed(r: LoadState, name: string, data: map<int, int>, start: int)
  {
    && r.errors == [] && r.hasHeader && r.hasEnd
    && r.memory.data == data && r.startAddress == start && r.segmentName == name && !r.relocatable
    && r.symbols == EmptyTable && r.symbolEntries == [] && r.relocationRecords == []
  }

  /** A text record as the next line writes its word and goes on with the line after. */
  lemma LoadTextLine(st: LoadState, lines: seq<string>, i: nat, address: int, value: int)
    requires i < |lines| && lines[i] == TextRecord(address, value)
    requires 0 <= address <= MaxAddress && IsShort(value)
    requires st.firstAddress <= address <= st.lastAddress
    ensures LoadFrom(st, lines, i) == LoadFrom(TextLoaded(st, address, value), lines, i + 1)
  {
    TextStep(st, address, value);
    LoadFromNext(st, lines, i, TextLoaded(st, address, value));
  }

  /** The loop from line i is the loop from line i + 1 after stepping over line i. */
  lemma LoadFromNext(st: LoadState, lines: seq<string>, i: nat, next: LoadState)
    requires i < |lines| && Step(st, lines[i]) == next
    ensures LoadFrom(st, lines, i) == LoadFrom(next, lines, i + 1)
  {
  }

  /** An end record as the last line sets the start address and ends the load. */
  lemma LoadEndLine(st: LoadState, lines: seq<string>, i: nat, start: int)
    requires i + 1 == |lines| && lines[i] == EndLine(start)
    requires 0 <= start <= MaxAddress && st.firstAddress <= start <= st.lastAddress
    ensures LoadFrom(st, lines, i) == st.(startAddress := start, hasEnd := true, lineNumber := st.lineNumber + 1)
  {
    EndStep(st, start);
    assert LoadFrom(st, lines, i) == LoadFrom(Step(st, lines[i]), lines, i + 1);
  }

  /** The state once a text record has written value at address. */
  function TextLoaded(st: LoadState, address: int, value: int): LoadState
  {
    st.(memory := Write(st.memory, address, value), lineNumber := st.lineNumber + 1)
  }

  /** Lines 1 to |keys| are the text records of the keys in order, and the end record follows. */
  ghost predicate Listed(lines: seq<string>, b: Bank, keys: seq<int>, start: int)
  {
    && |lines| == |keys| + 2
    && lines[|keys| + 1] == EndLine(start)
    && forall j | 1 <= j <= |keys| :: keys[j - 1] in b.data && lines[j] == TextRecord(keys[j - 1], b.data[keys[j - 1]])
  }

  /** A header, the bank's records and an end record list the bank's sorted addresses. */
  lemma ObjectLinesListed(name: string, first: int, length: int, b: Bank, start: int)
    ensures Listed(ObjectLines(name, first, length, b, start), b, Sorted(b.data.Keys), start)
  {
    var keys := Sorted(b.data.Keys);
    assert |b.data.Keys| == |b.data|;
    RecordsAt(b);
    Framed(HeaderLine(name, first, length), Records(b), EndLine(start));
  }

  /** Record j of a bank is the text record of its j-th sorted address. */
  lemma RecordsAt(b: Bank)
    ensures var keys := Sorted(b.data.Keys);
      && |Records(b)| == |keys|
      && forall j | 0 <= j < |keys| :: keys[j] in b.data && Records(b)[j] == TextRecord(keys[j], b.data[keys[j]])
  {
    assert |b.data.Keys| == |b.data|;
  }

  /** Positions in a sequence framed by one element on each side. */
  lemma Framed<T>(h: T, r: seq<T>, e: T)
    ensures |[h] + r + [e]| == |r| + 2 && ([h] + r + [e])[|r| + 1] == e
    ensures forall j | 1 <= j <= |r| :: ([h] + r + [e])[j] == r[j - 1]
  {
  }

  /** The text records from line i on, then the end record, finish the load. */
  lemma {:induction false} RecordLoop(st: LoadState, lines: seq<string>, name: string, first: int, length: int, last: int,
                                      b: Bank, keys: seq<int>, start: int, i: nat)
    requires Fits(name, first, length, b, start) && last == first + length - 1
    requires SortedOf(keys, b.data.Keys) && Listed(lines, b, keys, start)
    requires 1 <= i <= |keys| + 1
    requires Loaded(st, name, first, last, PrefixData(b, keys, i - 1))
    ensures Completed(LoadFrom(st, lines, i), name, b.data, start)
    decreases |lines| - i
  {
    if i == |keys| + 1 {
      RecordLoopEnd(st, lines, name, first, length, last, b, keys, start, i);
    } else {
      var k := RecordLoopText(st, lines, name, first, length, last, b, keys, start, i);
      LoadTextLine(st, lines, i, k, b.data[k]);
      LoadedGrows(st, name, first, last, b, keys, i);
      RecordLoop(TextLoaded(st, k, b.data[k]), lines, name, first, length, last, b, keys, start, i + 1);
    }
  }

  /** The end record after the last text record completes the load. */
  lemma RecordLoopEnd(st: LoadState, lines: seq<string>, name: string, first: int, length: int, last: int,
                      b: Bank, keys: seq<int>, start: int, i: nat)
    requires Fits(name, first, length, b, start) && last == first + length - 1
    requires SortedOf(keys, b.data.Keys) && Listed(lines, b, keys, start)
    requires i == |keys| + 1
    requires Loaded(st, name, first, last, PrefixData(b, keys, i - 1))
    ensures Completed(LoadFrom(st, lines, i), name, b.data, start)
  {
    LoadEndLine(st, lines, i, start);
    PrefixAll(b, keys);
  }

  /** Text record i holds the word at the i-th sorted address, and writing it grows the words so far. */
  lemma RecordLoopText(st: LoadState, lines: seq<string>, name: string, first: int, length: int, last: int,
                       b: Bank, keys: seq<int>, start: int, i: nat) returns (k: int)
    requires Fits(name, first, length, b, start) && last == first + length - 1
    requires SortedOf(keys, b.data.Keys) && Listed(lines, b, keys, start)
    requires 1 <= i <= |keys|
    requires Loaded(st, name, first, last, PrefixData(b, keys, i - 1))
    ensures k == keys[i - 1] && k in b.data && lines[i] == TextRecord(k, b.data[k])
    ensures 0 <= k <= MaxAddress && IsShort(b.data[k]) && st.firstAddress <= k <= st.lastAddress
  {
    k := keys[i - 1];
    KeyFits(name, first, length, b, start, k);
  }

  /** Writing the word at the i-th sorted address grows the words loaded so far by it. */
  lemma LoadedGrows(st: LoadState, name: string, first: int, last: int, b: Bank, keys: seq<int>, i: nat)
    requires 1 <= i <= |keys| && forall j | 0 <= j < |keys| :: keys[j] in b.data
    requires Loaded(st, name, first, last, PrefixData(b, keys, i - 1))
    ensures Loaded(TextLoaded(st, keys[i - 1], b.data[keys[i - 1]]), name, first, last, PrefixData(b, keys, i))
  {
    PrefixStep(b, keys, i - 1);
    LoadedWrite(st, name, first, last, PrefixData(b, keys, i - 1), keys[i - 1], b.data[keys[i - 1]]);
  }

  /** A stored word of a fitting segment is a short at an address inside the segment. */
  lemma KeyFits(name: string, first: int, length: int, b: Bank, start: int, k: int)
    requires Fits(name, first, length, b, start) && k in b.data
    ensures 0 <= first <= k <= first + length - 1 <= MaxAddress && IsShort(b.data[k])
  {
  }

  /** Writing a word to a cleanly loaded state adds it to the loaded words. */
  lemma LoadedWrite(st: LoadState, name: string, first: int, last: int, data: map<int, int>, k: int, v: int)
    requires Loaded(st, name, first, last, data)
    ensures Loaded(TextLoaded(st, k, v), name, first, last, data[k := v])
  {
  }

  /** Four hex digits of a value below 2^16 read back as it, and none of them is blank or 'M'. */
  lemma HexField(v: int)
    requires 0 <= v <= MaxAddress
    ensures var h := ByteOperations.GetHex(v, 4);
      && |h| == 4 && ByteOperations.ParseHex(h) == Ok(v)
      && (forall i | 0 <= i < 4 :: !IsBlank(h[i]) && h[i] != 'M')
  {
    var h := ByteOperations.GetHex(v, 4);
    HexWord(v);
    LowWord(v);
    ByteOperations.GetHexSpec(v, 4);
    LowerHexPlain(h);
  }

  /** Lower-case hex digits are neither blank nor 'M'. */
  lemma LowerHexPlain(h: string)
    requires HexText.IsLowerHexText(h)
    ensures forall i | 0 <= i < |h| :: !IsBlank(h[i]) && h[i] != 'M'
  {
  }

  /** A record line that trimming leaves alone is handled by the record its first character names. */
  lemma StepRecord(st: LoadState, line: string, r: LoadState)
    requires |line| > 0 && !IsBlank(line[0]) && !IsBlank(line[|line| - 1])
    requires Record(st, line) == Ok(r)
    ensures Step(st, line) == r.(lineNumber := r.lineNumber + 1)
  {
    TrimOf(line);
  }

  /** A line starting with 'T' is a text record. */
  lemma RecordText(st: LoadState, line: string)
    requires |line| >= 1 && line[0] == 'T'
    ensures Record(st, line) == Text(st, line)
  {
  }

  /** A line starting with 'E' is an end record. */
  lemma RecordEnd(st: LoadState, line: string)
    requires |line| >= 1 && line[0] == 'E'
    ensures Record(st, line) == End(st, line)
  {
  }

  /** The header handler on fields that read back. */
  lemma HeaderFields(st: LoadState, line: string, first: int, length: int)
    requires |line| == HeaderRecordLength && line[7..11] != "MMMM" && st == Initial
    requires ByteOperations.ParseHex(line[7..11]) == Ok(first)
    requires ByteOperations.ParseHex(line[11..]) == Ok(length)
    requires 0 <= first <= MaxAddress && 0 <= length <= MaxAddress && first + length - 1 <= MaxAddress
    ensures Header(st, line).Ok?
    ensures Loaded(Header(st, line).value, line[1..7], first, first + length - 1, map[])
  {
    assert Substring(line, 7, 11) == Ok(line[7..11]);
    assert Substring(line, 1, 7) == Ok(line[1..7]);
    assert SubstringFrom(line, 11) == Ok(line[11..]);
    assert Wrap32(first + length - 1) == first + length - 1;
  }

  lemma HeaderSlices(name: string, a: string, l: string)
    requires |name| == 6 && |a| == 4 && |l| == 4
    ensures var line := "H" + name + a + l;
      && |line| == HeaderRecordLength && line[0] == 'H'
      && line[1..7] == name && line[7..11] == a && line[11..] == l && line[14] == l[3]
  {
  }

  /** A header record for a segment that fits sets the addresses and name and reports nothing. */
  lemma HeaderStep(st: LoadState, name: string, first: int, length: int)
    requires |name| == 6 && 0 <= first <= MaxAddress && 0 <= length <= MaxAddress && first + length - 1 <= MaxAddress
    requires st == Initial
    ensures Loaded(Step(st, HeaderLine(name, first, length)), name, first, first + length - 1, map[])
  {
    var line := HeaderLine(name, first, length);
    var a := ByteOperations.GetHex(first, 4);
    var l := ByteOperations.GetHex(length, 4);
    HexField(first);
    HexField(length);
    HeaderSlices(name, a, l);
    assert a != "MMMM" by {
      assert a[0] != 'M';
    }
    HeaderFields(st, line, first, length);
    assert Record(st, line) == Header(st, line);
    StepRecord(st, line, Header(st, line).value);
  }

  /** The text handler on a nine-character record whose fields read back. */
  lemma TextFields(st: LoadState, line: string, address: int, value: int, parsed: int)
    requires |line| == TextRecordLength
    requires ByteOperations.ParseHex(line[1..5]) == Ok(address)
    requires ByteOperations.ParseHex(line[5..9]) == Ok(parsed) && Wrap16(parsed) == value
    requires st.firstAddress <= address <= st.lastAddress
    ensures Text(st, line) == Ok(st.(memory := Write(st.memory, address, value)))
  {
  }

  /** A text record is nine non-blank-ended characters whose fields read back. */
  lemma TextLineShape(address: int, value: int, line: string)
    requires 0 <= address <= MaxAddress && IsShort(value) && line == TextRecord(address, value)
    ensures |line| == TextRecordLength && line[0] == 'T' && !IsBlank(line[0]) && !IsBlank(line[8])
    ensures ByteOperations.ParseHex(line[1..5]) == Ok(address)
    ensures ByteOperations.ParseHex(line[5..9]).Ok? && Wrap16(ByteOperations.ParseHex(line[5..9]).value) == value
  {
    TextRecordReadBack(address, value);
    ByteOperations.GetHexSpec(value, 4);
    var h := ByteOperations.GetHex(value, 4);
    assert line == "T" + ByteOperations.GetHex(address, 4) + h;
    assert line[8] == h[3];
  }

  /** A text record inside the segment writes its word and reports nothing. */
  lemma TextStep(st: LoadState, address: int, value: int)
    requires 0 <= address <= MaxAddress && IsShort(value)
    requires st.firstAddress <= address <= st.lastAddress
    ensures Step(st, TextRecord(address, value)) ==
      st.(memory := Write(st.memory, address, value), lineNumber := st.lineNumber + 1)
  {
    TextLineShape(address, value, TextRecord(address, value));
    CleanTextStep(st, TextRecord(address, value), address, value);
  }

  /** A trimmed nine-character text record inside the segment whose fields read back writes its word. */
  lemma CleanTextStep(st: LoadState, line: string, address: int, value: int)
    requires |line| == TextRecordLength && line[0] == 'T' && !IsBlank(line[8])
    requires ByteOperations.ParseHex(line[1..5]) == Ok(address)
    requires ByteOperations.ParseHex(line[5..9]).Ok? && Wrap16(ByteOperations.ParseHex(line[5..9]).value) == value
    requires st.firstAddress <= address <= st.lastAddress
    ensures Step(st, line) == st.(memory := Write(st.memory, address, value), lineNumber := st.lineNumber + 1)
  {
    TextFields(st, line, address, value, ByteOperations.ParseHex(line[5..9]).value);
    RecordText(st, line);
    StepRecord(st, line, st.(memory := Write(st.memory, address, value)));
  }

  /** The end handler on a five-character record whose address reads back. */
  lemma EndFields(st: LoadState, line: string, start: int)
    requires |line| == EndRecordLength && ByteOperations.ParseHex(line[1..]) == Ok(start)
    requires st.firstAddress <= start <= st.lastAddress
    ensures End(st, line) == Ok(st.(startAddress := start, hasEnd := true))
  {
  }

  /** An end record is five non-blank-ended characters whose address reads back. */
  lemma EndLineShape(start: int, line: string)
    requires 0 <= start <= MaxAddress && line == EndLine(start)
    ensures |line| == EndRecordLength && line[0] == 'E' && !IsBlank(line[0]) && !IsBlank(line[4])
    ensures ByteOperations.ParseHex(line[1..]) == Ok(start)
  {
    var h := ByteOperations.GetHex(start, 4);
    HexField(start);
    assert line[1..] == h && |line| == 5 && line[4] == h[3];
  }

  /** An end record inside the segment sets the start address and reports nothing. */
  lemma EndStep(st: LoadState, start: int)
    requires 0 <= start <= MaxAddress && st.firstAddress <= start <= st.lastAddress
    ensures Step(st, EndLine(start)) == st.(startAddress := start, hasEnd := true, lineNumber := st.lineNumber + 1)
  {
    EndLineShape(start, EndLine(start));
    CleanEndStep(st, EndLine(start), start);
  }

  /** A trimmed five-character end record inside the segment whose address reads back ends the load. */
  lemma CleanEndStep(st: LoadState, line: string, start: int)
    requires |line| == EndRecordLength && line[0] == 'E' && !IsBlank(line[4])
    requires ByteOperations.ParseHex(line[1..]) == Ok(start)
    requires st.firstAddress <= start <= st.lastAddress
    ensures Step(st, line) == st.(startAddress := start, hasEnd := true, lineNumber := st.lineNumber + 1)
  {
    EndFields(st, line, start);
    RecordEnd(st, line);
    StepRecord(st, line, st.(startAddress := start, hasEnd := true));
  }
}
