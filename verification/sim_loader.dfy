/**
 * The simulator's loader: reads the header, text and end records of a linked
 * (absolute) object file into the machine's memory bank and returns the start
 * address. Every line's errors are collected and the load fails if there is
 * any, but the words already written stay in the bank.
 */
module SimLoader {
  import opened Wrappers
  import opened Bits
  import opened JavaLang
  import opened HexText
  import opened SimMemory
  import OL = ObjectLoader
  import LinkerMemory
  import ByteOperations
  import UtilByteOperations

  const HeaderRecordLength := 15
  const TextRecordLength := 9
  const EndRecordLength := 5
  const MaxAddress := 65535

  /** The local variables of `load`, with the bank it writes into. */
  datatype LoadState = LoadState(
    startAddress: int,
    firstAddress: int,
    lastAddress: int,
    lineNumber: int,
    hasHeader: bool,
    hasEnd: bool,
    errors: seq<OL.LoadError>,
    bank: Memory)

  /** The variables before the first line, over the caller's bank. */
  function Initial(bank: Memory): LoadState
  {
    LoadState(0, 0, 0, 1, false, false, [], bank)
  }

  /** A record handler cut short by an exception: the state so far and what was thrown. */
  datatype Stop = Stop(st: LoadState, thrown: Thrown)

  /** Lifts a call that may throw into a handler, keeping the state reached before it. */
  function Try<T>(r: Result<T, Thrown>, st: LoadState): (o: Result<T, Stop>)
    ensures r.Ok? ==> o == Ok(r.value)
    ensures r.Err? ==> o == Err(Stop(st, r.error))
  {
    match r
    case Ok(v) => Ok(v)
    case Err(t) => Err(Stop(st, t))
  }

  /** The error for the current line. */
  function LineError(st: LoadState, kind: OL.LoadErrorKind): OL.LoadError
  {
    OL.LoadError(Some(st.lineNumber), kind)
  }

  function AddError(st: LoadState, kind: OL.LoadErrorKind): LoadState
  {
    st.(errors := st.errors + [LineError(st, kind)])
  }

  /**
   * A header record: a wrong length is reported and reading goes on; the
   * first address is stored before the length is read, and the segment must
   * end at or below 65535.
   */
  function Header(st: LoadState, line: string): Result<LoadState, Stop>
  {
    var st1 := if |line| != HeaderRecordLength then AddError(st, OL.HeaderLength) else st;
    var firstText :- Try(Substring(line, 7, 11), st1);
    var first :- Try(UtilByteOperations.ParseHex(firstText), st1);
    var st2 := st1.(firstAddress := first);
    var lengthText :- Try(SubstringFrom(line, 11), st2);
    var length :- Try(UtilByteOperations.ParseHex(lengthText), st2);
    var st3 := st2.(lastAddress := Wrap32(first + length - 1));
    var st4 :=
      if st3.firstAddress > MaxAddress || st3.lastAddress > MaxAddress then AddError(st3, OL.SegmentTooLarge)
      else st3;
    Ok(st4.(hasHeader := true))
  }

  /**
   * A text record: a wrong length and an address outside the header's range
   * are reported, and the word (everything after the address, as a short) is
   * written all the same.
   */
  function Text(st: LoadState, line: string): Result<LoadState, Stop>
  {
    var st1 := if |line| != TextRecordLength then AddError(st, OL.TextLength) else st;
    var addressText :- Try(Substring(line, 1, 5), st1);
    var address :- Try(UtilByteOperations.ParseHex(addressText), st1);
    var st2 :=
      if address < st1.firstAddress || address > st1.lastAddress then AddError(st1, OL.TextOutOfRange(address))
      else st1;
    var valueText :- Try(SubstringFrom(line, 5), st2);
    var value :- Try(UtilByteOperations.ParseHex(valueText), st2);
    Ok(st2.(bank := Write(st2.bank, address, Wrap16(value))))
  }

  /** An end record: the start address is taken even when the length or range check fails. */
  function End(st: LoadState, line: string): Result<LoadState, Stop>
  {
    var st1 := if |line| != EndRecordLength then AddError(st, OL.EndLength) else st;
    var startText :- Try(SubstringFrom(line, 1), st1);
    var start :- Try(UtilByteOperations.ParseHex(startText), st1);
    var st2 := st1.(startAddress := start);
    var st3 :=
      if start < st2.firstAddress || start > st2.lastAddress then AddError(st2, OL.StartOutOfRange(start))
      else st2;
    Ok(st3.(hasEnd := true))
  }

  /** The record a non-empty trimmed line holds, chosen by its first character. */
  function Record(st: LoadState, line: string): Result<LoadState, Stop>
    requires |line| >= 1
  {
    match line[0]
    case 'H' => Header(st, line)
    case 'T' => Text(st, line)
    case 'E' => End(st, line)
    case _ => Ok(AddError(st, OL.BadRecordType))
  }

  /**
   * One pass of the line loop: a blank line is skipped without counting it;
   * otherwise the record is handled, an exception becomes an error for the
   * line, and the line number advances.
   */
  function Step(st: LoadState, raw: string): LoadState
  {
    var line := Trim(raw);
    if |line| == 0 then st
    else
      var handled :=
        match Record(st, line)
        case Ok(s) => s
        case Err(stop) => AddError(stop.st, OL.Raised(stop.thrown));
      handled.(lineNumber := handled.lineNumber + 1)
  }

  /** The line loop from line i on. */
  function LoadFrom(st: LoadState, lines: seq<string>, i: nat): LoadState
    requires i <= |lines|
    decreases |lines| - i
  {
    if i == |lines| then st else LoadFrom(Step(st, lines[i]), lines, i + 1)
  }

  /** After the loop: the missing-record checks, then the start address or every error. */
  function Finish(st: LoadState): Result<int, seq<OL.LoadError>>
  {
    var e1 := if !st.hasHeader then st.errors + [OL.LoadError(None, OL.MissingHeader)] else st.errors;
    var e2 := if !st.hasEnd then e1 + [OL.LoadError(None, OL.MissingEnd)] else e1;
    if |e2| > 0 then Err(e2) else Ok(st.startAddress)
  }

  /** What `load` leaves behind: the bank it wrote into, and the start address or the errors it throws. */
  datatype Loaded = Loaded(bank: Memory, outcome: Result<int, seq<OL.LoadError>>)

  /** The loader over the lines of a file, writing into the given bank. */
  function LoadLines(lines: seq<string>, bank: Memory): Loaded
  {
    var st := LoadFrom(Initial(bank), lines, 0);
    Loaded(st.bank, Finish(st))
  }

  /** `load(data, bank)`: the file is split at line feeds (trailing empty lines dropped). */
  function Load(data: string, bank: Memory): Loaded
  {
    LoadLines(SplitLines(data), bank)
  }

  // ---------------------------------------------------------------------------
  // Record handlers
  // ---------------------------------------------------------------------------

  /**
   * A header record of at least eleven characters whose two hex fields parse
   * sets the first address, the last address first + length - 1 (int
   * arithmetic) and the header flag, after reporting a length other than 15
   * and then a segment reaching above 65535.
   */
  lemma HeaderSpec(st: LoadState, line: string, first: int, length: int)
    requires |line| >= 11
    requires UtilByteOperations.ParseHex(line[7..11]) == Ok(first)
    requires UtilByteOperations.ParseHex(line[11..]) == Ok(length)
    ensures var last := Wrap32(first + length - 1);
      var lengthErrors := if |line| != HeaderRecordLength then [LineError(st, OL.HeaderLength)] else [];
      var rangeErrors := if first > MaxAddress || last > MaxAddress then [LineError(st, OL.SegmentTooLarge)] else [];
      Header(st, line) == Ok(st.(firstAddress := first, lastAddress := last, hasHeader := true,
                                 errors := st.errors + lengthErrors + rangeErrors))
  {
    assert Substring(line, 7, 11) == Ok(line[7..11]);
    assert SubstringFrom(line, 11) == Ok(line[11..]);
    var last := Wrap32(first + length - 1);
    var st1 := if |line| != HeaderRecordLength then AddError(st, OL.HeaderLength) else st;
    var st3 := st1.(firstAddress := first, lastAddress := last);
    if first > MaxAddress || last > MaxAddress {
      assert Header(st, line) == Ok(AddError(st3, OL.SegmentTooLarge).(hasHeader := true));
    } else {
      assert Header(st, line) == Ok(st3.(hasHeader := true));
    }
    NoErrors(st.errors);
    NoErrors(st1.errors);
  }

  /** Appending no errors leaves the list as it was. */
  lemma NoErrors(errors: seq<OL.LoadError>)
    ensures errors + [] == errors
  {
  }

  /**
   * A header record whose first address parses but whose length does not
   * still leaves the new first address behind when it throws.
   */
  lemma HeaderFirstAddressStays(st: LoadState, line: string, first: int)
    requires |line| >= 11
    requires UtilByteOperations.ParseHex(line[7..11]) == Ok(first)
    requires UtilByteOperations.ParseHex(line[11..]).Err?
    ensures Header(st, line).Err?
    ensures Header(st, line).error.st.firstAddress == first
    ensures !Header(st, line).error.st.hasHeader ==> !st.hasHeader
  {
    assert Substring(line, 7, 11) == Ok(line[7..11]);
  }

  /** A header record too short to hold a first address throws, after its length is reported. */
  lemma ShortHeaderThrows(st: LoadState, line: string)
    requires |line| < 11
    ensures Header(st, line) == Err(Stop(AddError(st, OL.HeaderLength), IndexOutOfBounds))
  {
  }

  /**
   * A text record of at least five characters whose fields parse writes its
   * word, as a short, whatever the checks say; a length other than 9 and an
   * address outside [first, last] are reported, in that order.
   */
  lemma TextSpec(st: LoadState, line: string, address: int, value: int)
    requires |line| >= 5
    requires UtilByteOperations.ParseHex(line[1..5]) == Ok(address)
    requires UtilByteOperations.ParseHex(line[5..]) == Ok(value)
    ensures var lengthErrors := if |line| != TextRecordLength then [LineError(st, OL.TextLength)] else [];
      var rangeErrors :=
        if address < st.firstAddress || address > st.lastAddress then [LineError(st, OL.TextOutOfRange(address))]
        else [];
      Text(st, line) == Ok(st.(bank := Write(st.bank, address, Wrap16(value)),
                               errors := st.errors + lengthErrors + rangeErrors))
  {
    assert Substring(line, 1, 5) == Ok(line[1..5]);
    assert SubstringFrom(line, 5) == Ok(line[5..]);
    NoErrors(st.errors);
    NoErrors(st.errors + if |line| != TextRecordLength then [LineError(st, OL.TextLength)] else []);
  }

  /**
   * An end record whose address parses sets the start address and the end
   * flag, after reporting a length other than 5 and then a start address
   * outside [first, last].
   */
  lemma EndSpec(st: LoadState, line: string, start: int)
    requires |line| >= 1
    requires UtilByteOperations.ParseHex(line[1..]) == Ok(start)
    ensures var lengthErrors := if |line| != EndRecordLength then [LineError(st, OL.EndLength)] else [];
      var rangeErrors :=
        if start < st.firstAddress || start > st.lastAddress then [LineError(st, OL.StartOutOfRange(start))]
        else [];
      End(st, line) == Ok(st.(startAddress := start, hasEnd := true,
                              errors := st.errors + lengthErrors + rangeErrors))
  {
    assert SubstringFrom(line, 1) == Ok(line[1..]);
    NoErrors(st.errors);
    NoErrors(st.errors + if |line| != EndRecordLength then [LineError(st, OL.EndLength)] else []);
  }

  /** A blank line changes nothing, not even the line number. */
  lemma BlankLineSkipped(st: LoadState, raw: string)
    requires forall i | 0 <= i < |raw| :: IsBlank(raw[i])
    ensures Step(st, raw) == st
  {
    TrimEmpty(raw);
  }

  /**
   * A line whose trimmed text starts with anything but H, T or E is reported
   * as such and otherwise only counted.
   */
  lemma BadRecordReported(st: LoadState, raw: string)
    requires var line := Trim(raw); |line| > 0 && line[0] !in {'H', 'T', 'E'}
    ensures Step(st, raw) == AddError(st, OL.BadRecordType).(lineNumber := st.lineNumber + 1)
  {
  }

  // ---------------------------------------------------------------------------
  // The whole file
  // ---------------------------------------------------------------------------

  /** A line holds a text record. */
  predicate IsTextLine(raw: string)
  {
    var line := Trim(raw);
    |line| > 0 && line[0] == 'T'
  }

  /** The state a handler leaves, whether it finished or threw. */
  function Reached(r: Result<LoadState, Stop>): LoadState
  {
    match r
    case Ok(s) => s
    case Err(stop) => stop.st
  }

  /** A handler kept the errors so far and, unless allowed, both flags and the bank. */
  predicate Kept(st: LoadState, r: Result<LoadState, Stop>, header: bool, text: bool, end: bool)
  {
    var s := Reached(r);
    && st.errors <= s.errors
    && (header || s.hasHeader == st.hasHeader)
    && (text || s.bank == st.bank)
    && (end || s.hasEnd == st.hasEnd)
  }

  lemma HeaderKept(st: LoadState, line: string)
    ensures Kept(st, Header(st, line), true, false, false)
  {
    HeaderErrorsGrow(st, line);
  }

  /** The header handler adds at most a length error and a range error to the errors so far. */
  lemma HeaderErrorsGrow(st: LoadState, line: string)
    ensures st.errors <= Reached(Header(st, line)).errors
  {
    var st1 := if |line| != HeaderRecordLength then AddError(st, OL.HeaderLength) else st;
    var r := Reached(Header(st, line));
    var extra := [OL.LoadError(Some(st1.lineNumber), OL.SegmentTooLarge)];
    assert r.errors == st1.errors || r.errors == st1.errors + extra;
    var e1 := if |line| != HeaderRecordLength then [OL.LoadError(Some(st.lineNumber), OL.HeaderLength)] else [];
    assert st1.errors == st.errors + e1;
    Grows(st.errors, e1);
    Grows(st1.errors, extra);
  }

  /** Appending keeps what was there as a prefix. */
  lemma Grows(a: seq<OL.LoadError>, b: seq<OL.LoadError>)
    ensures a <= a + b
  {
  }

  lemma TextKept(st: LoadState, line: string)
    ensures Kept(st, Text(st, line), false, true, false)
  {
  }

  lemma EndKept(st: LoadState, line: string)
    ensures Kept(st, End(st, line), false, false, true)
  {
  }

  /** A line's errors are kept; only header, text and end records set their flag or the bank. */
  lemma StepKeeps(st: LoadState, raw: string)
    ensures var r := Step(st, raw);
      && st.errors <= r.errors
      && (!OL.IsHeaderLine(raw) ==> r.hasHeader == st.hasHeader)
      && (!IsTextLine(raw) ==> r.bank == st.bank)
      && (!OL.IsEndLine(raw) ==> r.hasEnd == st.hasEnd)
  {
    var line := Trim(raw);
    if |line| > 0 {
      var c := line[0];
      HeaderKept(st, line);
      TextKept(st, line);
      EndKept(st, line);
      var out := Record(st, line);
      assert Kept(st, out, c == 'H', c == 'T', c == 'E');
      var handled := match out case Ok(s) => s case Err(stop) => AddError(stop.st, OL.Raised(stop.thrown));
      assert Reached(out).errors <= handled.errors;
    }
  }

  /** Errors only accumulate over the line loop; flags and bank stay put without their records. */
  lemma {:induction false} LoadFromKeeps(st: LoadState, lines: seq<string>, i: nat)
    requires i <= |lines|
    ensures var r := LoadFrom(st, lines, i);
      && st.errors <= r.errors
      && ((forall j | i <= j < |lines| :: !OL.IsHeaderLine(lines[j])) ==> r.hasHeader == st.hasHeader)
      && ((forall j | i <= j < |lines| :: !IsTextLine(lines[j])) ==> r.bank == st.bank)
      && ((forall j | i <= j < |lines| :: !OL.IsEndLine(lines[j])) ==> r.hasEnd == st.hasEnd)
    decreases |lines| - i
  {
    if i < |lines| {
      StepKeeps(st, lines[i]);
      LoadFromKeeps(Step(st, lines[i]), lines, i + 1);
    }
  }

  /** The state after the first k lines. */
  function LoadPrefix(st: LoadState, lines: seq<string>, k: nat): LoadState
    requires k <= |lines|
  {
    if k == 0 then st else Step(LoadPrefix(st, lines, k - 1), lines[k - 1])
  }

  /** The loop from line 0 passes through the state reached after the first k lines. */
  lemma {:induction false} LoadFromSplit(st: LoadState, lines: seq<string>, k: nat)
    requires k <= |lines|
    ensures LoadFrom(st, lines, 0) == LoadFrom(LoadPrefix(st, lines, k), lines, k)
  {
    if k > 0 {
      LoadFromSplit(st, lines, k - 1);
      var p := LoadPrefix(st, lines, k - 1);
      var q := Step(p, lines[k - 1]);
      assert LoadFrom(p, lines, k - 1) == LoadFrom(q, lines, k);
      assert LoadPrefix(st, lines, k) == q;
    }
  }

  /** The final checks succeed exactly without errors and with both records, and report every error. */
  lemma FinishKeeps(st: LoadState)
    ensures Finish(st).Ok? <==> st.errors == [] && st.hasHeader && st.hasEnd
    ensures Finish(st).Ok? ==> Finish(st).value == st.startAddress
    ensures Finish(st).Err? ==> st.errors <= Finish(st).error
  {
  }

  /**
   * All or nothing: an error on any line makes the whole load fail, and the
   * failure lists that error.
   */
  lemma LineErrorFails(lines: seq<string>, bank: Memory, k: nat)
    requires k < |lines|
    ensures var before := LoadPrefix(Initial(bank), lines, k);
      var after := Step(before, lines[k]);
      |after.errors| > |before.errors| ==>
        LoadLines(lines, bank).outcome.Err? && after.errors[|before.errors|] in LoadLines(lines, bank).outcome.error
  {
    var before := LoadPrefix(Initial(bank), lines, k);
    var after := Step(before, lines[k]);
    LoadFromSplit(Initial(bank), lines, k + 1);
    assert LoadPrefix(Initial(bank), lines, k + 1) == after;
    LoadFromKeeps(after, lines, k + 1);
    var final := LoadFrom(Initial(bank), lines, 0);
    if |after.errors| > |before.errors| {
      assert final.errors[|before.errors|] == after.errors[|before.errors|];
      FinishKeeps(final);
    }
  }

  /** A file without a header record fails, and says so. */
  lemma NoHeaderFails(lines: seq<string>, bank: Memory)
    requires forall j | 0 <= j < |lines| :: !OL.IsHeaderLine(lines[j])
    ensures var r := LoadLines(lines, bank).outcome;
      r.Err? && OL.LoadError(None, OL.MissingHeader) in r.error
  {
    LoadFromKeeps(Initial(bank), lines, 0);
  }

  /** A file without an end record fails, and says so. */
  lemma NoEndFails(lines: seq<string>, bank: Memory)
    requires forall j | 0 <= j < |lines| :: !OL.IsEndLine(lines[j])
    ensures var r := LoadLines(lines, bank).outcome;
      r.Err? && OL.LoadError(None, OL.MissingEnd) in r.error
  {
    LoadFromKeeps(Initial(bank), lines, 0);
  }

  /** A file without text records leaves the bank as it was, whatever the outcome. */
  lemma NoTextKeepsBank(lines: seq<string>, bank: Memory)
    requires forall j | 0 <= j < |lines| :: !IsTextLine(lines[j])
    ensures LoadLines(lines, bank).bank == bank
  {
    LoadFromKeeps(Initial(bank), lines, 0);
  }

  /** A line holding a text record whose fields parse writes its word. */
  lemma TextStepWrites(st: LoadState, raw: string, address: int, value: int)
    requires var line := Trim(raw);
      && |line| >= 5 && line[0] == 'T'
      && UtilByteOperations.ParseHex(line[1..5]) == Ok(address)
      && UtilByteOperations.ParseHex(line[5..]) == Ok(value)
    ensures Step(st, raw).bank == Write(st.bank, address, Wrap16(value))
  {
    var line := Trim(raw);
    TextSpec(st, line, address, value);
    assert Record(st, line) == Text(st, line);
  }

  /**
   * The word of the last text record in a file stays in the bank even when
   * the load fails: the bank is written as the lines are read, never rolled
   * back.
   */
  lemma WritesSurviveFailure(lines: seq<string>, bank: Memory, k: nat, address: int, value: int)
    requires k < |lines|
    requires var line := Trim(lines[k]);
      && |line| >= 5 && line[0] == 'T'
      && UtilByteOperations.ParseHex(line[1..5]) == Ok(address)
      && UtilByteOperations.ParseHex(line[5..]) == Ok(value)
    requires forall j | k < j < |lines| :: !IsTextLine(lines[j])
    ensures Read(LoadLines(lines, bank).bank, address) == Wrap16(value)
  {
    var before := LoadPrefix(Initial(bank), lines, k);
    TextStepWrites(before, lines[k], address, value);
    var after := Step(before, lines[k]);
    LoadFromSplit(Initial(bank), lines, k + 1);
    assert LoadPrefix(Initial(bank), lines, k + 1) == after;
    LoadFromKeeps(after, lines, k + 1);
  }

  // ---------------------------------------------------------------------------
  // Loading the linker's output
  // ---------------------------------------------------------------------------

  /** Without a leading 'x', the two copies of parseHex read a text the same way. */
  lemma ParseHexCopiesAgree(s: string)
    requires |s| > 0 && s[0] != 'x'
    ensures UtilByteOperations.ParseHex(s) == ByteOperations.ParseHex(s)
  {
  }

  /** Four hex digits as the linker writes them: lower-case, so without the 'x' prefix. */
  lemma LinkedHex(v: int)
    requires 0 <= v <= MaxAddress
    ensures var h := ByteOperations.GetHex(v, 4);
      |h| == 4 && h[0] != 'x' && !IsBlank(h[3]) && UtilByteOperations.ParseHex(h) == Ok(v)
  {
    var h := ByteOperations.GetHex(v, 4);
    OL.HexField(v);
    ByteOperations.GetHexSpec(v, 4);
    ParseHexCopiesAgree(h);
  }

  /** A text record the linker writes reads back, in this loader, as its address and word. */
  lemma LinkedText(address: int, value: int)
    requires 0 <= address <= MaxAddress && IsShort(value)
    ensures var line := LinkerMemory.TextRecord(address, value);
      && |line| == TextRecordLength && line[0] == 'T' && !IsBlank(line[8])
      && UtilByteOperations.ParseHex(line[1..5]) == Ok(address)
      && UtilByteOperations.ParseHex(line[5..]).Ok?
      && Wrap16(UtilByteOperations.ParseHex(line[5..]).value) == value
  {
    var line := LinkerMemory.TextRecord(address, value);
    OL.TextLineShape(address, value, line);
    TextDigitsLead(address, value);
    TextFieldsAgree(line, address, value);
  }

  /** Fields that do not start with an 'x' parse alike in both hex readers. */
  lemma TextFieldsAgree(line: string, address: int, value: int)
    requires |line| == 9 && line[1] != 'x' && line[5] != 'x'
    requires ByteOperations.ParseHex(line[1..5]) == Ok(address)
    requires ByteOperations.ParseHex(line[5..9]).Ok? && Wrap16(ByteOperations.ParseHex(line[5..9]).value) == value
    ensures UtilByteOperations.ParseHex(line[1..5]) == Ok(address)
    ensures UtilByteOperations.ParseHex(line[5..]).Ok? && Wrap16(UtilByteOperations.ParseHex(line[5..]).value) == value
  {
    assert line[5..] == line[5..9];
    ParseHexCopiesAgree(line[1..5]);
    ParseHexCopiesAgree(line[5..9]);
  }

  /** Neither hex field of a linked text record starts with an 'x'. */
  lemma TextDigitsLead(address: int, value: int)
    requires 0 <= address <= MaxAddress && IsShort(value)
    ensures |LinkerMemory.TextRecord(address, value)| == 9
    ensures LinkerMemory.TextRecord(address, value)[1] != 'x' && LinkerMemory.TextRecord(address, value)[5] != 'x'
  {
    var a := ByteOperations.GetHex(address, 4);
    var h := ByteOperations.GetHex(value, 4);
    FourDigits(address);
    FourDigits(value);
    FieldLeads("T", a, h);
  }

  /** In a one-character tag followed by two four-character fields, the fields start at 1 and 5. */
  lemma FieldLeads(t: string, a: string, h: string)
    requires |t| == 1 && |a| == 4 && |h| == 4
    ensures |t + a + h| == 9 && (t + a + h)[1] == a[0] && (t + a + h)[5] == h[0]
  {
  }

  /** The linker's four hex digits of an int: four characters, the first not an 'x'. */
  lemma FourDigits(x: int)
    requires IsInt(x)
    ensures |ByteOperations.GetHex(x, 4)| == 4 && ByteOperations.GetHex(x, 4)[0] != 'x'
  {
    ByteOperations.GetHexSpec(x, 4);
  }

  /** A trimmed fifteen-character header record whose fields parse, on a segment that fits, sets the range. */
  lemma CleanHeaderStep(bank: Memory, line: string, first: int, length: int)
    requires |line| == HeaderRecordLength && line[0] == 'H' && !IsBlank(line[14])
    requires UtilByteOperations.ParseHex(line[7..11]) == Ok(first)
    requires UtilByteOperations.ParseHex(line[11..]) == Ok(length)
    requires 0 <= first <= MaxAddress && 0 <= length <= MaxAddress && first + length - 1 <= MaxAddress
    ensures Step(Initial(bank), line) ==
      Initial(bank).(firstAddress := first, lastAddress := first + length - 1, hasHeader := true, lineNumber := 2)
  {
    var st := Initial(bank);
    OL.TrimOf(line);
    HeaderSpec(st, line, first, length);
    NoErrors(st.errors);
    assert Record(st, line) == Header(st, line);
  }

  /** A header record the linker writes, on a segment that fits, sets the range and reports nothing. */
  lemma LinkedHeaderStep(bank: Memory, name: string, first: int, length: int)
    requires |name| == 6 && 0 <= first <= MaxAddress && 0 <= length <= MaxAddress && first + length - 1 <= MaxAddress
    ensures Step(Initial(bank), OL.HeaderLine(name, first, length)) ==
      Initial(bank).(firstAddress := first, lastAddress := first + length - 1, hasHeader := true, lineNumber := 2)
  {
    var a := ByteOperations.GetHex(first, 4);
    var l := ByteOperations.GetHex(length, 4);
    LinkedHex(first);
    LinkedHex(length);
    OL.HeaderSlices(name, a, l);
    CleanHeaderStep(bank, OL.HeaderLine(name, first, length), first, length);
  }

  /** A record line that trimming leaves alone is handled by the record its first character names. */
  lemma StepRecord(st: LoadState, line: string, r: LoadState)
    requires |line| > 0 && !IsBlank(line[0]) && !IsBlank(line[|line| - 1])
    requires Record(st, line) == Ok(r)
    ensures Step(st, line) == r.(lineNumber := r.lineNumber + 1)
  {
    OL.TrimOf(line);
  }

  /** A nine-character text record inside the segment whose fields parse writes its word and reports nothing. */
  lemma CleanText(st: LoadState, line: string, address: int, value: int)
    requires |line| == TextRecordLength && line[0] == 'T'
    requires UtilByteOperations.ParseHex(line[1..5]) == Ok(address)
    requires UtilByteOperations.ParseHex(line[5..]) == Ok(value)
    requires st.firstAddress <= address <= st.lastAddress
    ensures Record(st, line) == Ok(st.(bank := Write(st.bank, address, Wrap16(value))))
  {
    TextSpec(st, line, address, value);
    NoErrors(st.errors);
  }

  /** A five-character end record inside the segment whose address parses reports nothing. */
  lemma CleanEnd(st: LoadState, line: string, start: int)
    requires |line| == EndRecordLength && line[0] == 'E'
    requires UtilByteOperations.ParseHex(line[1..]) == Ok(start)
    requires st.firstAddress <= start <= st.lastAddress
    ensures Record(st, line) == Ok(st.(startAddress := start, hasEnd := true))
  {
    EndSpec(st, line, start);
    NoErrors(st.errors);
  }

  /** A trimmed nine-character text record inside the segment whose fields parse writes its word. */
  lemma CleanTextStep(st: LoadState, line: string, address: int, value: int)
    requires |line| == TextRecordLength && line[0] == 'T' && !IsBlank(line[8])
    requires UtilByteOperations.ParseHex(line[1..5]) == Ok(address)
    requires UtilByteOperations.ParseHex(line[5..]).Ok? && Wrap16(UtilByteOperations.ParseHex(line[5..]).value) == value
    requires st.firstAddress <= address <= st.lastAddress
    ensures Step(st, line) == st.(bank := Write(st.bank, address, value), lineNumber := st.lineNumber + 1)
  {
    CleanText(st, line, address, UtilByteOperations.ParseHex(line[5..]).value);
    StepRecord(st, line, st.(bank := Write(st.bank, address, value)));
  }

  /** A text record the linker writes, inside the segment, writes its word and reports nothing. */
  lemma LinkedTextStep(st: LoadState, address: int, value: int)
    requires 0 <= address <= MaxAddress && IsShort(value)
    requires st.firstAddress <= address <= st.lastAddress
    ensures Step(st, LinkerMemory.TextRecord(address, value)) ==
      st.(bank := Write(st.bank, address, value), lineNumber := st.lineNumber + 1)
  {
    LinkedText(address, value);
    CleanTextStep(st, LinkerMemory.TextRecord(address, value), address, value);
  }

  /** The end record the linker writes reads back as its start address. */
  lemma LinkedEnd(start: int)
    requires 0 <= start <= MaxAddress
    ensures var line := OL.EndLine(start);
      && |line| == EndRecordLength && line[0] == 'E' && !IsBlank(line[4])
      && UtilByteOperations.ParseHex(line[1..]) == Ok(start)
  {
    var line := OL.EndLine(start);
    LinkedHex(start);
    var h := ByteOperations.GetHex(start, 4);
    assert line[1..] == h && |line| == 5 && line[4] == h[3];
  }

  /** A trimmed five-character end record inside the segment whose address parses ends the load. */
  lemma CleanEndStep(st: LoadState, line: string, start: int)
    requires |line| == EndRecordLength && line[0] == 'E' && !IsBlank(line[4])
    requires UtilByteOperations.ParseHex(line[1..]) == Ok(start)
    requires st.firstAddress <= start <= st.lastAddress
    ensures Step(st, line) == st.(startAddress := start, hasEnd := true, lineNumber := st.lineNumber + 1)
  {
    CleanEnd(st, line, start);
    StepRecord(st, line, st.(startAddress := start, hasEnd := true));
  }

  /** The end record the linker writes, inside the segment, sets the start address and reports nothing. */
  lemma LinkedEndStep(st: LoadState, start: int)
    requires 0 <= start <= MaxAddress && st.firstAddress <= start <= st.lastAddress
    ensures Step(st, OL.EndLine(start)) == st.(startAddress := start, hasEnd := true, lineNumber := st.lineNumber + 1)
  {
    LinkedEnd(start);
    CleanEndStep(st, OL.EndLine(start), start);
  }

  /** The state after the header and some text records of a linked file. */
  ghost predicate Reading(st: LoadState, first: int, last: int, data: map<int, int>)
  {
    && st.errors == [] && st.hasHeader && !st.hasEnd
    && st.firstAddress == first && st.lastAddress == last
    && st.bank.data == data
  }

  /** The state once a linked text record has written value at address. */
  function TextRead(st: LoadState, address: int, value: int): LoadState
    requires IsShort(value)
  {
    st.(bank := Write(st.bank, address, value), lineNumber := st.lineNumber + 1)
  }

  /** The loop from line i is the loop from line i + 1 after stepping over line i. */
  lemma LoadFromNext(st: LoadState, lines: seq<string>, i: nat, next: LoadState)
    requires i < |lines| && Step(st, lines[i]) == next
    ensures LoadFrom(st, lines, i) == LoadFrom(next, lines, i + 1)
  {
  }

  /** A linked text record as the next line writes its word and goes on with the line after. */
  lemma LinkedTextLine(st: LoadState, lines: seq<string>, i: nat, address: int, value: int)
    requires i < |lines| && lines[i] == LinkerMemory.TextRecord(address, value)
    requires 0 <= address <= MaxAddress && IsShort(value)
    requires st.firstAddress <= address <= st.lastAddress
    ensures LoadFrom(st, lines, i) == LoadFrom(TextRead(st, address, value), lines, i + 1)
  {
    LinkedTextStep(st, address, value);
    LoadFromNext(st, lines, i, TextRead(st, address, value));
  }

  /** A linked end record as the last line sets the start address and ends the load. */
  lemma LinkedEndLine(st: LoadState, lines: seq<string>, i: nat, start: int)
    requires i + 1 == |lines| && lines[i] == OL.EndLine(start)
    requires 0 <= start <= MaxAddress && st.firstAddress <= start <= st.lastAddress
    ensures LoadFrom(st, lines, i) == st.(startAddress := start, hasEnd := true, lineNumber := st.lineNumber + 1)
  {
    LinkedEndStep(st, start);
    LoadFromNext(st, lines, i, Step(st, lines[i]));
  }

  /** The text records from line i on, then the end record, finish the load without error. */
  lemma {:induction false} LinkedLoop(st: LoadState, lines: seq<string>, name: string, first: int, length: int,
                                      b: LinkerMemory.Bank, keys: seq<int>, start: int, i: nat)
    requires OL.Fits(name, first, length, b, start)
    requires LinkerMemory.SortedOf(keys, b.data.Keys) && OL.Listed(lines, b, keys, start)
    requires 1 <= i <= |keys| + 1
    requires Reading(st, first, first + length - 1, OL.PrefixData(b, keys, i - 1))
    ensures var r := LoadFrom(st, lines, i);
      r.errors == [] && r.hasHeader && r.hasEnd && r.bank.data == b.data && r.startAddress == start
    decreases |lines| - i
  {
    if i == |keys| + 1 {
      LinkedEndLine(st, lines, i, start);
      OL.PrefixAll(b, keys);
    } else {
      var k := keys[i - 1];
      OL.KeyFits(name, first, length, b, start, k);
      LinkedTextLine(st, lines, i, k, b.data[k]);
      ReadingGrows(st, first, first + length - 1, b, keys, i);
      LinkedLoop(TextRead(st, k, b.data[k]), lines, name, first, length, b, keys, start, i + 1);
    }
  }

  /** Writing the word at the i-th sorted address grows the words read so far by it. */
  lemma ReadingGrows(st: LoadState, first: int, last: int, b: LinkerMemory.Bank, keys: seq<int>, i: nat)
    requires 1 <= i <= |keys| && forall j | 0 <= j < |keys| :: keys[j] in b.data
    requires IsShort(b.data[keys[i - 1]])
    requires Reading(st, first, last, OL.PrefixData(b, keys, i - 1))
    ensures Reading(TextRead(st, keys[i - 1], b.data[keys[i - 1]]), first, last, OL.PrefixData(b, keys, i))
  {
    OL.PrefixStep(b, keys, i - 1);
  }

  /**
   * The linker's absolute object file for a segment that fits the machine
   * loads into a fresh bank without error: the start address comes back and
   * the bank holds exactly the linked words.
   */
  lemma LinkedImageLoads(name: string, first: int, length: int, b: LinkerMemory.Bank, start: int)
    requires OL.Fits(name, first, length, b, start)
    ensures LoadLines(OL.ObjectLines(name, first, length, b, start), Blank) == Loaded(Memory(b.data), Ok(start))
  {
    var lines := OL.ObjectLines(name, first, length, b, start);
    var keys := LinkerMemory.Sorted(b.data.Keys);
    assert |keys| == |LinkerMemory.Records(b)| by {
      assert |b.data.Keys| == |b.data|;
    }
    assert lines[0] == OL.HeaderLine(name, first, length);
    LinkedHeaderStep(Blank, name, first, length);
    var st := Step(Initial(Blank), lines[0]);
    OL.PrefixEmpty(b, keys);
    LinkerMemory.SortedSpec(b.data.Keys);
    OL.ObjectLinesListed(name, first, length, b, start);
    LinkedLoop(st, lines, name, first, length, b, keys, start, 1);
    LoadFromSplit(Initial(Blank), lines, 1);
    assert LoadPrefix(Initial(Blank), lines, 1) == st;
    var final := LoadFrom(st, lines, 1);
    assert LoadFrom(Initial(Blank), lines, 0) == final;
    FinishKeeps(final);
  }
}
