/**
 * The TRAP instruction: the operating-system services the simulator offers,
 * chosen by the low eight bits of the instruction. The console is a pair of
 * streams: characters still to be read, and what has been printed so far
 * (texts, and single UTF-16 code units printed as `char`). The random-number
 * service draws from a supplied sequence.
 */
module TrapHandlers {
  import opened Wrappers
  import opened Bits
  import opened JavaLang
  import opened MachineStates
  import opened SimMemory
  import opened InstructionFields
  import opened Handlers

  /** One print call: a text, or code units printed one `char` at a time. */
  datatype Printed = Text(text: string) | Units(codes: seq<int>)

  /** The console input not yet read, the prints so far, and the random numbers still to come. */
  datatype Io = Io(input: string, output: seq<Printed>, randoms: seq<int>)

  /** A machine state and the console after a trap. */
  datatype Outcome = Outcome(state: MachineState, io: Io)

  const Halt := 0x25
  const OutNumber := 0x31
  const OutChar := 0x21
  const Random := 0x43
  const PutString := 0x22
  const InChar := 0x23
  const InNumber := 0x33

  const CharPrompt := "? "
  const NumberPrompt := "d? "
  const NotANumber := "Input by user was not a number."

  /** `(char) v`: the code unit of a short, read as unsigned. */
  function CodeUnit(v: int): (c: int)
    ensures 0 <= c < 0x1_0000 && (c - v) % 0x1_0000 == 0
  {
    v % 0x1_0000
  }

  // ---------------------------------------------------------------------------
  // PUTS
  // ---------------------------------------------------------------------------

  ghost function KeysFrom(m: Memory, loc: int): set<int>
  {
    set a | a in m.data && a >= loc
  }

  /** text is the zero-terminated string at loc: nonzero words, each as a code unit, then a zero word. */
  predicate Terminated(m: Memory, loc: int, text: seq<int>)
  {
    && (forall k | 0 <= k < |text| :: Read(m, loc + k) != 0 && text[k] == CodeUnit(Read(m, loc + k)))
    && Read(m, loc + |text|) == 0
  }

  /**
   * The characters of the zero-terminated string at loc: every word from loc
   * up to, and not including, the first zero word, each as a code unit.
   */
  function Puts(m: Memory, loc: int): (out: seq<int>)
    ensures Terminated(m, loc, out)
    decreases |KeysFrom(m, loc)|
  {
    if Read(m, loc) == 0 then []
    else
      assert KeysFrom(m, loc) == KeysFrom(m, loc + 1) + {loc};
      [CodeUnit(Read(m, loc))] + Puts(m, loc + 1)
  }

  // ---------------------------------------------------------------------------
  // Console input
  // ---------------------------------------------------------------------------

  /** `InputStreamReader.read()`: the next character, or -1 at the end of input. */
  function ReadChar(input: string): (r: (int, string))
    ensures |input| == 0 ==> r == (-1, input)
    ensures |input| > 0 ==> r.0 == input[0] as int && input == [input[0]] + r.1
  {
    if |input| == 0 then (-1, input) else (input[0] as int, input[1..])
  }

  predicate IsTerminator(c: char) { c == '\n' || c == '\r' }

  predicate NoTerminator(s: string)
  {
    forall i | 0 <= i < |s| :: !IsTerminator(s[i])
  }

  /** The length of the line at the head of the input: up to the first terminator or the end. */
  function LineLength(input: string): (n: nat)
    ensures n <= |input| && NoTerminator(input[..n])
    ensures n < |input| ==> IsTerminator(input[n])
  {
    if |input| == 0 || IsTerminator(input[0]) then 0
    else
      var n := 1 + LineLength(input[1..]);
      assert input[..n] == [input[0]] + input[1..][..n - 1];
      n
  }

  /**
   * The input is a line free of terminators, then a line ending ("\n", "\r"
   * not followed by "\n", or "\r\n") or the end of input, then the rest.
   */
  ghost predicate LineSplit(input: string, line: string, rest: string)
  {
    && NoTerminator(line)
    && exists ending: string | |ending| <= 2 ::
      && input == line + ending + rest
      && (|ending| == 0 ==> |rest| == 0)
      && (ending == "\r" ==> |rest| == 0 || rest[0] != '\n')
      && (|ending| > 0 ==> ending == "\n" || ending == "\r" || ending == "\r\n")
  }

  /**
   * `BufferedReader.readLine()`: None at the end of input; otherwise the
   * characters up to the first line terminator, with the terminator consumed.
   */
  function ReadLine(input: string): (r: Option<(string, string)>)
    ensures r.None? <==> |input| == 0
    ensures r.Some? ==> LineSplit(input, r.value.0, r.value.1)
  {
    if |input| == 0 then None
    else
      var n := LineLength(input);
      var line := input[..n];
      var size := if n == |input| then 0 else if input[n] == '\r' && n + 1 < |input| && input[n + 1] == '\n' then 2 else 1;
      var rest := input[n + size..];
      SplitAt(input, line, input[n..n + size], rest);
      Some((line, rest))
  }

  /** The witness for a split: a line, a line ending, and the rest. */
  lemma SplitAt(input: string, line: string, ending: string, rest: string)
    requires NoTerminator(line) && input == line + ending + rest && |ending| <= 2
    requires |ending| == 0 ==> |rest| == 0
    requires ending == "\r" ==> |rest| == 0 || rest[0] != '\n'
    requires |ending| > 0 ==> ending == "\n" || ending == "\r" || ending == "\r\n"
    ensures LineSplit(input, line, rest)
  {
  }

  /** A line written with a "\n" ending reads back as that line, leaving what follows it. */
  lemma ReadLineBack(line: string, rest: string)
    requires NoTerminator(line)
    ensures ReadLine(line + "\n" + rest) == Some((line, rest))
  {
    var input := line + "\n" + rest;
    LineLengthOf(line, "\n" + rest);
    assert input[|line|] == '\n';
    assert input[..|line|] == line;
    assert input[|line| + 1..] == rest;
  }

  lemma {:induction false} LineLengthOf(line: string, tail: string)
    requires NoTerminator(line)
    requires |tail| > 0 && IsTerminator(tail[0])
    ensures LineLength(line + tail) == |line|
    decreases |line|
  {
    if |line| > 0 {
      assert (line + tail)[1..] == line[1..] + tail;
      LineLengthOf(line[1..], tail);
    } else {
      assert line + tail == tail;
    }
  }

  /** What the INN service makes of the input: the value it keeps, whether parsing failed, and the input left. */
  datatype NumberRead = NumberRead(value: int, failed: bool, rest: string)

  /**
   * `Integer.parseInt(readLine())`: the number on the next line, or a failure
   * (keeping 0) when the line is not a decimal int or the input is exhausted.
   */
  function ReadNumber(input: string): (r: NumberRead)
    ensures r.failed <==> ReadLine(input).None? || ParseInt(ReadLine(input).value.0).Err?
    ensures r.failed ==> r.value == 0
    ensures !r.failed ==> ParseInt(ReadLine(input).value.0) == Ok(r.value)
    ensures ReadLine(input).Some? ==> r.rest == ReadLine(input).value.1
  {
    match ReadLine(input)
    case None => NumberRead(0, true, input)
    case Some((line, rest)) =>
      match ParseInt(line)
      case Ok(n) => NumberRead(n, false, rest)
      case Err(_) => NumberRead(0, true, rest)
  }

  // ---------------------------------------------------------------------------
  // The services
  // ---------------------------------------------------------------------------

  /** OUTN: R0 in decimal, text that parses back to R0. */
  function OutNumberService(s: MachineState, io: Io): (r: Io)
    requires Valid(s)
    ensures r.input == io.input && r.randoms == io.randoms
    ensures exists text: string :: r.output == io.output + [Text(text)] && ParseInt(text) == Ok(s.registers[0])
    ensures r.output == io.output + [Text(IntToString(s.registers[0]))]
  {
    var text := IntToString(s.registers[0]);
    ParseIntToString(s.registers[0]);
    io.(output := io.output + [Text(text)])
  }

  /** OUT: one code unit, R0 read as unsigned 16 bits. */
  function OutCharService(s: MachineState, io: Io): (r: Io)
    requires Valid(s)
    ensures r.input == io.input && r.randoms == io.randoms
    ensures exists c | 0 <= c < 0x1_0000 :: r.output == io.output + [Units([c])] && (c - s.registers[0]) % 0x1_0000 == 0
  {
    var c := CodeUnit(s.registers[0]);
    var r := io.(output := io.output + [Units([c])]);
    assert r.output == io.output + [Units([c])];
    r
  }

  /** PUTS: the zero-terminated string R0 points at, stopping at the zero. */
  function PutStringService(s: MachineState, m: Memory, io: Io): (r: Io)
    requires Valid(s)
    ensures r.input == io.input && r.randoms == io.randoms
    ensures exists text: seq<int> :: r.output == io.output + [Units(text)] && Terminated(m, s.registers[0], text)
  {
    var text := Puts(m, s.registers[0]);
    var r := io.(output := io.output + [Units(text)]);
    assert r.output == io.output + [Units(text)];
    r
  }

  /** RND: the next random int, narrowed to a short, in R0 (0 once the supply runs out); the flags follow it. */
  function RandomService(s: MachineState, io: Io): (r: Outcome)
    requires Valid(s)
    ensures Around(s, r.state, 0) && SignFlags(r.state, r.state.registers[0])
    ensures r.io.input == io.input && r.io.output == io.output
    ensures |io.randoms| > 0 ==> ShortOf(r.state.registers[0], io.randoms[0]) && r.io.randoms == io.randoms[1..]
    ensures |io.randoms| == 0 ==> r.state.registers[0] == 0 && r.io.randoms == io.randoms
  {
    var n := if |io.randoms| > 0 then io.randoms[0] else 0;
    var rest := if |io.randoms| > 0 then io.randoms[1..] else io.randoms;
    Outcome(SetAndFlag(s, 0, Wrap16(n)), io.(randoms := rest))
  }

  /** IN: prompt "? ", then one character's low eight bits into R0, or 255 at the end of input; the flags follow R0. */
  function InCharService(s: MachineState, io: Io): (r: Outcome)
    requires Valid(s)
    ensures Around(s, r.state, 0) && SignFlags(r.state, r.state.registers[0])
    ensures r.io.output == io.output + [Text(CharPrompt)] && r.io.randoms == io.randoms
    ensures |io.input| == 0 ==> r.state.registers[0] == 255 && r.io.input == io.input
    ensures |io.input| > 0 ==> r.state.registers[0] == (io.input[0] as int) % 256 && io.input == [io.input[0]] + r.io.input
  {
    var (c, rest) := ReadChar(io.input);
    Pow2Values();
    var value := Wrap16(Field(c, 0, 8));
    Outcome(SetAndFlag(s, 0, value), io.(input := rest, output := io.output + [Text(CharPrompt)]))
  }

  /**
   * INN: prompt "d? " and read a line; a decimal int there lands in R0 as a
   * short, while anything else (or no line at all) prints the complaint and
   * leaves 0. The flags follow R0.
   */
  function InNumberService(s: MachineState, io: Io): (r: Outcome)
    requires Valid(s)
    ensures Around(s, r.state, 0) && SignFlags(r.state, r.state.registers[0])
    ensures r.io.randoms == io.randoms
    ensures var got := ReadNumber(io.input);
      && r.io.input == got.rest
      && (!got.failed ==> r.io.output == io.output + [Text(NumberPrompt)] && ShortOf(r.state.registers[0], got.value))
      && (got.failed ==> r.io.output == io.output + [Text(NumberPrompt), Text(NotANumber + "\n")] && r.state.registers[0] == 0)
  {
    var got := ReadNumber(io.input);
    var message := if got.failed then [Text(NotANumber + "\n")] else [];
    var value := Wrap16(got.value);
    Outcome(SetAndFlag(s, 0, value), io.(input := got.rest, output := io.output + [Text(NumberPrompt)] + message))
  }

  /** A short typed on its own line in answer to INN ends up in R0, and what follows the line is left unread. */
  lemma InNumberRoundTrip(s: MachineState, io: Io, n: int, rest: string)
    requires Valid(s) && IsShort(n)
    requires io.input == IntToString(n) + "\n" + rest
    ensures InNumberService(s, io).state.registers[0] == n
    ensures InNumberService(s, io).io.input == rest
  {
    DecimalNoTerminator(n);
    ReadLineBack(IntToString(n), rest);
    ParseIntToString(n);
  }

  lemma DecimalNoTerminator(n: int)
    ensures NoTerminator(IntToString(n))
  {
    var t := IntToString(n);
    if n < 0 {
      assert forall i | 1 <= i < |t| :: t[i] == Digits(-n)[i - 1];
    }
  }

  // ---------------------------------------------------------------------------
  // The handler
  // ---------------------------------------------------------------------------

  function Vector(w: int): (v: int)
    ensures 0 <= v < 256
  {
    Pow2Values();
    Field(w, 0, 8)
  }

  predicate Known(v: int)
  {
    v in {Halt, OutNumber, OutChar, Random, PutString, InChar, InNumber}
  }

  /**
   * TRAP: the service the vector names; an unknown vector does nothing. The
   * program counter is put back as it was on entry whatever the service did,
   * and the output services leave the state alone.
   */
  function TrapHandler(w: int, s: MachineState, m: Memory, io: Io): (r: Outcome)
    requires Valid(s)
    ensures Valid(r.state) && r.state.pc == s.pc
    ensures Vector(w) == Halt ==> r == Outcome(s.(executing := false), io)
    ensures !Known(Vector(w)) ==> r == Outcome(s, io)
    ensures Vector(w) in {OutNumber, OutChar, PutString} ==> r.state == s && r.io.input == io.input
  {
    var v := Vector(w);
    var out :=
      if v == Halt then Outcome(s.(executing := false), io)
      else if v == OutNumber then Outcome(s, OutNumberService(s, io))
      else if v == OutChar then Outcome(s, OutCharService(s, io))
      else if v == Random then RandomService(s, io)
      else if v == PutString then Outcome(s, PutStringService(s, m, io))
      else if v == InChar then InCharService(s, io)
      else if v == InNumber then InNumberService(s, io)
      else Outcome(s, io);
    out.(state := out.state.(pc := s.pc))
  }
}
