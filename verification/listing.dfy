/**
 * The assembler's listing: each instruction's source line beside the address
 * and words it encodes to, with the literal pool placed after the code.
 * Printing is modelled as the sequence of lines printed.
 */
module Listing {
  import opened Wrappers
  import opened Bits
  import opened JavaLang
  import opened HexText
  import opened LiteralTables
  import opened Instructions
  import opened Assembler
  import UtilByteOperations

  /** The column printed in place of an address and a word when there are no words. */
  const Blank: string := "        "

  /** The gap between the word column and the source line. */
  const Gap: string := "    "

  /**
   * The size loop: the definition sizes from index i on added to acc with int
   * wrap-around; an instruction without a definition dereferences null.
   */
  function SizeFrom(insts: seq<Instruction>, i: nat, acc: int): (r: Result<int, Thrown>)
    requires i <= |insts|
    ensures r.Err? <==> exists j | i <= j < |insts| :: insts[j].definition.None?
    ensures r.Err? ==> r.error == NullPointer
    ensures r.Ok? ==> IsInt(r.value) || (i == |insts| && r.value == acc)
    decreases |insts| - i
  {
    if i == |insts| then Ok(acc)
    else match insts[i].definition
      case None => Err(NullPointer)
      case Some(d) => SizeFrom(insts, i + 1, Wrap32(acc + d.size))
  }

  /** The size loop computes the total size, reduced to an int. */
  lemma {:induction false} SizeFromSum(insts: seq<Instruction>, i: nat, acc: int)
    requires i <= |insts| && IsInt(acc)
    requires forall j | i <= j < |insts| :: insts[j].definition.Some?
    ensures SizeFrom(insts, i, acc) == Ok(Wrap32(acc + SizeSum(insts, i)))
    decreases |insts| - i
  {
    if i < |insts| {
      var d := insts[i].definition.value;
      var acc' := Wrap32(acc + d.size);
      SizeFromSum(insts, i + 1, acc');
      assert Cong32(acc' + SizeSum(insts, i + 1), acc + SizeSum(insts, i)) by {
        assert Cong32(acc', acc + d.size);
        assert Cong32(SizeSum(insts, i + 1), SizeSum(insts, i + 1));
        CongAdd(acc', acc + d.size, SizeSum(insts, i + 1), SizeSum(insts, i + 1));
      }
      Wrap32Cong(acc' + SizeSum(insts, i + 1), acc + SizeSum(insts, i));
    }
  }

  /** The address and one word, as eight lower-case hex digits. */
  function WordColumn(address: int, code: int): (r: string)
    ensures |r| == 8
  {
    UtilByteOperations.GetHex(address, 4) + UtilByteOperations.GetHex(code, 4)
  }

  /** The lines of the words from index k on, each at address + k. */
  function WordLines(address: int, codes: seq<int>, k: nat): (r: seq<string>)
    requires k <= |codes|
    ensures |r| == |codes| - k
    decreases |codes| - k
  {
    if k == |codes| then []
    else [WordColumn(Wrap32(address + k), codes[k])] + WordLines(address, codes, k + 1)
  }

  /**
   * The lines printed for one encoded instruction: its first word beside the
   * source line (or blanks when it has no words), then one line per further
   * word at the following addresses.
   */
  function InstructionLines(address: int, codes: seq<int>, source: string): (r: seq<string>)
    ensures |r| == if |codes| == 0 then 1 else |codes|
  {
    if |codes| == 0 then [Blank + Gap + source]
    else [WordColumn(address, codes[0]) + Gap + source] + WordLines(address, codes, 1)
  }

  /**
   * The listing loop from instruction i on, at the given address: an
   * instruction whose encoding throws prints nothing and leaves the address
   * alone; any other advances it by the number of words it encoded to.
   */
  function ListFrom(p: Program, literals: LiteralTable, i: nat, address: int): (r: seq<string>)
    requires i <= |p.instructions|
    decreases |p.instructions| - i
  {
    if i == |p.instructions| then []
    else
      var inst := p.instructions[i];
      match GetCodes(inst, p.symbols, literals, p.origin)
      case Err(_) => ListFrom(p, literals, i + 1, address)
      case Ok(codes) =>
        InstructionLines(address, codes, inst.source) + ListFrom(p, literals, i + 1, Wrap32(address + |codes|))
  }

  /**
   * `printListing`: the literal pool is placed after the total size of all
   * instructions, then the instructions are listed from address 0, encoded
   * against the program's origin.
   */
  function PrintListing(p: Program): (r: Result<seq<string>, Thrown>)
    ensures r.Err? <==> exists j | 0 <= j < |p.instructions| :: p.instructions[j].definition.None?
    ensures r.Err? ==> r.error == NullPointer
  {
    var size :- SizeFrom(p.instructions, 0, 0);
    Ok(ListFrom(p, SetOffset(p.literals, size), 0, 0))
  }

  /** When every instruction has a definition, the pool starts at the total size. */
  lemma PrintListingOffset(p: Program)
    requires forall j | 0 <= j < |p.instructions| :: p.instructions[j].definition.Some?
    ensures PrintListing(p) == Ok(ListFrom(p, SetOffset(p.literals, Wrap32(SizeSum(p.instructions, 0))), 0, 0))
  {
    SizeFromSum(p.instructions, 0, 0);
  }

  // ---------------------------------------------------------------------------
  // Reading a listing back
  // ---------------------------------------------------------------------------

  /** One word as a reader of the listing sees it: the parsed address and the parsed word. */
  datatype ListedWord = ListedWord(address: Result<int, Thrown>, code: Result<int, Thrown>)

  /**
   * What a reader takes from listing lines: every line that starts with a
   * word column, rather than blanks, gives one address and one word.
   */
  function ReadWords(lines: seq<string>): (r: seq<ListedWord>)
    ensures |r| <= |lines|
  {
    if |lines| == 0 then [] else LineWord(lines[0]) + ReadWords(lines[1..])
  }

  /** The word one line shows, if it starts with a word column. */
  function LineWord(l: string): (r: seq<ListedWord>)
    ensures |r| <= 1
  {
    if |l| >= 8 && l[0] != ' ' then [ListedWord(UtilByteOperations.ParseHex(l[..4]), UtilByteOperations.ParseHex(l[4..8]))] else []
  }

  lemma ReadWordsOne(l: string)
    ensures ReadWords([l]) == LineWord(l)
  {
    assert [l][1..] == [];
  }

  lemma {:induction false} ReadWordsAppend(a: seq<string>, b: seq<string>)
    ensures ReadWords(a + b) == ReadWords(a) + ReadWords(b)
    decreases |a|
  {
    if |a| > 0 {
      ReadWordsCons(a, b);
      ReadWordsAppend(a[1..], b);
      AppendAssoc(LineWord(a[0]), ReadWords(a[1..]), ReadWords(b));
    } else {
      assert a + b == b;
    }
  }

  /** The first line of a + b is the first line of a, and the rest is a's rest then b. */
  lemma ReadWordsCons(a: seq<string>, b: seq<string>)
    requires |a| > 0
    ensures ReadWords(a + b) == LineWord(a[0]) + ReadWords(a[1..] + b)
    ensures ReadWords(a) == LineWord(a[0]) + ReadWords(a[1..])
  {
    assert (a + b)[0] == a[0];
    assert (a + b)[1..] == a[1..] + b;
  }

  lemma AppendAssoc<T>(x: seq<T>, y: seq<T>, z: seq<T>)
    ensures x + (y + z) == (x + y) + z
  {
  }

  /** The words every instruction from index i on encodes to, skipping those that throw. */
  function EncodedWords(p: Program, literals: LiteralTable, i: nat): (r: seq<int>)
    requires i <= |p.instructions|
    decreases |p.instructions| - i
  {
    if i == |p.instructions| then []
    else match GetCodes(p.instructions[i], p.symbols, literals, p.origin)
      case Err(_) => EncodedWords(p, literals, i + 1)
      case Ok(codes) => codes + EncodedWords(p, literals, i + 1)
  }

  /** The words a reader should find: word k of `words` at address + k. */
  function Expected(address: int, words: seq<int>): (r: seq<ListedWord>)
    ensures |r| == |words|
    decreases |words|
  {
    if |words| == 0 then [] else [ListedWord(Ok(address), Ok(words[0]))] + Expected(address + 1, words[1..])
  }

  /** Every word fits 16 bits. */
  predicate Words16(words: seq<int>)
  {
    forall k | 0 <= k < |words| :: 0 <= words[k] < 0x1_0000
  }

  lemma {:induction false} ExpectedAppend(address: int, a: seq<int>, b: seq<int>)
    ensures Expected(address, a + b) == Expected(address, a) + Expected(address + |a|, b)
    decreases |a|
  {
    if |a| > 0 {
      assert (a + b)[0] == a[0];
      assert (a + b)[1..] == a[1..] + b;
      ExpectedAppend(address + 1, a[1..], b);
    } else {
      assert a + b == b;
    }
  }

  lemma ExpectedOne(address: int, code: int)
    ensures Expected(address, [code]) == [ListedWord(Ok(address), Ok(code))]
  {
    assert [code][1..] == [];
  }

  lemma Words16Split(a: seq<int>, b: seq<int>)
    requires Words16(a + b)
    ensures Words16(a) && Words16(b)
  {
    forall k | 0 <= k < |a| ensures 0 <= a[k] < 0x1_0000 { assert a[k] == (a + b)[k]; }
    forall k | 0 <= k < |b| ensures 0 <= b[k] < 0x1_0000 { assert b[k] == (a + b)[|a| + k]; }
  }

  /** A line that starts with a word column reads back as that address and word. */
  lemma WordLineReads(address: int, code: int, rest: string)
    requires 0 <= address < 0x1_0000 && 0 <= code < 0x1_0000
    ensures ReadWords([WordColumn(address, code) + rest]) == [ListedWord(Ok(address), Ok(code))]
  {
    var a := UtilByteOperations.GetHex(address, 4);
    var w := UtilByteOperations.GetHex(code, 4);
    var l := WordColumn(address, code) + rest;
    HexFieldReads(address, a);
    HexFieldReads(code, w);
    GetHexNoBlank(address, 4);
    assert l[..4] == a && l[4..8] == w && l[0] == a[0];
    ReadWordsOne(l);
  }

  /** Four hex digits of a 16-bit value parse back as it. */
  lemma HexFieldReads(v: int, h: string)
    requires 0 <= v < 0x1_0000 && h == UtilByteOperations.GetHex(v, 4)
    ensures UtilByteOperations.ParseHex(h) == Ok(v)
  {
    assert Pow2(4 * 4) == 0x1_0000 by { Pow2Values(); }
    UtilByteOperations.HexRoundTrip(v, 4);
  }

  /** The first of the word lines from index k on reads as word k at address + k. */
  lemma WordLinesCons(address: int, codes: seq<int>, k: nat)
    requires k < |codes| && 0 <= address + k < 0x1_0000 && 0 <= codes[k] < 0x1_0000
    ensures ReadWords(WordLines(address, codes, k)) ==
      [ListedWord(Ok(address + k), Ok(codes[k]))] + ReadWords(WordLines(address, codes, k + 1))
  {
    var c := WordColumn(address + k, codes[k]);
    WordLineReads(address + k, codes[k], "");
    assert c + "" == c;
    ReadWordsAppend([c], WordLines(address, codes, k + 1));
  }

  /** The lines of the words from index k on read back as those words at consecutive addresses. */
  lemma {:induction false} WordLinesRead(address: int, codes: seq<int>, k: nat)
    requires k <= |codes|
    requires 0 <= address && address + |codes| <= 0x1_0000 && Words16(codes)
    ensures ReadWords(WordLines(address, codes, k)) == Expected(address + k, codes[k..])
    decreases |codes| - k
  {
    if k < |codes| {
      WordLinesRead(address, codes, k + 1);
      WordLinesCons(address, codes, k);
      assert codes[k..][0] == codes[k] && codes[k..][1..] == codes[k + 1..];
    }
  }

  /** The lines of one instruction read back as its words at consecutive addresses. */
  lemma InstructionLinesRead(address: int, codes: seq<int>, source: string)
    requires 0 <= address && address + |codes| <= 0x1_0000 && Words16(codes)
    ensures ReadWords(InstructionLines(address, codes, source)) == Expected(address, codes)
  {
    if |codes| == 0 {
      ReadWordsOne(Blank + Gap + source);
    } else {
      FirstLineRead(address, codes, source);
      WordLinesRead(address, codes, 1);
    }
  }

  /** The first line of a non-empty encoding reads as the first word, and the rest follow. */
  lemma FirstLineRead(address: int, codes: seq<int>, source: string)
    requires |codes| > 0 && 0 <= address < 0x1_0000 && 0 <= codes[0] < 0x1_0000
    ensures ReadWords(InstructionLines(address, codes, source)) ==
      [ListedWord(Ok(address), Ok(codes[0]))] + ReadWords(WordLines(address, codes, 1))
  {
    var l := WordColumn(address, codes[0]) + (Gap + source);
    assert WordColumn(address, codes[0]) + Gap + source == l;
    WordLineReads(address, codes[0], Gap + source);
    ReadWordsAppend([l], WordLines(address, codes, 1));
  }

  /**
   * Reading the listing back gives exactly the words of the instructions that
   * encode, in order, at consecutive addresses: addresses advance by the
   * number of words encoded, and an instruction whose encoding throws
   * neither prints a word nor stops the rest.
   */
  lemma {:induction false} ListingReadsBack(p: Program, literals: LiteralTable, i: nat, address: int)
    requires i <= |p.instructions|
    requires Words16(EncodedWords(p, literals, i))
    requires 0 <= address && address + |EncodedWords(p, literals, i)| <= 0x1_0000
    ensures ReadWords(ListFrom(p, literals, i, address)) == Expected(address, EncodedWords(p, literals, i))
    decreases |p.instructions| - i
  {
    if i < |p.instructions| {
      var inst := p.instructions[i];
      var rest := EncodedWords(p, literals, i + 1);
      var g := GetCodes(inst, p.symbols, literals, p.origin);
      if g.Err? {
        ListStepSkips(p, literals, i, address);
        ListingReadsBack(p, literals, i + 1, address);
      } else {
        var codes := g.value;
        var next := ListStepLists(p, literals, i, address, codes);
        Words16Split(codes, rest);
        ListingReadsBack(p, literals, i + 1, next);
        LinesThenRest(address, codes, inst.source, ListFrom(p, literals, i + 1, next), rest);
      }
    }
  }

  /** An instruction that throws adds no lines and no words. */
  lemma ListStepSkips(p: Program, literals: LiteralTable, i: nat, address: int)
    requires i < |p.instructions| && GetCodes(p.instructions[i], p.symbols, literals, p.origin).Err?
    ensures ListFrom(p, literals, i, address) == ListFrom(p, literals, i + 1, address)
    ensures EncodedWords(p, literals, i) == EncodedWords(p, literals, i + 1)
  {
  }

  /** An instruction that encodes adds its lines and its words, and the next one starts after them. */
  lemma ListStepLists(p: Program, literals: LiteralTable, i: nat, address: int, codes: seq<int>) returns (next: int)
    requires i < |p.instructions| && GetCodes(p.instructions[i], p.symbols, literals, p.origin) == Ok(codes)
    requires 0 <= address && address + |codes| <= 0x1_0000
    ensures next == address + |codes|
    ensures ListFrom(p, literals, i, address) == InstructionLines(address, codes, p.instructions[i].source) + ListFrom(p, literals, i + 1, next)
    ensures EncodedWords(p, literals, i) == codes + EncodedWords(p, literals, i + 1)
  {
    next := Wrap32(address + |codes|);
  }

  /** An instruction's lines, then lines that read back as the words after it, read back as both. */
  lemma LinesThenRest(address: int, codes: seq<int>, source: string, tail: seq<string>, rest: seq<int>)
    requires 0 <= address && address + |codes| <= 0x1_0000 && Words16(codes)
    requires ReadWords(tail) == Expected(address + |codes|, rest)
    ensures ReadWords(InstructionLines(address, codes, source) + tail) == Expected(address, codes + rest)
  {
    InstructionLinesRead(address, codes, source);
    ReadWordsAppend(InstructionLines(address, codes, source), tail);
    ExpectedAppend(address, codes, rest);
  }

  /** The first line of an instruction carries its source after the word column and the gap. */
  lemma SourceLine(address: int, codes: seq<int>, source: string)
    ensures var first := InstructionLines(address, codes, source)[0];
      && |first| == 12 + |source|
      && first[12..] == source
      && first[8..12] == Gap
      && (|codes| == 0 <==> first[..8] == Blank)
  {
    if |codes| > 0 {
      var first := InstructionLines(address, codes, source)[0];
      GetHexNoBlank(address, 4);
      assert first[0] == UtilByteOperations.GetHex(address, 4)[0];
      assert first[..8][0] != Blank[0];
    }
  }

  /** getHex prints no blanks: every place is a digit or, for a negative value, a non-digit character. */
  lemma {:induction false} GetHexNoBlank(value: int, n: nat)
    ensures forall i | 0 <= i < n :: UtilByteOperations.GetHex(value, n)[i] != ' '
    decreases n
  {
    if n > 0 {
      var init := UtilByteOperations.GetHex(JavaDiv(value, 16), n - 1);
      var c := ForDigit(JavaRem(value, 16));
      GetHexNoBlank(JavaDiv(value, 16), n - 1);
      assert UtilByteOperations.GetHex(value, n) == init + [c];
      assert HexDigit(' ') < 0;
    }
  }
}
