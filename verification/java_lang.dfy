/**
 * The pieces of the Java standard library the toolchain relies on, stated over
 * Dafny strings: character digits, `String.trim`, `String.split("\n")`,
 * `String.format("%1$-6s", ..)`, `Integer.parseInt`/`Integer.valueOf` in radix 10,
 * `Integer.toString`, and Java's truncating `/` and `%`.
 *
 * Only ASCII digits and letters are treated as digits; Java also accepts other
 * Unicode digit characters, which this model does not.
 */
module JavaLang {
  import opened Wrappers
  import opened Bits

  /**
   * The exceptions the modelled code can raise. Every one carries a message
   * except NullPointer, which the assembler's catch block drops silently.
   */
  datatype Thrown =
    | IndexOutOfBounds                 // String/ArrayIndexOutOfBoundsException
    | NumberFormat(text: string)       // NumberFormatException for `text`
    | BadHex(text: string)             // "Cannot parse \"text\" as a hex value."
    | UnclosedQuote                    // getOperands' unclosed quotation mark
    | AliasToSelf(name: string)        // SymbolTable alias of a name to itself
    | AliasToUndefined(name: string)   // SymbolTable alias of an undefined target
    | UndefinedSymbol(name: string)    // MemoryBank.resolveSymbols
    | InvalidOpCode(nibble: string)    // InstructionMappings.execute
    | NullPointer                      // NullPointerException (no message)
  {
    /** `e.getMessage() != null`. */
    predicate HasMessage() { !NullPointer? }
  }

  // ---------------------------------------------------------------------------
  // Characters
  // ---------------------------------------------------------------------------

  /** `Character.digit(c, 16)`: the value of a hex digit of either case, or -1. */
  function HexDigit(c: char): (d: int)
    ensures -1 <= d < 16
    ensures d >= 0 <==> ('0' <= c <= '9' || 'a' <= c <= 'f' || 'A' <= c <= 'F')
  {
    if '0' <= c <= '9' then c as int - '0' as int
    else if 'a' <= c <= 'f' then c as int - 'a' as int + 10
    else if 'A' <= c <= 'F' then c as int - 'A' as int + 10
    else -1
  }

  /** `Character.digit(c, 10)`: the value of a decimal digit, or -1. */
  function DecimalDigit(c: char): (d: int)
    ensures -1 <= d < 10
    ensures d >= 0 <==> '0' <= c <= '9'
  {
    if '0' <= c <= '9' then c as int - '0' as int else -1
  }

  /** `Character.forDigit(d, 16)`: a lower-case digit, or the null character out of range. */
  function ForDigit(d: int): (c: char)
    ensures 0 <= d < 16 ==> HexDigit(c) == d && !('A' <= c <= 'F')
    ensures !(0 <= d < 16) ==> c == 0 as char
  {
    if 0 <= d < 10 then ('0' as int + d) as char
    else if 10 <= d < 16 then ('a' as int + d - 10) as char
    else 0 as char
  }

  // ---------------------------------------------------------------------------
  // Truncating division
  // ---------------------------------------------------------------------------

  /** Java's `a / b` on ints: the quotient rounded toward zero. */
  function JavaDiv(a: int, b: int): (q: int)
    requires b > 0
    ensures a >= 0 ==> q == a / b
    ensures a < 0 ==> q == -((-a) / b)
  {
    if a >= 0 then a / b else -((-a) / b)
  }

  /** Java's `a % b` on ints: the remainder takes the sign of the dividend. */
  function JavaRem(a: int, b: int): (r: int)
    requires b > 0
    ensures a == JavaDiv(a, b) * b + r
    ensures a >= 0 ==> 0 <= r < b
    ensures a < 0 ==> -b < r <= 0
  {
    if a >= 0 then a % b else -((-a) % b)
  }

  // ---------------------------------------------------------------------------
  // Strings
  // ---------------------------------------------------------------------------

  /** Characters `String.trim` removes. */
  predicate IsBlank(c: char) { c <= ' ' }

  function TrimLeft(s: string): (r: string)
    ensures |r| <= |s| && r == s[|s| - |r|..]
    ensures r == [] || !IsBlank(r[0])
    ensures forall i | 0 <= i < |s| - |r| :: IsBlank(s[i])
  {
    if |s| > 0 && IsBlank(s[0]) then TrimLeft(s[1..]) else s
  }

  function TrimRight(s: string): (r: string)
    ensures |r| <= |s| && r == s[..|r|]
    ensures r == [] || !IsBlank(r[|r| - 1])
    ensures forall i | |r| <= i < |s| :: IsBlank(s[i])
  {
    if |s| > 0 && IsBlank(s[|s| - 1]) then TrimRight(s[..|s| - 1]) else s
  }

  /** `s.trim()`: s without its leading and trailing blanks. */
  function Trim(s: string): (r: string)
    ensures |r| <= |s|
    ensures r == [] || (!IsBlank(r[0]) && !IsBlank(r[|r| - 1]))
  {
    TrimRight(TrimLeft(s))
  }

  /** Trimming leaves nothing exactly when every character is blank. */
  lemma TrimEmpty(s: string)
    ensures (forall i | 0 <= i < |s| :: IsBlank(s[i])) <==> Trim(s) == []
  {
  }

  /** Trimming a string that has no blank at either end leaves it unchanged. */
  lemma TrimNoBlanks(s: string)
    requires s != [] ==> !IsBlank(s[0]) && !IsBlank(s[|s| - 1])
    ensures Trim(s) == s
  {
  }

  /**
   * What trim keeps: given a stretch s[a..b) with a non-blank character at
   * each end and only blanks outside it, trim returns exactly that stretch.
   */
  lemma TrimSpec(s: string, a: nat, b: nat)
    requires a <= b <= |s|
    requires forall i | 0 <= i < a :: IsBlank(s[i])
    requires forall i | b <= i < |s| :: IsBlank(s[i])
    requires a < b ==> !IsBlank(s[a]) && !IsBlank(s[b - 1])
    ensures Trim(s) == s[a..b]
  {
    if a == b {
      TrimEmpty(s);
    } else {
      var l := TrimLeft(s);
      assert |s| - |l| == a;
      var r := TrimRight(l);
      assert |r| == b - a;
    }
  }

  /** `s.substring(b, e)`: throws unless 0 <= b <= e <= |s|. */
  function Substring(s: string, b: int, e: int): (r: Result<string, Thrown>)
    ensures r.Ok? <==> 0 <= b <= e <= |s|
    ensures r.Ok? ==> r.value == s[b..e] && |r.value| == e - b
    ensures r.Err? ==> r.error == IndexOutOfBounds
  {
    if 0 <= b <= e <= |s| then Ok(s[b..e]) else Err(IndexOutOfBounds)
  }

  /** `s.substring(b)`: throws unless 0 <= b <= |s|. */
  function SubstringFrom(s: string, b: int): (r: Result<string, Thrown>)
    ensures r.Ok? <==> 0 <= b <= |s|
    ensures r.Ok? ==> r.value == s[b..]
    ensures r.Err? ==> r.error == IndexOutOfBounds
  {
    if 0 <= b <= |s| then Ok(s[b..]) else Err(IndexOutOfBounds)
  }

  /** `s.charAt(i)`: throws unless 0 <= i < |s|. */
  function CharAt(s: string, i: int): (r: Result<char, Thrown>)
    ensures r.Ok? <==> 0 <= i < |s|
    ensures r.Ok? ==> r.value == s[i]
    ensures r.Err? ==> r.error == IndexOutOfBounds
  {
    if 0 <= i < |s| then Ok(s[i]) else Err(IndexOutOfBounds)
  }

  /** `String.format("%1$-6s", s)` and friends: right-pad with spaces, never truncate. */
  function PadRight(s: string, width: nat): (r: string)
    ensures |r| == if |s| >= width then |s| else width
    ensures r[..|s|] == s
    ensures forall i | |s| <= i < |r| :: r[i] == ' '
  {
    if |s| >= width then s else s + seq(width - |s|, _ => ' ')
  }

  /** Every piece of s between occurrences of sep, empty pieces included. */
  function SplitAll(s: string, sep: char): (r: seq<string>)
    ensures |r| >= 1
  {
    if sep !in s then [s]
    else
      var i := FirstIndex(s, sep);
      [s[..i]] + SplitAll(s[i + 1..], sep)
  }

  /** No piece holds the separator, and joining the pieces with it gives s back. */
  lemma {:induction false} SplitAllSpec(s: string, sep: char)
    ensures forall k | 0 <= k < |SplitAll(s, sep)| :: sep !in SplitAll(s, sep)[k]
    ensures JoinWith(SplitAll(s, sep), sep) == s
    decreases |s|
  {
    if sep in s {
      var i := FirstIndex(s, sep);
      SplitAllSpec(s[i + 1..], sep);
      var rest := SplitAll(s[i + 1..], sep);
      assert ([s[..i]] + rest)[1..] == rest;
      assert s == s[..i] + [sep] + s[i + 1..];
    }
  }

  /** The inverse of SplitAll: the pieces with sep between them. */
  function JoinWith(pieces: seq<string>, sep: char): string
  {
    if |pieces| == 0 then ""
    else if |pieces| == 1 then pieces[0]
    else pieces[0] + [sep] + JoinWith(pieces[1..], sep)
  }

  function FirstIndex(s: string, c: char): (i: nat)
    requires c in s
    ensures i < |s| && s[i] == c && c !in s[..i]
  {
    if s[0] == c then 0 else 1 + FirstIndex(s[1..], c)
  }

  /** Drops the trailing empty strings of a sequence. */
  function DropTrailingEmpty(pieces: seq<string>): (r: seq<string>)
    ensures |r| <= |pieces| && r == pieces[..|r|]
    ensures r == [] || r[|r| - 1] != ""
    ensures forall k | |r| <= k < |pieces| :: pieces[k] == ""
  {
    if |pieces| > 0 && pieces[|pieces| - 1] == "" then DropTrailingEmpty(pieces[..|pieces| - 1])
    else pieces
  }

  /**
   * `s.split("\n")`: the lines of s with trailing empty lines dropped; a string
   * with no separator at all (the empty string included) is its own single line.
   */
  function SplitLines(s: string): (r: seq<string>)
    ensures forall k | 0 <= k < |r| :: '\n' !in r[k]
    ensures '\n' !in s ==> r == [s]
  {
    if '\n' !in s then [s]
    else
      SplitAllSpec(s, '\n');
      DropTrailingEmpty(SplitAll(s, '\n'))
  }

  // ---------------------------------------------------------------------------
  // Decimal numbers
  // ---------------------------------------------------------------------------

  predicate AllDecimal(s: string)
  {
    forall i | 0 <= i < |s| :: '0' <= s[i] <= '9'
  }

  /** The value of a string of decimal digits, most significant first. */
  function DecimalValue(s: string): int
  {
    if |s| == 0 then 0 else 10 * DecimalValue(s[..|s| - 1]) + DecimalDigit(s[|s| - 1])
  }

  /** The text `Integer.parseInt` accepts: an optional sign, then at least one digit. */
  predicate IsDecimalText(s: string)
  {
    if |s| > 0 && (s[0] == '-' || s[0] == '+') then |s| > 1 && AllDecimal(s[1..])
    else |s| > 0 && AllDecimal(s)
  }

  /** The signed value such a text denotes. */
  function SignedValue(s: string): int
  {
    if |s| > 0 && s[0] == '-' then -DecimalValue(s[1..])
    else if |s| > 0 && s[0] == '+' then DecimalValue(s[1..])
    else DecimalValue(s)
  }

  /**
   * `Integer.parseInt(s)` / `Integer.valueOf(s, 10)`: succeeds exactly on a
   * well-formed decimal text whose value fits an int.
   */
  function ParseInt(s: string): (r: Result<int, Thrown>)
    ensures r.Ok? <==> IsDecimalText(s) && IsInt(SignedValue(s))
    ensures r.Ok? ==> r.value == SignedValue(s)
    ensures r.Err? ==> r.error == NumberFormat(s)
  {
    if IsDecimalText(s) && IsInt(SignedValue(s)) then Ok(SignedValue(s)) else Err(NumberFormat(s))
  }

  /** The decimal digits of a natural number, without leading zeros. */
  function Digits(n: nat): (r: string)
    ensures |r| >= 1 && AllDecimal(r)
    ensures DecimalValue(r) == n
    ensures r[0] == '0' <==> n == 0
    ensures n == 0 ==> r == "0"
  {
    var last := ('0' as int + n % 10) as char;
    if n < 10 then [last]
    else
      var r := Digits(n / 10) + [last];
      assert r[..|r| - 1] == Digits(n / 10);
      r
  }

  /**
   * `Integer.toString(n)`: a minus sign exactly for negatives, then the
   * decimal digits of the magnitude, with no leading zero unless n is zero.
   */
  function IntToString(n: int): (r: string)
    ensures |r| >= 1
    ensures r[0] == '-' <==> n < 0
    ensures var d := if n < 0 then r[1..] else r;
      && |d| >= 1 && AllDecimal(d) && DecimalValue(d) == (if n < 0 then -n else n)
      && (d[0] == '0' <==> n == 0)
  {
    if n < 0 then "-" + Digits(-n) else Digits(n)
  }

  /** Printing an int and parsing it back gives the same int. */
  lemma ParseIntToString(n: int)
    requires IsInt(n)
    ensures ParseInt(IntToString(n)) == Ok(n)
  {
    var r := IntToString(n);
    if n < 0 {
      assert r[1..] == Digits(-n);
    } else {
      assert r[0] != '-' && r[0] != '+';
    }
  }
}
