/**
 * Fixed-column scanning of one assembler source line: the label in columns
 * 1-7, the operation in columns 10-14, the operands from column 18 on, and the
 * blank separators between them.
 */
module LineScan {
  import opened Wrappers
  import opened JavaLang

  function Min(a: int, b: int): int { if a < b then a else b }

  /** The label: columns 1-7 trimmed, or nothing when the line is shorter than 8 characters. */
  function Label(line: string): (r: string)
    ensures |r| <= 7
    ensures r == [] || (!IsBlank(r[0]) && !IsBlank(r[|r| - 1]))
  {
    if |line| >= 8 then Trim(line[..7]) else ""
  }

  /** The operation: columns 10-14 trimmed, or nothing when the line has at most 9 characters. */
  function OpField(line: string): (r: string)
    ensures |r| <= 5
  {
    if |line| > 9 then Trim(line[9..Min(|line|, 14)]) else ""
  }

  /**
   * On a line of at least eight characters, the label is the stretch of
   * columns 1-7 between the blanks: a name written from column a + 1 to
   * column b, with only blanks around it in columns 1-7, is read as exactly
   * that name; a shorter line has no label.
   */
  lemma LabelSpec(line: string, a: nat, b: nat)
    requires a <= b <= 7
    requires forall i | 0 <= i < Min(|line|, 7) && (i < a || b <= i) :: IsBlank(line[i])
    requires |line| >= 8 && a < b ==> !IsBlank(line[a]) && !IsBlank(line[b - 1])
    ensures |line| < 8 ==> Label(line) == ""
    ensures |line| >= 8 ==> Label(line) == line[a..b]
  {
    if |line| >= 8 {
      TrimWindow(line, 0, 7, a, b);
    }
  }

  /**
   * The operation is read the same way from columns 10-14: a name from column
   * a + 1 to column b with blanks around it there is read as exactly that name.
   */
  lemma OpFieldSpec(line: string, a: nat, b: nat)
    requires 9 <= a <= b <= 14 && |line| >= 14
    requires forall i | 9 <= i < 14 && (i < a || b <= i) :: IsBlank(line[i])
    requires a < b ==> !IsBlank(line[a]) && !IsBlank(line[b - 1])
    ensures OpField(line) == line[a..b]
  {
    assert Min(|line|, 14) == 14;
    TrimWindow(line, 9, 14, a, b);
  }

  /** Trimming the window line[lo..hi) keeps the stretch line[a..b) that has blanks around it. */
  lemma TrimWindow(line: string, lo: nat, hi: nat, a: nat, b: nat)
    requires lo <= a <= b <= hi <= |line|
    requires forall i | lo <= i < hi && (i < a || b <= i) :: IsBlank(line[i])
    requires a < b ==> !IsBlank(line[a]) && !IsBlank(line[b - 1])
    ensures Trim(line[lo..hi]) == line[a..b]
  {
    var t := line[lo..hi];
    assert Trim(t) == t[a - lo..b - lo] by {
      forall i | 0 <= i < |t| && (i < a - lo || b - lo <= i)
        ensures IsBlank(t[i])
      {
        assert t[i] == line[i + lo];
      }
      TrimSpec(t, a - lo, b - lo);
    }
    SliceOfSlice(line, lo, hi, a, b);
  }

  lemma SliceOfSlice(s: string, lo: nat, hi: nat, a: nat, b: nat)
    requires lo <= a <= b <= hi <= |s|
    ensures s[lo..hi][a - lo..b - lo] == s[a..b]
  {
    forall k | 0 <= k < b - a
      ensures s[lo..hi][a - lo..b - lo][k] == s[a..b][k]
    {
    }
  }

  /** Columns 8-9 or columns 15-17 hold something other than blanks. */
  predicate SpacingBad(line: string)
  {
    (|line| >= 9 && Trim(line[7..9]) != "") || (|line| >= 17 && Trim(line[14..17]) != "")
  }

  /** The operand text: everything from column 18 on, trimmed. */
  function OperandField(line: string): string
  {
    if |line| >= 17 then Trim(line[17..]) else ""
  }

  /** The state of the operand scanner: operands so far, the one being read, and whether a quote is open. */
  datatype Scan = Scan(result: seq<string>, current: string, inQuotes: bool)

  /** The character loop of `getOperands` from index i on; a ';' outside quotes stops it. */
  function ScanFrom(t: string, i: nat, s: Scan): Scan
    requires i <= |t|
    decreases |t| - i
  {
    if i == |t| then s
    else
      var c := t[i];
      if s.inQuotes then
        if c == '"' then ScanFrom(t, i + 1, Scan(s.result + [s.current + [c]], "", false))
        else ScanFrom(t, i + 1, Scan(s.result, s.current + [c], true))
      else if c == '"' then ScanFrom(t, i + 1, Scan(s.result, s.current + [c], true))
      else if c == ';' then s
      else if c == ',' then ScanFrom(t, i + 1, Scan(s.result + [Trim(s.current)], "", false))
      else ScanFrom(t, i + 1, Scan(s.result, s.current + [c], false))
  }

  /**
   * `getOperands(line)`: the operand texts of the line; a quote left open
   * throws, and a last piece that is blank is not an operand.
   */
  function GetOperands(line: string): (r: Result<seq<string>, Thrown>)
    ensures r.Err? ==> r.error == UnclosedQuote
  {
    var s := ScanFrom(OperandField(line), 0, Scan([], "", false));
    if s.inQuotes then Err(UnclosedQuote)
    else Ok(s.result + (if Trim(s.current) != "" then [Trim(s.current)] else []))
  }

  // ---------------------------------------------------------------------------
  // Reference reading of a field without quotes
  // ---------------------------------------------------------------------------

  /** The text before the first ';'. */
  function BeforeComment(t: string): (r: string)
    ensures ';' !in r
  {
    if ';' in t then t[..FirstIndex(t, ';')] else t
  }

  /** Each piece trimmed. */
  function TrimAll(ps: seq<string>): seq<string>
  {
    if |ps| == 0 then [] else [Trim(ps[0])] + TrimAll(ps[1..])
  }

  /**
   * A comma list read the plain way: the text before any ';' is split at every
   * comma and each piece trimmed; a blank last piece is dropped.
   */
  function CommaList(t: string): seq<string>
  {
    var p := SplitAll(BeforeComment(t), ',');
    TrimAll(p[..|p| - 1]) + (if Trim(p[|p| - 1]) != "" then [Trim(p[|p| - 1])] else [])
  }

  /**
   * Without quotes, getOperands is the plain comma list of the operand field:
   * split on commas up to the first ';', each piece trimmed, a blank last
   * piece dropped (blank inner pieces stay, as empty operands).
   */
  lemma QuoteFreeOperands(line: string)
    requires '"' !in OperandField(line)
    ensures GetOperands(line) == Ok(CommaList(OperandField(line)))
  {
    var t := OperandField(line);
    QuoteFreeScan(t);
    ScannedOperands(line, SplitAll(BeforeComment(t), ','));
  }

  /** getOperands when the scan leaves the trimmed front pieces done and the last piece pending. */
  lemma ScannedOperands(line: string, p: seq<string>)
    requires |p| > 0 && p == SplitAll(BeforeComment(OperandField(line)), ',')
    requires ScanFrom(OperandField(line), 0, Scan([], "", false)) == Scan(TrimAll(p[..|p| - 1]), p[|p| - 1], false)
    ensures GetOperands(line) == Ok(CommaList(OperandField(line)))
  {
  }

  /** Without quotes, the scan ends with the trimmed comma pieces before ';' done and the last one pending. */
  lemma QuoteFreeScan(t: string)
    requires '"' !in t
    ensures var p := SplitAll(BeforeComment(t), ',');
      ScanFrom(t, 0, Scan([], "", false)) == Scan(TrimAll(p[..|p| - 1]), p[|p| - 1], false)
  {
    var b := BeforeComment(t);
    var p := SplitAll(b, ',');
    assert t[0..] == t;
    ScanQuoteFree(t, 0, [], "");
    assert "" + b == b;
    PredictedOf([], "", b, p);
    assert [] + TrimAll(p[..|p| - 1]) == TrimAll(p[..|p| - 1]);
  }

  /** The scan state the plain reading predicts after `res`, with `cur + u` still to split. */
  function Predicted(res: seq<string>, cur: string, u: string): Scan
  {
    var p := SplitAll(cur + u, ',');
    Scan(res + TrimAll(p[..|p| - 1]), p[|p| - 1], false)
  }

  lemma PredictedEnd(res: seq<string>, cur: string)
    requires ',' !in cur
    ensures Predicted(res, cur, "") == Scan(res, cur, false)
  {
    assert cur + "" == cur;
  }

  lemma PredictedComma(res: seq<string>, cur: string, rest: string)
    requires ',' !in cur
    ensures Predicted(res, cur, [','] + rest) == Predicted(res + [Trim(cur)], "", rest)
  {
    var p' := SplitAll(rest, ',');
    var front := p'[..|p'| - 1];
    var x := TrimAll(front);
    PredictedCommaLeft(res, cur, rest, p', front);
    PredictedCommaRight(res, cur, rest, p', front);
    assert res + ([Trim(cur)] + x) == (res + [Trim(cur)]) + x;
  }

  lemma PredictedCommaLeft(res: seq<string>, cur: string, rest: string, p': seq<string>, front: seq<string>)
    requires ',' !in cur && p' == SplitAll(rest, ',') && front == p'[..|p'| - 1]
    ensures Predicted(res, cur, [','] + rest) == Scan(res + ([Trim(cur)] + TrimAll(front)), p'[|p'| - 1], false)
  {
    var p := [cur] + p';
    SplitAtComma(cur, rest);
    PredictedOf(res, cur, [','] + rest, p);
    assert p[..|p| - 1] == [cur] + front;
    TrimAllCons(cur, front);
  }

  lemma PredictedCommaRight(res: seq<string>, cur: string, rest: string, p': seq<string>, front: seq<string>)
    requires p' == SplitAll(rest, ',') && front == p'[..|p'| - 1]
    ensures Predicted(res + [Trim(cur)], "", rest) == Scan((res + [Trim(cur)]) + TrimAll(front), p'[|p'| - 1], false)
  {
    assert "" + rest == rest;
    PredictedOf(res + [Trim(cur)], "", rest, p');
  }

  lemma PredictedOf(res: seq<string>, cur: string, u: string, p: seq<string>)
    requires p == SplitAll(cur + u, ',')
    ensures Predicted(res, cur, u) == Scan(res + TrimAll(p[..|p| - 1]), p[|p| - 1], false)
  {
  }

  lemma TrimAllCons(a: string, ps: seq<string>)
    ensures TrimAll([a] + ps) == [Trim(a)] + TrimAll(ps)
  {
    assert ([a] + ps)[1..] == ps;
  }

  lemma PredictedChar(res: seq<string>, cur: string, c: char, rest: string)
    ensures Predicted(res, cur, [c] + rest) == Predicted(res, cur + [c], rest)
  {
    assert cur + ([c] + rest) == (cur + [c]) + rest;
  }

  lemma {:induction false} ScanQuoteFree(t: string, i: nat, res: seq<string>, cur: string)
    requires i <= |t| && '"' !in t[i..] && ',' !in cur
    ensures ScanFrom(t, i, Scan(res, cur, false)) == Predicted(res, cur, BeforeComment(t[i..]))
    decreases |t| - i
  {
    BeforeCommentStep(t, i);
    if i == |t| || t[i] == ';' {
      PredictedEnd(res, cur);
    } else {
      var c := t[i];
      var rest := BeforeComment(t[i + 1..]);
      QuoteFreeTail(t, i);
      if c == ',' {
        ScanCommaStep(t, i, res, cur);
        ScanQuoteFree(t, i + 1, res + [Trim(cur)], "");
        PredictedComma(res, cur, rest);
      } else {
        ScanCharStep(t, i, res, cur);
        ScanQuoteFree(t, i + 1, res, cur + [c]);
        PredictedChar(res, cur, c, rest);
      }
    }
  }

  /** A text without quotes from i on has none from i + 1 on, and no quote at i. */
  lemma QuoteFreeTail(t: string, i: nat)
    requires i < |t| && '"' !in t[i..]
    ensures '"' !in t[i + 1..] && t[i] != '"'
  {
    assert t[i..] == [t[i]] + t[i + 1..];
  }

  /** Outside quotes, a comma closes the current operand. */
  lemma ScanCommaStep(t: string, i: nat, res: seq<string>, cur: string)
    requires i < |t| && t[i] == ','
    ensures ScanFrom(t, i, Scan(res, cur, false)) == ScanFrom(t, i + 1, Scan(res + [Trim(cur)], "", false))
  {
  }

  /** Outside quotes, any character but a quote, a semicolon or a comma joins the current operand. */
  lemma ScanCharStep(t: string, i: nat, res: seq<string>, cur: string)
    requires i < |t| && t[i] != '"' && t[i] != ';' && t[i] != ','
    ensures ScanFrom(t, i, Scan(res, cur, false)) == ScanFrom(t, i + 1, Scan(res, cur + [t[i]], false))
  {
  }

  /** Stepping one character into the text before the comment. */
  lemma BeforeCommentStep(t: string, i: nat)
    requires i <= |t|
    ensures i == |t| ==> BeforeComment(t[i..]) == ""
    ensures i < |t| && t[i] == ';' ==> BeforeComment(t[i..]) == ""
    ensures i < |t| && t[i] != ';' ==> BeforeComment(t[i..]) == [t[i]] + BeforeComment(t[i + 1..])
  {
    if i < |t| && t[i] != ';' {
      var u := t[i..];
      assert u[1..] == t[i + 1..];
      if ';' in u {
        var k := FirstIndex(u, ';');
        assert k > 0;
        assert ';' in u[1..] by { assert u[1..][k - 1] == ';'; }
        var k' := FirstIndex(u[1..], ';');
        assert k' == k - 1;
        assert u[..k] == [u[0]] + u[1..][..k'];
      } else {
        assert ';' !in u[1..] by {
          forall k | 0 <= k < |u[1..]| ensures u[1..][k] != ';' { assert u[1..][k] == u[k + 1]; }
        }
      }
    }
  }

  /** Splitting at the first comma when the text before it has none. */
  lemma SplitAtComma(a: string, b: string)
    requires ',' !in a
    ensures SplitAll(a + ([','] + b), ',') == [a] + SplitAll(b, ',')
  {
    var s := a + ([','] + b);
    FirstCommaAt(a, b, s);
    assert s[..|a|] == a;
    assert s[|a| + 1..] == b;
  }

  lemma FirstCommaAt(a: string, b: string, s: string)
    requires ',' !in a && s == a + ([','] + b)
    ensures ',' in s && FirstIndex(s, ',') == |a|
  {
    assert s[|a|] == ',';
  }

  // ---------------------------------------------------------------------------
  // Quotes
  // ---------------------------------------------------------------------------

  /** Once a quote is open and no further quote follows, the scan ends with the quote open. */
  lemma {:induction false} ScanStaysQuoted(t: string, i: nat, s: Scan)
    requires i <= |t| && s.inQuotes
    requires forall k | i <= k < |t| :: t[k] != '"'
    ensures ScanFrom(t, i, s).inQuotes
    decreases |t| - i
  {
    if i < |t| {
      ScanStaysQuoted(t, i + 1, Scan(s.result, s.current + [t[i]], true));
    }
  }

  /** The scan state at index q when the scan starts at i in state s (the loop cut short at q). */
  function ScanTo(t: string, i: nat, s: Scan, q: nat): Scan
    requires i <= q <= |t|
    decreases q - i
  {
    if i == q then s
    else
      var c := t[i];
      if s.inQuotes then
        if c == '"' then ScanTo(t, i + 1, Scan(s.result + [s.current + [c]], "", false), q)
        else ScanTo(t, i + 1, Scan(s.result, s.current + [c], true), q)
      else if c == '"' then ScanTo(t, i + 1, Scan(s.result, s.current + [c], true), q)
      else if c == ';' then s
      else if c == ',' then ScanTo(t, i + 1, Scan(s.result + [Trim(s.current)], "", false), q)
      else ScanTo(t, i + 1, Scan(s.result, s.current + [c], false), q)
  }

  /** Without quotes or ';' before q, the scan reaches index q with no quote open. */
  lemma {:induction false} ScanReaches(t: string, i: nat, s: Scan, q: nat)
    requires i <= q <= |t| && !s.inQuotes
    requires forall k | i <= k < q :: t[k] != '"' && t[k] != ';'
    ensures !ScanTo(t, i, s, q).inQuotes
    ensures ScanFrom(t, i, s) == ScanFrom(t, q, ScanTo(t, i, s, q))
    decreases q - i
  {
    if i < q {
      var c := t[i];
      var s1 := if c == ',' then Scan(s.result + [Trim(s.current)], "", false) else Scan(s.result, s.current + [c], false);
      assert ScanFrom(t, i, s) == ScanFrom(t, i + 1, s1);
      assert ScanTo(t, i, s, q) == ScanTo(t, i + 1, s1, q);
      ScanReaches(t, i + 1, s1, q);
    }
  }

  /**
   * A quote that opens before any ';' of the operand field and is never
   * closed makes getOperands throw the unclosed-quote error.
   */
  lemma UnclosedQuoteThrows(line: string, q: nat)
    requires q < |OperandField(line)| && OperandField(line)[q] == '"'
    requires forall k | 0 <= k < q :: OperandField(line)[k] != '"' && OperandField(line)[k] != ';'
    requires forall k | q < k < |OperandField(line)| :: OperandField(line)[k] != '"'
    ensures GetOperands(line) == Err(UnclosedQuote)
  {
    var t := OperandField(line);
    var s0 := Scan([], "", false);
    ScanReaches(t, 0, s0, q);
    var s' := ScanTo(t, 0, s0, q);
    ScanStaysQuoted(t, q + 1, Scan(s'.result, s'.current + ['"'], true));
  }

  /**
   * `getNameFromFilename`: the first six characters of the file name, padded
   * with spaces to exactly six.
   */
  function GetNameFromFilename(filename: string): (r: string)
    ensures |r| == 6
    ensures forall i | 0 <= i < Min(|filename|, 6) :: r[i] == filename[i]
    ensures forall i | Min(|filename|, 6) <= i < 6 :: r[i] == ' '
  {
    var prefix := filename[..Min(|filename|, 6)];
    var r := PadRight(prefix, 6);
    assert forall i | 0 <= i < |prefix| :: r[i] == r[..|prefix|][i];
    r
  }
}
