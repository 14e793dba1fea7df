/**
 * The assembler's ByteOperations: `parseHex` with an optional 'x' prefix,
 * `extractValue`, the masking `getHex` and `getBit`, each following the Java
 * loop it comes from, with lemmas stating what the loops compute.
 */
module ByteOperations {
  import opened Wrappers
  import opened Bits
  import opened JavaLang
  import opened HexText

  /** The digits `parseHex` reads: the text after one leading 'x', if there is one. */
  function StripX(hex: string): string
    requires |hex| > 0
  {
    if hex[0] == 'x' then hex[1..] else hex
  }

  /**
   * `parseHex(hex)`: reading the first character of an empty text throws; otherwise
   * one leading 'x' is dropped and every remaining character must be a hex digit
   * of either case, read most significant first, with int wrap-around.
   */
  function ParseHex(hex: string): (r: Result<int, Thrown>)
    ensures |hex| == 0 ==> r == Err(IndexOutOfBounds)
    ensures |hex| > 0 ==> (r.Ok? <==> IsHexText(StripX(hex)))
    ensures |hex| > 0 && r.Err? ==> r.error == BadHex(StripX(hex))
    ensures r.Ok? ==> r.value == Wrap32(HexValue(StripX(hex)))
  {
    if |hex| == 0 then Err(IndexOutOfBounds)
    else
      var digits := StripX(hex);
      AccumulateHexValue(digits, |digits|, 0, 1);
      assert digits[..|digits|] == digits;
      AccumulateHex(digits, |digits|, 0, 1)
  }

  /** The mask loop of `extractValue`: `mask |= 1 << i` for i from start up to end - 1. */
  function RangeMask(start: int, end: int): int
    decreases end - start
  {
    if end <= start then 0 else Or(RangeMask(start, end - 1), Shl(1, end - 1))
  }

  /** `extractValue(value, start, end)`: `(value & mask) >> start`. */
  function ExtractValue(value: int, start: int, end: int): int
  {
    Shr(And(value, RangeMask(start, end)), start)
  }

  /** For bit positions within an int, the mask has exactly bits start..end-1 set. */
  lemma RangeMaskValue(start: nat, end: nat)
    requires start <= end <= 31
    ensures RangeMask(start, end) == (Pow2(end - start) - 1) * Pow2(start)
  {
    RangeMaskDiff(start, end);
    FieldMaskAt(end - start, start, end);
  }

  /** The mask of bits start..end-1 is 2^end - 2^start. */
  lemma {:induction false} RangeMaskDiff(start: nat, end: nat)
    requires start <= end <= 31
    ensures RangeMask(start, end) == Pow2(end) - Pow2(start)
    decreases end - start
  {
    if end > start {
      var e := end - 1;
      var x := RangeMask(start, e);
      RangeMaskDiff(start, e);
      Pow2Mono(start, e);
      ShlOneValue(e);
      assert RangeMask(start, end) == Or(x, Pow2(e));
      OrDisjointPow(x, e);
      Pow2Succ(e);
    }
  }

  /** `1 << e` is 2^e for e below 31. */
  lemma ShlOneValue(e: nat)
    requires e <= 30
    ensures Shl(1, e) == 1 * Pow2(e) == Pow2(e)
  {
    assert Pow2(e) <= 0x4000_0000 by {
      Pow2Mono(e, 30);
      Pow2Values();
    }
    assert e % 32 == e;
  }

  /** A field of w ones starting at bit s is 2^(w+s) - 2^s. */
  lemma FieldMaskDiff(w: nat, s: nat)
    ensures (Pow2(w) - 1) * Pow2(s) == Pow2(w + s) - Pow2(s)
    ensures Pow2(s) <= Pow2(w + s)
  {
    Pow2Add(w, s);
    Pow2Mono(s, w + s);
    MulSubOne(Pow2(w), Pow2(s));
  }

  lemma FieldMaskAt(w: nat, s: nat, n: nat)
    requires n == w + s
    ensures (Pow2(w) - 1) * Pow2(s) == Pow2(n) - Pow2(s) && Pow2(s) <= Pow2(n)
  {
    FieldMaskDiff(w, s);
  }

  lemma MulSubOne(a: int, b: int)
    ensures (a - 1) * b == a * b - b
  {
  }

  /**
   * extractValue returns bits start..end-1 of value (end exclusive), shifted down
   * to bit 0, for every int value and 0 <= start <= end <= 31.
   */
  lemma ExtractValueSpec(value: int, start: nat, end: nat)
    requires start <= end <= 31
    ensures ExtractValue(value, start, end) == (value / Pow2(start)) % Pow2(end - start)
    ensures 0 <= ExtractValue(value, start, end) < Pow2(end - start)
    ensures forall i: nat :: Bit(ExtractValue(value, start, end), i) == (i < end - start && Bit(value, i + start))
  {
    RangeMaskValue(start, end);
    AndFieldMask(value, end - start, start);
    var x := (value / Pow2(start)) % Pow2(end - start);
    assert start % 32 == start;
    assert (x * Pow2(start)) / Pow2(start) == x by {
      DivUnique(x * Pow2(start), Pow2(start), x, 0);
    }
    forall i: nat ensures Bit(x, i) == (i < end - start && Bit(value, i + start)) {
      BitModPow2(value / Pow2(start), end - start, i);
      BitDivPow2(value, start, i);
    }
  }

  /** The mask loop of `getHex`: `mask |= 0xF << (i * 4)` for i from 0 up to n - 1. */
  function HexMask(n: int): int
    decreases n
  {
    if n <= 0 then 0 else Or(HexMask(n - 1), Shl(0xF, (n - 1) * 4))
  }

  /** The mask keeps the low n hex digits, all 32 bits from n = 8 on. */
  lemma HexMaskValue(n: int)
    ensures n <= 0 ==> HexMask(n) == 0
    ensures 0 <= n <= 7 ==> HexMask(n) == Pow2(4 * n) - 1
    ensures n >= 8 ==> HexMask(n) == -1
  {
    if 0 <= n <= 7 {
      HexMaskLow(n);
    } else if n >= 8 {
      HexMaskFull(n);
    }
  }

  lemma {:induction false} HexMaskLow(n: nat)
    requires n <= 7
    ensures HexMask(n) == Pow2(4 * n) - 1
  {
    if n > 0 {
      HexMaskLow(n - 1);
      var e := (n - 1) * 4;
      ShlNibble(e);
      OrDisjoint(Pow2(e) - 1, 15, e);
      Pow16Step(n);
    }
  }

  lemma {:induction false} HexMaskFull(n: nat)
    requires n >= 8
    ensures HexMask(n) == -1
    decreases n
  {
    if n == 8 {
      HexMaskEight(n);
    } else {
      HexMaskFull(n - 1);
      var nibble := Shl(0xF, (n - 1) * 4);
      assert HexMask(n) == Or(HexMask(n - 1), nibble);
      OrMinusOne(nibble);
    }
  }

  lemma HexMaskEight(n: nat)
    requires n == 8
    ensures HexMask(n) == -1
  {
    var e := (n - 1) * 4;
    assert HexMask(n) == Or(HexMask(n - 1), Shl(0xF, e));
    HexMaskLow(n - 1);
    ShlTopNibble(e);
    OrDisjoint(Pow2(e) - 1, -1, e);
  }

  /** `0xF << e` does not overflow while e <= 24. */
  lemma ShlNibble(e: nat)
    requires e <= 24
    ensures Shl(0xF, e) == 15 * Pow2(e)
  {
    assert Pow2(e) <= 0x100_0000 by {
      Pow2Mono(e, 24);
      Pow2Values();
    }
    assert e % 32 == e;
  }

  /** `0xF << 28` wraps to the negative int -2^28. */
  lemma ShlTopNibble(e: nat)
    requires e == 28
    ensures Shl(0xF, e) == -1 * Pow2(e)
  {
    Pow2Values();
  }

  lemma OrMinusOne(x: int)
    ensures Or(-1, x) == -1
  {
  }

  /** `getHex(value, n)`: the hex text of `value & mask`, left-padded with '0' to n characters. */
  function GetHex(value: int, n: int): string
  {
    ZeroPad(ToHexString(And(value, HexMask(n))), n)
  }

  /**
   * For 1 <= n <= 8, getHex returns exactly n lower-case hex digits denoting the
   * low 4n bits of value; from n = 8 on, all 32 bits, zero-padded to n; and for
   * n <= 0 the single digit "0".
   */
  lemma GetHexSpec(value: int, n: int)
    requires IsInt(value)
    ensures IsLowerHexText(GetHex(value, n)) && IsHexText(GetHex(value, n))
    ensures 1 <= n <= 8 ==> |GetHex(value, n)| == n && HexValue(GetHex(value, n)) == value % Pow2(4 * n)
    ensures n >= 8 ==> |GetHex(value, n)| == n && HexValue(GetHex(value, n)) == value % 0x1_0000_0000
    ensures n <= 0 ==> GetHex(value, n) == "0"
  {
    if n <= 0 {
      GetHexEmpty(value, n);
    } else if n <= 7 {
      GetHexLow(value, n);
    } else {
      GetHexWide(value, n);
    }
  }

  lemma GetHexEmpty(value: int, n: int)
    requires n <= 0
    ensures GetHex(value, n) == "0"
  {
    HexMaskValue(n);
    AndZero(value);
    assert ToHexString(0) == HexDigitsOf(0);
  }

  lemma GetHexWide(value: int, n: int)
    requires n >= 8
    ensures IsLowerHexText(GetHex(value, n)) && IsHexText(GetHex(value, n))
    ensures |GetHex(value, n)| == n && HexValue(GetHex(value, n)) == value % 0x1_0000_0000
    ensures n == 8 ==> HexValue(GetHex(value, n)) == value % Pow2(4 * n)
  {
    HexMaskFull(n);
    AndMinusOne(value);
    var text := ToHexString(value);
    ZeroPadValue(text, n);
    ZeroPadShape(text, n);
    if n == 8 {
      assert Pow2(4 * n) == 0x1_0000_0000 by { Pow2Values(); }
    }
  }

  lemma GetHexLow(value: int, n: nat)
    requires 1 <= n <= 7
    ensures IsLowerHexText(GetHex(value, n)) && IsHexText(GetHex(value, n))
    ensures |GetHex(value, n)| == n && HexValue(GetHex(value, n)) == value % Pow2(4 * n)
  {
    HexMaskLow(n);
    AndLowMask(value, 4 * n);
    var u := value % Pow2(4 * n);
    GetHexOf(value, n, u);
    PaddedSmall(u, n);
  }

  /** getHex pads the hex text of the masked value. */
  lemma GetHexOf(value: int, n: int, u: int)
    requires And(value, HexMask(n)) == u
    ensures GetHex(value, n) == ZeroPad(ToHexString(u), n)
  {
  }

  /** A value below 16^n, n <= 7, prints as exactly n digits once padded. */
  lemma PaddedSmall(u: int, n: nat)
    requires 1 <= n <= 7 && 0 <= u < Pow2(4 * n)
    ensures IsLowerHexText(ZeroPad(ToHexString(u), n)) && IsHexText(ZeroPad(ToHexString(u), n))
    ensures |ZeroPad(ToHexString(u), n)| == n && HexValue(ZeroPad(ToHexString(u), n)) == u
  {
    assert Pow2(4 * n) <= 0x1_0000_0000 by {
      Pow2Mono(4 * n, 32);
      Pow2Values();
    }
    assert u % 0x1_0000_0000 == u;
    var text := ToHexString(u);
    assert text == HexDigitsOf(u);
    HexDigitsLength(u, n);
    ZeroPadValue(text, n);
    ZeroPadShape(text, n);
  }

  /** Printing the low 16 bits as four hex digits and parsing them back gives `v & 0xFFFF`. */
  lemma HexRoundTrip(v: int)
    requires IsInt(v)
    ensures ParseHex(GetHex(v, 4)) == Ok(And(v, 0xFFFF))
  {
    var text := GetHex(v, 4);
    GetHexSpec(v, 4);
    assert Pow2(4 * 4) == 0x1_0000 by { Pow2Values(); }
    AndLowMask(v, 16);
    ParsePlainHex(text, And(v, 0xFFFF));
  }

  /** A non-empty lower-case hex text with a small value parses to that value. */
  lemma ParsePlainHex(text: string, u: int)
    requires |text| > 0 && IsLowerHexText(text) && IsHexText(text)
    requires HexValue(text) == u && 0 <= u < 0x8000_0000
    ensures ParseHex(text) == Ok(u)
  {
    assert text[0] != 'x';
    assert StripX(text) == text;
  }

  /** `getBit(value, index)`: `((value >> index) & 1) == 1`. */
  function GetBit(value: int, index: int): bool
  {
    And(Shr(value, index), 1) == 1
  }

  /** getBit reads bit i, the same bit that extractValue(v, i, i + 1) isolates. */
  lemma GetBitSpec(value: int, index: nat)
    requires index < 32
    ensures GetBit(value, index) == Bit(value, index)
    ensures index < 31 ==> (GetBit(value, index) <==> ExtractValue(value, index, index + 1) == 1)
  {
    assert index % 32 == index;
    assert Pow2(1) == 2;
    AndLowMask(value / Pow2(index), 1);
    BitDivPow2(value, index, 0);
    if index < 31 {
      ExtractValueSpec(value, index, index + 1);
    }
  }
}

/**
 * The simulator's copy of ByteOperations: `parseHex` without a prefix and a
 * `getHex` built from n rounds of Java's truncating `% 16` and `/ 16`. Its
 * `extractValue` is the same code as the assembler's copy and is modelled by
 * ByteOperations.ExtractValue.
 */
module UtilByteOperations {
  import opened Wrappers
  import opened Bits
  import opened JavaLang
  import opened HexText
  import ByteOperations

  /**
   * `parseHex(hex)`: every character must be a hex digit of either case, read
   * most significant first with int wrap-around; the empty text gives 0.
   */
  function ParseHex(hex: string): (r: Result<int, Thrown>)
    ensures r.Ok? <==> IsHexText(hex)
    ensures r.Err? ==> r.error == BadHex(hex)
    ensures r.Ok? ==> r.value == Wrap32(HexValue(hex))
  {
    AccumulateHexValue(hex, |hex|, 0, 1);
    assert hex[..|hex|] == hex;
    AccumulateHex(hex, |hex|, 0, 1)
  }

  /**
   * `getHex(value, n)`: n rounds, each writing `forDigit(value % 16)` one place
   * further left and dividing value by 16. The text always has n characters.
   */
  function GetHex(value: int, n: nat): (r: string)
    ensures |r| == n
    decreases n
  {
    if n == 0 then ""
    else GetHex(JavaDiv(value, 16), n - 1) + [ForDigit(JavaRem(value, 16))]
  }

  /** For a non-negative value, getHex is the zero-padded lower-case hex of value mod 16^n. */
  lemma GetHexSpec(value: int, n: nat)
    requires value >= 0
    ensures IsLowerHexText(GetHex(value, n)) && IsHexText(GetHex(value, n))
    ensures HexValue(GetHex(value, n)) == value % Pow2(4 * n)
  {
    GetHexDigits(value, n);
    GetHexValue(value, n);
  }

  /** For a non-negative value, Java's `/` and `%` are Dafny's. */
  lemma GetHexLast(value: int, n: nat)
    requires value >= 0 && n >= 1
    ensures GetHex(value, n) == GetHex(value / 16, n - 1) + [ForDigit(value % 16)]
  {
  }

  /** Every character getHex writes is a lower-case hex digit. */
  lemma {:induction false} GetHexDigits(value: int, n: nat)
    requires value >= 0
    ensures IsLowerHexText(GetHex(value, n)) && IsHexText(GetHex(value, n))
    decreases n
  {
    if n > 0 {
      var r := GetHex(value, n);
      var init := GetHex(value / 16, n - 1);
      GetHexDigits(value / 16, n - 1);
      GetHexLast(value, n);
      forall i | 0 <= i < n
        ensures ('0' <= r[i] <= '9' || 'a' <= r[i] <= 'f') && HexDigit(r[i]) >= 0
      {
        if i < n - 1 { assert r[i] == init[i]; }
      }
    }
  }

  /** The digits getHex writes spell value mod 16^n. */
  lemma {:induction false} GetHexValue(value: int, n: nat)
    requires value >= 0
    ensures HexValue(GetHex(value, n)) == value % Pow2(4 * n)
    decreases n
  {
    var r := GetHex(value, n);
    if n == 0 {
      assert Pow2(0) == 1;
    } else {
      var init := GetHex(value / 16, n - 1);
      GetHexValue(value / 16, n - 1);
      GetHexLast(value, n);
      assert r[..n - 1] == init;
      Pow16Step(n);
      DivDivBase(value, 16, Pow2(4 * (n - 1)));
    }
  }

  /** For 0 <= v < 16^n, parsing getHex(v, n) gives v back. */
  lemma HexRoundTrip(value: int, n: nat)
    requires 0 <= value < Pow2(4 * n) && IsInt(value)
    ensures ParseHex(GetHex(value, n)) == Ok(value)
  {
    GetHexSpec(value, n);
    DivUnique(value, Pow2(4 * n), 0, value);
  }

  /** The two copies of getHex agree on every non-negative value below 16^n, 1 <= n <= 8. */
  lemma GetHexCopiesAgree(value: int, n: nat)
    requires 1 <= n <= 8 && 0 <= value < Pow2(4 * n) && IsInt(value)
    ensures ByteOperations.GetHex(value, n) == GetHex(value, n)
  {
    GetHexSpec(value, n);
    ByteOperations.GetHexSpec(value, n);
    LowerHexInjective(ByteOperations.GetHex(value, n), GetHex(value, n));
  }
}
