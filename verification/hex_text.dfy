/**
 * Hexadecimal text shared by both copies of ByteOperations: the value of a digit
 * string, the digit-accumulating loop of `parseHex`, `Integer.toHexString`, and
 * the zero-padding loop of `getHex`.
 */
module HexText {
  import opened Wrappers
  import opened Bits
  import opened JavaLang

  /** Every character is a hex digit of either case. */
  predicate IsHexText(s: string)
  {
    forall i | 0 <= i < |s| :: HexDigit(s[i]) >= 0
  }

  /** Every character is one of 0-9 a-f. */
  predicate IsLowerHexText(s: string)
  {
    forall i | 0 <= i < |s| :: '0' <= s[i] <= '9' || 'a' <= s[i] <= 'f'
  }

  /** The value of a hex digit string, most significant digit first. */
  function HexValue(s: string): int
  {
    if |s| == 0 then 0 else 16 * HexValue(s[..|s| - 1]) + HexDigit(s[|s| - 1])
  }

  /**
   * The loop of `parseHex` over digits[0..n), run from index n-1 down to 0:
   * each digit adds multiplier * digit to result and multiplies the multiplier
   * by 16, both with int wrap-around; the first non-digit throws.
   */
  function AccumulateHex(digits: string, n: nat, result: int, multiplier: int): Result<int, Thrown>
    requires n <= |digits|
    decreases n
  {
    if n == 0 then Ok(result)
    else
      var d := HexDigit(digits[n - 1]);
      if d < 0 then Err(BadHex(digits))
      else AccumulateHex(digits, n - 1, Wrap32(result + Wrap32(multiplier * d)), Wrap32(multiplier * 16))
  }

  /**
   * The loop succeeds exactly on hex text, and then it has added
   * multiplier * (value of the text), modulo 2^32, to result.
   */
  lemma {:induction false} AccumulateHexValue(digits: string, n: nat, result: int, multiplier: int)
    requires n <= |digits| && IsInt(result)
    ensures AccumulateHex(digits, n, result, multiplier)
         == if IsHexText(digits[..n]) then Ok(Wrap32(result + multiplier * HexValue(digits[..n])))
            else Err(BadHex(digits))
    decreases n
  {
    var s := digits[..n];
    if n == 0 {
      assert s == [];
    } else {
      var init := digits[..n - 1];
      assert s[..n - 1] == init;
      var d := HexDigit(digits[n - 1]);
      HexTextSnoc(s);
      if d >= 0 {
        var r' := Wrap32(result + Wrap32(multiplier * d));
        var m' := Wrap32(multiplier * 16);
        AccumulateHexValue(digits, n - 1, r', m');
        if IsHexText(init) {
          var h := HexValue(init);
          assert HexValue(s) == 16 * h + d;
          DigitCong(result, multiplier, h, d);
        }
      }
    }
  }

  /** A text is hex text exactly when all but its last character are and the last is a digit. */
  lemma HexTextSnoc(s: string)
    requires |s| > 0
    ensures IsHexText(s) <==> IsHexText(s[..|s| - 1]) && HexDigit(s[|s| - 1]) >= 0
  {
    var init := s[..|s| - 1];
    if IsHexText(init) && HexDigit(s[|s| - 1]) >= 0 {
      forall i | 0 <= i < |s| ensures HexDigit(s[i]) >= 0 {
        if i < |s| - 1 { assert s[i] == init[i]; }
      }
    }
    if IsHexText(s) {
      forall i | 0 <= i < |init| ensures HexDigit(init[i]) >= 0 {
        assert init[i] == s[i];
      }
    }
  }

  /** One digit's step of the loop, with every product wrapped, keeps the total modulo 2^32. */
  lemma DigitCong(result: int, multiplier: int, h: int, d: int)
    ensures Wrap32(result + multiplier * (16 * h + d))
         == Wrap32(Wrap32(result + Wrap32(multiplier * d)) + Wrap32(multiplier * 16) * h)
  {
    var r' := Wrap32(result + Wrap32(multiplier * d));
    var m' := Wrap32(multiplier * 16);
    CongAdd(result, result, multiplier * d, Wrap32(multiplier * d));
    CongTrans(result + multiplier * d, result + Wrap32(multiplier * d), r');
    CongMul(multiplier * 16, m', h);
    DigitStep(multiplier, h, d);
    CongAdd(result + multiplier * d, r', multiplier * (16 * h), m' * h);
    Wrap32Cong(result + multiplier * (16 * h + d), r' + m' * h);
  }

  lemma DigitStep(m: int, h: int, d: int)
    ensures (m * 16) * h == m * (16 * h)
    ensures m * d + m * (16 * h) == m * (16 * h + d)
  {
  }

  /** The hex digits of a natural number, lower case, without leading zeros. */
  function HexDigitsOf(u: nat): (r: string)
    ensures |r| >= 1 && IsLowerHexText(r) && IsHexText(r)
    ensures HexValue(r) == u
  {
    var last := ForDigit(u % 16);
    if u < 16 then
      assert [last][..0] == [];
      [last]
    else
      var r := HexDigitsOf(u / 16) + [last];
      assert r[..|r| - 1] == HexDigitsOf(u / 16);
      r
  }

  /** `Integer.toHexString(x)`: the digits of x read as an unsigned 32-bit value. */
  function ToHexString(x: int): (r: string)
    ensures IsLowerHexText(r) && IsHexText(r) && 1 <= |r| <= 8
    ensures HexValue(r) == x % 0x1_0000_0000
  {
    Pow2Values();
    HexDigitsLength(x % 0x1_0000_0000, 8);
    HexDigitsOf(x % 0x1_0000_0000)
  }

  /** The padding loop of `getHex`: prepend '0' until the text is n long. */
  function ZeroPad(s: string, n: int): (r: string)
    decreases n - |s|
  {
    if |s| < n then ZeroPad("0" + s, n) else s
  }

  /** A text of n lower-case digits has a value below 16^n. */
  lemma {:induction false} HexValueBound(s: string)
    requires IsHexText(s)
    ensures 0 <= HexValue(s) < Pow2(4 * |s|)
    decreases |s|
  {
    if |s| > 0 {
      var init := s[..|s| - 1];
      assert IsHexText(init) by {
        forall i | 0 <= i < |init| ensures HexDigit(init[i]) >= 0 { assert init[i] == s[i]; }
      }
      HexValueBound(init);
      Pow16Step(|s|);
    }
  }

  lemma Pow16Step(n: nat)
    requires n >= 1
    ensures Pow2(4 * n) == 16 * Pow2(4 * (n - 1))
  {
    Pow2Add(4, 4 * (n - 1));
    Pow2Values();
  }

  /** The value of a concatenation: the left part is shifted by one digit per character on the right. */
  lemma {:induction false} HexValueAppend(a: string, b: string)
    ensures HexValue(a + b) == HexValue(a) * Pow2(4 * |b|) + HexValue(b)
    decreases |b|
  {
    if |b| == 0 {
      assert a + b == a;
    } else {
      var b' := b[..|b| - 1];
      var dig := HexDigit(b[|b| - 1]);
      assert (a + b)[..|a + b| - 1] == a + b';
      assert (a + b)[|a + b| - 1] == b[|b| - 1];
      var ha := HexValue(a);
      var p' := Pow2(4 * |b'|);
      assert HexValue(a + b) == 16 * HexValue(a + b') + dig;
      HexValueAppend(a, b');
      assert HexValue(a + b') == ha * p' + HexValue(b');
      assert HexValue(b) == 16 * HexValue(b') + dig;
      Pow16Step(|b|);
      assert Pow2(4 * |b|) == 16 * p';
      MulShift16(ha, p');
      assert ha * Pow2(4 * |b|) == 16 * (ha * p');
      assert HexValue(a + b) == 16 * (ha * p') + HexValue(b);
    }
  }

  lemma MulShift16(x: int, y: int)
    ensures x * (16 * y) == 16 * (x * y)
  {
  }

  lemma {:induction false} ZeroPadShape(s: string, n: int)
    ensures |ZeroPad(s, n)| == if |s| < n then n else |s|
    ensures ZeroPad(s, n) == seq(|ZeroPad(s, n)| - |s|, _ => '0') + s
    decreases n - |s|
  {
    if |s| < n {
      ZeroPadShape("0" + s, n);
      var k := |ZeroPad(s, n)| - |s|;
      assert seq(k - 1, _ => '0') + ("0" + s) == seq(k, _ => '0') + s;
    } else {
      assert seq(0, _ => '0') + s == s;
    }
  }

  lemma {:induction false} ZerosValue(k: nat)
    ensures HexValue(seq(k, _ => '0')) == 0
    ensures IsLowerHexText(seq(k, _ => '0')) && IsHexText(seq(k, _ => '0'))
    decreases k
  {
    if k > 0 {
      assert seq(k, _ => '0')[..k - 1] == seq(k - 1, _ => '0');
      ZerosValue(k - 1);
    }
  }

  /** Zero padding keeps the value and the digit alphabet. */
  lemma ZeroPadValue(s: string, n: int)
    requires IsLowerHexText(s) && IsHexText(s)
    ensures IsLowerHexText(ZeroPad(s, n)) && IsHexText(ZeroPad(s, n))
    ensures HexValue(ZeroPad(s, n)) == HexValue(s)
  {
    ZeroPadShape(s, n);
    var z := seq(|ZeroPad(s, n)| - |s|, _ => '0');
    ZerosValue(|z|);
    HexValueAppend(z, s);
    var r := ZeroPad(s, n);
    forall i | 0 <= i < |r| ensures ('0' <= r[i] <= '9' || 'a' <= r[i] <= 'f') && HexDigit(r[i]) >= 0 {
      if i < |z| { assert r[i] == z[i]; } else { assert r[i] == s[i - |z|]; }
    }
  }

  /** The digits of u < 16^m take at most m characters. */
  lemma {:induction false} HexDigitsLength(u: nat, m: nat)
    requires u < Pow2(4 * m)
    ensures |HexDigitsOf(u)| <= m || (u == 0 && m == 0)
    decreases u
  {
    if m == 0 {
      assert Pow2(0) == 1;
    } else if u >= 16 {
      Pow16Step(m);
      HexDigitsLength(u / 16, m - 1);
    }
  }

  /** Two equally long lower-case hex texts with the same value are the same text. */
  lemma {:induction false} LowerHexInjective(a: string, b: string)
    requires |a| == |b| && IsLowerHexText(a) && IsLowerHexText(b)
    requires HexValue(a) == HexValue(b)
    ensures a == b
    decreases |a|
  {
    if |a| > 0 {
      var a' := a[..|a| - 1];
      var b' := b[..|b| - 1];
      assert IsLowerHexText(a') by {
        forall i | 0 <= i < |a'| ensures '0' <= a'[i] <= '9' || 'a' <= a'[i] <= 'f' { assert a'[i] == a[i]; }
      }
      assert IsLowerHexText(b') by {
        forall i | 0 <= i < |b'| ensures '0' <= b'[i] <= '9' || 'a' <= b'[i] <= 'f' { assert b'[i] == b[i]; }
      }
      assert IsHexText(a') by {
        forall i | 0 <= i < |a'| ensures HexDigit(a'[i]) >= 0 { assert a'[i] == a[i]; }
      }
      assert IsHexText(b') by {
        forall i | 0 <= i < |b'| ensures HexDigit(b'[i]) >= 0 { assert b'[i] == b[i]; }
      }
      HexValueBound(a');
      HexValueBound(b');
      var da := HexDigit(a[|a| - 1]);
      var db := HexDigit(b[|b| - 1]);
      assert 16 * HexValue(a') + da == 16 * HexValue(b') + db;
      DivUnique(HexValue(a), 16, HexValue(a'), da);
      DivUnique(HexValue(a), 16, HexValue(b'), db);
      LowerHexInjective(a', b');
      LowerDigitInjective(a[|a| - 1], b[|b| - 1]);
      assert a == a' + [a[|a| - 1]];
      assert b == b' + [b[|b| - 1]];
    }
  }

  lemma LowerDigitInjective(c: char, d: char)
    requires '0' <= c <= '9' || 'a' <= c <= 'f'
    requires '0' <= d <= '9' || 'a' <= d <= 'f'
    requires HexDigit(c) == HexDigit(d)
    ensures c == d
  {
  }
}
