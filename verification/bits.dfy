/**
 * Java's fixed-width integer arithmetic over unbounded integers.
 *
 * A Java `int` is an integer in [-2^31, 2^31); a `short` one in [-2^15, 2^15).
 * The bitwise operators are defined on the infinite two's-complement view of an
 * integer (bit i of x is bit 0 of floor(x / 2^i)), which agrees with Java on every
 * value that fits, and the wrap-around of `int` arithmetic and of the `(short)`
 * cast is written out with Wrap32 and Wrap16.
 */
module Bits {

  /** 2^n. */
  function Pow2(n: nat): (r: int)
    ensures r >= 1
  {
    if n == 0 then 1 else 2 * Pow2(n - 1)
  }

  predicate IsInt(x: int) { -0x8000_0000 <= x < 0x8000_0000 }

  predicate IsShort(x: int) { -0x8000 <= x < 0x8000 }

  /** Java's `int` overflow: the value congruent to x modulo 2^32 that fits an int. */
  function Wrap32(x: int): (r: int)
    ensures IsInt(r)
    ensures (x - r) % 0x1_0000_0000 == 0
    ensures IsInt(x) ==> r == x
  {
    (x + 0x8000_0000) % 0x1_0000_0000 - 0x8000_0000
  }

  /** Java's `(short)` cast: the value congruent to x modulo 2^16 that fits a short. */
  function Wrap16(x: int): (r: int)
    ensures IsShort(r)
    ensures (x - r) % 0x1_0000 == 0
    ensures IsShort(x) ==> r == x
  {
    (x + 0x8000) % 0x1_0000 - 0x8000
  }

  /** Bit i of x in infinite two's complement. */
  function Bit(x: int, i: nat): bool
    decreases i
  {
    if i == 0 then x % 2 == 1 else Bit(x / 2, i - 1)
  }

  function Abs(x: int): nat { if x < 0 then -x else x }

  /** Java's `a & b`. */
  function And(a: int, b: int): int
    decreases Abs(a) + Abs(b)
  {
    if a == 0 || b == 0 then 0
    else if a == -1 then b
    else if b == -1 then a
    else 2 * And(a / 2, b / 2) + (a % 2) * (b % 2)
  }

  /** Java's `a | b`. */
  function Or(a: int, b: int): int
    decreases Abs(a) + Abs(b)
  {
    if a == 0 then b
    else if b == 0 then a
    else if a == -1 || b == -1 then -1
    else 2 * Or(a / 2, b / 2) + (if a % 2 == 1 || b % 2 == 1 then 1 else 0)
  }

  /** Java's `~x`. */
  function Not(x: int): int { -x - 1 }

  /** Java's `x << k` on ints: only the low five bits of k count, and the result wraps. */
  function Shl(x: int, k: int): int
  {
    Wrap32(x * Pow2(k % 32))
  }

  /** Java's `x >> k` on ints: arithmetic (sign-filling) shift by the low five bits of k. */
  function Shr(x: int, k: int): int
  {
    x / Pow2(k % 32)
  }

  // ---------------------------------------------------------------------------
  // Arithmetic facts about halving
  // ---------------------------------------------------------------------------

  lemma HalfOfEven(y: int, r: int)
    requires 0 <= r < 2
    ensures (2 * y + r) / 2 == y && (2 * y + r) % 2 == r
  {
  }

  /** Floor division by 2p is floor division by 2 followed by floor division by p. */
  lemma DivDiv(x: int, p: int)
    requires p >= 1
    ensures x / (2 * p) == (x / 2) / p
    ensures x % (2 * p) == 2 * ((x / 2) % p) + x % 2
  {
    var q := (x / 2) / p;
    var r := 2 * ((x / 2) % p) + x % 2;
    assert x == 2 * p * q + r by {
      assert x == 2 * (x / 2) + x % 2;
      assert x / 2 == p * q + (x / 2) % p;
    }
    assert 0 <= r < 2 * p;
    DivUnique(x, 2 * p, q, r);
  }

  lemma DivUnique(x: int, d: int, q: int, r: int)
    requires d >= 1 && 0 <= r < d && x == d * q + r
    ensures x / d == q && x % d == r
  {
    var q' := x / d;
    var r' := x % d;
    var k := q - q';
    assert d * k == d * q - d * q';
    assert d * k == r' - r;
    if k >= 1 {
      MulAtLeast(d, k);
    } else if k <= -1 {
      assert d * (-k) == -(d * k);
      MulAtLeast(d, -k);
    }
  }

  lemma MulAtLeast(d: int, k: int)
    requires d >= 1 && k >= 1
    ensures d * k >= d
  {
    assert d * k == d + d * (k - 1);
  }

  lemma Pow2Succ(n: nat)
    ensures Pow2(n + 1) == 2 * Pow2(n)
  {
  }

  lemma Pow2Add(a: nat, b: nat)
    ensures Pow2(a + b) == Pow2(a) * Pow2(b)
  {
    if a > 0 {
      Pow2Add(a - 1, b);
    }
  }

  lemma Pow2Mono(a: nat, b: nat)
    requires a <= b
    ensures Pow2(a) <= Pow2(b)
  {
    if a < b {
      Pow2Mono(a, b - 1);
    }
  }

  /** Named powers used throughout the model. */
  lemma Pow2Values()
    ensures Pow2(4) == 16 && Pow2(8) == 256 && Pow2(9) == 512 && Pow2(12) == 4096
    ensures Pow2(15) == 0x8000 && Pow2(16) == 0x1_0000
    ensures Pow2(24) == 0x100_0000 && Pow2(28) == 0x1000_0000 && Pow2(30) == 0x4000_0000
    ensures Pow2(31) == 0x8000_0000 && Pow2(32) == 0x1_0000_0000
  {
    Pow2Add(8, 1);
    Pow2Add(8, 4);
    Pow2Add(8, 7);
    Pow2Add(8, 8);
    Pow2Add(16, 8);
    Pow2Add(16, 12);
    Pow2Add(15, 15);
    Pow2Add(16, 15);
    Pow2Add(16, 16);
  }

  lemma Pow2Page()
    ensures Pow2(7) == 128 && Pow2(9) == 0x200 && Pow2(12) == 0x1000
  {
    Pow2Values();
  }

  lemma Pow2Word()
    ensures Pow2(0) == 1 && Pow2(16) == 0x1_0000
  {
    Pow2Values();
  }

  // ---------------------------------------------------------------------------
  // One-step unfoldings valid for every operand
  // ---------------------------------------------------------------------------

  lemma AndStep(a: int, b: int)
    ensures And(a, b) == 2 * And(a / 2, b / 2) + (a % 2) * (b % 2)
  {
    AndMinusOne(a / 2);
    AndMinusOne(b / 2);
    AndZero(a / 2);
    AndZero(b / 2);
  }

  lemma AndMinusOne(x: int)
    ensures And(-1, x) == x && And(x, -1) == x
  {
  }

  lemma AndZero(x: int)
    ensures And(0, x) == 0 && And(x, 0) == 0
  {
  }

  lemma OrStep(a: int, b: int)
    ensures Or(a, b) == 2 * Or(a / 2, b / 2) + (if a % 2 == 1 || b % 2 == 1 then 1 else 0)
  {
  }

  // ---------------------------------------------------------------------------
  // Bit characterisations
  // ---------------------------------------------------------------------------

  /** `a | b == b | a`. */
  lemma {:induction false} OrComm(a: int, b: int)
    ensures Or(a, b) == Or(b, a)
    decreases Abs(a) + Abs(b)
  {
    if a != 0 && b != 0 && a != -1 && b != -1 {
      OrComm(a / 2, b / 2);
    }
  }

  /** `a & b == b & a`. */
  lemma {:induction false} AndComm(a: int, b: int)
    ensures And(a, b) == And(b, a)
    decreases Abs(a) + Abs(b)
  {
    if a != 0 && b != 0 && a != -1 && b != -1 {
      AndComm(a / 2, b / 2);
    }
  }

  lemma {:induction false} BitAnd(a: int, b: int, i: nat)
    ensures Bit(And(a, b), i) == (Bit(a, i) && Bit(b, i))
    decreases i
  {
    AndStep(a, b);
    HalfOfEven(And(a / 2, b / 2), (a % 2) * (b % 2));
    if i > 0 {
      BitAnd(a / 2, b / 2, i - 1);
    }
  }

  lemma {:induction false} BitOr(a: int, b: int, i: nat)
    ensures Bit(Or(a, b), i) == (Bit(a, i) || Bit(b, i))
    decreases i
  {
    OrStep(a, b);
    HalfOfEven(Or(a / 2, b / 2), if a % 2 == 1 || b % 2 == 1 then 1 else 0);
    if i > 0 {
      BitOr(a / 2, b / 2, i - 1);
    }
  }

  lemma {:induction false} BitNot(x: int, i: nat)
    ensures Bit(Not(x), i) == !Bit(x, i)
    decreases i
  {
    if i > 0 {
      assert Not(x) / 2 == Not(x / 2);
      BitNot(x / 2, i - 1);
    }
  }

  lemma {:induction false} BitMinusOne(i: nat)
    ensures Bit(-1, i)
  {
    if i > 0 {
      BitMinusOne(i - 1);
    }
  }

  lemma {:induction false} BitZero(i: nat)
    ensures !Bit(0, i)
  {
    if i > 0 {
      BitZero(i - 1);
    }
  }

  /** Bit i of x * 2^s is bit i - s of x (zero below s). */
  lemma {:induction false} BitMulPow2(x: int, s: nat, i: nat)
    ensures Bit(x * Pow2(s), i) == (i >= s && Bit(x, i - s))
    decreases s
  {
    if s > 0 {
      var y := x * Pow2(s - 1);
      assert x * Pow2(s) == 2 * y;
      HalfOfEven(y, 0);
      if i > 0 {
        BitMulPow2(x, s - 1, i - 1);
      }
    }
  }

  /** Bit i of floor(x / 2^s) is bit i + s of x. */
  lemma {:induction false} BitDivPow2(x: int, s: nat, i: nat)
    ensures Bit(x / Pow2(s), i) == Bit(x, i + s)
    decreases s
  {
    if s > 0 {
      DivDiv(x, Pow2(s - 1));
      BitDivPow2(x / 2, s - 1, i);
    }
  }

  /** x mod 2^k keeps the bits of x below k and clears the rest. */
  lemma {:induction false} BitModPow2(x: int, k: nat, i: nat)
    ensures Bit(x % Pow2(k), i) == (i < k && Bit(x, i))
    decreases k
  {
    if k == 0 {
      BitZero(i);
    } else {
      DivDiv(x, Pow2(k - 1));
      var y := (x / 2) % Pow2(k - 1);
      HalfOfEven(y, x % 2);
      if i > 0 {
        BitModPow2(x / 2, k - 1, i - 1);
      }
    }
  }

  /** Adding a multiple of 2^n leaves the bits below n unchanged. */
  lemma {:induction false} BitAddMultiple(x: int, m: int, n: nat, i: nat)
    requires i < n
    ensures Bit(x + m * Pow2(n), i) == Bit(x, i)
    decreases n
  {
    var y := m * Pow2(n - 1);
    assert m * Pow2(n) == 2 * y;
    assert (x + 2 * y) % 2 == x % 2;
    if i > 0 {
      assert (x + 2 * y) / 2 == x / 2 + y;
      BitAddMultiple(x / 2, m, n - 1, i - 1);
    }
  }

  lemma BitWrap32(x: int, i: nat)
    requires i < 32
    ensures Bit(Wrap32(x), i) == Bit(x, i)
  {
    Pow2Values();
    var m := (x - Wrap32(x)) / 0x1_0000_0000;
    assert Wrap32(x) == x + (-m) * Pow2(32);
    BitAddMultiple(x, -m, 32, i);
  }

  lemma BitWrap16(x: int, i: nat)
    requires i < 16
    ensures Bit(Wrap16(x), i) == Bit(x, i)
  {
    Pow2Values();
    var m := (x - Wrap16(x)) / 0x1_0000;
    assert Wrap16(x) == x + (-m) * Pow2(16);
    BitAddMultiple(x, -m, 16, i);
  }

  lemma BitPow2(k: nat, i: nat)
    ensures Bit(Pow2(k), i) == (i == k)
  {
    BitMulPow2(1, k, i);
    if i >= k {
      if i - k > 0 {
        assert 1 / 2 == 0;
        BitZero(i - k - 1);
      }
    }
  }

  /** Bits at and above n of a value in [0, 2^n) are clear. */
  lemma {:induction false} BitHighNonneg(x: int, n: nat, i: nat)
    requires 0 <= x < Pow2(n) && i >= n
    ensures !Bit(x, i)
    decreases n
  {
    if n == 0 {
      BitZero(i);
    } else if i > 0 {
      BitHighNonneg(x / 2, n - 1, i - 1);
    } else {
      assert false;
    }
  }

  /** Bits at and above n of a value in [-2^n, 0) are set. */
  lemma {:induction false} BitHighNeg(x: int, n: nat, i: nat)
    requires -Pow2(n) <= x < 0 && i >= n
    ensures Bit(x, i)
    decreases n
  {
    if n == 0 {
      BitMinusOne(i);
    } else if i > 0 {
      BitHighNeg(x / 2, n - 1, i - 1);
    } else {
      assert false;
    }
  }

  /** Two integers in [-2^n, 2^n) with the same bits 0..n are equal. */
  lemma {:induction false} BitsEqual(a: int, b: int, n: nat)
    requires -Pow2(n) <= a < Pow2(n) && -Pow2(n) <= b < Pow2(n)
    requires forall i: nat :: i <= n ==> Bit(a, i) == Bit(b, i)
    ensures a == b
    decreases n
  {
    assert Bit(a, 0) == Bit(b, 0);
    if n > 0 {
      forall i: nat | i <= n - 1
        ensures Bit(a / 2, i) == Bit(b / 2, i)
      {
        assert Bit(a, i + 1) == Bit(b, i + 1);
      }
      BitsEqual(a / 2, b / 2, n - 1);
    }
  }

  // ---------------------------------------------------------------------------
  // Consequences used by the encoders
  // ---------------------------------------------------------------------------

  /** Masking with 2^k - 1 keeps the low k bits: `v & (2^k - 1) == v mod 2^k`. */
  lemma AndLowMask(v: int, k: nat)
    ensures And(v, Pow2(k) - 1) == v % Pow2(k)
  {
    var a := And(v, Pow2(k) - 1);
    var b := v % Pow2(k);
    AndRange(v, Pow2(k) - 1, k);
    forall i: nat | i <= k
      ensures Bit(a, i) == Bit(b, i)
    {
      BitAnd(v, Pow2(k) - 1, i);
      BitModPow2(v, k, i);
      BitLowOnes(k, i);
    }
    Pow2Mono(0, k);
    BitsEqual(a, b, k);
  }

  /** 2^k - 1 has exactly bits 0..k-1 set. */
  lemma {:induction false} BitLowOnes(k: nat, i: nat)
    ensures Bit(Pow2(k) - 1, i) == (i < k)
  {
    if k == 0 {
      BitZero(i);
    } else {
      assert (Pow2(k) - 1) / 2 == Pow2(k - 1) - 1;
      if i > 0 {
        BitLowOnes(k - 1, i - 1);
      }
    }
  }

  /** The conjunction of anything with a value in [0, 2^k) lies in [0, 2^k). */
  lemma {:induction false} AndRange(a: int, b: int, k: nat)
    requires 0 <= b < Pow2(k)
    ensures 0 <= And(a, b) <= b
    decreases k
  {
    AndStep(a, b);
    if b != 0 && k > 0 {
      AndRange(a / 2, b / 2, k - 1);
    } else if b != 0 {
      assert false;
    }
  }

  /** Setting a bit that a non-negative value below 2^e lacks adds 2^e. */
  lemma OrDisjointPow(x: int, e: nat)
    requires 0 <= x < Pow2(e)
    ensures Or(x, Pow2(e)) == x + Pow2(e)
  {
    var a := Or(x, Pow2(e));
    var b := x + Pow2(e);
    var n := e + 1;
    Pow2Mono(e, n);
    assert Pow2(n) == 2 * Pow2(e);
    OrRange(x, Pow2(e), n);
    forall i: nat | i <= n
      ensures Bit(a, i) == Bit(b, i)
    {
      BitOr(x, Pow2(e), i);
      BitPow2(e, i);
      if i < e {
        BitAddMultiple(x, 1, e, i);
      } else if i == e {
        assert b / Pow2(e) == 1 by { DivUnique(b, Pow2(e), 1, x); }
        BitDivPow2(b, e, 0);
        BitHighNonneg(x, e, i);
      } else {
        BitHighNonneg(b, n, i);
        BitHighNonneg(x, e, i);
      }
    }
    BitsEqual(a, b, n);
  }

  /** The disjunction of two values in [0, 2^k) lies in [0, 2^k). */
  lemma {:induction false} OrRange(a: int, b: int, k: nat)
    requires 0 <= a < Pow2(k) && 0 <= b < Pow2(k)
    ensures 0 <= Or(a, b) < Pow2(k)
    decreases k
  {
    OrStep(a, b);
    if k > 0 && a != 0 && b != 0 {
      OrRange(a / 2, b / 2, k - 1);
    }
  }

  /** Setting bits that lie wholly above a non-negative value below 2^e adds them. */
  lemma {:induction false} OrDisjoint(x: int, c: int, e: nat)
    requires 0 <= x < Pow2(e)
    ensures Or(x, c * Pow2(e)) == x + c * Pow2(e)
    decreases e
  {
    if e > 0 {
      var y := c * Pow2(e - 1);
      assert c * Pow2(e) == 2 * y;
      OrStep(x, 2 * y);
      HalfOfEven(y, 0);
      OrDisjoint(x / 2, c, e - 1);
    }
  }

  /** Masking with (2^w - 1) * 2^s keeps bits s..s+w-1 in place. */
  lemma {:induction false} AndFieldMask(v: int, w: nat, s: nat)
    ensures And(v, (Pow2(w) - 1) * Pow2(s)) == ((v / Pow2(s)) % Pow2(w)) * Pow2(s)
    decreases s
  {
    if s == 0 {
      AndLowMask(v, w);
      assert Pow2(0) == 1;
    } else {
      var p := Pow2(s - 1);
      var k := Pow2(w) - 1;
      var x := (v / Pow2(s)) % Pow2(w);
      assert Pow2(s) == 2 * p;
      Twice(k, p);
      AndEven(v, k * p);
      AndFieldMask(v / 2, w, s - 1);
      DivDiv(v, p);
      assert v / 2 / p == v / Pow2(s);
      Twice(x, p);
    }
  }

  lemma Twice(a: int, b: int)
    ensures a * (2 * b) == 2 * (a * b)
  {
  }

  lemma AndEven(v: int, m: int)
    ensures And(v, 2 * m) == 2 * And(v / 2, m)
  {
    AndStep(v, 2 * m);
    HalfOfEven(m, 0);
  }

  /** Division by b * p, with b and p positive, is division by b then by p. */
  lemma DivDivBase(x: int, b: int, p: int)
    requires b >= 1 && p >= 1
    ensures x / (b * p) == (x / b) / p
    ensures x % (b * p) == b * ((x / b) % p) + x % b
  {
    var q := (x / b) / p;
    var r := b * ((x / b) % p) + x % b;
    assert x == b * (x / b) + x % b;
    assert x / b == p * q + (x / b) % p;
    assert x == (b * p) * q + r by {
      assert b * (x / b) == b * (p * q) + b * ((x / b) % p);
      assert b * (p * q) == (b * p) * q;
    }
    assert 0 <= r < b * p by {
      assert (x / b) % p <= p - 1;
      assert b * ((x / b) % p) <= b * (p - 1);
    }
    DivUnique(x, b * p, q, r);
  }

  /** Adding a multiple of d does not change the remainder modulo d. */
  lemma ModAddMultiple(x: int, k: int, d: int)
    requires d >= 1
    ensures (x + k * d) % d == x % d && (x + k * d) / d == x / d + k
  {
    assert x + k * d == d * (x / d + k) + x % d;
    DivUnique(x + k * d, d, x / d + k, x % d);
  }

  /** a and b agree modulo 2^32. */
  predicate Cong32(a: int, b: int)
  {
    (a - b) % 0x1_0000_0000 == 0
  }

  lemma Wrap32Cong(a: int, b: int)
    requires Cong32(a, b)
    ensures Wrap32(a) == Wrap32(b)
  {
    var k := (a - b) / 0x1_0000_0000;
    assert a + 0x8000_0000 == (b + 0x8000_0000) + k * 0x1_0000_0000;
    ModAddMultiple(b + 0x8000_0000, k, 0x1_0000_0000);
  }

  lemma CongMul(a: int, b: int, c: int)
    requires Cong32(a, b)
    ensures Cong32(a * c, b * c)
  {
    var k := (a - b) / 0x1_0000_0000;
    assert a - b == k * 0x1_0000_0000;
    assert a * c - b * c == (k * c) * 0x1_0000_0000;
    ModAddMultiple(0, k * c, 0x1_0000_0000);
  }

  lemma CongAdd(a: int, b: int, c: int, d: int)
    requires Cong32(a, b) && Cong32(c, d)
    ensures Cong32(a + c, b + d)
  {
    var k := (a - b) / 0x1_0000_0000;
    var l := (c - d) / 0x1_0000_0000;
    assert (a + c) - (b + d) == (k + l) * 0x1_0000_0000;
    ModAddMultiple(0, k + l, 0x1_0000_0000);
  }

  lemma CongTrans(a: int, b: int, c: int)
    requires Cong32(a, b) && Cong32(b, c)
    ensures Cong32(a, c)
  {
    var k := (a - b) / 0x1_0000_0000;
    var l := (b - c) / 0x1_0000_0000;
    assert a - c == (k + l) * 0x1_0000_0000;
    ModAddMultiple(0, k + l, 0x1_0000_0000);
  }
}
