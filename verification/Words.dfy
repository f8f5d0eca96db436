/** Machine words: fixed-width unsigned and signed integers as ranges of `int`,
    with the modular operations of the source written out. */
module Words {

  datatype Option<+T> = None | Some(value: T)

  const TWO_31 := 0x8000_0000
  const TWO_32 := 0x1_0000_0000
  const TWO_64 := 0x1_0000_0000_0000_0000

  type u8 = x: int | 0 <= x < 0x100
  type u32 = x: int | 0 <= x < 0x1_0000_0000
  type u64 = x: int | 0 <= x < 0x1_0000_0000_0000_0000
  type int64 = x: int | -0x8000_0000_0000_0000 <= x < 0x8000_0000_0000_0000

  const MAX_INT64: int64 := 0x7FFF_FFFF_FFFF_FFFF
  const MIN_INT64: int64 := -0x8000_0000_0000_0000

  /** Unsigned 64-bit addition. */
  function Add64(a: u64, b: u64): u64 {
    if a + b < TWO_64 then a + b else a + b - TWO_64
  }

  /** Unsigned 64-bit subtraction. */
  function Sub64(a: u64, b: u64): u64 {
    if a >= b then a - b else a - b + TWO_64
  }

  /** Signed 64-bit value of an integer that overflowed by less than one wrap. */
  function WrapInt64(x: int): int64
    requires -TWO_64 <= x < TWO_64
  {
    if x < MIN_INT64 then x + TWO_64 else if x > MAX_INT64 then x - TWO_64 else x
  }

  /** Bitwise or of two naturals. */
  function Or(a: nat, b: nat): nat {
    if a == 0 then b
    else if b == 0 then a
    else 2 * Or(a / 2, b / 2) + (if a % 2 == 1 || b % 2 == 1 then 1 else 0)
  }

  function Pow2(n: nat): (p: nat)
    ensures p > 0
  {
    if n == 0 then 1 else 2 * Pow2(n - 1)
  }

  lemma OrEven(a: nat, b: nat)
    ensures Or(2 * a, b) == 2 * Or(a, b / 2) + b % 2
  {
  }

  /** Or-ing a value below 2^n into a multiple of 2^n adds it. */
  lemma {:induction false} OrDisjoint(h: nat, n: nat, l: nat)
    requires l < Pow2(n)
    ensures Or(h * Pow2(n), l) == h * Pow2(n) + l
  {
    if n == 0 {
      assert h * Pow2(0) == h;
    } else {
      var a := h * Pow2(n - 1);
      assert h * Pow2(n) == 2 * a;
      OrEven(a, l);
      OrDisjoint(h, n - 1, l / 2);
    }
  }

  /** Or-ing into a multiple of 2^n is or-ing the parts above the low n bits. */
  lemma {:induction false} OrAbove(h: nat, a: nat, n: nat, l: nat)
    requires l < Pow2(n)
    ensures Or(h * Pow2(n), a * Pow2(n) + l) == Or(h, a) * Pow2(n) + l
  {
    hide Or;
    if n == 0 {
      assert h * Pow2(0) == h && a * Pow2(0) == a && Or(h, a) * Pow2(0) == Or(h, a);
    } else {
      var p := Pow2(n - 1);
      OrAbove(h, a, n - 1, l / 2);
      AboveStep(h * p, a * p, Or(h, a) * p, l);
      DoubleProduct(h, p);
      DoubleProduct(a, p);
      DoubleProduct(Or(h, a), p);
    }
  }

  lemma AboveStep(x: nat, y: nat, z: nat, l: nat)
    requires Or(x, y + l / 2) == z + l / 2
    ensures Or(2 * x, 2 * y + l) == 2 * z + l
  {
    hide Or;
    assert (2 * y + l) / 2 == y + l / 2 && (2 * y + l) % 2 == l % 2;
    OrEven(x, 2 * y + l);
  }

  /** Or-ing into n ones changes nothing. */
  lemma {:induction false} OrOnes(n: nat, a: nat)
    requires a < Pow2(n)
    ensures Or(Pow2(n) - 1, a) == Pow2(n) - 1
  {
    if n > 0 {
      OrOdd(Pow2(n - 1) - 1, a);
      OrOnes(n - 1, a / 2);
    } else {
      assert Or(0, a) == a;
    }
  }

  lemma OrOdd(x: nat, a: nat)
    ensures Or(2 * x + 1, a) == 2 * Or(x, a / 2) + 1
  {
    assert (2 * x + 1) / 2 == x;
  }

  /** Or-ing into a multiple of 2^n leaves the low n bits of the other operand. */
  lemma {:induction false} OrLowBits(h: nat, n: nat, l: nat)
    ensures Or(h * Pow2(n), l) % Pow2(n) == l % Pow2(n)
  {
    if n > 0 {
      var p := Pow2(n - 1);
      DoubleProduct(h, p);
      OrEven(h * p, l);
      OrLowBits(h, n - 1, l / 2);
      LowBitsStep(Or(h * p, l / 2), l, p);
    } else {
      assert Pow2(0) == 1;
    }
  }

  lemma DoubleProduct(h: nat, p: nat)
    ensures h * (2 * p) == 2 * (h * p)
  {
  }

  lemma LowBitsStep(o: nat, l: nat, p: nat)
    requires p > 0 && o % p == l / 2 % p
    ensures (2 * o + l % 2) % (2 * p) == l % (2 * p)
  {
    HalveMod(2 * o + l % 2, p);
    HalveMod(l, p);
  }

  /** Division is unique. */
  lemma QuotientRemainder(x: int, p: int, q: int, r: int)
    requires p > 0 && x == q * p + r && 0 <= r < p
    ensures x / p == q && x % p == r
  {
    var d := x / p - q;
    assert d * p == r - x % p by {
      assert x == x / p * p + x % p;
      assert d * p == x / p * p - q * p;
    }
  }

  /** Remainders of sums of remainders. */
  lemma ModSum(a: int, b: int, p: int)
    requires p > 0
    ensures (a + b % p) % p == (a + b) % p
  {
    var r := (a + b % p) % p;
    var q := (a + b % p) / p;
    assert a + b == (q + b / p) * p + r by {
      assert b == b / p * p + b % p;
      assert (q + b / p) * p == q * p + b / p * p;
    }
    QuotientRemainder(a + b, p, q + b / p, r);
  }

  lemma HalveMod(x: nat, p: nat)
    requires p > 0
    ensures x % (2 * p) == 2 * (x / 2 % p) + x % 2
  {
    var q, r := x / 2 / p, x / 2 % p;
    assert x / 2 == q * p + r;
    assert x == q * (2 * p) + (2 * r + x % 2);
    QuotientRemainder(x, 2 * p, q, 2 * r + x % 2);
  }

  /** Or never leaves the 2^n range of its operands. */
  lemma {:induction false} OrBounded(a: nat, b: nat, n: nat)
    requires a < Pow2(n) && b < Pow2(n)
    ensures Or(a, b) < Pow2(n)
  {
    if a != 0 && b != 0 {
      OrBounded(a / 2, b / 2, n - 1);
    }
  }

  lemma Pow2Values()
    ensures Pow2(8) == 0x100 && Pow2(16) == 0x1_0000
    ensures Pow2(24) == 0x100_0000 && Pow2(32) == TWO_32
  {
    assert Pow2(4) == 16;
    assert Pow2(8) == 0x100;
    assert Pow2(12) == 0x1000;
    assert Pow2(16) == 0x1_0000;
    assert Pow2(20) == 0x10_0000;
    assert Pow2(24) == 0x100_0000;
    assert Pow2(28) == 0x1000_0000;
    assert Pow2(32) == TWO_32;
  }
}
