/** Multiplication and division in the x86 emulator (hals/x86new/mulops.c,
    hals/x86new/divops.c). */
module X86MulDiv {
  import opened Words
  import opened Rotations
  import opened X86Context
  import opened X86Arith

  /** The double-width value in the accumulator and the data register: AX, DX:AX
      or EDX:EAX. */
  function Double(w: Width, l: Places): nat {
    match w {
      case Byte => Low(Word, l.eax)
      case _ => Pack(Low(w, l.edx), Modulus(w), Low(w, l.eax))
    }
  }

  /** The low half is in AL, AX or EAX and the high half in AH, DX or EDX. */
  predicate InPair(w: Width, l: Places, low: int, high: int) {
    match w {
      case Byte => l.eax % 0x100 == low && l.eax / 0x100 % 0x100 == high
      case Word => l.eax % 0x1_0000 == low && l.edx % 0x1_0000 == high
      case Long => l.eax == low && l.edx == high
    }
  }

  /** Where the two halves of the double-width value are. */
  lemma HalvesInPair(w: Width, l: Places, low: nat, high: nat)
    requires low < Modulus(w) && Double(w, l) == Pack(high, Modulus(w), low)
    ensures InPair(w, l, low, high)
  {
    LowIs(Word, l.eax);
    match w
    case Byte =>
      SecondByte(l.eax, Low(Word, l.eax));
      QuotientRemainder(Low(Word, l.eax), 0x100, high, low);
    case _ =>
      LowIs(w, l.eax);
      LowIs(w, l.edx);
      QuotientRemainder(Double(w, l), Modulus(w), high, low);
      QuotientRemainder(Double(w, l), Modulus(w), Low(w, l.edx), Low(w, l.eax));
  }

  lemma ProductInPair(w: Width, l: Places)
    ensures InPair(w, l, Double(w, l) % Modulus(w), Double(w, l) / Modulus(w))
  {
    Unpack(Double(w, l), Modulus(w));
    HalvesInPair(w, l, Double(w, l) % Modulus(w), Double(w, l) / Modulus(w));
  }

  /** The bits of the registers outside the double-width value. */
  function Outside(w: Width, l: Places): (nat, nat) {
    match w {
      case Byte => (l.eax / 0x1_0000, l.edx)
      case _ => (l.eax / Modulus(w), l.edx / Modulus(w))
    }
  }

  datatype Quotient = DivideByZero | QuotientOverflow | Divided(quotient: nat, remainder: nat)

  /** What a division means. */
  function Divide(w: Width, dividend: nat, divisor: nat): Quotient {
    if divisor == 0 then DivideByZero
    else if dividend / divisor >= Modulus(w) then QuotientOverflow
    else Divided(dividend / divisor, dividend % divisor)
  }

  /** Division with remainder. */
  predicate DividesInto(dividend: nat, divisor: nat, q: nat, r: nat) {
    dividend == q * divisor + r && r < divisor
  }

  /** A division that does not trap gives the quotient and the remainder, and it
      traps exactly when the divisor is zero or the quotient does not fit. */
  lemma DivideIsExact(w: Width, dividend: nat, divisor: nat)
    ensures match Divide(w, dividend, divisor) {
              case Divided(q, r) => DividesInto(dividend, divisor, q, r) && q < Modulus(w)
              case DivideByZero => divisor == 0
              case QuotientOverflow =>
                divisor > 0 && forall q: nat, r: nat | DividesInto(dividend, divisor, q, r) :: q >= Modulus(w)
            }
  {
    hide Modulus;
    if divisor != 0 {
      assert DividesInto(dividend, divisor, dividend / divisor, dividend % divisor);
      forall q: nat, r: nat | DividesInto(dividend, divisor, q, r) ensures q == dividend / divisor {
        QuotientRemainder(dividend, divisor, q, r);
      }
    }
  }

  /** The high half decides whether the quotient fits. */
  lemma HighHalfDecides(m: nat, high: nat, low: nat, divisor: nat)
    requires divisor > 0 && low < m
    ensures High(Pack(high, m, low), divisor) >= m <==> high >= divisor
  {
    hide Pack, High, Rest;
    var x := Pack(high, m, low);
    PackParts(high, m, low);
    if high < divisor {
      PackBounded(high, m, low, divisor, divisor * m);
      HighBounded(x, divisor, m);
    }
    if High(x, divisor) < m {
      Unpack(x, divisor);
      PackBounded(High(x, divisor), divisor, Rest(x, divisor), m, m * divisor);
      HighBounded(x, m, divisor);
    }
  }

  /** The low and the high half of a product stored into the registers. */
  function StoredPair(w: Width, l: Places, low: nat, high: nat): Places {
    match w {
      case Byte => Stored(Stored(l, Eax, Byte, low), Ah, Byte, high)
      case _ => Stored(Stored(l, Eax, w, low), Edx, w, high)
    }
  }

  /** What is stored is what the pair holds afterwards, and the rest of the
      registers and the memory are left alone. */
  lemma PairHolds(w: Width, l: Places, low: nat, high: nat)
    requires low < Modulus(w) && high < Modulus(w)
    ensures var l' := StoredPair(w, l, low, high);
            && Double(w, l') == Pack(high, Modulus(w), low)
            && Outside(w, l') == Outside(w, l)
            && l'.cells == l.cells
  {
    if w.Byte? {
      var l1 := Stored(l, Eax, Byte, low);
      AccumulatorWord(l.eax, low, high);
    }
  }

  lemma AccumulatorWord(eax: u32, low: nat, high: nat)
    requires low < 0x100 && high < 0x100
    ensures var a := Merge(Byte, eax, low);
            var b := Merge(Word, a, high % 0x100 * 0x100 + a % 0x100);
            && Low(Word, b) == high * 0x100 + low
            && b / 0x1_0000 == eax / 0x1_0000
  {
    hide Merge;
    var a := Merge(Byte, eax, low);
    LowIs(Byte, a);
    LowIs(Byte, low);
    assert a % 0x100 == low;
    UpperWord(a);
    UpperWord(eax);
    hide Low;
    var v := high % 0x100 * 0x100 + a % 0x100;
    assert v == high * 0x100 + low;
  }

  lemma UpperWord(x: nat)
    ensures x / 0x1_0000 == x / 0x100 / 0x100
  {
    var y := x / 0x100;
    assert x == y / 0x100 * 0x1_0000 + (y % 0x100 * 0x100 + x % 0x100);
    QuotientRemainder(x, 0x1_0000, y / 0x100, y % 0x100 * 0x100 + x % 0x100);
  }

  lemma LowIs(w: Width, x: nat)
    ensures Low(w, x) == x % Modulus(w)
  {
  }

  /** Store a low half into the accumulator and a high half beside it. */
  method StorePair(p: Context, low: u32, high: u32)
    requires p.destination.Eax? && low < Modulus(p.dataType) && high < Modulus(p.dataType)
    modifies p`cells, p`eax, p`edx, p`destination
    ensures p.Value() == StoredPair(p.dataType, old(p.Value()), low, high)
    ensures Double(p.dataType, p.Value()) == Pack(high, Modulus(p.dataType), low)
    ensures Outside(p.dataType, p.Value()) == Outside(p.dataType, old(p.Value()))
    ensures p.cells == old(p.cells)
    ensures p.destination == if p.dataType.Byte? then Ah else Edx
  {
    hide Merge, Modulus, Double, Outside, Pack;
    p.StoreResult(low);
    p.destination := if p.dataType.Byte? then Ah else Edx;
    p.StoreResult(high);
    PairHolds(p.dataType, old(p.Value()), low, high);
  }

  /** Multiply: the registers hold the whole product, and the carry and overflow
      flags say whether it needs the high half. */
  method MulOp(p: Context)
    requires p.destination.Eax? && p.dstValue < Modulus(p.dataType) && p.srcValue < Modulus(p.dataType)
    modifies p`dataType, p`cells, p`eax, p`edx, p`destination, p`flags
    ensures var w, product := old(p.dataType), p.dstValue * p.srcValue;
            && Double(w, p.Value()) == product
            && InPair(w, p.Value(), product % Modulus(w), product / Modulus(w))
            && Outside(w, p.Value()) == Outside(w, old(p.Value()))
            && p.cells == old(p.cells)
            && p.flags == old(p.flags).(cf := Flag(product >= Modulus(w)), of := Flag(product >= Modulus(w)))
    ensures old(p.dataType).Byte? ==> p.dataType.Word? && p.destination.Eax?
    ensures !old(p.dataType).Byte? ==> p.dataType == old(p.dataType) && p.destination.Edx?
  {
    hide Modulus, Low, Pack, High, Rest, Double, Outside, StoredPair, InPair;
    var product := p.dstValue * p.srcValue;
    ProductHalves(p.dataType, p.dstValue, p.srcValue);
    var upper: bit;
    if p.dataType.Byte? {
      p.dataType := Word;
      ghost var l := p.Value();
      WordHolds(l, product);
      p.StoreResult(product);
      upper := Flag(p.eax / 0x100 % 0x100 != 0);
    } else {
      var high := High(product, Modulus(p.dataType));
      StorePair(p, Rest(product, Modulus(p.dataType)), high);
      upper := Flag(high != 0);
    }
    ProductInPair(old(p.dataType), p.Value());
    p.flags := p.flags.(cf := upper, of := upper);
  }

  lemma ProductHalves(w: Width, a: nat, b: nat)
    requires a < Modulus(w) && b < Modulus(w)
    ensures var m, x := Modulus(w), a * b;
            && High(x, m) < m && x == Pack(High(x, m), m, Rest(x, m))
            && (High(x, m) != 0 <==> x >= m)
            && (w.Byte? ==> x < Modulus(Word))
  {
    assert w.Byte? ==> Modulus(Word) == Modulus(w) * Modulus(w);
    hide Modulus;
    ProductBelow(a, b, Modulus(w));
    HighBounded(a * b, Modulus(w), Modulus(w));
    Unpack(a * b, Modulus(w));
    SmallHigh(a * b, Modulus(w));
  }

  lemma ProductBelow(a: nat, b: nat, m: nat)
    requires a < m && b < m
    ensures a * b < m * m
  {
    assert a * (m - b) >= 0;
    assert (m - a) * m > 0;
  }

  lemma SmallHigh(x: nat, m: nat)
    requires m > 0
    ensures High(x, m) != 0 <==> x >= m
  {
    if x < m {
      QuotientRemainder(x, m, 0, x);
    }
  }

  /** A product of bytes stored as a word. */
  lemma WordHolds(l: Places, x: nat)
    requires x < Modulus(Word)
    ensures var l' := Stored(l, Eax, Word, x);
            && Double(Byte, l') == x && Outside(Byte, l') == Outside(Byte, l)
            && (l'.eax / 0x100 % 0x100 != 0 <==> x >= Modulus(Byte))
  {
    var e := Merge(Word, l.eax, x);
    hide Merge;
    LowIs(Word, e);
    SecondByte(e, x);
  }

  lemma SecondByte(e: nat, x: nat)
    requires e % 0x1_0000 == x
    ensures e / 0x100 % 0x100 == x / 0x100 && e % 0x100 == x % 0x100
  {
    var y := e / 0x100;
    assert e == y / 0x100 * 0x1_0000 + (y % 0x100 * 0x100 + e % 0x100);
    QuotientRemainder(e, 0x1_0000, y / 0x100, y % 0x100 * 0x100 + e % 0x100);
    QuotientRemainder(x, 0x100, y % 0x100, e % 0x100);
  }

  /** Divide the double-width value: the outcome is that of the division; the
      quotient and the remainder go into the two halves, and a trap leaves the
      registers alone. */
  method DivOp(p: Context) returns (outcome: Quotient)
    requires p.destination.Eax? && p.srcValue < Modulus(p.dataType)
    modifies p`cells, p`eax, p`edx, p`destination
    ensures outcome == Divide(p.dataType, Double(p.dataType, old(p.Value())), p.srcValue)
    ensures if outcome.Divided? then
              && InPair(p.dataType, p.Value(), outcome.quotient, outcome.remainder)
              && Double(p.dataType, p.Value()) == Pack(outcome.remainder, Modulus(p.dataType), outcome.quotient)
              && Outside(p.dataType, p.Value()) == Outside(p.dataType, old(p.Value()))
              && p.cells == old(p.cells)
              && p.destination == (if p.dataType.Byte? then Ah else Edx)
            else p.Value() == old(p.Value()) && p.destination == old(p.destination)
  {
    hide Modulus, Low, Pack, Double, Outside, StoredPair, InPair;
    var divisor := p.srcValue;
    if divisor == 0 {
      return DivideByZero;
    }
    var dividend := Double(p.dataType, Places(p.cells, p.eax, p.edx));
    var quotient, remainder := dividend / divisor, dividend % divisor;
    DivisionFits(p.dataType, Places(p.cells, p.eax, p.edx), divisor);
    if High(dividend, Modulus(p.dataType)) >= divisor {
      return QuotientOverflow;
    }
    StorePair(p, quotient, remainder);
    HalvesInPair(p.dataType, p.Value(), quotient, remainder);
    outcome := Divided(quotient, remainder);
  }

  lemma DivisionFits(w: Width, l: Places, divisor: nat)
    requires divisor > 0
    ensures var x := Double(w, l);
            High(x, Modulus(w)) >= divisor <==> x / divisor >= Modulus(w)
  {
    hide Modulus, Pack, Double;
    var x, m := Double(w, l), Modulus(w);
    Unpack(x, m);
    HighHalfDecides(m, High(x, m), Rest(x, m), divisor);
  }

  /** Dividing the product of two operands by one of them does not trap and
      restores the other, with remainder zero. */
  lemma DivideUndoesMultiply(w: Width, l: Places, a: nat, b: nat)
    requires a < Modulus(w) && b != 0 && Double(w, l) == a * b
    ensures Divide(w, Double(w, l), b) == Divided(a, 0)
    ensures Double(w, StoredPair(w, l, a, 0)) == a
  {
    hide Modulus, Double, StoredPair;
    QuotientRemainder(a * b, b, a, 0);
    PairHolds(w, l, a, 0);
  }

  // ---- Signed products ----

  lemma ShiftedDivision(x: int, m: int, c: int)
    requires m > 0
    ensures (x - c * m) / m == x / m - c && (x - c * m) % m == x % m
  {
    assert x - c * m == (x / m - c) * m + x % m;
    QuotientRemainder(x - c * m, m, x / m - c, x % m);
  }

  /** The digits of a value do not depend on whole multiples of a larger power. */
  lemma Digits(x: int, m: int, k: int, t: int)
    requires m > 0 && k > 0 && t == k * m * m
    ensures t > 0 && x % t / m % m == x / m % m && x % t % m == x % m
  {
    assert t > 0;
    var z := x / t;
    var c := z * k * m;
    assert x % t == x - z * t;
    assert z * t == c * m by {
      assert z * (k * m * m) == z * k * m * m;
    }
    ShiftedDivision(x, m, c);
    ShiftedDivision(x / m, m, z * k);
  }

  /** The half of a double-width value that repeats the sign of the other. */
  function SignFill(w: Width, low: nat): nat {
    if low >= Half(w) then Modulus(w) - 1 else 0
  }

  /** The upper half repeats the sign of the lower half exactly when the value
      fits into the lower half. */
  lemma SignRepeats(w: Width, x: int)
    requires -(Half(w) * Half(w)) <= x <= Half(w) * Half(w)
    ensures x / Modulus(w) % Modulus(w) == SignFill(w, x % Modulus(w)) <==> SignedFits(w, x)
  {
    match w {
      case Byte => ByteSign(x);
      case Word => WordSign(x);
      case Long => LongSign(x);
    }
  }

  lemma ByteSign(x: int)
    requires -0x4000 <= x <= 0x4000
    ensures x / 0x100 % 0x100 == (if x % 0x100 >= 0x80 then 0xFF else 0) <==> -0x80 <= x < 0x80
  {
  }

  lemma WordSign(x: int)
    requires -0x4000_0000 <= x <= 0x4000_0000
    ensures x / 0x1_0000 % 0x1_0000 == (if x % 0x1_0000 >= 0x8000 then 0xFFFF else 0) <==> -0x8000 <= x < 0x8000
  {
  }

  lemma LongSign(x: int)
    requires -0x4000_0000_0000_0000 <= x <= 0x4000_0000_0000_0000
    ensures x / TWO_32 % TWO_32 == (if x % TWO_32 >= TWO_31 then TWO_32 - 1 else 0) <==> -TWO_31 <= x < TWO_31
  {
  }

  lemma SignedBound(w: Width, a: nat, b: nat)
    ensures var x := Signed(w, a) * Signed(w, b);
            -(Half(w) * Half(w)) <= x <= Half(w) * Half(w)
  {
    hide Low, Half, Modulus;
    var h, x, y := Half(w), Signed(w, a), Signed(w, b);
    assert -h <= x < h && -h <= y < h;
    ProductRange(h, x, y);
  }

  lemma ProductRange(h: int, x: int, y: int)
    requires -h <= x < h && -h <= y < h
    ensures -(h * h) <= x * y <= h * h
  {
    var a, b := if x < 0 then -x else x, if y < 0 then -y else y;
    Magnitudes(h, a, b);
    assert x * y == a * b || x * y == -(a * b);
  }

  lemma Magnitudes(h: int, a: int, b: int)
    requires 0 <= a <= h && 0 <= b <= h
    ensures 0 <= a * b <= h * h
  {
    assert a * (h - b) >= 0;
    assert (h - a) * h >= 0;
  }

  /** The two halves of a signed product, as found in its 64-bit form. */
  lemma SignedHalves(w: Width, x: int)
    requires -(Half(w) * Half(w)) <= x <= Half(w) * Half(w)
    ensures var m, quad := Modulus(w), x % TWO_64;
            var upper, lower := quad / m % m, quad % m;
            && lower == x % m
            && Pack(upper, m, lower) == x % (m * m)
            && (upper == SignFill(w, lower) <==> SignedFits(w, x))
  {
    var m := Modulus(w);
    var k := match w { case Byte => 0x1_0000_0000_0000 case Word => TWO_32 case Long => 1 };
    assert TWO_64 == k * m * m;
    hide Modulus, Half, SignFill, SignedFits;
    Digits(x, m, k, TWO_64);
    SignRepeats(w, x);
    TwoDigits(x, m);
  }

  lemma TwoDigits(x: int, m: nat)
    requires m > 0
    ensures Pack(x / m % m, m, x % m) == x % (m * m)
  {
    var a, b := x / m, x % m;
    var c, d := a / m, a % m;
    PackBounded(d, m, b, m, m * m);
    Nested(c, m, d, b);
    QuotientRemainder(x, m * m, c, Pack(d, m, b));
  }

  lemma Nested(c: int, m: nat, d: nat, b: nat)
    ensures (c * m + d) * m + b == c * (m * m) + Pack(d, m, b)
  {
    var v := c * m;
    assert (v + d) * m == v * m + d * m;
    assert v * m == c * (m * m);
  }

  lemma SignedInPair(w: Width, l: Places, x: int)
    requires Double(w, l) == x % (Modulus(w) * Modulus(w))
    ensures InPair(w, l, x % Modulus(w), x / Modulus(w) % Modulus(w))
  {
    hide Modulus, Double, InPair;
    TwoDigits(x, Modulus(w));
    HalvesInPair(w, l, x % Modulus(w), x / Modulus(w) % Modulus(w));
  }

  /** A signed product of bytes stored as a word. */
  lemma ByteHalves(l: Places, x: int)
    ensures var quad := x % TWO_64;
            var l' := Stored(l, Eax, Word, quad % 0x1_0000);
            && Double(Byte, l') == x % (Modulus(Byte) * Modulus(Byte))
            && Outside(Byte, l') == Outside(Byte, l)
            && l'.eax / 0x100 % 0x100 == quad / Modulus(Byte) % Modulus(Byte)
            && l'.eax % 0x100 == quad % Modulus(Byte)
  {
    var quad := x % TWO_64;
    var y := quad % 0x1_0000;
    WordHolds(l, y);
    Digits(x, 0x1_0000, TWO_32, TWO_64);
    var e := Stored(l, Eax, Word, y).eax;
    LowIs(Word, e);
    SameWord(e, quad);
  }

  lemma SameWord(e: nat, q: nat)
    requires e % 0x1_0000 == q % 0x1_0000
    ensures e / 0x100 % 0x100 == q / 0x100 % 0x100 && e % 0x100 == q % 0x100
  {
    SecondByte(e, e % 0x1_0000);
    SecondByte(q, q % 0x1_0000);
  }

  /** Signed multiplication into one destination: the low half is stored, and the
      carry and overflow flags say whether the product does not fit into it. */
  method ImulOp(p: Context)
    requires p.Valid()
    modifies p`cells, p`eax, p`edx, p`flags
    ensures var w := p.dataType;
            var x := Signed(w, p.dstValue) * Signed(w, p.srcValue);
            var spills := Flag(!SignedFits(w, x));
            && p.Value() == Stored(old(p.Value()), p.destination, w, x % Modulus(w))
            && p.flags == old(p.flags).(cf := spills, of := spills)
  {
    hide Modulus, Half, Low, Signed, SignedFits, Stored, Pack, SignFill;
    var w := p.dataType;
    SignedBound(w, p.dstValue, p.srcValue);
    var product := Signed(w, p.dstValue) * Signed(w, p.srcValue);
    SignedHalves(w, product);
    var quad := product % TWO_64;
    p.StoreResult(quad % Modulus(w));
    var upper := Flag(quad / Modulus(w) % Modulus(w) != SignFill(w, quad % Modulus(w)));
    p.flags := p.flags.(cf := upper, of := upper);
  }

  /** Signed multiplication into the double-width registers. */
  method ImulxOp(p: Context)
    requires p.destination.Eax?
    modifies p`dataType, p`cells, p`eax, p`edx, p`destination, p`flags
    ensures var w := old(p.dataType);
            var x := Signed(w, p.dstValue) * Signed(w, p.srcValue);
            var spills := Flag(!SignedFits(w, x));
            && Double(w, p.Value()) == x % (Modulus(w) * Modulus(w))
            && InPair(w, p.Value(), x % Modulus(w), x / Modulus(w) % Modulus(w))
            && Outside(w, p.Value()) == Outside(w, old(p.Value()))
            && p.cells == old(p.cells)
            && p.flags == old(p.flags).(cf := spills, of := spills)
    ensures old(p.dataType).Byte? ==> p.dataType.Word? && p.destination.Eax?
    ensures !old(p.dataType).Byte? ==> p.dataType == old(p.dataType) && p.destination.Edx?
  {
    hide Modulus, Half, Low, Signed, SignedFits, Pack, SignFill, Double, Outside, StoredPair, InPair;
    var w := p.dataType;
    SignedBound(w, p.dstValue, p.srcValue);
    var product := Signed(w, p.dstValue) * Signed(w, p.srcValue);
    SignedHalves(w, product);
    var quad := product % TWO_64;
    var low, high := quad % Modulus(w), quad / Modulus(w) % Modulus(w);
    if w.Byte? {
      p.dataType := Word;
      ByteHalves(p.Value(), product);
      p.StoreResult(quad % 0x1_0000);
      var upper := Flag(p.eax / 0x100 % 0x100 != SignFill(w, p.eax % 0x100));
      p.flags := p.flags.(cf := upper, of := upper);
    } else {
      StorePair(p, low, high);
      var upper := Flag(high != SignFill(w, low));
      p.flags := p.flags.(cf := upper, of := upper);
    }
    SignedInPair(w, p.Value(), product);
  }
}
