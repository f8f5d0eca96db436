/** Addition, subtraction and comparison in the x86 emulator
    (hals/x86new/addops.c). */
module X86Arith {
  import opened Words
  import opened X86Context

  datatype Outcome = Outcome(result: u32, flags: Flags)

  function Flag(b: bool): bit {
    if b then 1 else 0
  }

  function Nibble(x: nat): nat {
    x % 16
  }

  /** What an addition means: the sum of the low bits and a carry, the carry out
      of the width and of the low nibble, and whether the signed sum fits. */
  function Sum(w: Width, src: u32, dst: u32, carry: bit): Outcome {
    var total := Low(w, dst) + Low(w, src) + carry;
    var r := if total >= Modulus(w) then total - Modulus(w) else total;
    Outcome(r, Flags(Flag(total >= Modulus(w)), EvenOnes(r), Flag(Nibble(dst) + Nibble(src) + carry >= 16),
                     Flag(r == 0), Flag(r >= Half(w)),
                     Flag(!SignedFits(w, Signed(w, dst) + Signed(w, src) + carry))))
  }

  /** What a subtraction means. */
  function Difference(w: Width, src: u32, dst: u32, borrow: bit): Outcome {
    var total := Low(w, dst) - Low(w, src) - borrow;
    var r := if total < 0 then total + Modulus(w) else total;
    Outcome(r, Flags(Flag(total < 0), EvenOnes(r), Flag(Nibble(dst) - Nibble(src) - borrow < 0),
                     Flag(r == 0), Flag(r >= Half(w)),
                     Flag(!SignedFits(w, Signed(w, dst) - Signed(w, src) - borrow))))
  }

  /** The top bit of a value of a width. */
  function TopOf(w: Width, x: nat): bit {
    Flag(Low(w, x) >= Half(w))
  }

  lemma TopBit(w: Width, x: nat)
    ensures Shr(x, TopShift(w)) % 2 == TopOf(w, x)
  {
    ShrIsDivision(x, TopShift(w));
    ModulusIsPower(w);
    hide Half, Modulus, TopShift, Pow2, Shr;
    var h := Half(w);
    var q := x / h;
    assert x == q / 2 * (2 * h) + (q % 2 * h + x % h) by {
      assert x == q * h + x % h;
      assert q == q / 2 * 2 + q % 2;
    }
    QuotientRemainder(x, 2 * h, q / 2, q % 2 * h + x % h);
  }

  lemma XorParity(x: nat, a: bit, b: bit, y: nat)
    requires x % 2 == a && y % 2 == b
    ensures XorBit(x, y) == XorBit(a, b)
  {
  }

  /** The exclusive or of two operands and a result, at the top bit. */
  lemma TopXor(w: Width, src: u32, dst: u32, r: u32, c: bit)
    ensures XorBit(Shr(Xor(Xor(src, dst), r), TopShift(w)), c)
         == XorBit(XorBit(XorBit(TopOf(w, src), TopOf(w, dst)), TopOf(w, r)), c)
  {
    hide Xor, Shr, TopOf, TopShift, XorBit;
    var k := TopShift(w);
    var x := Xor(src, dst);
    TopBit(w, src);
    TopBit(w, dst);
    TopBit(w, r);
    XorShift(src, dst, k);
    XorParity(Shr(src, k), TopOf(w, src), TopOf(w, dst), Shr(dst, k));
    XorShift(x, r, k);
    XorParity(Shr(x, k), XorBit(TopOf(w, src), TopOf(w, dst)), TopOf(w, r), Shr(r, k));
    XorParity(Shr(Xor(x, r), k), XorBit(XorBit(TopOf(w, src), TopOf(w, dst)), TopOf(w, r)), c, c);
  }

  /** The signed value of a word with a given half range. */
  function Centred(h: int, x: int): int {
    if x < h then x else x - 2 * h
  }

  lemma CarryIntoTop(h: int, a: int, b: int, c: bit, r: int)
    requires 0 <= a < 2 * h && 0 <= b < 2 * h
    requires r == if a + b + c >= 2 * h then a + b + c - 2 * h else a + b + c
    ensures Flag(!(-h <= Centred(h, a) + Centred(h, b) + c < h))
         == XorBit(XorBit(XorBit(Flag(b >= h), Flag(a >= h)), Flag(r >= h)), Flag(a + b + c >= 2 * h))
  {
  }

  lemma BorrowFromTop(h: int, a: int, b: int, c: bit, r: int)
    requires 0 <= a < 2 * h && 0 <= b < 2 * h
    requires r == if a - b - c < 0 then a - b - c + 2 * h else a - b - c
    ensures Flag(!(-h <= Centred(h, a) - Centred(h, b) - c < h))
         == XorBit(XorBit(XorBit(Flag(b >= h), Flag(a >= h)), Flag(r >= h)), Flag(a - b - c < 0))
  {
  }

  /** A signed sum leaves the range exactly when the carries into and out of the
      top bit differ. */
  lemma SumOverflow(w: Width, src: u32, dst: u32, carry: bit)
    ensures var o := Sum(w, src, dst, carry);
            o.flags.of == XorBit(Shr(Xor(Xor(src, dst), o.result), TopShift(w)), o.flags.cf)
  {
    hide EvenOnes, Xor, Shr, XorBit, Low, Modulus, Half, TopShift, Nibble;
    var o := Sum(w, src, dst, carry);
    TopXor(w, src, dst, o.result, o.flags.cf);
    CarryIntoTop(Half(w), Low(w, dst), Low(w, src), carry, o.result);
  }

  lemma DifferenceOverflow(w: Width, src: u32, dst: u32, borrow: bit)
    ensures var o := Difference(w, src, dst, borrow);
            o.flags.of == XorBit(Shr(Xor(Xor(src, dst), o.result), TopShift(w)), o.flags.cf)
  {
    hide EvenOnes, Xor, Shr, XorBit, Low, Modulus, Half, TopShift, Nibble;
    var o := Difference(w, src, dst, borrow);
    TopXor(w, src, dst, o.result, o.flags.cf);
    BorrowFromTop(Half(w), Low(w, dst), Low(w, src), borrow, o.result);
  }

  /** The two comparisons of the addition find its carry. */
  lemma SumInTwoSteps(w: Width, src: u32, dst: u32, carry: bit)
    ensures var partial := Low(w, Low(w, src) + carry);
            var r := Low(w, partial + Low(w, dst));
            var o := Sum(w, src, dst, carry);
            r == o.result && (partial < carry || r < Low(w, dst) <==> o.flags.cf == 1)
  {
    hide EvenOnes, Nibble, Signed, SignedFits, Half;
    LowWraps(w, Low(w, src) + carry);
    LowWraps(w, Low(w, Low(w, src) + carry) + Low(w, dst));
    hide Low, Modulus;
  }

  lemma LowWraps(w: Width, x: nat)
    requires x < 2 * Modulus(w)
    ensures Low(w, x) == if x < Modulus(w) then x else x - Modulus(w)
  {
  }

  lemma DifferenceInTwoSteps(w: Width, src: u32, dst: u32, borrow: bit)
    ensures var partial := Low(w, Low(w, dst) - borrow + Modulus(w));
            var r := Low(w, partial - Low(w, src) + Modulus(w));
            var o := Difference(w, src, dst, borrow);
            r == o.result && (Low(w, dst) < borrow || partial < Low(w, src) <==> o.flags.cf == 1)
  {
    hide EvenOnes, Nibble, Signed, SignedFits, Half;
    LowWraps(w, Low(w, dst) - borrow + Modulus(w));
    LowWraps(w, Low(w, Low(w, dst) - borrow + Modulus(w)) - Low(w, src) + Modulus(w));
    hide Low, Modulus;
  }

  /** The borrow out of the low nibble, as the source finds it from the wrapped
      difference of the nibbles. */
  lemma NibbleBorrow(x: nat, y: nat, b: bit)
    requires x < 16 && y < 16
    ensures (x - y - b) % TWO_32 / 16 % 2 == Flag(x - y - b < 0)
  {
    var t := x - y - b;
    if t < 0 {
      QuotientRemainder(t, TWO_32, -1, t + TWO_32);
    }
  }

  /** The bits that the addition puts into its flags, in the order of the
      structure. */
  lemma SumFlags(w: Width, src: u32, dst: u32, carry: bit)
    ensures var o := Sum(w, src, dst, carry);
            && (Nibble(dst) + Nibble(src) + carry) / 16 % 2 == o.flags.af
            && Shr(o.result, TopShift(w)) % 2 == o.flags.sf
            && XorBit(Shr(Xor(Xor(src, dst), o.result), TopShift(w)), o.flags.cf) == o.flags.of
  {
    hide Xor, Shr, Signed, SignedFits, XorBit, EvenOnes, Modulus, Half, Low, TopShift;
    SumOverflow(w, src, dst, carry);
    TopBit(w, Sum(w, src, dst, carry).result);
  }

  lemma DifferenceFlags(w: Width, src: u32, dst: u32, borrow: bit)
    ensures var o := Difference(w, src, dst, borrow);
            && (Nibble(dst) - Nibble(src) - borrow) % TWO_32 / 16 % 2 == o.flags.af
            && Shr(o.result, TopShift(w)) % 2 == o.flags.sf
            && XorBit(Shr(Xor(Xor(src, dst), o.result), TopShift(w)), o.flags.cf) == o.flags.of
  {
    NibbleBorrow(Nibble(dst), Nibble(src), borrow);
    hide Xor, Shr, Signed, SignedFits, XorBit, EvenOnes, Modulus, Half, Low, TopShift, Nibble;
    DifferenceOverflow(w, src, dst, borrow);
    TopBit(w, Difference(w, src, dst, borrow).result);
  }

  /** Add the operands and a carry: the result and every flag are those of the
      sum, except that an increment keeps the carry flag. */
  method AddOperands(p: Context, carry: bit)
    requires p.Valid()
    modifies p`flags, p`cells, p`eax, p`edx
    ensures var o := Sum(p.dataType, p.srcValue, p.dstValue, carry);
            && p.Value() == Stored(old(p.Value()), p.destination, p.dataType, o.result)
            && p.flags == if p.functionIndex.IncIndex? then o.flags.(cf := old(p.flags.cf)) else o.flags
  {
    hide Xor, Shr, Signed, SignedFits, Stored, XorBit, EvenOnes, Modulus, Half, Nibble, TopShift, Low;
    var w, src, dst := p.dataType, p.srcValue, p.dstValue;
    var result := Low(w, Low(w, src) + carry);
    var carryFlag := Flag(result < carry);
    result := Low(w, result + Low(w, dst));
    carryFlag := if result < Low(w, dst) then 1 else carryFlag;
    SumInTwoSteps(w, src, dst, carry);
    SumFlags(w, src, dst, carry);
    p.StoreResult(result);
    var pf := ComputeParity(result);
    p.flags := Flags(if p.functionIndex.IncIndex? then p.flags.cf else carryFlag,
                     pf,
                     (Nibble(dst) + Nibble(src) + carry) / 16 % 2,
                     Flag(result == 0),
                     Shr(result, TopShift(w)) % 2,
                     XorBit(Shr(Xor(Xor(src, dst), result), TopShift(w)), carryFlag));
  }

  /** The flags after a subtraction: a decrement keeps the carry flag, a compare
      and exchange the zero flag. */
  function FlagsAfter(op: Function, was: Flags, o: Outcome): Flags {
    var f := if op.DecIndex? then o.flags.(cf := was.cf) else o.flags;
    if op.CmpxchgIndex? then f.(zf := was.zf) else f
  }

  /** Subtract the source and a borrow; a comparison stores nothing. */
  method SubOperands(p: Context, borrow: bit)
    requires p.Valid()
    modifies p`flags, p`cells, p`eax, p`edx
    ensures var o := Difference(p.dataType, p.srcValue, p.dstValue, borrow);
            && p.Value() == (if p.functionIndex.CmpIndex? || p.functionIndex.CmpxchgIndex? then old(p.Value())
                             else Stored(old(p.Value()), p.destination, p.dataType, o.result))
            && p.flags == FlagsAfter(p.functionIndex, old(p.flags), o)
  {
    hide Xor, Shr, Signed, SignedFits, Stored, XorBit, EvenOnes, Modulus, Half, Nibble, TopShift, Low;
    var w, src, dst := p.dataType, p.srcValue, p.dstValue;
    var carryFlag := Flag(Low(w, dst) < borrow);
    var result := Low(w, Low(w, dst) - borrow + Modulus(w));
    carryFlag := if result < Low(w, src) then 1 else carryFlag;
    result := Low(w, result - Low(w, src) + Modulus(w));
    DifferenceInTwoSteps(w, src, dst, borrow);
    DifferenceFlags(w, src, dst, borrow);
    if !p.functionIndex.CmpIndex? && !p.functionIndex.CmpxchgIndex? {
      p.StoreResult(result);
    }
    var pf := ComputeParity(result);
    p.flags := Flags(if p.functionIndex.DecIndex? then p.flags.cf else carryFlag,
                     pf,
                     (Nibble(dst) - Nibble(src) - borrow) % TWO_32 / 16 % 2,
                     if p.functionIndex.CmpxchgIndex? then p.flags.zf else Flag(result == 0),
                     Shr(result, TopShift(w)) % 2,
                     XorBit(Shr(Xor(Xor(src, dst), result), TopShift(w)), carryFlag));
  }

  method AddOp(p: Context)
    requires p.Valid() && p.functionIndex.AddIndex?
    modifies p`flags, p`cells, p`eax, p`edx
    ensures var o := Sum(p.dataType, p.srcValue, p.dstValue, 0);
            p.Value() == Stored(old(p.Value()), p.destination, p.dataType, o.result) && p.flags == o.flags
  {
    AddOperands(p, 0);
  }

  method AdcOp(p: Context)
    requires p.Valid() && p.functionIndex.AdcIndex?
    modifies p`flags, p`cells, p`eax, p`edx
    ensures var o := Sum(p.dataType, p.srcValue, p.dstValue, old(p.flags.cf));
            p.Value() == Stored(old(p.Value()), p.destination, p.dataType, o.result) && p.flags == o.flags
  {
    AddOperands(p, p.flags.cf);
  }

  method SubOp(p: Context)
    requires p.Valid() && p.functionIndex.SubIndex?
    modifies p`flags, p`cells, p`eax, p`edx
    ensures var o := Difference(p.dataType, p.srcValue, p.dstValue, 0);
            p.Value() == Stored(old(p.Value()), p.destination, p.dataType, o.result) && p.flags == o.flags
  {
    SubOperands(p, 0);
  }

  method SbbOp(p: Context)
    requires p.Valid() && p.functionIndex.SbbIndex?
    modifies p`flags, p`cells, p`eax, p`edx
    ensures var o := Difference(p.dataType, p.srcValue, p.dstValue, old(p.flags.cf));
            p.Value() == Stored(old(p.Value()), p.destination, p.dataType, o.result) && p.flags == o.flags
  {
    SubOperands(p, p.flags.cf);
  }

  method CmpOp(p: Context)
    requires p.Valid() && p.functionIndex.CmpIndex?
    modifies p`flags, p`cells, p`eax, p`edx
    ensures p.Value() == old(p.Value())
    ensures p.flags == Difference(p.dataType, p.srcValue, p.dstValue, 0).flags
  {
    SubOperands(p, 0);
  }

  method IncOp(p: Context)
    requires p.Valid() && p.functionIndex.IncIndex?
    modifies p`flags, p`cells, p`eax, p`edx, p`srcValue
    ensures var o := Sum(p.dataType, 1, p.dstValue, 0);
            && p.Value() == Stored(old(p.Value()), p.destination, p.dataType, o.result)
            && p.flags == o.flags.(cf := old(p.flags.cf))
    ensures p.srcValue == 1
  {
    p.srcValue := 1;
    AddOperands(p, 0);
  }

  method DecOp(p: Context)
    requires p.Valid() && p.functionIndex.DecIndex?
    modifies p`flags, p`cells, p`eax, p`edx, p`srcValue
    ensures var o := Difference(p.dataType, 1, p.dstValue, 0);
            && p.Value() == Stored(old(p.Value()), p.destination, p.dataType, o.result)
            && p.flags == o.flags.(cf := old(p.flags.cf))
    ensures p.srcValue == 1
  {
    p.srcValue := 1;
    SubOperands(p, 0);
  }

  method NegOp(p: Context)
    requires p.Valid() && p.functionIndex.NegIndex?
    modifies p`flags, p`cells, p`eax, p`edx, p`srcValue, p`dstValue
    ensures var o := Difference(p.dataType, old(p.dstValue), 0, 0);
            p.Value() == Stored(old(p.Value()), p.destination, p.dataType, o.result) && p.flags == o.flags
    ensures p.srcValue == old(p.dstValue) && p.dstValue == 0
  {
    p.srcValue := p.dstValue;
    p.dstValue := 0;
    SubOperands(p, 0);
  }

  /** Compare the accumulator with the destination and exchange: if they are
      equal the destination gets the source, otherwise the accumulator gets the
      destination, and the flags are those of the comparison. */
  method CmpxchgOp(p: Context)
    requires p.Valid() && p.functionIndex.CmpxchgIndex? && p.dstValue < Modulus(p.dataType)
    modifies p`flags, p`cells, p`eax, p`edx, p`srcValue, p`dstValue, p`destination
    ensures var accumulator := Low(p.dataType, old(p.eax));
            && p.flags == Difference(p.dataType, old(p.dstValue), accumulator, 0).flags
            && p.Value() == if old(p.dstValue) == accumulator
                            then Stored(old(p.Value()), old(p.destination), p.dataType, old(p.srcValue))
                            else Stored(old(p.Value()), Eax, p.dataType, old(p.dstValue))
    ensures p.srcValue == old(p.dstValue) && p.dstValue == Low(p.dataType, old(p.eax))
    ensures p.destination == if p.srcValue == p.dstValue then old(p.destination) else Eax
  {
    hide Modulus, Signed, SignedFits, Half, EvenOnes, Merge;
    var destination := p.dstValue;
    var accumulator := Low(p.dataType, p.eax);
    if destination == accumulator {
      p.flags := p.flags.(zf := 1);
      p.StoreResult(p.srcValue);
    } else {
      p.flags := p.flags.(zf := 0);
      p.destination := Eax;
      p.StoreResult(p.dstValue);
    }
    p.srcValue := p.dstValue;
    p.dstValue := accumulator;
    SubOperands(p, 0);
  }
}
