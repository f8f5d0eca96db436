/** The conditions that conditional jumps (hals/x86new/jmpops.c) and byte sets
    (hals/x86new/setops.c) test, and what they decide after a comparison. */
module X86Conditions {
  import opened Words
  import opened X86Context
  import opened X86Arith

  /** The relations between two operands that a comparison leaves in the flags;
      an odd control value asks for the opposite of the even one before it. */
  predicate Related(w: Width, control: nat, dst: u32, src: u32) {
    var d, s := Low(w, dst), Low(w, src);
    var x, y := Signed(w, dst), Signed(w, src);
    match control {
      case 2 => d < s
      case 3 => d >= s
      case 4 => d == s
      case 5 => d != s
      case 6 => d <= s
      case 7 => d > s
      case 12 => x < y
      case 13 => x >= y
      case 14 => x <= y
      case 15 => x > y
      case _ => false
    }
  }

  predicate Ordering(control: nat) {
    2 <= control < 8 || 12 <= control < 16
  }

  /** The condition of a control value in terms of the flags. */
  predicate Holds(f: Flags, control: nat) {
    var c := match control / 2 {
               case 0 => f.of == 1
               case 1 => f.cf == 1
               case 2 => f.zf == 1
               case 3 => f.cf == 1 || f.zf == 1
               case 4 => f.sf == 1
               case 5 => f.pf == 1
               case 6 => f.sf != f.of
               case _ => f.sf != f.of || f.zf == 1
             };
    c != (control % 2 == 1)
  }

  /** The sign of the difference and the overflow disagree exactly when the
      destination is less. */
  lemma SignedLess(w: Width, src: u32, dst: u32)
    ensures var f := Difference(w, src, dst, 0).flags;
            f.sf != f.of <==> Signed(w, dst) < Signed(w, src)
  {
    hide EvenOnes, Nibble, Low, Modulus, Half;
  }

  lemma ZeroIsEqual(w: Width, src: u32, dst: u32)
    ensures Difference(w, src, dst, 0).flags.zf == 1 <==> Low(w, dst) == Low(w, src)
    ensures Low(w, dst) == Low(w, src) <==> Signed(w, dst) == Signed(w, src)
  {
    hide EvenOnes, Nibble, Low, Modulus, Half;
  }

  /** After a comparison, for all operands of every width, the conditions decide
      exactly the unsigned and signed orders. */
  lemma ComparisonDecides(w: Width, src: u32, dst: u32, control: nat)
    requires Ordering(control)
    ensures Holds(Difference(w, src, dst, 0).flags, control) <==> Related(w, control, dst, src)
  {
    SignedLess(w, src, dst);
    ZeroIsEqual(w, src, dst);
    var f := Difference(w, src, dst, 0).flags;
    assert f.cf == 1 <==> Low(w, dst) < Low(w, src) by {
      hide EvenOnes, Nibble, Low, Modulus, Half, Signed;
    }
    hide Difference, Signed, Low, Modulus, Half;
  }

  /** The remaining conditions say whether the signed difference overflows, the
      sign of the result and the parity of its low byte. */
  lemma ComparisonReports(w: Width, src: u32, dst: u32)
    ensures var o := Difference(w, src, dst, 0);
            && (Holds(o.flags, 0) <==> Signed(w, o.result) != Signed(w, dst) - Signed(w, src))
            && (Holds(o.flags, 8) <==> Signed(w, o.result) < 0)
            && (Holds(o.flags, 10) <==> Ones(o.result % 0x100) % 2 == 0)
  {
    hide Nibble, Low, Modulus, Half, Ones;
  }

  /** After an addition the conditions say whether the sum and the signed sum
      fit, whether it is zero in the width, and the sign and the parity of the
      result. */
  lemma SumReports(w: Width, src: u32, dst: u32, carry: bit)
    ensures var o, total := Sum(w, src, dst, carry), Low(w, dst) + Low(w, src) + carry;
            && (Holds(o.flags, 0) <==> Signed(w, o.result) != Signed(w, dst) + Signed(w, src) + carry)
            && (Holds(o.flags, 2) <==> o.result != total)
            && (Holds(o.flags, 4) <==> total == 0 || total == Modulus(w))
            && (Holds(o.flags, 8) <==> Signed(w, o.result) < 0)
            && (Holds(o.flags, 10) <==> Ones(o.result % 0x100) % 2 == 0)
  {
    hide Nibble, Low, Modulus, Half, Ones;
  }

  /** The jump is taken exactly when the condition of its control value holds. */
  method Jxx(p: Context)
    requires p.srcValue < 16
    modifies p`eip
    ensures p.eip == if Holds(p.flags, p.srcValue) then Low(Word, p.dstValue) else old(p.eip)
  {
    hide Low;
    var complement := p.srcValue % 2;
    var f := p.flags;
    var condition: bit;
    match p.srcValue / 2 {
      case 0 => condition := f.of;
      case 1 => condition := f.cf;
      case 2 => condition := f.zf;
      case 3 => condition := if f.cf == 1 then 1 else f.zf;
      case 4 => condition := f.sf;
      case 5 => condition := f.pf;
      case 6 => condition := XorBit(f.sf, f.of);
      case _ => condition := if XorBit(f.sf, f.of) == 1 then 1 else f.zf;
    }
    if XorBit(condition, complement) != 0 {
      p.eip := Low(Word, p.dstValue);
    }
  }

  /** The destination byte is one exactly when the jump with the same control
      value would be taken, and zero otherwise. */
  method Sxx(p: Context)
    requires p.srcValue < 16 && p.Valid()
    modifies p`cells, p`eax, p`edx
    ensures p.Value() == Stored(old(p.Value()), p.destination, p.dataType, Flag(Holds(p.flags, p.srcValue)))
  {
    hide Low, Stored;
    var complement := p.srcValue % 2;
    var f := p.flags;
    var condition: bit;
    match p.srcValue / 2 {
      case 0 => condition := f.of;
      case 1 => condition := f.cf;
      case 2 => condition := f.zf;
      case 3 => condition := if f.cf == 1 then 1 else f.zf;
      case 4 => condition := f.sf;
      case 5 => condition := f.pf;
      case 6 => condition := XorBit(f.sf, f.of);
      case _ => condition := if XorBit(f.sf, f.of) == 1 then 1 else f.zf;
    }
    p.StoreResult(XorBit(condition, complement));
  }
}
