/** Rotations and double shifts in the x86 emulator (hals/x86new/shiftops.c). */
module X86Shift {
  import opened Words
  import opened Rotations
  import opened X86Context
  import opened X86Arith

  /** The value and the carry flag above it, as one word with one bit more. */
  function Joint(w: Width, cf: bit, v: nat): nat {
    Pack(cf, Modulus(w), v)
  }

  lemma TopField(w: Width, v: nat)
    requires v < Modulus(w)
    ensures Shr(v, TopShift(w)) == High(v, Half(w)) <= 1
    ensures Low(w, 2 * v) == 2 * Rest(v, Half(w))
    ensures v == Pack(High(v, Half(w)), Half(w), Rest(v, Half(w)))
  {
    ShrIsDivision(v, TopShift(w));
    ModulusIsPower(w);
    hide Modulus, Half, Pow2, Shr;
    var h := Half(w);
    HighBounded(v, h, 2);
    Unpack(v, h);
    var t, l := High(v, h), Rest(v, h);
    assert 2 * v == t * (2 * h) + 2 * l;
    QuotientRemainder(2 * v, 2 * h, t, 2 * l);
  }

  lemma OrBit(t: bit, l: nat)
    ensures Or(t, 2 * l) == 2 * l + t && Or(2 * l, t) == 2 * l + t
  {
  }

  lemma RotatePowers(w: Width)
    ensures Bits(w) - 1 == TopShift(w)
    ensures Pow2(Bits(w)) == Modulus(w) && Pow2(TopShift(w)) == Half(w) && Pow2(1) == 2
  {
    ModulusIsPower(w);
  }

  lemma RolStep(w: Width, v: nat)
    requires v < Modulus(w)
    ensures var t := Shr(v, TopShift(w));
            t <= 1 && Or(t, Low(w, 2 * v)) == RotateLeft(Bits(w), v, 1) == Pack(Rest(v, Half(w)), 2, t)
  {
    hide Modulus, Half, Shr, Pow2, TopShift, Low, Or;
    TopField(w, v);
    RotatePowers(w);
    OrBit(High(v, Half(w)), Rest(v, Half(w)));
  }

  lemma RorStep(w: Width, v: nat)
    requires v < Modulus(w)
    ensures Or(v % 2 * Half(w), v / 2) == RotateRight(Bits(w), v, 1) == Pack(v % 2, Half(w), v / 2)
  {
    hide Modulus, Half, Pow2, TopShift, Or;
    RotatePowers(w);
    OrDisjoint(v % 2, TopShift(w), v / 2);
  }

  lemma RclStep(w: Width, v: nat, cf: bit)
    requires v < Modulus(w)
    ensures var t := Shr(v, TopShift(w));
            var r := Or(Low(w, 2 * v), cf);
            && t <= 1 && r < Modulus(w)
            && Joint(w, t, r) == RotateLeft(Bits(w) + 1, Joint(w, cf, v), 1)
            && r == Pack(Rest(v, Half(w)), 2, cf)
  {
    hide Modulus, Half, Shr, Pow2, TopShift, Low, Or, Pack, High, Rest;
    TopField(w, v);
    RotatePowers(w);
    var t, l := High(v, Half(w)), Rest(v, Half(w));
    OrBit(cf, l);
    PackBit(l, cf);
    PackParts(cf, Modulus(w), v);
    PackDouble(t, Half(w), l, cf);
    PackBounded(l, 2, cf, Half(w), Modulus(w));
  }

  lemma PackBit(l: nat, c: bit)
    ensures Pack(l, 2, c) == 2 * l + c
  {
  }

  lemma RcrStep(w: Width, v: nat, cf: bit)
    requires v < Modulus(w)
    ensures var r := Or(cf * Half(w), v / 2);
            && r < Modulus(w)
            && Joint(w, v % 2, r) == RotateRight(Bits(w) + 1, Joint(w, cf, v), 1)
            && r == Pack(cf, Half(w), v / 2)
  {
    hide Modulus, Half, Pow2, TopShift, Or;
    RotatePowers(w);
    OrDisjoint(cf, TopShift(w), v / 2);
    Unpack(v, 2);
    var b, l := Rest(v, 2), High(v, 2);
    assert b == v % 2 && l == v / 2;
    assert Or(cf * Half(w), l) == Pack(cf, Half(w), l);
    hide Pack, High, Rest;
    PackDouble(cf, Half(w), l, b);
    PackParts(Pack(cf, Half(w), l), 2, b);
    PackBounded(cf, Half(w), l, 2, Modulus(w));
  }

  /** The bit below the top bit. */
  function SecondOf(w: Width, x: nat): bit {
    Shr(x, TopShift(w) - 1) % 2
  }

  lemma SecondField(v: nat, q: nat)
    requires q > 0
    ensures High(v, q) % 2 == High(Rest(v, 2 * q), q) % 2
  {
    var t, l := High(v, 2 * q), Rest(v, 2 * q);
    var u, z := High(l, q), Rest(l, q);
    Unpack(v, 2 * q);
    Unpack(l, q);
    hide High, Rest;
    PackShiftUp(t, q, u, z);
    PackParts(Pack(t, 2, u), q, z);
    hide Pack;
    PackParity(t, u);
  }

  lemma PackParity(t: nat, u: nat)
    ensures Pack(t, 2, u) % 2 == u % 2
  {
  }

  lemma HalfPower(w: Width)
    ensures Half(w) == 2 * Pow2(TopShift(w) - 1)
  {
    ModulusIsPower(w);
  }

  /** It is the same in the value without its top bit. */
  lemma SecondBit(w: Width, v: nat)
    ensures SecondOf(w, v) == SecondOf(w, Rest(v, Half(w)))
  {
    hide Shr, Pow2, Half;
    HalfPower(w);
    ShrIsDivision(v, TopShift(w) - 1);
    ShrIsDivision(Rest(v, Half(w)), TopShift(w) - 1);
    SecondField(v, Pow2(TopShift(w) - 1));
  }

  /** Shifting up by one makes the second bit the top bit. */
  lemma TopAfterLeft(w: Width, v: nat, c: bit)
    requires v < Modulus(w)
    ensures Pack(Rest(v, Half(w)), 2, c) < Modulus(w)
    ensures TopOf(w, Pack(Rest(v, Half(w)), 2, c)) == SecondOf(w, v)
  {
    var l := Rest(v, Half(w));
    var r := Pack(l, 2, c);
    PackBounded(l, 2, c, Half(w), Modulus(w));
    SecondBit(w, v);
    TopBit(w, r);
    assert r / 2 == l;
    assert Shr(r, TopShift(w)) == Shr(l, TopShift(w) - 1);
  }

  /** Shifting down by one makes the top bit the second bit and what comes in the
      top bit. */
  lemma TopAfterRight(w: Width, v: nat, c: bit)
    requires v < Modulus(w)
    ensures Pack(c, Half(w), v / 2) < Modulus(w)
    ensures TopOf(w, Pack(c, Half(w), v / 2)) == c
    ensures SecondOf(w, Pack(c, Half(w), v / 2)) == Shr(v, TopShift(w)) % 2
  {
    var h := Half(w);
    var r := Pack(c, h, v / 2);
    hide Half, Modulus, Low;
    PackBounded(c, h, v / 2, 2, Modulus(w));
    PackParts(c, h, v / 2);
    SecondBit(w, r);
    assert c * h >= h <==> c == 1;
  }

  /** A rotation sets the carry flag if it rotates at all, and the overflow flag
      only if it rotates by one. */
  function RotateFlags(was: Flags, count: nat, cf: bit, of: bit): Flags {
    if count == 0 then was
    else if count == 1 then was.(cf := cf, of := of)
    else was.(cf := cf)
  }

  lemma RotateZero(n: nat, x: nat)
    requires x < Pow2(n)
    ensures RotateLeft(n, x, 0) == x == RotateRight(n, x, 0)
  {
    hide Pack, High, Rest;
    assert Pow2(0) == 1;
    hide Pow2;
    FieldOfAll(x, Pow2(n));
    FieldOfNone(x);
  }

  lemma FieldOfAll(x: nat, p: nat)
    requires x < p
    ensures High(x, p) == 0 && Rest(x, p) == x && Pack(x, 1, 0) == x
  {
  }

  lemma FieldOfNone(x: nat)
    ensures High(x, 1) == x && Rest(x, 1) == 0
    ensures forall p: nat {:trigger Pack(0, p, x)} :: Pack(0, p, x) == x
  {
  }

  /** The count of a rotation, masked with the number of the top bit. */
  function Masked(w: Width, count: u32): (n: nat)
    ensures n == count % Bits(w) && n < Bits(w)
  {
    match w { case Byte => count % 8 case Word => count % 16 case Long => count % 32 }
  }

  /** Rotate left: the loop computes the rotation by the masked count. The carry
      is the bit that came in last, and the overflow whether it differs from the
      new top bit. */
  method RolOp(p: Context)
    requires p.Valid() && p.dstValue < Modulus(p.dataType)
    modifies p`flags, p`cells, p`eax, p`edx
    ensures var w, n := p.dataType, Masked(p.dataType, p.srcValue);
            var r := RotateLeft(Bits(w), p.dstValue, n);
            && p.Value() == Stored(old(p.Value()), p.destination, w, r)
            && p.flags == RotateFlags(old(p.flags), n, r % 2, XorBit(r % 2, TopOf(w, r)))
  {
    hide Modulus, Half, Low, Pow2, Pack, High, Rest, Shr, Or, Stored, XorBit, TopOf, RotateLeft, TopShift, Bits, Masked;
    var w, shift := p.dataType, TopShift(p.dataType);
    var value: u32, count: nat := p.dstValue, Masked(p.dataType, p.srcValue);
    ghost var n, v := count, value;
    RolStart(w, v);
    if count != 0 {
      if count == 1 {
        p.flags := p.flags.(of := XorBit(Shr(value, shift), SecondOf(w, value)));
      }
      var carry: bit := 0;
      while count != 0
        invariant 0 <= count <= n && value < Modulus(w)
        invariant value == RotateLeft(Bits(w), v, n - count)
        invariant count < n ==> carry == value % 2
        modifies {}
      {
        RolLoop(w, v, n - count);
        carry := Shr(value, shift);
        value := Or(carry, Low(w, 2 * value));
        count := count - 1;
      }
      p.flags := p.flags.(cf := carry);
    }
    p.StoreResult(value);
  }

  lemma RolStart(w: Width, v: nat)
    requires v < Modulus(w)
    ensures RotateLeft(Bits(w), v, 0) == v
    ensures var r := RotateLeft(Bits(w), v, 1);
            XorBit(Shr(v, TopShift(w)), SecondOf(w, v)) == XorBit(r % 2, TopOf(w, r))
  {
    hide RotateLeft, Pow2, Pack, Shr, Low, Modulus, TopShift, Or, Half, Rest, TopOf, SecondOf;
    RotatePowers(w);
    RotateZero(Bits(w), v);
    RolStep(w, v);
    TopAfterLeft(w, v, Shr(v, TopShift(w)));
    PackParity(Rest(v, Half(w)), Shr(v, TopShift(w)));
  }

  lemma RolLoop(w: Width, v: nat, k: nat)
    requires v < Modulus(w) && k < Bits(w)
    ensures var y := RotateLeft(Bits(w), v, k);
            && y < Modulus(w) && Shr(y, TopShift(w)) <= 1
            && Or(Shr(y, TopShift(w)), Low(w, 2 * y)) == RotateLeft(Bits(w), v, k + 1) < Modulus(w)
            && RotateLeft(Bits(w), v, k + 1) % 2 == Shr(y, TopShift(w))
  {
    hide RotateLeft, Pow2, Pack, Shr, Low, Modulus, TopShift, Or;
    RotatePowers(w);
    RotateBounded(Bits(w), v, k);
    RotateBounded(Bits(w), v, k + 1);
    var y := RotateLeft(Bits(w), v, k);
    RolStep(w, y);
    RotateLeftStep(Bits(w), v, k);
    PackParity(Rest(y, Half(w)), Shr(y, TopShift(w)));
  }

  /** Rotate right: the carry is the bit that came in last, and the overflow
      whether the two top bits differ. */
  method RorOp(p: Context)
    requires p.Valid() && p.dstValue < Modulus(p.dataType)
    modifies p`flags, p`cells, p`eax, p`edx
    ensures var w, n := p.dataType, Masked(p.dataType, p.srcValue);
            var r := RotateRight(Bits(w), p.dstValue, n);
            && p.Value() == Stored(old(p.Value()), p.destination, w, r)
            && p.flags == RotateFlags(old(p.flags), n, TopOf(w, r), XorBit(TopOf(w, r), SecondOf(w, r)))
  {
    hide Modulus, Half, Pow2, Pack, Shr, Or, Stored, XorBit, TopOf, SecondOf, RotateRight, TopShift, Bits, Masked;
    var w, shift := p.dataType, TopShift(p.dataType);
    var value: u32, count: nat := p.dstValue, Masked(p.dataType, p.srcValue);
    ghost var n, v := count, value;
    RorStart(w, v);
    if count != 0 {
      if count == 1 {
        p.flags := p.flags.(of := XorBit(Shr(value, shift), value % 2));
      }
      var carry: bit := 0;
      while count != 0
        invariant 0 <= count <= n && value < Modulus(w)
        invariant value == RotateRight(Bits(w), v, n - count)
        invariant count < n ==> carry == TopOf(w, value)
        modifies {}
      {
        RorLoop(w, v, n - count);
        carry := value % 2;
        value := Or(carry * Half(w), value / 2);
        count := count - 1;
      }
      p.flags := p.flags.(cf := carry);
    }
    p.StoreResult(value);
  }

  lemma RorStart(w: Width, v: nat)
    requires v < Modulus(w)
    ensures RotateRight(Bits(w), v, 0) == v
    ensures var r := RotateRight(Bits(w), v, 1);
            XorBit(Shr(v, TopShift(w)), v % 2) == XorBit(TopOf(w, r), SecondOf(w, r))
  {
    hide RotateRight, Pow2, Pack, Shr, Modulus, TopShift, Or, Half, TopOf, SecondOf;
    RotatePowers(w);
    RotateZero(Bits(w), v);
    RorStep(w, v);
    TopAfterRight(w, v, v % 2);
  }

  lemma RorLoop(w: Width, v: nat, k: nat)
    requires v < Modulus(w) && k < Bits(w)
    ensures var y := RotateRight(Bits(w), v, k);
            && y < Modulus(w)
            && Or(y % 2 * Half(w), y / 2) == RotateRight(Bits(w), v, k + 1) < Modulus(w)
            && TopOf(w, RotateRight(Bits(w), v, k + 1)) == y % 2
  {
    hide RotateLeft, RotateRight, Pow2, Pack, Modulus, Or, Half, TopOf;
    RotatePowers(w);
    RotateOtherWay(Bits(w), v, k);
    RotateBounded(Bits(w), v, Bits(w) - k);
    var y := RotateRight(Bits(w), v, k);
    RorStep(w, y);
    RotateRightStep(Bits(w), v, k);
    TopAfterRight(w, y, y % 2);
  }

  /** Rotate left through the carry: the carry flag and the value together are
      rotated as one word with one bit more. */
  method RclOp(p: Context)
    requires p.Valid() && p.dstValue < Modulus(p.dataType)
    modifies p`flags, p`cells, p`eax, p`edx
    ensures var w, n := p.dataType, Masked(p.dataType, p.srcValue);
            var x := RotateLeft(Bits(w) + 1, Joint(w, old(p.flags.cf), p.dstValue), n);
            var r := Rest(x, Modulus(w));
            && p.Value() == Stored(old(p.Value()), p.destination, w, r)
            && x == Joint(w, p.flags.cf, r)
            && p.flags == RotateFlags(old(p.flags), n, p.flags.cf, XorBit(p.flags.cf, TopOf(w, r)))
  {
    hide Modulus, Half, Pow2, Shr, Or, Low, Stored, XorBit, TopOf, SecondOf, RotateLeft, TopShift, Bits, Masked, Joint,
         Rest, Pack, High;
    var w, shift := p.dataType, TopShift(p.dataType);
    var value: u32, count: nat := p.dstValue, Masked(p.dataType, p.srcValue);
    var carry: bit := p.flags.cf;
    ghost var n, x := count, Joint(w, carry, value);
    RclStart(w, value, carry);
    if count != 0 {
      if count == 1 {
        p.flags := p.flags.(of := XorBit(Shr(value, shift), SecondOf(w, value)));
      }
      while count != 0
        invariant 0 <= count <= n && value < Modulus(w)
        invariant Joint(w, carry, value) == RotateLeft(Bits(w) + 1, x, n - count)
        modifies {}
      {
        RclLoop(w, x, n - count, value, carry);
        var temp: bit := Shr(value, shift);
        value := Or(Low(w, 2 * value), carry);
        carry := temp;
        count := count - 1;
      }
    }
    JointParts(w, carry, value);
    p.StoreResult(value);
    p.flags := p.flags.(cf := carry);
  }

  lemma JointParts(w: Width, c: bit, v: nat)
    requires v < Modulus(w)
    ensures Rest(Joint(w, c, v), Modulus(w)) == v && High(Joint(w, c, v), Modulus(w)) == c
    ensures Joint(w, c, v) < Pow2(Bits(w) + 1)
  {
    hide Modulus, Pow2;
    PackParts(c, Modulus(w), v);
    RotatePowers(w);
    StepPowers(Bits(w) + 1, 0);
    PackBounded(c, Modulus(w), v, 2, Pow2(Bits(w) + 1));
  }

  /** No step at all, and the overflow flag of one step to the left. */
  lemma RclStart(w: Width, v: nat, c: bit)
    requires v < Modulus(w)
    ensures RotateLeft(Bits(w) + 1, Joint(w, c, v), 0) == Joint(w, c, v) < Pow2(Bits(w) + 1)
    ensures var r := Rest(RotateLeft(Bits(w) + 1, Joint(w, c, v), 1), Modulus(w));
            var c' := High(RotateLeft(Bits(w) + 1, Joint(w, c, v), 1), Modulus(w));
            XorBit(Shr(v, TopShift(w)), SecondOf(w, v)) == XorBit(c', TopOf(w, r))
  {
    hide Pow2, Shr, Low, Modulus, TopShift, Or, Half, TopOf, SecondOf, Joint, RotateLeft, Rest, High, Pack;
    RclStep(w, v, c);
    JointParts(w, Shr(v, TopShift(w)), Or(Low(w, 2 * v), c));
    TopAfterLeft(w, v, c);
    JointParts(w, c, v);
    RotateZero(Bits(w) + 1, Joint(w, c, v));
  }

  lemma RclLoop(w: Width, x: nat, k: nat, v: nat, c: bit)
    requires v < Modulus(w) && k < Bits(w) + 1 && x < Pow2(Bits(w) + 1)
    requires Joint(w, c, v) == RotateLeft(Bits(w) + 1, x, k)
    ensures var t := Shr(v, TopShift(w));
            && t <= 1 && Or(Low(w, 2 * v), c) < Modulus(w)
            && Joint(w, t, Or(Low(w, 2 * v), c)) == RotateLeft(Bits(w) + 1, x, k + 1)
  {
    hide Pow2, Shr, Low, Modulus, TopShift, Or, Joint, RotateLeft, Pack, High, Rest;
    RclStep(w, v, c);
    RotateLeftStep(Bits(w) + 1, x, k);
  }

  /** Rotate right through the carry. */
  method RcrOp(p: Context)
    requires p.Valid() && p.dstValue < Modulus(p.dataType)
    modifies p`flags, p`cells, p`eax, p`edx
    ensures var w, n := p.dataType, Masked(p.dataType, p.srcValue);
            var x := RotateRight(Bits(w) + 1, Joint(w, old(p.flags.cf), p.dstValue), n);
            var r := Rest(x, Modulus(w));
            && p.Value() == Stored(old(p.Value()), p.destination, w, r)
            && x == Joint(w, p.flags.cf, r)
            && p.flags == RotateFlags(old(p.flags), n, p.flags.cf, XorBit(TopOf(w, r), SecondOf(w, r)))
  {
    hide Modulus, Half, Pow2, Shr, Or, Stored, XorBit, TopOf, SecondOf, RotateRight, TopShift, Bits, Masked, Joint,
         Rest, Pack, High;
    var w, shift := p.dataType, TopShift(p.dataType);
    var value: u32, count: nat := p.dstValue, Masked(p.dataType, p.srcValue);
    var carry: bit := p.flags.cf;
    ghost var n, x := count, Joint(w, carry, value);
    RcrStart(w, value, carry);
    if count != 0 {
      if count == 1 {
        p.flags := p.flags.(of := XorBit(Shr(value, shift), carry));
      }
      while count != 0
        invariant 0 <= count <= n && value < Modulus(w)
        invariant Joint(w, carry, value) == RotateRight(Bits(w) + 1, x, n - count)
        modifies {}
      {
        RcrLoop(w, x, n - count, value, carry);
        var temp: bit := value % 2;
        value := Or(carry * Half(w), value / 2);
        carry := temp;
        count := count - 1;
      }
    }
    JointParts(w, carry, value);
    p.StoreResult(value);
    p.flags := p.flags.(cf := carry);
  }

  lemma RcrStart(w: Width, v: nat, c: bit)
    requires v < Modulus(w)
    ensures RotateRight(Bits(w) + 1, Joint(w, c, v), 0) == Joint(w, c, v) < Pow2(Bits(w) + 1)
    ensures var r := Rest(RotateRight(Bits(w) + 1, Joint(w, c, v), 1), Modulus(w));
            XorBit(Shr(v, TopShift(w)), c) == XorBit(TopOf(w, r), SecondOf(w, r))
  {
    hide Pow2, Shr, Modulus, TopShift, Or, Half, TopOf, SecondOf, Joint, RotateRight, Rest, High, Pack;
    RcrStep(w, v, c);
    JointParts(w, v % 2, Or(c * Half(w), v / 2));
    TopAfterRight(w, v, c);
    JointParts(w, c, v);
    RotateZero(Bits(w) + 1, Joint(w, c, v));
  }

  lemma RcrLoop(w: Width, x: nat, k: nat, v: nat, c: bit)
    requires v < Modulus(w) && k < Bits(w) + 1 && x < Pow2(Bits(w) + 1)
    requires Joint(w, c, v) == RotateRight(Bits(w) + 1, x, k)
    ensures var r := Or(c * Half(w), v / 2);
            r < Modulus(w) && Joint(w, v % 2, r) == RotateRight(Bits(w) + 1, x, k + 1)
  {
    hide Pow2, Modulus, Half, Or, Joint, RotateRight, Pack, High, Rest;
    RcrStep(w, v, c);
    RotateRightStep(Bits(w) + 1, x, k);
  }

  /** Rotating left and then right by the same count restores the value, for
      every width and every count. */
  lemma RolRorInvert(w: Width, v: nat, count: u32)
    requires v < Modulus(w)
    ensures var n := Masked(w, count);
            && RotateRight(Bits(w), RotateLeft(Bits(w), v, n), n) == v
            && RotateLeft(Bits(w), RotateRight(Bits(w), v, n), n) == v
  {
    hide Pow2, Modulus, RotateLeft, RotateRight, Masked;
    RotatePowers(w);
    RotateRightUndoesLeft(Bits(w), v, Masked(w, count));
    RotateLeftUndoesRight(Bits(w), v, Masked(w, count));
  }

  /** Rotating left and then right through the carry by the same count restores
      the value and the carry flag, and the other way round. */
  lemma RclRcrInvert(w: Width, v: nat, c: bit, count: u32)
    requires v < Modulus(w)
    ensures var n, x := Masked(w, count), Joint(w, c, v);
            && RotateRight(Bits(w) + 1, RotateLeft(Bits(w) + 1, x, n), n) == x
            && RotateLeft(Bits(w) + 1, RotateRight(Bits(w) + 1, x, n), n) == x
            && Rest(x, Modulus(w)) == v && High(x, Modulus(w)) == c
  {
    hide Pow2, Modulus, RotateLeft, RotateRight, Masked, Joint, High, Rest;
    JointParts(w, c, v);
    RotateRightUndoesLeft(Bits(w) + 1, Joint(w, c, v), Masked(w, count));
    RotateLeftUndoesRight(Bits(w) + 1, Joint(w, c, v), Masked(w, count));
  }

  /** The low field of one word above the high field of another. */
  function Funnel(h: nat, l: nat, p: nat, q: nat): nat
    requires q > 0
  {
    Pack(Rest(h, q), p, High(l, q))
  }

  /** A word times a power of two. */
  lemma ScaledFields(h: nat, p: nat, q: nat, m: nat)
    requires p > 0 && q > 0 && m == q * p
    ensures Rest(h, q) * p < m
    ensures h * p == Pack(High(h, q), m, Rest(h, q) * p)
    ensures High(h * p, m) == High(h, q) && Rest(h * p, m) == Rest(h, q) * p
  {
    var a, b := High(h, q), Rest(h, q);
    Unpack(h, q);
    PackNested(a, q, b, p, 0, m);
    PackBounded(b, p, 0, q, m);
    PackParts(a, m, b * p);
  }

  /** The high half of a double word shifted left: the low half of the upper word
      and the high field of the lower one. */
  lemma DoubleLeft(h: nat, l: nat, p: nat, q: nat, m: nat)
    requires p > 0 && q > 0 && m == q * p && l < m
    ensures Pack(h, m, l) * p == Pack(h * p + High(l, q), m, Rest(l, q) * p)
    ensures Rest(High(Pack(h, m, l) * p, m), m) == Funnel(h, l, p, q) < m
  {
    ScaledFields(l, p, q, m);
    var x := h * p + High(l, q);
    Distribute(h, m, l, p);
    Regroup(h * p, High(l, q), m, Rest(l, q) * p);
    PackParts(x, m, Rest(l, q) * p);
    assert Pack(h, m, l) * p == Pack(x, m, Rest(l, q) * p);
    FunnelRest(h, l, p, q, m);
  }

  lemma Distribute(h: nat, m: nat, l: nat, p: nat)
    ensures Pack(h, m, l) * p == h * p * m + l * p
  {
    assert (h * m + l) * p == h * m * p + l * p;
    assert h * m * p == h * p * m;
  }

  lemma Regroup(a: nat, b: nat, m: nat, c: nat)
    ensures a * m + Pack(b, m, c) == Pack(a + b, m, c)
  {
    assert (a + b) * m == a * m + b * m;
  }

  lemma FunnelRest(h: nat, l: nat, p: nat, q: nat, m: nat)
    requires p > 0 && q > 0 && m == q * p && l < m
    ensures Rest(h * p + High(l, q), m) == Funnel(h, l, p, q) < m
  {
    ScaledFields(h, p, q, m);
    HighBounded(l, q, p);
    var a, b, t := High(h, q), Rest(h, q), High(l, q);
    PackBounded(b, p, t, q, m);
    assert h * p + t == Pack(a, m, Pack(b, p, t));
    PackParts(a, m, Pack(b, p, t));
  }

  /** The low half of a double word shifted right. */
  lemma DoubleRight(h: nat, l: nat, p: nat, q: nat, m: nat)
    requires p > 0 && q > 0 && m == q * p && l < m
    ensures Rest(High(Pack(h, m, l), p), m) == Funnel(h, l, q, p) < m
  {
    hide Pack, High, Rest;
    var a, b := High(l, p), Rest(l, p);
    Unpack(l, p);
    PackNested(h, q, a, p, b, m);
    PackParts(Pack(h, q, a), p, b);
    FunnelRest(h, l, q, p, m);
    assert Pack(h, q, a) == h * q + a by { PackValue(h, q, a); }
  }

  lemma PackValue(h: nat, q: nat, a: nat)
    ensures Pack(h, q, a) == h * q + a
  {
  }

  /** The powers of a double shift. */
  lemma ShiftPowers(w: Width, c: nat)
    requires c <= Bits(w)
    ensures Modulus(w) == Pow2(Bits(w) - c) * Pow2(c)
  {
    hide Pow2, Modulus;
    RotatePowers(w);
    PowSum(Bits(w) - c, c);
  }

  /** Or-ing the two shifted words and keeping the low bits. */
  lemma FunnelCode(w: Width, h: nat, l: nat, c: nat)
    requires !w.Byte? && 0 < c < Bits(w) && h < Modulus(w) && l < Modulus(w)
    ensures Low(w, Or(Low(Long, h * Pow2(c)), Shr(l, Bits(w) - c))) == Funnel(h, l, Pow2(c), Pow2(Bits(w) - c))
  {
    hide Pow2, Shr, Pack, High, Or, Low;
    var p, q, m := Pow2(c), Pow2(Bits(w) - c), Modulus(w);
    ShiftPowers(w, c);
    ShrValue(l, Bits(w) - c);
    HighBounded(l, q, p);
    FunnelRest(h, l, p, q, m);
    var t := High(l, q);
    if w.Long? {
      ScaledFields(h, p, q, m);
      LowIsRest(Long, h * p);
      OrDisjoint(Rest(h, q), c, t);
      PackValue(Rest(h, q), p, t);
    } else {
      WordFits(h, c);
      OrDisjoint(h, c, t);
      LowIsRest(Word, h * p + t);
    }
  }

  lemma ShrValue(l: nat, k: nat)
    ensures Shr(l, k) == High(l, Pow2(k))
  {
    ShrIsDivision(l, k);
  }

  lemma LowIsRest(w: Width, x: nat)
    ensures Low(w, x) == Rest(x, Modulus(w))
  {
  }

  lemma {:induction false} PowGrows(a: nat, b: nat)
    requires a <= b
    ensures Pow2(a) <= Pow2(b)
  {
    if a < b {
      PowGrows(a, b - 1);
    }
  }

  /** A word shifted by less than its width fits into a long. */
  lemma WordFits(h: nat, c: nat)
    requires h < 0x1_0000 && c < 16
    ensures h * Pow2(c) < TWO_32
  {
    Pow2Values();
    hide Pow2;
    PowGrows(c, 16);
    ProductFits(h, Pow2(c));
  }

  lemma ProductFits(h: nat, p: nat)
    requires h < 0x1_0000 && p <= 0x1_0000
    ensures h * p < TWO_32
  {
    assert h * (0x1_0000 - p) >= 0;
  }

  /** The bit that a double shift by one compares with the sign. */
  lemma ShiftedSign(w: Width, h: nat)
    requires !w.Byte? && h < Modulus(w)
    ensures Shr(Low(Long, 2 * h), TopShift(w)) % 2 == SecondOf(w, h)
  {
    if w.Long? {
      TopField(w, h);
      SecondBit(w, h);
      HalfOfDouble(Rest(h, Half(w)), TopShift(w));
    } else {
      HalfOfDouble(h, TopShift(w));
    }
  }

  lemma HalfOfDouble(l: nat, k: nat)
    requires k > 0
    ensures Shr(2 * l, k) == Shr(l, k - 1)
  {
    assert 2 * l / 2 == l;
  }

  /** The flags after a double shift: the last bit shifted out, the parity, zero
      and sign of the result, and for a shift by one whether the sign changed. */
  function DoubleFlags(w: Width, was: Flags, count: nat, cf: bit, dst: nat, r: nat): Flags {
    Flags(cf, EvenOnes(r), was.af, Flag(r == 0), TopOf(w, r),
          if count == 1 then XorBit(TopOf(w, dst), TopOf(w, r)) else was.of)
  }

  /** Double shift left: the result is the high half of the destination and the
      source shifted left together. */
  method ShldOp(p: Context)
    requires p.Valid() && !p.dataType.Byte? && p.shift < Bits(p.dataType)
    requires p.dstValue < Modulus(p.dataType) && p.srcValue < Modulus(p.dataType)
    modifies p`flags, p`cells, p`eax, p`edx
    ensures var w, n, m := p.dataType, p.shift, Modulus(p.dataType);
            var double := Pack(p.dstValue, m, p.srcValue) * Pow2(n);
            var r := Rest(High(double, m), m);
            && p.Value() == Stored(old(p.Value()), p.destination, w, r)
            && p.flags == if n == 0 then old(p.flags)
                          else DoubleFlags(w, old(p.flags), n, High(p.dstValue * Pow2(n), m) % 2, p.dstValue, r)
  {
    hide Modulus, Low, Shr, Or, Pow2, Pack, Rest, High, Stored, EvenOnes, XorBit, Xor, TopOf, SecondOf, TopShift;
    var w, low, high, count := p.dataType, p.srcValue, p.dstValue, p.shift;
    if count != 0 {
      ShldFacts(w, high, low, count);
      if count == 1 {
        p.flags := p.flags.(of := Shr(Xor(high, Low(Long, 2 * high)), TopShift(w)) % 2);
      }
      var carry := Shr(high, Bits(w) - count) % 2;
      high := Low(w, Or(Low(Long, high * Pow2(count)), Shr(low, Bits(w) - count)));
      var sign := Shr(high, TopShift(w)) % 2;
      TopBit(w, high);
      var parity := ComputeParity(high);
      p.flags := p.flags.(cf := carry, pf := parity, zf := Flag(high == 0), sf := sign);
    } else {
      ShiftByNone(w, high, low);
    }
    p.StoreResult(high);
  }

  lemma ShldFacts(w: Width, h: nat, l: nat, c: nat)
    requires !w.Byte? && 0 < c < Bits(w) && h < Modulus(w) && l < Modulus(w)
    ensures var m := Modulus(w);
            var r := Rest(High(Pack(h, m, l) * Pow2(c), m), m);
            && r == Low(w, Or(Low(Long, h * Pow2(c)), Shr(l, Bits(w) - c)))
            && High(h * Pow2(c), m) == Shr(h, Bits(w) - c)
            && (c == 1 ==> Shr(Xor(h, Low(Long, 2 * h)), TopShift(w)) % 2 == XorBit(TopOf(w, h), TopOf(w, r)))
  {
    hide Modulus, Low, Shr, Or, Pow2, Pack, Rest, High, XorBit, Xor, TopOf, SecondOf, TopShift, Half;
    var p, q, m := Pow2(c), Pow2(Bits(w) - c), Modulus(w);
    ShiftPowers(w, c);
    DoubleLeft(h, l, p, q, m);
    FunnelCode(w, h, l, c);
    ShrValue(h, Bits(w) - c);
    ScaledFields(h, p, q, m);
    if c == 1 {
      ShldSign(w, h, l);
    }
  }

  lemma ShldSign(w: Width, h: nat, l: nat)
    requires !w.Byte? && h < Modulus(w) && l < Modulus(w)
    ensures Shr(Xor(h, Low(Long, 2 * h)), TopShift(w)) % 2
         == XorBit(TopOf(w, h), TopOf(w, Funnel(h, l, Pow2(1), Pow2(Bits(w) - 1))))
  {
    hide Modulus, Low, Shr, Pow2, Pack, Rest, High, Xor, TopOf, SecondOf, TopShift, Half, XorBit;
    RotatePowers(w);
    HighBounded(l, Half(w), 2);
    TopAfterLeft(w, h, High(l, Half(w)));
    ShiftedSign(w, h);
    TopBit(w, h);
    XorShift(h, Low(Long, 2 * h), TopShift(w));
    XorParity(Shr(h, TopShift(w)), TopOf(w, h), SecondOf(w, h), Shr(Low(Long, 2 * h), TopShift(w)));
  }

  lemma ShiftByNone(w: Width, h: nat, l: nat)
    requires h < Modulus(w) && l < Modulus(w)
    ensures var m := Modulus(w);
            && Rest(High(Pack(h, m, l) * Pow2(0), m), m) == h
            && Rest(High(Pack(l, m, h), Pow2(0)), m) == h
  {
    hide Modulus;
    var m := Modulus(w);
    assert Pow2(0) == 1;
    PackParts(h, m, l);
    PackParts(l, m, h);
    assert Pack(h, m, l) * 1 == Pack(h, m, l) && High(Pack(l, m, h), 1) == Pack(l, m, h);
    PackParts(0, m, h);
  }

  /** Double shift right: the result is the low half of the source and the
      destination shifted right together. */
  method ShrdOp(p: Context)
    requires p.Valid() && !p.dataType.Byte? && p.shift < Bits(p.dataType)
    requires p.dstValue < Modulus(p.dataType) && p.srcValue < Modulus(p.dataType)
    modifies p`flags, p`cells, p`eax, p`edx
    ensures var w, n, m := p.dataType, p.shift, Modulus(p.dataType);
            var double := Pack(p.srcValue, m, p.dstValue);
            var r := Rest(High(double, Pow2(n)), m);
            && p.Value() == Stored(old(p.Value()), p.destination, w, r)
            && p.flags == if n == 0 then old(p.flags)
                          else DoubleFlags(w, old(p.flags), n, High(double, Pow2(n - 1)) % 2, p.dstValue, r)
  {
    hide Modulus, Low, Shr, Or, Pow2, Pack, Rest, High, Stored, EvenOnes, XorBit, TopOf, TopShift;
    var w, high, low, count := p.dataType, p.srcValue, p.dstValue, p.shift;
    if count != 0 {
      ShrdFacts(w, high, low, count);
      if count == 1 {
        p.flags := p.flags.(of := XorBit(high, Shr(low, TopShift(w))));
      }
      var carry := Shr(low, count - 1) % 2;
      low := Low(w, Or(Low(Long, high * Pow2(Bits(w) - count)), Shr(low, count)));
      var sign := Shr(low, TopShift(w)) % 2;
      TopBit(w, low);
      var parity := ComputeParity(low);
      p.flags := p.flags.(cf := carry, pf := parity, zf := Flag(low == 0), sf := sign);
    } else {
      ShiftByNone(w, low, high);
    }
    p.StoreResult(low);
  }

  lemma ShrdFacts(w: Width, h: nat, l: nat, c: nat)
    requires !w.Byte? && 0 < c < Bits(w) && h < Modulus(w) && l < Modulus(w)
    ensures var m := Modulus(w);
            var r := Rest(High(Pack(h, m, l), Pow2(c)), m);
            && r == Low(w, Or(Low(Long, h * Pow2(Bits(w) - c)), Shr(l, c)))
            && High(Pack(h, m, l), Pow2(c - 1)) % 2 == Shr(l, c - 1) % 2
            && (c == 1 ==> XorBit(h, Shr(l, TopShift(w))) == XorBit(TopOf(w, l), TopOf(w, r)))
  {
    hide Modulus, Low, Shr, Or, Pow2, Pack, Rest, High, XorBit, TopOf, TopShift, Half;
    var p, q, m := Pow2(c), Pow2(Bits(w) - c), Modulus(w);
    ShiftPowers(w, c);
    DoubleRight(h, l, p, q, m);
    FunnelCode(w, h, l, Bits(w) - c);
    assert Bits(w) - (Bits(w) - c) == c;
    LowBitOfDouble(w, h, l, c - 1);
    if c == 1 {
      ShrdSign(w, h, l);
    }
  }

  /** A bit of a double word below its middle is a bit of the low word. */
  lemma LowBitOfDouble(w: Width, h: nat, l: nat, k: nat)
    requires k < Bits(w) && l < Modulus(w)
    ensures High(Pack(h, Modulus(w), l), Pow2(k)) % 2 == Shr(l, k) % 2
  {
    hide Modulus, Shr, Pow2, Pack, Rest, High;
    var p, q, m := Pow2(k), Pow2(Bits(w) - k), Modulus(w);
    ShiftPowers(w, k);
    ShrValue(l, k);
    Unpack(l, p);
    PackNested(h, q, High(l, p), p, Rest(l, p), m);
    PackParts(Pack(h, q, High(l, p)), p, Rest(l, p));
    EvenScale(h, Pow2(Bits(w) - k - 1), High(l, p));
    StepPowers(Bits(w) - k, 0);
  }

  lemma EvenScale(h: nat, q: nat, a: nat)
    ensures Pack(h, 2 * q, a) % 2 == a % 2
  {
    assert Pack(h, 2 * q, a) == 2 * (h * q) + a;
  }

  lemma ShrdSign(w: Width, h: nat, l: nat)
    requires h < Modulus(w) && l < Modulus(w)
    ensures XorBit(h, Shr(l, TopShift(w)))
         == XorBit(TopOf(w, l), TopOf(w, Funnel(h, l, Pow2(Bits(w) - 1), Pow2(1))))
  {
    hide Modulus, Low, Shr, Pow2, Pack, TopOf, TopShift, Half, XorBit;
    RotatePowers(w);
    TopAfterRight(w, l, h % 2);
    TopBit(w, l);
    XorParity(h, h % 2, TopOf(w, l), Shr(l, TopShift(w)));
    XorSwaps(h % 2, TopOf(w, l));
  }

  lemma XorSwaps(a: bit, b: bit)
    ensures XorBit(a, b) == XorBit(b, a)
  {
  }
}
