/** The state of the x86 emulator (hals/x86new) that its arithmetic works on:
    the operand values, the flags, where the result goes. */
module X86Context {
  import opened Words

  type bit = x: int | 0 <= x <= 1

  datatype Width = Byte | Word | Long

  function Bits(w: Width): nat {
    match w { case Byte => 8 case Word => 16 case Long => 32 }
  }

  /** The number of the top bit. */
  function TopShift(w: Width): nat {
    match w { case Byte => 7 case Word => 15 case Long => 31 }
  }

  /** One more than the largest value of a width. */
  function Modulus(w: Width): (m: nat)
    ensures 0 < m <= TWO_32
  {
    match w { case Byte => 0x100 case Word => 0x1_0000 case Long => TWO_32 }
  }

  /** The smallest value with the top bit. */
  function Half(w: Width): (h: nat)
    ensures h > 0 && Modulus(w) == 2 * h
  {
    match w { case Byte => 0x80 case Word => 0x8000 case Long => TWO_31 }
  }

  lemma ModulusIsPower(w: Width)
    ensures Modulus(w) == Pow2(Bits(w)) && Half(w) == Pow2(TopShift(w))
  {
    Pow2Values();
  }

  /** The low bits of a value. */
  function Low(w: Width, x: nat): (r: nat)
    ensures r < Modulus(w)
    ensures x < Modulus(w) ==> r == x
  {
    x % Modulus(w)
  }

  /** The signed value of the low bits. */
  function Signed(w: Width, x: nat): int {
    if Low(w, x) < Half(w) then Low(w, x) else Low(w, x) - Modulus(w)
  }

  predicate SignedFits(w: Width, x: int) {
    -(Half(w) as int) <= x < Half(w)
  }

  /** The low bit of an exclusive or. */
  function XorBit(a: nat, b: nat): bit {
    if a % 2 == b % 2 then 0 else 1
  }

  function Xor(a: nat, b: nat): nat
    decreases a + b
  {
    if a == 0 then b
    else if b == 0 then a
    else 2 * Xor(a / 2, b / 2) + XorBit(a, b)
  }

  /** A value shifted right. */
  function Shr(a: nat, k: nat): nat {
    if k == 0 then a else Shr(a / 2, k - 1)
  }

  lemma {:induction false} ShrIsDivision(a: nat, k: nat)
    ensures Shr(a, k) == a / Pow2(k)
  {
    if k > 0 {
      ShrIsDivision(a / 2, k - 1);
      DivideTwice(a, Pow2(k - 1));
    }
  }

  lemma DivideTwice(a: nat, p: nat)
    requires p > 0
    ensures a / 2 / p == a / (2 * p)
  {
    var q, r := a / 2 / p, a / 2 % p;
    assert a / 2 == q * p + r;
    assert a == q * (2 * p) + (2 * r + a % 2);
    QuotientRemainder(a, 2 * p, q, 2 * r + a % 2);
  }

  lemma XorHalf(a: nat, b: nat)
    ensures Xor(a, b) / 2 == Xor(a / 2, b / 2)
    ensures Xor(a, b) % 2 == XorBit(a, b)
  {
  }

  lemma {:induction false} XorShr(a: nat, b: nat, k: nat)
    ensures Shr(Xor(a, b), k) == Xor(Shr(a, k), Shr(b, k))
  {
    hide Xor;
    if k > 0 {
      XorHalf(a, b);
      XorShr(a / 2, b / 2, k - 1);
    }
  }

  /** A bit of an exclusive or is the exclusive or of the bits. */
  lemma XorShift(a: nat, b: nat, k: nat)
    ensures Shr(Xor(a, b), k) % 2 == XorBit(Shr(a, k), Shr(b, k))
  {
    hide Xor, Shr, XorBit;
    XorShr(a, b, k);
    XorHalf(Shr(a, k), Shr(b, k));
  }

  /** How many bits are one. */
  function Ones(x: nat): nat {
    if x == 0 then 0 else x % 2 + Ones(x / 2)
  }

  /** Whether the low byte has an even number of ones. */
  function EvenOnes(x: nat): bit {
    1 - Ones(x % 0x100) % 2
  }

  /** The table of bit counts. */
  function BitCount(x: nat): nat
    requires x < 16
  {
    [0, 1, 1, 2, 1, 2, 2, 3, 1, 2, 2, 3, 2, 3, 3, 4][x]
  }

  lemma SmallOnes()
    ensures Ones(0) == 0 && Ones(1) == 1 && Ones(2) == 1 && Ones(3) == 2
    ensures Ones(4) == 1 && Ones(5) == 2 && Ones(6) == 2 && Ones(7) == 3
  {
    assert Ones(1) == 1;
    assert Ones(2) == 1 && Ones(3) == 2;
  }

  lemma NibbleOnes(x: nat)
    requires x < 16
    ensures BitCount(x) == Ones(x)
  {
    SmallOnes();
    OnesDouble(x / 2, x % 2);
    hide Ones;
    assert x / 2 < 8 && x == 2 * (x / 2) + x % 2;
  }

  lemma ByteNibbles(x: nat)
    ensures x % 0x100 == x / 16 % 16 * 16 + x % 16
  {
    var y := x / 16;
    assert x == y / 16 * 0x100 + (y % 16 * 16 + x % 16);
    QuotientRemainder(x, 0x100, y / 16, y % 16 * 16 + x % 16);
  }

  lemma OnesDouble(h: nat, b: bit)
    ensures Ones(2 * h + b) == Ones(h) + b
  {
  }

  /** The ones of two fields beside each other. */
  lemma {:induction false} OnesSplit(h: nat, k: nat, l: nat)
    requires l < Pow2(k)
    ensures Ones(h * Pow2(k) + l) == Ones(h) + Ones(l)
  {
    assert Ones(0) == 0;
    hide Ones;
    if k == 0 {
      assert h * Pow2(0) + l == h;
    } else {
      var p := Pow2(k - 1);
      var x := h * p + l / 2;
      DoubleProduct(h, p);
      assert h * Pow2(k) + l == 2 * x + l % 2;
      OnesDouble(x, l % 2);
      OnesDouble(l / 2, l % 2);
      OnesSplit(h, k - 1, l / 2);
    }
  }

  /** The table look-up computes the parity of the low byte. */
  method ComputeParity(result: nat) returns (r: bit)
    ensures r == EvenOnes(result)
  {
    hide Ones, BitCount;
    var low, high := result % 16, result / 16 % 16;
    var count := BitCount(low);
    count := count + BitCount(high);
    r := if count % 2 == 0 then 1 else 0;
    NibbleOnes(low);
    NibbleOnes(high);
    assert Pow2(4) == 16;
    OnesSplit(high, 4, low);
    ByteNibbles(result);
  }

  datatype Flags = Flags(cf: bit, pf: bit, af: bit, zf: bit, sf: bit, of: bit)

  /** The operations that the arithmetic tells apart. */
  datatype Function = AddIndex | AdcIndex | SubIndex | SbbIndex | CmpIndex | CmpxchgIndex | IncIndex | DecIndex | NegIndex
                    | OtherIndex

  /** Where a result goes: a place in memory, the accumulator, the data
      register, or the second byte of the accumulator. */
  datatype Destination = Cell(index: nat) | Eax | Edx | Ah

  /** A place after its low bits are overwritten. */
  function Merge(w: Width, place: u32, value: nat): (r: u32)
    ensures Low(w, r) == Low(w, value)
    ensures r / Modulus(w) == place / Modulus(w)
  {
    var r := place / Modulus(w) * Modulus(w) + Low(w, value);
    assert r / Modulus(w) == place / Modulus(w) && r % Modulus(w) == Low(w, value) by {
      QuotientRemainder(r, Modulus(w), place / Modulus(w), Low(w, value));
    }
    r
  }

  /** The places a result can go to. */
  datatype Places = Places(cells: seq<u32>, eax: u32, edx: u32)

  /** A destination is a place of its width. */
  predicate Addressed(l: Places, d: Destination, w: Width) {
    && (d.Cell? ==> d.index < |l.cells|)
    && (d.Ah? ==> w.Byte?)
  }

  /** The places after the low bits of a result are stored. */
  function Stored(l: Places, d: Destination, w: Width, result: nat): Places
    requires Addressed(l, d, w)
  {
    match d {
      case Cell(i) => l.(cells := l.cells[i := Merge(w, l.cells[i], result)])
      case Eax => l.(eax := Merge(w, l.eax, result))
      case Edx => l.(edx := Merge(w, l.edx, result))
      case Ah => l.(eax := Merge(Word, l.eax, result % 0x100 * 0x100 + l.eax % 0x100))
    }
  }

  class Context {
    var dataType: Width
    var functionIndex: Function
    var srcValue: u32
    var dstValue: u32
    var shift: u32
    var flags: Flags
    var eip: u32
    var eax: u32
    var edx: u32
    var cells: seq<u32>
    var destination: Destination

    ghost function Value(): Places
      reads this
    {
      Places(cells, eax, edx)
    }

    constructor (cells: seq<u32>, eax: u32, edx: u32, eip: u32, flags: Flags)
      ensures Value() == Places(cells, eax, edx) && this.eip == eip && this.flags == flags
    {
      this.cells, this.eax, this.edx, this.eip, this.flags := cells, eax, edx, eip, flags;
      dataType, functionIndex, srcValue, dstValue, shift, destination := Byte, OtherIndex, 0, 0, 0, Eax;
    }

    ghost predicate Valid()
      reads this
    {
      Addressed(Value(), destination, dataType)
    }

    /** The low bits of the result are stored, and nothing else changes. */
    method StoreResult(result: u32)
      requires Valid()
      modifies `cells, `eax, `edx
      ensures Value() == Stored(old(Value()), destination, dataType, result)
    {
      match destination {
        case Cell(i) => cells := cells[i := Merge(dataType, cells[i], result)];
        case Eax => eax := Merge(dataType, eax, result);
        case Edx => edx := Merge(dataType, edx, result);
        case Ah => eax := Merge(Word, eax, result % 0x100 * 0x100 + eax % 0x100);
      }
    }
  }
}
