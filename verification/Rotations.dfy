/** Words as pairs of bit fields, and rotations of words of any number of bits in
    closed form. */
module Rotations {
  import opened Words

  /** A field h above a field l of a power of two p. */
  function Pack(h: nat, p: nat, l: nat): nat {
    h * p + l
  }

  function High(x: nat, p: nat): nat
    requires p > 0
  {
    x / p
  }

  function Rest(x: nat, p: nat): (r: nat)
    requires p > 0
    ensures r < p
  {
    x % p
  }

  lemma PackParts(h: nat, p: nat, l: nat)
    requires l < p
    ensures High(Pack(h, p, l), p) == h && Rest(Pack(h, p, l), p) == l
  {
    QuotientRemainder(h * p + l, p, h, l);
  }

  lemma Unpack(x: nat, p: nat)
    requires p > 0
    ensures x == Pack(High(x, p), p, Rest(x, p))
  {
  }

  lemma PackBounded(h: nat, p: nat, l: nat, q: nat, r: nat)
    requires h < q && l < p && r == q * p
    ensures Pack(h, p, l) < r
  {
    var d := q - h - 1;
    assert r == d * p + h * p + p by { assert (d + h + 1) * p == d * p + h * p + p; }
  }

  lemma HighBounded(x: nat, p: nat, q: nat)
    requires p > 0 && x < q * p
    ensures High(x, p) < q
  {
    var h := x / p;
    assert h * p == (h - q) * p + q * p;
    assert h >= q ==> (h - q) * p >= 0;
  }

  /** A bit moves from the top of the low field to the bottom of the high one. */
  lemma PackShiftUp(h: nat, q: nat, t: nat, l: nat)
    ensures Pack(h, 2 * q, Pack(t, q, l)) == Pack(Pack(h, 2, t), q, l)
  {
    assert h * (2 * q) + (t * q + l) == (h * 2 + t) * q + l;
  }

  lemma PackNested(t: nat, q: nat, l: nat, p: nat, h: nat, r: nat)
    requires r == q * p
    ensures Pack(Pack(t, q, l), p, h) == Pack(t, r, Pack(l, p, h))
  {
    var v := t * q;
    assert (v + l) * p == v * p + l * p;
    assert v * p == t * (q * p);
  }

  lemma PackDouble(l: nat, p: nat, h: nat, t: nat)
    ensures Pack(Pack(l, p, h), 2, t) == Pack(l, 2 * p, Pack(h, 2, t))
  {
    assert (l * p + h) * 2 + t == l * (2 * p) + (h * 2 + t);
  }

  lemma {:induction false} PowSum(a: nat, b: nat)
    ensures Pow2(a + b) == Pow2(a) * Pow2(b)
  {
    if a > 0 {
      PowSum(a - 1, b);
      PowStep(Pow2(a - 1), Pow2(b));
    }
  }

  lemma PowStep(p: nat, q: nat)
    ensures 2 * (p * q) == (2 * p) * q
  {
  }

  /** The low n - k bits move up by k, the high k bits come in below them. */
  function RotateLeft(n: nat, x: nat, k: nat): nat
    requires k <= n
  {
    Pack(Rest(x, Pow2(n - k)), Pow2(k), High(x, Pow2(n - k)))
  }

  /** The high n - k bits move down by k, the low k bits come in above them. */
  function RotateRight(n: nat, x: nat, k: nat): nat
    requires k <= n
  {
    Pack(Rest(x, Pow2(k)), Pow2(n - k), High(x, Pow2(k)))
  }

  lemma RotateOtherWay(n: nat, x: nat, k: nat)
    requires k <= n
    ensures RotateRight(n, x, k) == RotateLeft(n, x, n - k)
  {
    hide Pack, High, Rest, Pow2;
    assert n - (n - k) == k;
  }

  /** A word splits into two fields. */
  lemma SplitBounded(n: nat, k: nat, x: nat)
    requires k <= n && x < Pow2(n)
    ensures High(x, Pow2(n - k)) < Pow2(k)
  {
    hide High, Pow2;
    PowSum(k, n - k);
    HighBounded(x, Pow2(n - k), Pow2(k));
  }

  lemma JoinBounded(n: nat, k: nat, h: nat, l: nat)
    requires k <= n && h < Pow2(n - k) && l < Pow2(k)
    ensures Pack(h, Pow2(k), l) < Pow2(n)
  {
    hide Pack, Pow2;
    PowSum(n - k, k);
    PackBounded(h, Pow2(k), l, Pow2(n - k), Pow2(n));
  }

  lemma RotateBounded(n: nat, x: nat, k: nat)
    requires k <= n && x < Pow2(n)
    ensures RotateLeft(n, x, k) < Pow2(n)
  {
    hide Pack, High, Rest, Pow2;
    SplitBounded(n, k, x);
    JoinBounded(n, k, Rest(x, Pow2(n - k)), High(x, Pow2(n - k)));
  }

  /** A rotation is undone by the rotation the other way. */
  lemma RotateRightUndoesLeft(n: nat, x: nat, k: nat)
    requires k <= n && x < Pow2(n)
    ensures RotateRight(n, RotateLeft(n, x, k), k) == x
  {
    hide Pack, High, Rest, Pow2;
    SplitBounded(n, k, x);
    PackParts(Rest(x, Pow2(n - k)), Pow2(k), High(x, Pow2(n - k)));
    Unpack(x, Pow2(n - k));
  }

  lemma RotateLeftUndoesRight(n: nat, x: nat, k: nat)
    requires k <= n && x < Pow2(n)
    ensures RotateLeft(n, RotateRight(n, x, k), k) == x
  {
    hide Pack, High, Rest, Pow2;
    RotateOtherWay(n, x, k);
    RotateRightUndoesLeft(n, x, n - k);
    RotateOtherWay(n, RotateLeft(n, x, n - k), n - k);
    assert n - (n - k) == k;
  }

  /** The fields of a word before and after one more step to the left. */
  lemma StepFields(x: nat, q: nat, p: nat, r: nat)
    requires q > 0 && r == q * p && r > 0 && High(x, 2 * q) < p
    ensures var h, u := High(x, 2 * q), Rest(x, 2 * q);
            Pack(Rest(Pack(u, p, h), r), 2, High(Pack(u, p, h), r)) == Pack(Rest(x, q), 2 * p, High(x, q))
  {
    hide Pack, High, Rest;
    var h, u := High(x, 2 * q), Rest(x, 2 * q);
    var t, l := High(u, q), Rest(u, q);
    PackNested(t, q, l, p, h, r);
    PackBounded(l, p, h, q, r);
    PackParts(t, r, Pack(l, p, h));
    Unpack(u, q);
    PackDouble(l, p, h, t);
    Unpack(x, 2 * q);
    PackShiftUp(h, q, t, l);
    PackParts(Pack(h, 2, t), q, l);
  }

  /** Rotating by one more is rotating once more by one. */
  lemma RotateLeftStep(n: nat, x: nat, k: nat)
    requires k < n && x < Pow2(n)
    ensures RotateLeft(n, RotateLeft(n, x, k), 1) == RotateLeft(n, x, k + 1)
  {
    hide Pack, High, Rest, Pow2;
    SplitBounded(n, k, x);
    StepPowers(n, k);
    StepFields(x, Pow2(n - k - 1), Pow2(k), Pow2(n - 1));
  }

  lemma StepPowers(n: nat, k: nat)
    requires k < n
    ensures Pow2(n - k) == 2 * Pow2(n - k - 1) && Pow2(k + 1) == 2 * Pow2(k) && Pow2(1) == 2
    ensures Pow2(n - 1) == Pow2(n - k - 1) * Pow2(k)
  {
    PowSum(n - k - 1, k);
  }

  lemma RotateRightStep(n: nat, x: nat, k: nat)
    requires k < n && x < Pow2(n)
    ensures RotateRight(n, RotateRight(n, x, k), 1) == RotateRight(n, x, k + 1)
  {
    hide RotateLeft, RotateRight, Pow2;
    var z := RotateLeft(n, x, n - k - 1);
    RotateBounded(n, x, n - k - 1);
    RotateLeftStep(n, x, n - k - 1);
    RotateRightUndoesLeft(n, z, 1);
    RotateOtherWay(n, x, k);
    RotateOtherWay(n, x, k + 1);
  }
}
