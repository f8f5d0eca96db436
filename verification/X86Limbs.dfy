/** Numbers of any length in limbs of one width: a chain of additions or
    subtractions with carry, with increments and decrements of other places
    between its steps (hals/x86new/addops.c). */
module X86Limbs {
  import opened Words
  import opened X86Context
  import opened X86Arith

  /** One instruction on places in memory: a limb of the chain, with or without
      the carry of the one before, or a counter. */
  datatype Step = Limb(dst: nat, src: nat, chained: bool) | Inc(dst: nat) | Dec(dst: nat)

  datatype State = State(cells: seq<u32>, flags: Flags)

  predicate InMemory(p: seq<Step>, size: nat) {
    forall s | s in p :: s.dst < size && (s.Limb? ==> s.src < size)
  }

  function Counted(w: Width, m: State, i: nat, o: Outcome): State
    requires i < |m.cells|
  {
    State(m.cells[i := Merge(w, m.cells[i], o.result)], o.flags.(cf := m.flags.cf))
  }

  /** What one instruction does to the memory and the flags. */
  function Execute(w: Width, subtract: bool, s: Step, m: State): (r: State)
    requires InMemory([s], |m.cells|)
    ensures |r.cells| == |m.cells|
  {
    assert s in [s];
    match s {
      case Limb(d, i, chained) =>
        var c := if chained then m.flags.cf else 0;
        var o := if subtract then Difference(w, m.cells[i], m.cells[d], c) else Sum(w, m.cells[i], m.cells[d], c);
        State(m.cells[d := Merge(w, m.cells[d], o.result)], o.flags)
      case Inc(d) => Counted(w, m, d, Sum(w, 1, m.cells[d], 0))
      case Dec(d) => Counted(w, m, d, Difference(w, 1, m.cells[d], 0))
    }
  }

  function Run(w: Width, subtract: bool, p: seq<Step>, m: State): (r: State)
    requires InMemory(p, |m.cells|)
    ensures |r.cells| == |m.cells|
  {
    if p == [] then m
    else
      assert p[0] in p;
      Run(w, subtract, p[1..], Execute(w, subtract, p[0], m))
  }

  /** The places of the limbs of the first and the second number, lowest first. */
  function Dsts(p: seq<Step>): seq<nat> {
    if p == [] then [] else (if p[0].Limb? then [p[0].dst] else []) + Dsts(p[1..])
  }

  function Srcs(p: seq<Step>): seq<nat> {
    if p == [] then [] else (if p[0].Limb? then [p[0].src] else []) + Srcs(p[1..])
  }

  /** No instruction overwrites a limb that a later one uses or wrote before. */
  predicate Separate(p: seq<Step>) {
    p != [] ==>
      && Separate(p[1..])
      && p[0].dst !in Dsts(p[1..]) && p[0].dst !in Srcs(p[1..])
      && (p[0].Limb? ==> forall s | s in p[1..] :: s.dst != p[0].dst)
  }

  predicate Chained(p: seq<Step>) {
    forall s | s in p && s.Limb? :: s.chained
  }

  function Times(m: nat, n: nat): nat {
    m * n
  }

  /** The limb at a place. */
  function LimbAt(w: Width, cells: seq<u32>, i: nat): nat {
    if i < |cells| then Low(w, cells[i]) else 0
  }

  /** The number that places hold, lowest limb first. */
  function Number(w: Width, cells: seq<u32>, places: seq<nat>): nat {
    if places == [] then 0
    else LimbAt(w, cells, places[0]) + Times(Modulus(w), Number(w, cells, places[1..]))
  }

  function Power(m: nat, n: nat): nat {
    if n == 0 then 1 else Times(m, Power(m, n - 1))
  }

  lemma {:induction false} NumberFrame(w: Width, a: seq<u32>, b: seq<u32>, places: seq<nat>)
    requires |a| == |b| && forall i | i in places && i < |a| :: a[i] == b[i]
    ensures Number(w, a, places) == Number(w, b, places)
  {
    hide Low, Modulus;
    if places != [] {
      assert places[0] in places;
      NumberFrame(w, a, b, places[1..]);
    }
  }

  /** A place that no instruction writes keeps its contents. */
  lemma {:induction false} RunFrame(w: Width, subtract: bool, p: seq<Step>, m: State, i: nat)
    requires InMemory(p, |m.cells|) && i < |m.cells|
    requires forall s | s in p :: s.dst != i
    ensures Run(w, subtract, p, m).cells[i] == m.cells[i]
  {
    hide Sum, Difference, Merge;
    if p != [] {
      assert p[0] in p;
      RunFrame(w, subtract, p[1..], Execute(w, subtract, p[0], m), i);
    }
  }

  /** The equation between the numbers before and after, the carry in and the
      carry out. */
  predicate Balanced(subtract: bool, first: nat, second: nat, c: bit, r: nat, out: bit, scale: nat) {
    if subtract then r + second + c == first + Carried(out, scale) else r + Carried(out, scale) == first + second + c
  }

  /** What a carry out is worth. */
  function Carried(out: bit, scale: nat): nat {
    if out == 1 then scale else 0
  }

  /** One limb of an addition or a subtraction balances. */
  lemma LimbIsExact(w: Width, subtract: bool, s: u32, d: u32, c: bit)
    ensures var o := if subtract then Difference(w, s, d, c) else Sum(w, s, d, c);
            && Balanced(subtract, Low(w, d), Low(w, s), c, o.result, o.flags.cf, Modulus(w))
            && o.result < Modulus(w)
  {
    hide EvenOnes, Nibble, Low, Modulus, Half, Signed, SignedFits;
  }

  /** One more low limb under a balanced rest. */
  lemma BalancedStep(subtract: bool, m: nat, d: nat, s: nat, c: bit, r: nat, mid: bit,
                     first: nat, second: nat, rest: nat, out: bit, scale: nat)
    requires Balanced(subtract, d, s, c, r, mid, m)
    requires Balanced(subtract, first, second, mid, rest, out, scale)
    ensures Balanced(subtract, d + Times(m, first), s + Times(m, second), c, r + Times(m, rest), out, Times(m, scale))
  {
    hide Times;
    TimesCarried(m, out, scale);
    TimesBit(m, mid);
    if subtract {
      TimesSum(m, rest, second);
      TimesSum(m, rest + second, mid);
      TimesSum(m, first, Carried(out, scale));
    } else {
      TimesSum(m, rest, Carried(out, scale));
      TimesSum(m, first, second);
      TimesSum(m, first + second, mid);
    }
  }

  lemma TimesSum(m: nat, a: nat, b: nat)
    ensures Times(m, a + b) == Times(m, a) + Times(m, b)
  {
  }

  lemma TimesBit(m: nat, b: bit)
    ensures Times(m, b) == Carried(b, m)
  {
  }

  lemma TimesCarried(m: nat, out: bit, scale: nat)
    ensures Times(m, Carried(out, scale)) == Carried(out, Times(m, scale))
  {
  }

  /** The numbers before and after the run of a chain, with a carry in. */
  predicate ChainOk(w: Width, subtract: bool, p: seq<Step>, cells: seq<u32>, c: bit, r: State) {
    Balanced(subtract, Number(w, cells, Dsts(p)), Number(w, cells, Srcs(p)), c,
             Number(w, r.cells, Dsts(p)), r.flags.cf, Power(Modulus(w), |Dsts(p)|))
  }

  /** After the first instruction the limbs of the others are as they were. */
  lemma OthersKept(w: Width, subtract: bool, p: seq<Step>, m: State)
    requires p != [] && InMemory(p, |m.cells|) && Separate(p)
    ensures InMemory([p[0]], |m.cells|)
    ensures var m' := Execute(w, subtract, p[0], m);
            && Number(w, m'.cells, Dsts(p[1..])) == Number(w, m.cells, Dsts(p[1..]))
            && Number(w, m'.cells, Srcs(p[1..])) == Number(w, m.cells, Srcs(p[1..]))
  {
    hide Sum, Difference, Merge, Dsts, Srcs, Number, Low, Modulus;
    assert p[0] in p;
    var m' := Execute(w, subtract, p[0], m);
    NumberFrame(w, m'.cells, m.cells, Dsts(p[1..]));
    NumberFrame(w, m'.cells, m.cells, Srcs(p[1..]));
  }

  lemma LimbIsAlone(p: seq<Step>)
    requires p != [] && p[0].Limb? && Separate(p)
    ensures forall t | t in p[1..] :: t.dst != p[0].dst
  {
  }

  /** The lists of places and the numbers with their first limb taken off. */
  lemma FirstLimb(w: Width, p: seq<Step>, cells: seq<u32>)
    requires p != [] && p[0].Limb?
    ensures Number(w, cells, Dsts(p)) == LimbAt(w, cells, p[0].dst) + Times(Modulus(w), Number(w, cells, Dsts(p[1..])))
    ensures Number(w, cells, Srcs(p)) == LimbAt(w, cells, p[0].src) + Times(Modulus(w), Number(w, cells, Srcs(p[1..])))
    ensures Power(Modulus(w), |Dsts(p)|) == Times(Modulus(w), Power(Modulus(w), |Dsts(p[1..])|))
  {
    hide LimbAt, Modulus;
    assert Dsts(p)[1..] == Dsts(p[1..]) && Srcs(p)[1..] == Srcs(p[1..]);
  }

  /** The first limb of a chain whose rest balances. */
  lemma LowLimb(w: Width, subtract: bool, p: seq<Step>, m: State, c: bit)
    requires p != [] && p[0].Limb? && InMemory(p, |m.cells|) && Separate(p)
    requires c == if p[0].chained then m.flags.cf else 0
    requires InMemory([p[0]], |m.cells|)
    ensures var m' := Execute(w, subtract, p[0], m);
            ChainOk(w, subtract, p[1..], m.cells, m'.flags.cf, Run(w, subtract, p[1..], m'))
            ==> ChainOk(w, subtract, p, m.cells, c, Run(w, subtract, p, m))
  {
    hide Sum, Difference, Merge, Low, Modulus, Balanced, Power, Number, Dsts, Srcs, Times, Separate;
    assert p[0] in p;
    var d, s := p[0].dst, p[0].src;
    var rest := p[1..];
    var m' := Execute(w, subtract, p[0], m);
    var r := Run(w, subtract, rest, m');
    var o := if subtract then Difference(w, m.cells[s], m.cells[d], c) else Sum(w, m.cells[s], m.cells[d], c);
    LimbIsExact(w, subtract, m.cells[s], m.cells[d], c);
    assert forall t | t in rest :: t.dst != d by { LimbIsAlone(p); }
    RunFrame(w, subtract, rest, m', d);
    FirstLimb(w, p, m.cells);
    FirstLimb(w, p, r.cells);
    if ChainOk(w, subtract, rest, m.cells, m'.flags.cf, r) {
      BalancedStep(subtract, Modulus(w), Low(w, m.cells[d]), Low(w, m.cells[s]), c, o.result, o.flags.cf,
                   Number(w, m.cells, Dsts(rest)), Number(w, m.cells, Srcs(rest)),
                   Number(w, r.cells, Dsts(rest)), r.flags.cf, Power(Modulus(w), |Dsts(rest)|));
    }
  }

  /** A chain in which every limb takes the carry of the one before. */
  lemma {:induction false} ChainBalances(w: Width, subtract: bool, p: seq<Step>, m: State)
    requires InMemory(p, |m.cells|) && Separate(p) && Chained(p)
    ensures ChainOk(w, subtract, p, m.cells, m.flags.cf, Run(w, subtract, p, m))
  {
    if p == [] {
      return;
    }
    OthersKept(w, subtract, p, m);
    var m' := Execute(w, subtract, p[0], m);
    ChainBalances(w, subtract, p[1..], m');
    hide Sum, Difference, Merge, Low, Modulus, Number, Balanced, Power;
    if p[0].Limb? {
      assert p[0] in p && p[0].chained;
      LowLimb(w, subtract, p, m, m.flags.cf);
    } else {
      assert Dsts(p) == Dsts(p[1..]) && Srcs(p) == Srcs(p[1..]);
    }
  }

  /** For numbers of any length in limbs of every width, an addition on the
      lowest limbs and additions with carry on the others leave the sum in the
      first number and its carry in the carry flag, and likewise subtractions
      leave the difference, whatever other places are incremented and
      decremented in between. */
  lemma ChainIsExact(w: Width, subtract: bool, p: seq<Step>, m: State)
    requires InMemory(p, |m.cells|) && Separate(p)
    requires p != [] && p[0].Limb? && !p[0].chained && Chained(p[1..])
    ensures var r := Run(w, subtract, p, m);
            var first, second := Number(w, m.cells, Dsts(p)), Number(w, m.cells, Srcs(p));
            var result, scale := Number(w, r.cells, Dsts(p)), Power(Modulus(w), |Dsts(p)|);
            if subtract then result - Carried(r.flags.cf, scale) == first - second
            else result + Carried(r.flags.cf, scale) == first + second
  {
    OthersKept(w, subtract, p, m);
    var m' := Execute(w, subtract, p[0], m);
    ChainBalances(w, subtract, p[1..], m');
    hide Sum, Difference, Merge, Low, Modulus, Number, Power, Dsts, Srcs;
    LowLimb(w, subtract, p, m, 0);
  }

  /** A number of so many limbs is below the scale of its carry. */
  lemma {:induction false} NumberBounded(w: Width, cells: seq<u32>, places: seq<nat>)
    ensures Number(w, cells, places) < Power(Modulus(w), |places|)
  {
    hide Low, Modulus, Times;
    if places != [] {
      NumberBounded(w, cells, places[1..]);
      LimbBelow(Modulus(w), LimbAt(w, cells, places[0]), Number(w, cells, places[1..]), Power(Modulus(w), |places| - 1));
    }
  }

  lemma LimbBelow(m: nat, low: nat, n: nat, scale: nat)
    requires low < m && n < scale
    ensures low + Times(m, n) < Times(m, scale)
  {
    hide Times;
    TimesSum(m, n, 1);
    TimesBit(m, 1);
    TimesSum(m, n + 1, scale - n - 1);
  }

  /** So the carry flag says exactly whether the sum does not fit, and the borrow
      whether the first number is smaller. */
  lemma CarryOutIsExact(w: Width, subtract: bool, p: seq<Step>, m: State)
    requires InMemory(p, |m.cells|) && Separate(p)
    requires p != [] && p[0].Limb? && !p[0].chained && Chained(p[1..])
    ensures var r := Run(w, subtract, p, m);
            var first, second := Number(w, m.cells, Dsts(p)), Number(w, m.cells, Srcs(p));
            r.flags.cf == 1 <==> if subtract then first < second else first + second >= Power(Modulus(w), |Dsts(p)|)
  {
    hide Run, Modulus, Number, Power, Dsts, Srcs, Separate, InMemory, Chained;
    ChainIsExact(w, subtract, p, m);
    NumberBounded(w, Run(w, subtract, p, m).cells, Dsts(p));
  }

  /** The emulator's own operations perform an instruction on the memory of its
      context. */
  method Perform(p: Context, w: Width, subtract: bool, s: Step)
    requires InMemory([s], |p.cells|)
    modifies p
    ensures |p.cells| == |old(p.cells)|
    ensures State(p.cells, p.flags) == Execute(w, subtract, s, old(State(p.cells, p.flags)))
  {
    hide Sum, Difference, Merge;
    assert s in [s];
    p.dataType := w;
    p.destination := Cell(s.dst);
    p.dstValue := p.cells[s.dst];
    match s {
      case Limb(d, i, chained) =>
        p.srcValue := p.cells[i];
        if subtract {
          p.functionIndex := if chained then SbbIndex else SubIndex;
          if chained { SbbOp(p); } else { SubOp(p); }
        } else {
          p.functionIndex := if chained then AdcIndex else AddIndex;
          if chained { AdcOp(p); } else { AddOp(p); }
        }
      case Inc(d) =>
        p.functionIndex := IncIndex;
        IncOp(p);
      case Dec(d) =>
        p.functionIndex := DecIndex;
        DecOp(p);
    }
  }

  /** And so a whole program. */
  method PerformAll(p: Context, w: Width, subtract: bool, program: seq<Step>)
    requires InMemory(program, |p.cells|)
    modifies p
    ensures |p.cells| == |old(p.cells)|
    ensures State(p.cells, p.flags) == Run(w, subtract, program, old(State(p.cells, p.flags)))
  {
    hide Execute;
    ghost var m := State(p.cells, p.flags);
    var i := 0;
    while i < |program|
      invariant 0 <= i <= |program|
      invariant |p.cells| == |m.cells|
      invariant Run(w, subtract, program[i..], State(p.cells, p.flags)) == Run(w, subtract, program, m)
    {
      assert program[i] in program && program[i..][1..] == program[i + 1..];
      Perform(p, w, subtract, program[i]);
      i := i + 1;
    }
  }
}
