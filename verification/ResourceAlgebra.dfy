/** Resource requirement descriptors clipped to a bus's supported ranges
    (hals/rangesup.c, HaliAdjustResourceListRange): what is emitted for each
    descriptor, what it means, and how much room it needs. `ResourceLists`
    proves that the code emits it. */
module ResourceAlgebra {
  import opened Words
  import opened RangeAlgebra

  const PREFERRED: bv8 := 0x01
  const ALTERNATIVE: bv8 := 0x08
  const PREFETCHABLE: bv16 := 0x0004

  datatype Kind = Port | Interrupt | Memory | Dma | Unknown

  /** A descriptor; `other` stands for the fields that are copied unchanged. */
  datatype Descriptor = Descriptor(option: bv8, kind: Kind, flags: bv16, minimum: int64, maximum: int64, other: nat)

  datatype ResourceList = ResourceList(version: nat, revision: nat, descriptors: seq<Descriptor>)

  /** The range lists a request is adjusted to; a missing interrupt list is
      the empty sequence. */
  datatype Buses = Buses(io: seq<Range>, memory: seq<Range>, prefetch: seq<Range>, dma: seq<Range>, interrupt: seq<Range>)

  predicate IsAlternative(option: bv8) {
    option & ALTERNATIVE != 0
  }

  predicate IsPrefetchable(d: Descriptor) {
    d.kind == Memory && d.flags & PREFETCHABLE != 0
  }

  /** Interrupt vectors and DMA channels are 32-bit fields. */
  predicate WellTyped(d: Descriptor) {
    d.kind == Interrupt || d.kind == Dma ==> 0 <= d.minimum < TWO_32 && 0 <= d.maximum < TWO_32
  }

  /** A 64-bit value stored into the address fields of a descriptor's kind. */
  function Stored(kind: Kind, x: int64): int64 {
    if kind == Interrupt || kind == Dma then x % TWO_32 else x
  }

  // ----- What is emitted

  datatype Interval = Interval(base: int64, limit: int64)

  function Clip(d: Descriptor, r: Range): Interval {
    Interval(if d.minimum < r.base then r.base else d.minimum, if d.maximum > r.limit then r.limit else d.maximum)
  }

  predicate Meets(d: Descriptor, r: Range) {
    Clip(d, r).base <= Clip(d, r).limit
  }

  /** The descriptor with an interval and an option in place of its own. */
  function Set(d: Descriptor, option: bv8, i: Interval): Descriptor {
    d.(option := option, minimum := Stored(d.kind, i.base), maximum := Stored(d.kind, i.limit))
  }

  /** The option of the descriptor emitted after one with option `o`. */
  function Following(o: bv8): bv8 {
    o | ALTERNATIVE
  }

  function Marked(o: bv8, mark: bv8): bv8 {
    o | mark
  }

  /** One descriptor for each range the request meets, in list order; `mark`
      is or-ed into each option. */
  function Clips(d: Descriptor, o: bv8, rs: seq<Range>, mark: bv8): seq<Descriptor>
    decreases |rs|
  {
    if rs == [] then []
    else if Meets(d, rs[0]) then [Set(d, Marked(o, mark), Clip(d, rs[0]))] + Clips(d, Following(o), rs[1..], mark)
    else Clips(d, o, rs[1..], mark)
  }

  /** The option left after those descriptors. */
  function OptionAfter(d: Descriptor, o: bv8, rs: seq<Range>): bv8
    decreases |rs|
  {
    if rs == [] then o
    else OptionAfter(d, if Meets(d, rs[0]) then Following(o) else o, rs[1..])
  }

  /** The interval meant to be impossible to satisfy. */
  function Impossible(d: Descriptor): Interval {
    if d.minimum == 0 then Interval(1, 0) else Interval(d.minimum, WrapInt64(d.minimum - 1))
  }

  /** The clips against the last list of a descriptor, or one impossible
      descriptor if nothing was emitted at all. */
  function Closing(d: Descriptor, o: bv8, rs: seq<Range>): seq<Descriptor> {
    Clips(d, o, rs, 0) +
    if IsAlternative(OptionAfter(d, o, rs)) then [] else [Set(d, OptionAfter(d, o, rs), Impossible(d))]
  }

  function RangesFor(d: Descriptor, b: Buses): seq<Range> {
    match d.kind
    case Port => b.io
    case Interrupt => b.interrupt
    case Memory => b.memory
    case Dma => b.dma
    case Unknown => []
  }

  /** Everything emitted for one descriptor. */
  function Emitted(d: Descriptor, b: Buses): seq<Descriptor> {
    if IsPrefetchable(d) then
      Clips(d, d.option, b.prefetch, PREFERRED) + Closing(d, OptionAfter(d, d.option, b.prefetch), b.memory)
    else
      Closing(d, d.option, RangesFor(d, b))
  }

  // ----- What it means

  /** The address is allowed by some descriptor of the list. */
  ghost predicate Allows(ds: seq<Descriptor>, a: int) {
    exists d :: d in ds && d.minimum <= a <= d.maximum
  }

  lemma AllowsConcat(xs: seq<Descriptor>, ys: seq<Descriptor>, a: int)
    ensures Allows(xs + ys, a) <==> Allows(xs, a) || Allows(ys, a)
  {
    assert forall d :: d in xs + ys <==> d in xs || d in ys;
  }

  lemma AllowsOne(d: Descriptor, a: int)
    ensures Allows([d], a) <==> d.minimum <= a <= d.maximum
  {
    if d.minimum <= a <= d.maximum {
      assert d in [d];
    }
  }

  /** A clipped interval lies within the descriptor, so storing it loses
      nothing even in a 32-bit field. */
  lemma ClipIsStored(d: Descriptor, o: bv8, r: Range)
    requires WellTyped(d) && Meets(d, r)
    ensures Set(d, o, Clip(d, r)).minimum == Clip(d, r).base
    ensures Set(d, o, Clip(d, r)).maximum == Clip(d, r).limit
  {
  }

  lemma {:induction false} ClipsAllow(d: Descriptor, o: bv8, rs: seq<Range>, mark: bv8, a: int)
    requires WellTyped(d)
    ensures Allows(Clips(d, o, rs, mark), a) <==> d.minimum <= a <= d.maximum && Covers(rs, a)
    decreases |rs|
  {
    if rs != [] {
      assert rs == [rs[0]] + rs[1..];
      CoversConcat([rs[0]], rs[1..], a);
      CoversOne(rs[0], a);
      if Meets(d, rs[0]) {
        var e := Set(d, Marked(o, mark), Clip(d, rs[0]));
        ClipIsStored(d, Marked(o, mark), rs[0]);
        ClipsAllow(d, Following(o), rs[1..], mark, a);
        AllowsConcat([e], Clips(d, Following(o), rs[1..], mark), a);
        AllowsOne(e, a);
      } else {
        ClipsAllow(d, o, rs[1..], mark, a);
      }
    }
  }

  lemma FollowingTwice(o: bv8)
    ensures Following(Following(o)) == Following(o)
  {
  }

  /** The options: after an emitted descriptor every option is alternative; if
      none is emitted the option stays. */
  lemma {:induction false} ClipsOptions(d: Descriptor, o: bv8, rs: seq<Range>, mark: bv8)
    ensures var e := Clips(d, o, rs, mark);
            && |e| <= |rs|
            && (forall i | 0 <= i < |e| ::
                  && e[i] == d.(option := e[i].option, minimum := e[i].minimum, maximum := e[i].maximum)
                  && e[i].option == Marked(if i == 0 then o else Following(o), mark))
            && OptionAfter(d, o, rs) == (if e == [] then o else Following(o))
    decreases |rs|
  {
    hide Following, Marked, Clip, Stored;
    if rs != [] {
      if Meets(d, rs[0]) {
        ClipsOptions(d, Following(o), rs[1..], mark);
        FollowingTwice(o);
      } else {
        ClipsOptions(d, o, rs[1..], mark);
      }
    }
  }

  /** The interval is impossible unless the descriptor starts at the smallest
      64-bit address, where stepping below it wraps round to the largest. */
  lemma ImpossibleIsEmpty(d: Descriptor, o: bv8)
    requires WellTyped(d)
    ensures var e := Set(d, o, Impossible(d));
            e.minimum > e.maximum <==> d.minimum != MIN_INT64
    ensures d.minimum == MIN_INT64 ==> forall a: int64 :: Allows([Set(d, o, Impossible(d))], a)
  {
    var e := Set(d, o, Impossible(d));
    if d.minimum == MIN_INT64 {
      forall a: int64 ensures Allows([e], a) {
        AllowsOne(e, a);
      }
    }
  }

  /** The address is in a range the bus supports for the descriptor; memory
      with the prefetchable flag may also come from the prefetchable ranges. */
  ghost predicate Supports(b: Buses, d: Descriptor, a: int) {
    match d.kind
    case Port => Covers(b.io, a)
    case Interrupt => Covers(b.interrupt, a)
    case Dma => Covers(b.dma, a)
    case Memory => Covers(b.memory, a) || (d.flags & 0x0004 != 0 && Covers(b.prefetch, a))
    case Unknown => false
  }

  lemma SupportedRanges(b: Buses, d: Descriptor, a: int)
    ensures Supports(b, d, a) <==> Covers(RangesFor(d, b), a) || (IsPrefetchable(d) && Covers(b.prefetch, a))
  {
  }

  /** Some range the bus supports for the descriptor meets it. */
  ghost predicate PartlySupported(b: Buses, d: Descriptor) {
    exists a :: d.minimum <= a <= d.maximum && Supports(b, d, a)
  }

  lemma MeetsCovers(d: Descriptor, rs: seq<Range>, k: nat)
    requires k < |rs| && Meets(d, rs[k])
    ensures exists a :: d.minimum <= a <= d.maximum && Covers(rs, a)
  {
    assert Contains(rs[k], Clip(d, rs[k]).base);
    assert Covers(rs, Clip(d, rs[k]).base);
  }

  lemma {:induction false} ClipsEmpty(d: Descriptor, o: bv8, rs: seq<Range>, mark: bv8)
    ensures Clips(d, o, rs, mark) == [] <==> forall k | 0 <= k < |rs| :: !Meets(d, rs[k])
    decreases |rs|
  {
    if rs != [] {
      if !Meets(d, rs[0]) {
        ClipsEmpty(d, o, rs[1..], mark);
        assert forall k | 0 < k < |rs| :: rs[k] == rs[1..][k - 1];
      }
    }
  }

  lemma ClipsEmptyMeans(d: Descriptor, o: bv8, rs: seq<Range>, mark: bv8)
    ensures Clips(d, o, rs, mark) == [] <==> !exists a :: d.minimum <= a <= d.maximum && Covers(rs, a)
  {
    ClipsEmpty(d, o, rs, mark);
    if a :| d.minimum <= a <= d.maximum && Covers(rs, a) {
      var r :| r in rs && Contains(r, a);
      var k :| 0 <= k < |rs| && rs[k] == r;
      assert Meets(d, rs[k]);
    }
    if Clips(d, o, rs, mark) != [] {
      var k :| 0 <= k < |rs| && Meets(d, rs[k]);
      MeetsCovers(d, rs, k);
    }
  }

  lemma OptionBits(o: bv8)
    ensures IsAlternative(Following(o))
    ensures Marked(o, 0) == o
    ensures IsAlternative(Marked(o, PREFERRED)) <==> IsAlternative(o)
    ensures Marked(o, PREFERRED) & PREFERRED != 0
  {
  }

  /** All but the first are alternatives, the first is one if the descriptor
      was, and everything but option and interval is copied. */
  ghost predicate Follows(d: Descriptor, o: bv8, e: seq<Descriptor>) {
    forall i | 0 <= i < |e| ::
      && (e[i].option & 0x08 != 0 <==> i > 0 || o & 0x08 != 0)
      && e[i] == d.(option := e[i].option, minimum := e[i].minimum, maximum := e[i].maximum)
  }

  lemma ClipsFollow(d: Descriptor, o: bv8, rs: seq<Range>, mark: bv8)
    requires mark == 0 || mark == PREFERRED
    ensures Follows(d, o, Clips(d, o, rs, mark))
  {
    hide Following, Marked, Clips;
    ClipsOptions(d, o, rs, mark);
    OptionBits(o);
    OptionBits(Following(o));
  }

  /** What closes a descriptor: exactly the addresses of the last list, or, if
      nothing has been or is emitted, one impossible descriptor. */
  lemma ClosingCases(d: Descriptor, o: bv8, rs: seq<Range>)
    ensures Closing(d, o, rs) ==
            if Clips(d, o, rs, 0) == [] && !IsAlternative(o) then [Set(d, o, Impossible(d))] else Clips(d, o, rs, 0)
  {
    hide Following, Marked, IsAlternative, Clips;
    ClipsOptions(d, o, rs, 0);
    OptionBits(o);
  }

  lemma ClosingFollows(d: Descriptor, o: bv8, rs: seq<Range>)
    ensures Follows(d, o, Closing(d, o, rs))
  {
    hide Closing, Clips, Impossible, Stored, IsAlternative;
    ClosingCases(d, o, rs);
    ClipsFollow(d, o, rs, 0);
  }

  /** The option with which the memory ranges of a prefetchable descriptor
      start. */
  lemma PrefetchLeaves(d: Descriptor, b: Buses)
    ensures IsAlternative(OptionAfter(d, d.option, b.prefetch)) <==>
            IsAlternative(d.option) || Clips(d, d.option, b.prefetch, PREFERRED) != []
  {
    hide Following, Marked, IsAlternative, Clips;
    ClipsOptions(d, d.option, b.prefetch, PREFERRED);
    OptionBits(d.option);
  }

  /** Marks and copies of everything emitted for a descriptor. */
  lemma EmittedFollows(d: Descriptor, b: Buses)
    ensures Follows(d, d.option, Emitted(d, b))
  {
    hide Closing, Clips, OptionAfter, RangesFor;
    if IsPrefetchable(d) {
      var o := OptionAfter(d, d.option, b.prefetch);
      ClipsFollow(d, d.option, b.prefetch, PREFERRED);
      ClosingFollows(d, o, b.memory);
      PrefetchLeaves(d, b);
    } else {
      ClosingFollows(d, d.option, RangesFor(d, b));
    }
  }

  lemma ClosingAllows(d: Descriptor, o: bv8, rs: seq<Range>, a: int)
    requires WellTyped(d)
    requires IsAlternative(o) || exists a :: d.minimum <= a <= d.maximum && Covers(rs, a)
    ensures Allows(Closing(d, o, rs), a) <==> d.minimum <= a <= d.maximum && Covers(rs, a)
  {
    hide Closing, Clips, IsAlternative, Allows, Covers;
    ClosingCases(d, o, rs);
    ClipsEmptyMeans(d, o, rs, 0);
    ClipsAllow(d, o, rs, 0, a);
  }

  lemma OverlapsMemory(d: Descriptor, b: Buses)
    requires IsPrefetchable(d) && PartlySupported(b, d)
    ensures (exists a :: d.minimum <= a <= d.maximum && Covers(b.prefetch, a))
            || (exists a :: d.minimum <= a <= d.maximum && Covers(b.memory, a))
  {
    var a :| d.minimum <= a <= d.maximum && Supports(b, d, a);
    SupportedRanges(b, d, a);
    assert RangesFor(d, b) == b.memory;
  }

  /** If the bus supports any of a descriptor's interval, the descriptors
      emitted for it allow exactly the supported part of the interval. */
  lemma EmittedIsIntersection(d: Descriptor, b: Buses, a: int)
    requires WellTyped(d) && PartlySupported(b, d)
    ensures Allows(Emitted(d, b), a) <==> d.minimum <= a <= d.maximum && Supports(b, d, a)
  {
    SupportedRanges(b, d, a);
    hide Supports, Closing, Clips, IsAlternative, OptionAfter, Allows, Covers;
    if IsPrefetchable(d) {
      var o := OptionAfter(d, d.option, b.prefetch);
      OverlapsMemory(d, b);
      PrefetchLeaves(d, b);
      ClipsEmptyMeans(d, d.option, b.prefetch, PREFERRED);
      ClipsAllow(d, d.option, b.prefetch, PREFERRED, a);
      ClosingAllows(d, o, b.memory, a);
      AllowsConcat(Clips(d, d.option, b.prefetch, PREFERRED), Closing(d, o, b.memory), a);
    } else {
      OverlapsPlain(d, b);
      ClosingAllows(d, d.option, RangesFor(d, b), a);
    }
  }

  lemma OverlapsPlain(d: Descriptor, b: Buses)
    requires !IsPrefetchable(d)
    ensures PartlySupported(b, d) <==> exists a :: d.minimum <= a <= d.maximum && Covers(RangesFor(d, b), a)
  {
    if PartlySupported(b, d) {
      var a :| d.minimum <= a <= d.maximum && Supports(b, d, a);
      SupportedRanges(b, d, a);
    }
    if a :| d.minimum <= a <= d.maximum && Covers(RangesFor(d, b), a) {
      SupportedRanges(b, d, a);
    }
  }

  lemma NotOverlapping(d: Descriptor, b: Buses)
    requires !PartlySupported(b, d)
    ensures forall o: bv8, mark: bv8 :: Clips(d, o, RangesFor(d, b), mark) == []
    ensures IsPrefetchable(d) ==> forall o: bv8, mark: bv8 :: Clips(d, o, b.prefetch, mark) == []
  {
    forall o: bv8, mark: bv8
      ensures Clips(d, o, RangesFor(d, b), mark) == []
      ensures IsPrefetchable(d) ==> Clips(d, o, b.prefetch, mark) == []
    {
      ClipsEmptyMeans(d, o, RangesFor(d, b), mark);
      ClipsEmptyMeans(d, o, b.prefetch, mark);
      if a :| d.minimum <= a <= d.maximum && Covers(RangesFor(d, b), a) {
        SupportedRanges(b, d, a);
      }
      if a :| IsPrefetchable(d) && d.minimum <= a <= d.maximum && Covers(b.prefetch, a) {
        SupportedRanges(b, d, a);
      }
    }
  }

  /** If the bus supports none of it, nothing is emitted for an alternative and
      one descriptor for any other, which no address satisfies unless the
      interval starts at the smallest 64-bit address. */
  lemma EmittedIsImpossible(d: Descriptor, b: Buses)
    requires WellTyped(d) && !PartlySupported(b, d)
    ensures var e := Emitted(d, b);
            && |e| == (if IsAlternative(d.option) then 0 else 1)
            && (e != [] ==> (e[0].minimum > e[0].maximum <==> d.minimum != MIN_INT64))
  {
    hide Closing, Clips, IsAlternative, OptionAfter, Impossible, Stored;
    NotOverlapping(d, b);
    PrefetchLeaves(d, b);
    if IsPrefetchable(d) {
      var o := OptionAfter(d, d.option, b.prefetch);
      assert RangesFor(d, b) == b.memory;
      ClosingCases(d, o, b.memory);
      ImpossibleIsEmpty(d, o);
    } else {
      ClosingCases(d, d.option, RangesFor(d, b));
      ImpossibleIsEmpty(d, d.option);
    }
  }

  /** How many ranges of a list a descriptor meets. */
  function Reach(d: Descriptor, rs: seq<Range>): nat {
    if rs == [] then 0 else Reach(d, rs[1..]) + if Meets(d, rs[0]) then 1 else 0
  }

  lemma {:induction false} ClipsLength(d: Descriptor, o: bv8, rs: seq<Range>, mark: bv8)
    ensures |Clips(d, o, rs, mark)| == Reach(d, rs)
    decreases |rs|
  {
    hide Set, Clip, Following, Marked, Meets;
    if rs != [] {
      ClipsLength(d, Following(o), rs[1..], mark);
      ClipsLength(d, o, rs[1..], mark);
    }
  }

  /** The descriptors for the prefetchable ranges, of memory with the flag only,
      come first and are marked preferred; the others are marked preferred if
      the descriptor was. */
  lemma PrefetchIsPreferred(d: Descriptor, b: Buses, i: nat)
    requires i < |Emitted(d, b)|
    ensures var k := if d.kind == Memory && d.flags & 0x0004 != 0 then Reach(d, b.prefetch) else 0;
            Emitted(d, b)[i].option & 0x01 != 0 <==> i < k || d.option & 0x01 != 0
  {
    hide Closing, Clips, Following, Marked, Impossible, Stored, OptionAfter, RangesFor, Reach;
    PreferredBit(d.option);
    PreferredBit(Following(d.option));
    if IsPrefetchable(d) {
      var o := OptionAfter(d, d.option, b.prefetch);
      ClipsOptions(d, d.option, b.prefetch, PREFERRED);
      ClipsLength(d, d.option, b.prefetch, PREFERRED);
      if i >= Reach(d, b.prefetch) {
        ClosingKeepsPreferred(d, o, b.memory, i - Reach(d, b.prefetch));
      }
    } else {
      ClosingKeepsPreferred(d, d.option, RangesFor(d, b), i);
    }
  }

  lemma PreferredBit(o: bv8)
    ensures Marked(o, PREFERRED) & 0x01 != 0
    ensures Marked(o, 0) == o
    ensures Following(o) & 0x01 == o & 0x01
  {
  }

  lemma ClosingKeepsPreferred(d: Descriptor, o: bv8, rs: seq<Range>, i: nat)
    requires i < |Closing(d, o, rs)|
    ensures Closing(d, o, rs)[i].option & 0x01 == o & 0x01
  {
    hide Closing, Clips, Following, Marked, Impossible, Stored, OptionAfter, IsAlternative;
    ClosingCases(d, o, rs);
    ClipsOptions(d, o, rs, 0);
    PreferredBit(o);
    PreferredBit(Following(o));
  }

  // ----- How much room it needs

  /** What the first pass allows for a descriptor. */
  function Estimate(d: Descriptor, b: Buses): nat {
    |RangesFor(d, b)| + if IsPrefetchable(d) then |b.prefetch| else 0
  }

  function Estimates(ds: seq<Descriptor>, b: Buses): nat {
    if ds == [] then 0 else Estimates(ds[..|ds| - 1], b) + Estimate(ds[|ds| - 1], b)
  }

  function AllEmitted(ds: seq<Descriptor>, b: Buses): seq<Descriptor> {
    if ds == [] then [] else AllEmitted(ds[..|ds| - 1], b) + Emitted(ds[|ds| - 1], b)
  }

  /** Interrupt descriptors that are not alternatives. */
  function LoneInterrupts(ds: seq<Descriptor>): nat {
    if ds == [] then 0
    else
      var d := ds[|ds| - 1];
      LoneInterrupts(ds[..|ds| - 1]) + if d.kind == Interrupt && !IsAlternative(d.option) then 1 else 0
  }

  ghost predicate HaveHeads(b: Buses) {
    b.io != [] && b.memory != [] && b.prefetch != [] && b.dma != []
  }

  lemma EmittedRoom(d: Descriptor, b: Buses)
    requires HaveHeads(b) && d.kind != Unknown
    ensures d.kind == Interrupt && b.interrupt == [] ==> |Emitted(d, b)| == if IsAlternative(d.option) then 0 else 1
    ensures d.kind != Interrupt || b.interrupt != [] ==> |Emitted(d, b)| <= Estimate(d, b)
  {
    hide Closing, Clips, IsAlternative, OptionAfter;
    var o := OptionAfter(d, d.option, b.prefetch);
    ClosingCases(d, o, b.memory);
    ClosingCases(d, d.option, RangesFor(d, b));
    ClipsOptions(d, o, b.memory, 0);
    ClipsOptions(d, d.option, b.prefetch, PREFERRED);
    ClipsOptions(d, d.option, RangesFor(d, b), 0);
  }

  /** The second pass never writes more descriptors than the first pass counted
      when there is an interrupt list; without one, each lone interrupt
      descriptor can exceed the count by one. */
  lemma {:induction false} EstimateBoundsOutput(ds: seq<Descriptor>, b: Buses)
    requires HaveHeads(b) && forall d | d in ds :: d.kind != Unknown
    ensures |AllEmitted(ds, b)| <= Estimates(ds, b) + if b.interrupt == [] then LoneInterrupts(ds) else 0
    decreases |ds|
  {
    if ds != [] {
      hide Emitted, Estimate;
      var n := |ds| - 1;
      EstimateBoundsOutput(ds[..n], b);
      EmittedRoom(ds[n], b);
    }
  }

  /** For a request of interrupts only and no interrupt list, the one spare
      descriptor the first pass starts from is enough if and only if at most
      one of them is not an alternative. */
  lemma {:induction false} InterruptsWithoutList(ds: seq<Descriptor>, b: Buses)
    requires HaveHeads(b) && b.interrupt == []
    requires forall d | d in ds :: d.kind == Interrupt
    ensures |AllEmitted(ds, b)| <= 1 + Estimates(ds, b) <==> LoneInterrupts(ds) <= 1
    ensures |AllEmitted(ds, b)| == LoneInterrupts(ds) && Estimates(ds, b) == 0
    decreases |ds|
  {
    if ds != [] {
      hide Emitted;
      var n := |ds| - 1;
      InterruptsWithoutList(ds[..n], b);
      EmittedRoom(ds[n], b);
      assert ds[n] in ds;
    }
  }

  // ----- Steps of the walk over one list

  /** What is still to be emitted for a descriptor from the rest of a list;
      `pending` says that another list follows. */
  function Pending(d: Descriptor, o: bv8, rs: seq<Range>, mark: bv8, pending: bool): seq<Descriptor> {
    if pending then Clips(d, o, rs, mark) else Closing(d, o, rs)
  }

  lemma SkipStep(d: Descriptor, o: bv8, rs: seq<Range>, mark: bv8, pending: bool)
    requires rs != [] && !Meets(d, rs[0])
    ensures Pending(d, o, rs, mark, pending) == Pending(d, o, rs[1..], mark, pending)
    ensures OptionAfter(d, o, rs) == OptionAfter(d, o, rs[1..])
  {
  }

  lemma MeetStep(d: Descriptor, o: bv8, rs: seq<Range>, mark: bv8, pending: bool)
    requires rs != [] && Meets(d, rs[0]) && (pending || mark == 0)
    ensures Pending(d, o, rs, mark, pending) ==
            [Set(d, Marked(o, mark), Clip(d, rs[0]))] + Pending(d, Following(o), rs[1..], mark, pending)
    ensures OptionAfter(d, o, rs) == OptionAfter(d, Following(o), rs[1..])
  {
    var x := Set(d, Marked(o, mark), Clip(d, rs[0]));
    var r := Clips(d, Following(o), rs[1..], 0);
    var z := if IsAlternative(OptionAfter(d, o, rs)) then [] else [Set(d, OptionAfter(d, o, rs), Impossible(d))];
    assert ([x] + r) + z == [x] + (r + z);
  }

  lemma EndStep(d: Descriptor, o: bv8, mark: bv8, pending: bool)
    ensures Pending(d, o, [], mark, pending) ==
            if IsAlternative(o) || pending then [] else [Set(d, o, Impossible(d))]
    ensures Pending(d, Following(o), [], mark, pending) == []
    ensures OptionAfter(d, o, []) == o
  {
    OptionBits(o);
  }

  // ----- Whole requests

  /** The descriptors of all lists of a request, in order. */
  function Flat(request: seq<ResourceList>): seq<Descriptor> {
    if request == [] then [] else Flat(request[..|request| - 1]) + request[|request| - 1].descriptors
  }

  predicate WellFormed(request: seq<ResourceList>) {
    forall l | l in request :: ValidList(l)
  }

  predicate ValidList(l: ResourceList) {
    l.version == 1 && l.revision >= 1 && forall d | d in l.descriptors :: d.kind != Unknown
  }

  /** The recorded lengths of the lists. */
  datatype Counts = Counts(io: nat, memory: nat, prefetch: nat, dma: nat, interrupt: nat)

  ghost predicate Suffices(n: Counts, b: Buses) {
    && n.io >= |b.io| && n.memory >= |b.memory| && n.prefetch >= |b.prefetch|
    && n.dma >= |b.dma| && n.interrupt >= |b.interrupt|
  }

  /** What the first pass adds for a descriptor. */
  function Counted(d: Descriptor, n: Counts): nat {
    match d.kind
    case Port => n.io
    case Interrupt => n.interrupt
    case Memory => n.memory + if IsPrefetchable(d) then n.prefetch else 0
    case Dma => n.dma
    case Unknown => 0
  }

  function CountedAll(ds: seq<Descriptor>, n: Counts): nat {
    if ds == [] then 0 else CountedAll(ds[..|ds| - 1], n) + Counted(ds[|ds| - 1], n)
  }

  /** The descriptors of a kind. */
  ghost function Places(ds: seq<Descriptor>, kind: Kind): set<nat> {
    set i | 0 <= i < |ds| && ds[i].kind == kind
  }

  ghost function PrefetchPlaces(ds: seq<Descriptor>): set<nat> {
    set i | 0 <= i < |ds| && ds[i].kind == Memory && ds[i].flags & 0x0004 != 0
  }

  /** Each list is counted once for each descriptor of its kind, the
      prefetchable ranges for each memory descriptor with the flag. */
  ghost predicate CountedByKind(ds: seq<Descriptor>, n: Counts, total: int) {
    total == n.io * |Places(ds, Port)| + n.interrupt * |Places(ds, Interrupt)| + n.dma * |Places(ds, Dma)| +
      n.memory * |Places(ds, Memory)| + n.prefetch * |PrefetchPlaces(ds)|
  }

  lemma OneMorePlace(ds: seq<Descriptor>, kind: Kind)
    requires ds != []
    ensures |Places(ds, kind)| == |Places(ds[..|ds| - 1], kind)| + if ds[|ds| - 1].kind == kind then 1 else 0
  {
    var k := |ds| - 1;
    assert Places(ds, kind) == Places(ds[..k], kind) + if ds[k].kind == kind then {k} else {};
  }

  lemma OneMorePrefetch(ds: seq<Descriptor>)
    requires ds != []
    ensures |PrefetchPlaces(ds)| == |PrefetchPlaces(ds[..|ds| - 1])| + if IsPrefetchable(ds[|ds| - 1]) then 1 else 0
  {
    var k := |ds| - 1;
    assert PrefetchPlaces(ds) == PrefetchPlaces(ds[..k]) + if IsPrefetchable(ds[k]) then {k} else {};
  }

  lemma CountedOnceMore(n: nat, was: nat, now: nat, more: bool)
    requires now == was + if more then 1 else 0
    ensures n * now == n * was + if more then n else 0
  {
  }

  lemma {:induction false} CountedAllByKind(ds: seq<Descriptor>, n: Counts)
    ensures CountedByKind(ds, n, CountedAll(ds, n))
    decreases |ds|
  {
    if ds != [] {
      var was, d := ds[..|ds| - 1], ds[|ds| - 1];
      CountedAllByKind(was, n);
      OneMorePlace(ds, Port);
      OneMorePlace(ds, Interrupt);
      OneMorePlace(ds, Dma);
      OneMorePlace(ds, Memory);
      OneMorePrefetch(ds);
      hide Places, PrefetchPlaces;
      CountedOnceMore(n.io, |Places(was, Port)|, |Places(ds, Port)|, d.kind == Port);
      CountedOnceMore(n.interrupt, |Places(was, Interrupt)|, |Places(ds, Interrupt)|, d.kind == Interrupt);
      CountedOnceMore(n.dma, |Places(was, Dma)|, |Places(ds, Dma)|, d.kind == Dma);
      CountedOnceMore(n.memory, |Places(was, Memory)|, |Places(ds, Memory)|, d.kind == Memory);
      CountedOnceMore(n.prefetch, |PrefetchPlaces(was)|, |PrefetchPlaces(ds)|, IsPrefetchable(d));
    }
  }

  lemma {:induction false} CountsSuffice(ds: seq<Descriptor>, n: Counts, b: Buses)
    requires Suffices(n, b)
    ensures Estimates(ds, b) <= CountedAll(ds, n)
    decreases |ds|
  {
    if ds != [] {
      CountsSuffice(ds[..|ds| - 1], n, b);
    }
  }

  /** The buffer the first pass sizes holds everything the second one writes. */
  lemma OutputFits(ds: seq<Descriptor>, n: Counts, b: Buses)
    requires HaveHeads(b) && Suffices(n, b) && forall d | d in ds :: d.kind != Unknown
    requires b.interrupt != [] || LoneInterrupts(ds) <= 1
    ensures |AllEmitted(ds, b)| <= 1 + CountedAll(ds, n)
  {
    EstimateBoundsOutput(ds, b);
    CountsSuffice(ds, n, b);
  }

  // ----- When the buffer is large enough for every request

  /** How many ranges of all its lists a descriptor meets. */
  function ReachAll(d: Descriptor, b: Buses): nat {
    Reach(d, RangesFor(d, b)) + if IsPrefetchable(d) then Reach(d, b.prefetch) else 0
  }

  /** One descriptor for each range that is met, or one if none is and the
      descriptor is not an alternative. */
  lemma EmittedLength(d: Descriptor, b: Buses)
    ensures |Emitted(d, b)| == if ReachAll(d, b) == 0 && !IsAlternative(d.option) then 1 else ReachAll(d, b)
  {
    hide Closing, Clips, IsAlternative, OptionAfter, Reach;
    if IsPrefetchable(d) {
      var o := OptionAfter(d, d.option, b.prefetch);
      assert RangesFor(d, b) == b.memory;
      PrefetchLeaves(d, b);
      ClosingCases(d, o, b.memory);
      ClipsLength(d, o, b.memory, 0);
      ClipsLength(d, d.option, b.prefetch, PREFERRED);
    } else {
      ClosingCases(d, d.option, RangesFor(d, b));
      ClipsLength(d, d.option, RangesFor(d, b), 0);
    }
  }

  /** The widest descriptor of a kind that is not an alternative. */
  function Widest(kind: Kind, flags: bv16): Descriptor {
    if kind == Interrupt || kind == Dma then Descriptor(0, kind, flags, 0, 0xFFFF_FFFF, 0)
    else Descriptor(0, kind, flags, MIN_INT64, MAX_INT64, 0)
  }

  lemma {:induction false} WidestReaches(d: Descriptor, rs: seq<Range>)
    requires WellTyped(d)
    ensures Reach(d, rs) <= Reach(Widest(d.kind, d.flags), rs)
  {
    if rs != [] {
      WidestReaches(d, rs[1..]);
      assert Meets(d, rs[0]) ==> Meets(Widest(d.kind, d.flags), rs[0]);
    }
  }

  /** A request as it can occur. */
  predicate Known(ds: seq<Descriptor>) {
    forall d | d in ds :: WellTyped(d) && d.kind != Unknown
  }

  /** The second pass stays within the room that the first pass counts. */
  predicate Fits(ds: seq<Descriptor>, n: Counts, b: Buses) {
    |AllEmitted(ds, b)| <= 1 + CountedAll(ds, n)
  }

  /** The count for a kind is at least 1 and at least the number of ranges that
      the widest descriptor of the kind meets. */
  predicate RoomyFor(kind: Kind, flags: bv16, n: Counts, b: Buses) {
    var d := Widest(kind, flags);
    1 <= Counted(d, n) && ReachAll(d, b) <= Counted(d, n)
  }

  predicate Roomy(n: Counts, b: Buses) {
    && RoomyFor(Port, 0, n, b) && RoomyFor(Interrupt, 0, n, b) && RoomyFor(Dma, 0, n, b)
    && RoomyFor(Memory, 0, n, b) && RoomyFor(Memory, PREFETCHABLE, n, b)
  }

  /** Only the prefetchable flag matters. */
  lemma RoomyForAll(kind: Kind, flags: bv16, n: Counts, b: Buses)
    requires Roomy(n, b) && kind != Unknown
    ensures RoomyFor(kind, flags, n, b)
  {
    hide Reach;
    var f: bv16 := if flags & PREFETCHABLE != 0 then PREFETCHABLE else 0;
    var g: bv16 := if kind == Memory then f else 0;
    assert RoomyFor(kind, g, n, b);
    var d, e := Widest(kind, flags), Widest(kind, g);
    assert IsPrefetchable(d) <==> IsPrefetchable(e);
    SameReach(d, e, RangesFor(d, b));
    SameReach(d, e, b.prefetch);
  }

  lemma {:induction false} SameReach(d: Descriptor, e: Descriptor, rs: seq<Range>)
    requires d.minimum == e.minimum && d.maximum == e.maximum
    ensures Reach(d, rs) == Reach(e, rs)
  {
    if rs != [] {
      SameReach(d, e, rs[1..]);
    }
  }

  lemma RoomyDescriptor(d: Descriptor, n: Counts, b: Buses)
    requires Roomy(n, b) && WellTyped(d) && d.kind != Unknown
    ensures |Emitted(d, b)| <= Counted(d, n)
  {
    hide Emitted, Reach, Roomy;
    EmittedLength(d, b);
    RoomyForAll(d.kind, d.flags, n, b);
    WidestReaches(d, RangesFor(d, b));
    WidestReaches(d, b.prefetch);
  }

  lemma {:induction false} RoomyFits(ds: seq<Descriptor>, n: Counts, b: Buses)
    requires Roomy(n, b) && Known(ds)
    ensures |AllEmitted(ds, b)| <= CountedAll(ds, n)
    decreases |ds|
  {
    hide Emitted, Counted, Roomy, WellTyped;
    if ds != [] {
      var k := |ds| - 1;
      assert ds[k] in ds;
      RoomyFits(ds[..k], n, b);
      RoomyDescriptor(ds[k], n, b);
    }
  }

  /** Two of the widest descriptors use up the one spare place. */
  lemma TwiceOverruns(kind: Kind, flags: bv16, n: Counts, b: Buses)
    requires kind != Unknown && !RoomyFor(kind, flags, n, b)
    ensures Known([Widest(kind, flags), Widest(kind, flags)])
    ensures !Fits([Widest(kind, flags), Widest(kind, flags)], n, b)
  {
    hide Emitted, Reach;
    hide AllEmitted, CountedAll;
    EmittedLength(Widest(kind, flags), b);
    TwiceTheSame(Widest(kind, flags), n, b);
  }

  lemma TwiceTheSame(d: Descriptor, n: Counts, b: Buses)
    ensures |AllEmitted([d], b)| == |Emitted(d, b)| && CountedAll([d], n) == Counted(d, n)
    ensures |AllEmitted([d, d], b)| == 2 * |Emitted(d, b)| && CountedAll([d, d], n) == 2 * Counted(d, n)
  {
    hide Emitted, Counted;
    assert [d, d][..1] == [d] && [d][..0] == [];
    assert |AllEmitted([d], b)| == |AllEmitted([], b)| + |Emitted(d, b)|;
    assert CountedAll([d], n) == CountedAll([], n) + Counted(d, n);
  }

  /** The buffer is large enough for every request if and only if the counts are
      roomy, whatever the lists and however the counts came about. */
  lemma RoomyIsExact(n: Counts, b: Buses)
    ensures (forall ds | Known(ds) :: Fits(ds, n, b)) <==> Roomy(n, b)
  {
    hide Known, RoomyFor, AllEmitted, CountedAll;
    if Roomy(n, b) {
      forall ds | Known(ds) ensures Fits(ds, n, b) {
        RoomyFits(ds, n, b);
      }
    } else {
      var (kind, flags) :=
        if !RoomyFor(Port, 0, n, b) then (Port, 0)
        else if !RoomyFor(Interrupt, 0, n, b) then (Interrupt, 0)
        else if !RoomyFor(Dma, 0, n, b) then (Dma, 0)
        else if !RoomyFor(Memory, 0, n, b) then (Memory, 0)
        else (Memory, PREFETCHABLE);
      TwiceOverruns(kind, flags, n, b);
    }
  }

  lemma {:induction false} ReachBounded(d: Descriptor, rs: seq<Range>)
    ensures Reach(d, rs) <= |rs|
  {
    if rs != [] {
      ReachBounded(d, rs[1..]);
    }
  }

  /** Counts of at least the lengths are roomy, if there is an interrupt list. */
  lemma SufficesIsRoomy(n: Counts, b: Buses)
    requires HaveHeads(b) && b.interrupt != [] && Suffices(n, b)
    ensures Roomy(n, b)
  {
    hide Reach;
    ReachBounded(Widest(Port, 0), b.io);
    ReachBounded(Widest(Interrupt, 0), b.interrupt);
    ReachBounded(Widest(Dma, 0), b.dma);
    ReachBounded(Widest(Memory, 0), b.memory);
    ReachBounded(Widest(Memory, PREFETCHABLE), b.memory);
    ReachBounded(Widest(Memory, PREFETCHABLE), b.prefetch);
  }

  /** Two interrupts that are not alternatives overrun the buffer if there is no
      interrupt list. */
  lemma TwoInterruptsOverrun(n: Counts, b: Buses)
    requires n.interrupt == 0
    ensures var d := Descriptor(0, Interrupt, 0, 3, 5, 0); !Fits([d, d], n, b.(interrupt := []))
  {
    hide Emitted, AllEmitted, CountedAll;
    var d := Descriptor(0, Interrupt, 0, 3, 5, 0);
    EmittedLength(d, b.(interrupt := []));
    TwiceTheSame(d, n, b.(interrupt := []));
  }

  lemma {:induction false} CopiesOfInterrupt(d: Descriptor, k: nat, n: Counts)
    requires d.kind == Interrupt && !IsAlternative(d.option) && n.interrupt == 0
    ensures var ds := seq(k, _ => d); LoneInterrupts(ds) == k && CountedAll(ds, n) == 0
  {
    var ds := seq(k, _ => d);
    if k > 0 {
      CopiesOfInterrupt(d, k - 1, n);
      assert ds[..k - 1] == seq(k - 1, _ => d);
    }
  }

  /** With counts that suffice but no interrupt list, every request with k lone
      interrupts, whatever else it has, fits if and only if k is at most 1. */
  lemma LoneInterruptsDecide(n: Counts, b: Buses, k: nat)
    requires HaveHeads(b) && Suffices(n, b) && b.interrupt == [] && n.interrupt == 0
    ensures (forall ds | Known(ds) && LoneInterrupts(ds) == k :: Fits(ds, n, b)) <==> k <= 1
  {
    hide AllEmitted, CountedAll, LoneInterrupts;
    if k <= 1 {
      forall ds | Known(ds) && LoneInterrupts(ds) == k ensures Fits(ds, n, b) {
        OutputFits(ds, n, b);
      }
    } else {
      var d := Descriptor(0, Interrupt, 0, 3, 5, 0);
      var ds := seq(k, _ => d);
      CopiesOfInterrupt(d, k, n);
      InterruptsWithoutList(ds, b);
      assert Known(ds);
    }
  }

  /** A list that is counted, split by a removal and not counted again: one port
      descriptor already overruns the buffer. */
  lemma StaleCountOverruns(t: Target, n: Counts, b: Buses)
    requires n.io == |[Range(t, 0, 10)]|
    ensures var rs := RemovedAll([Range(t, 0, 10)], [Range(t, 3, 3), Range(t, 6, 6)]);
            |rs| == 3 && !Fits([Descriptor(0, Port, 0, 0, 10, 0)], n, b.(io := rs))
  {
    hide Emitted, AllEmitted, CountedAll;
    var rs := SplitTwice(t);
    var d := Descriptor(0, Port, 0, 0, 10, 0);
    EmittedLength(d, b.(io := rs));
    assert rs[1..] == [rs[1], rs[2]] && rs[1..][1..] == [rs[2]];
    assert Reach(d, rs[1..][1..]) == 1;
    assert Reach(d, rs[1..]) == 2;
    TwiceTheSame(d, n, b.(io := rs));
  }

  lemma SplitTwice(t: Target) returns (rs: seq<Range>)
    ensures rs == RemovedAll([Range(t, 0, 10)], [Range(t, 3, 3), Range(t, 6, 6)])
    ensures rs == [Range(t, 0, 2), Range(t, 7, 10), Range(t, 4, 5)]
  {
    var xs := [Range(t, 3, 3), Range(t, 6, 6)];
    assert xs[..1] == [Range(t, 3, 3)] && xs[..1][..0] == [];
    var r0 := [Range(t, 0, 10)];
    var r1 := [Range(t, 0, 2), Range(t, 4, 10)];
    assert ClipAt(r0, 0, 3, 3) == r1;
    assert ClipAt(r1, 1, 3, 3) == r1;
    assert Walked(r1, 2, 3, 3) == r1;
    assert Walked(r1, 1, 3, 3) == r1;
    assert Removed(r0, 3, 3) == r1;
    rs := [Range(t, 0, 2), Range(t, 7, 10), Range(t, 4, 5)];
    assert ClipAt(r1, 0, 6, 6) == r1;
    assert ClipAt(r1, 1, 6, 6) == rs;
    assert Walked(rs, 3, 6, 6) == rs;
    assert Walked(r1, 1, 6, 6) == rs;
    assert Removed(r1, 6, 6) == rs;
    assert RemovedAll(r0, []) == r0;
    assert RemovedAll(r0, xs[..1]) == r1;
  }

  lemma {:induction false} AllEmittedConcat(xs: seq<Descriptor>, ys: seq<Descriptor>, b: Buses)
    ensures AllEmitted(xs + ys, b) == AllEmitted(xs, b) + AllEmitted(ys, b)
    decreases |ys|
  {
    hide Emitted;
    if ys == [] {
      assert xs + ys == xs;
    } else {
      var n := |ys| - 1;
      assert (xs + ys)[..|xs + ys| - 1] == xs + ys[..n];
      AllEmittedConcat(xs, ys[..n], b);
      assert (AllEmitted(xs, b) + AllEmitted(ys[..n], b)) + Emitted(ys[n], b)
          == AllEmitted(xs, b) + (AllEmitted(ys[..n], b) + Emitted(ys[n], b));
    }
  }

  lemma {:induction false} CountedConcat(xs: seq<Descriptor>, ys: seq<Descriptor>, n: Counts)
    ensures CountedAll(xs + ys, n) == CountedAll(xs, n) + CountedAll(ys, n)
    decreases |ys|
  {
    if ys == [] {
      assert xs + ys == xs;
    } else {
      assert (xs + ys)[..|xs + ys| - 1] == xs + ys[..|ys| - 1];
      CountedConcat(xs, ys[..|ys| - 1], n);
    }
  }

  lemma FlatOneMore(request: seq<ResourceList>, k: nat)
    requires k < |request|
    ensures Flat(request[..k + 1]) == Flat(request[..k]) + request[k].descriptors
  {
    assert request[..k + 1][..k] == request[..k];
  }

  lemma {:induction false} FlatPrefix(request: seq<ResourceList>, k: nat)
    requires k <= |request|
    ensures Flat(request[..k]) <= Flat(request)
    decreases |request| - k
  {
    if k == |request| {
      assert request[..k] == request;
    } else {
      FlatOneMore(request, k);
      FlatPrefix(request, k + 1);
    }
  }

  lemma {:induction false} FlatKinds(request: seq<ResourceList>)
    requires WellFormed(request)
    ensures forall d | d in Flat(request) :: d.kind != Unknown
    decreases |request|
  {
    if request != [] {
      var n := |request| - 1;
      FlatKinds(request[..n]);
      assert request[n] in request;
    }
  }

  lemma FlatCountOfNone(n: Counts)
    ensures |Flat([])| == 0 && CountedAll(Flat([]), n) == 0
  {
  }

  lemma FlatOfNone(b: Buses)
    ensures AllEmitted(Flat([]), b) == []
  {
  }

  lemma AllEmittedPrefix(ds: seq<Descriptor>, k: nat, b: Buses)
    requires k < |ds|
    ensures AllEmitted(ds[..k + 1], b) == AllEmitted(ds[..k], b) + Emitted(ds[k], b)
    ensures |AllEmitted(ds[..k], b)| + |Emitted(ds[k], b)| <= |AllEmitted(ds, b)|
  {
    assert ds[..k + 1][..k] == ds[..k];
    assert ds == ds[..k + 1] + ds[k + 1..];
    AllEmittedConcat(ds[..k + 1], ds[k + 1..], b);
  }

  lemma RewriteStep(request: seq<ResourceList>, k: nat, b: Buses)
    requires k < |request|
    ensures AllEmitted(Flat(request[..k + 1]), b) ==
            AllEmitted(Flat(request[..k]), b) + AllEmitted(request[k].descriptors, b)
    ensures |AllEmitted(Flat(request[..k]), b)| + |AllEmitted(request[k].descriptors, b)| <= |AllEmitted(Flat(request), b)|
  {
    FlatOneMore(request, k);
    AllEmittedConcat(Flat(request[..k]), request[k].descriptors, b);
    FlatPrefix(request, k + 1);
    var n := |Flat(request[..k + 1])|;
    assert Flat(request) == Flat(request[..k + 1]) + Flat(request)[n..];
    AllEmittedConcat(Flat(request[..k + 1]), Flat(request)[n..], b);
  }
}
