/** The rewriting of a resource requirements list to a bus's supported ranges
    (hals/rangesup.c, HaliAdjustResourceListRange and its helpers): a cursor
    that walks a range list and writes descriptors into a buffer whose size a
    first pass has counted. The cursor does not look at the size: a write behind
    the buffer leaves the buffer alone, and is an overrun. */
module ResourceLists {
  import opened Words
  import opened RangeAlgebra
  import opened RangeLists
  import opened ResourceAlgebra
  import opened SupportedRanges

  /** The position in the range list and in the output buffer. */
  class Cursor {
    var inDesc: Descriptor
    const out: array<Descriptor>
    var outDesc: nat
    var currentPosition: Node?
    var interval: Interval
    var descOpt: bv8
    var anotherListPending: bool
    ghost var list: RangeList?
    ghost var pos: nat
    ghost var written: seq<Descriptor>

    constructor (room: nat)
      ensures out.Length == room && Tracks() && written == [] && fresh(out)
    {
      out := new Descriptor[room](i => Descriptor(0, Unknown, 0, 0, 0, 0));
      outDesc := 0;
      inDesc := Descriptor(0, Unknown, 0, 0, 0, 0);
      currentPosition := null;
      interval := Interval(0, 0);
      descOpt := 0;
      anotherListPending := false;
      list, pos, written := null, 0, [];
    }

    /** As far as it goes, the buffer holds what has been written. */
    ghost predicate Tracks()
      reads this, out
    {
      && outDesc == |written|
      && forall i | 0 <= i < outDesc && i < out.Length :: out[i] == written[i]
    }

    ghost predicate Ready()
      reads this, out, list, if list == null then {} else list.repr
    {
      && Tracks()
      && (list != null ==> list.Valid() && pos <= |list.nodes|)
      && currentPosition == if list == null then null else list.NodeAt(pos)
    }

    /** The ranges not visited yet. */
    ghost function Rest(): seq<Range>
      requires Ready()
      reads this, out, list, if list == null then {} else list.repr
    {
      if list == null then [] else list.Contents()[pos..]
    }

    /** Writes a copy of the input descriptor with the current option. */
    method Put() returns (setDesc: nat)
      requires Ready()
      modifies `outDesc, `descOpt, `written, out
      ensures Ready() && outDesc == old(outDesc) + 1 && setDesc == old(outDesc)
      ensures written == old(written) + [inDesc.(option := old(descOpt))]
      ensures descOpt == Following(old(descOpt)) && Rest() == old(Rest())
    {
      hide Values;
      if outDesc < out.Length {
        out[outDesc] := inDesc.(option := descOpt);
      }
      written := written + [inDesc.(option := descOpt)];
      setDesc := outDesc;
      outDesc := outDesc + 1;
      descOpt := descOpt | ALTERNATIVE;
    }

    /** What is still to be emitted from here. */
    ghost function Todo(mark: bv8): seq<Descriptor>
      requires Ready()
      reads this, out, list, if list == null then {} else list.repr
    {
      Pending(inDesc, descOpt, Rest(), mark, anotherListPending)
    }

    /** Clips the descriptor to the current range and moves to the next one. */
    method Advance(minimum: int64, maximum: int64)
      requires Ready() && currentPosition != null
      requires minimum == inDesc.minimum && maximum == inDesc.maximum
      modifies `interval, `currentPosition, `pos
      ensures Ready() && old(Rest()) != [] && Rest() == old(Rest())[1..]
      ensures interval == Clip(inDesc, old(Rest())[0])
    {
      hide Values, Distinct;
      ghost var c := list.Contents();
      assert c[pos..][1..] == c[pos + 1..];
      var r := currentPosition.range;
      var base, limit := minimum, maximum;
      if base < r.base {
        base := r.base;
      }
      if limit > r.limit {
        limit := r.limit;
      }
      interval := Interval(base, limit);
      currentPosition := currentPosition.next;
      pos := pos + 1;
    }

    /** Sets the interval that is meant to be impossible. */
    method Refuse(minimum: int64)
      requires Ready() && minimum == inDesc.minimum
      modifies `interval
      ensures Ready() && Rest() == old(Rest())
      ensures interval == Impossible(inDesc)
    {
      interval := Interval(minimum, WrapInt64(minimum - 1));
      if interval.base == 0 {
        interval := Interval(1, 0);
      }
    }

    lemma AtEnd()
      requires Ready() && currentPosition == null
      ensures Rest() == []
    {
    }

    /** What a call reports: whether it wrote a descriptor, with what interval
        it is to be filled in, and what is left to do. */
    ghost predicate Reported(found: bool, d: Descriptor, o: bv8, rs: seq<Range>, mark: bv8, before: seq<Descriptor>)
      requires Ready()
      reads this, out, list, if list == null then {} else list.repr
    {
      var todo := Pending(d, o, rs, mark, anotherListPending);
      && inDesc == d && |Rest()| <= |rs|
      && (anotherListPending ==> OptionAfter(d, descOpt, Rest()) == OptionAfter(d, o, rs))
      && if found
         then && written == before + [d.(option := o)] && descOpt == Following(o)
              && todo == [Set(d, Marked(o, mark), interval)] + Todo(mark)
              && (|Rest()| < |rs| || !IsAlternative(o))
         else && written == before && descOpt == o && todo == [] && Rest() == [] && Todo(mark) == []
    }

    /** The next range that meets the descriptor, written as a descriptor whose
        interval the caller fills in; or the impossible one; or nothing. */
    method GetNextSupportedRange(minimum: int64, maximum: int64, ghost mark: bv8) returns (found: bool, setDesc: nat)
      requires Ready() && minimum == inDesc.minimum && maximum == inDesc.maximum
      requires anotherListPending || mark == 0
      modifies this, out
      ensures Ready() && list == old(list) && anotherListPending == old(anotherListPending)
      ensures outDesc == old(outDesc) + (if found then 1 else 0) && setDesc == old(outDesc)
      ensures Reported(found, old(inDesc), old(descOpt), old(Rest()), mark, old(written))
    {
      hide Cursor.Ready, Cursor.Rest, Pending, OptionAfter, Marked, Following, IsAlternative, Set, Impossible;
      setDesc := outDesc;
      while currentPosition != null
        invariant Ready() && list == old(list) && inDesc == old(inDesc)
        invariant anotherListPending == old(anotherListPending) && descOpt == old(descOpt)
        invariant outDesc == old(outDesc) && written == old(written)
        invariant |Rest()| <= |old(Rest())|
        invariant Todo(mark) == old(Todo(mark))
        invariant OptionAfter(inDesc, descOpt, Rest()) == old(OptionAfter(inDesc, descOpt, Rest()))
        decreases |Rest()|
      {
        ghost var rs := Rest();
        Advance(minimum, maximum);
        if interval.base <= interval.limit {
          MeetStep(inDesc, descOpt, rs, mark, anotherListPending);
          setDesc := Put();
          return true, setDesc;
        }
        SkipStep(inDesc, descOpt, rs, mark, anotherListPending);
      }
      AtEnd();
      EndStep(inDesc, descOpt, mark, anotherListPending);
      found := !IsAlternative(descOpt) && !anotherListPending;
      if found {
        Refuse(minimum);
        OptionBits(descOpt);
        setDesc := Put();
      }
    }

    /** Fills in the descriptor written last. */
    method FillIn(setDesc: nat, mark: bv8, ghost before: seq<Descriptor>, ghost o: bv8)
      requires Ready() && outDesc == setDesc + 1
      requires written == before + [inDesc.(option := o)]
      modifies out, `written
      ensures Ready() && Rest() == old(Rest())
      ensures written == before + [Set(inDesc, Marked(o, mark), interval)]
    {
      hide Values;
      if setDesc < out.Length {
        var d := out[setDesc];
        out[setDesc] := d.(minimum := Stored(d.kind, interval.base), maximum := Stored(d.kind, interval.limit),
                           option := d.option | mark);
      }
      written := before + [Set(inDesc, Marked(o, mark), interval)];
    }

    /** Starts at the head of a list. */
    method Start(ranges: RangeList?, pending: bool)
      requires Tracks() && (ranges != null ==> ranges.Valid())
      modifies this
      ensures Ready() && list == ranges && anotherListPending == pending
      ensures Rest() == Ranges(ranges) && inDesc == old(inDesc) && descOpt == old(descOpt) && written == old(written)
    {
      hide Values;
      currentPosition := if ranges == null then null else ranges.head;
      anotherListPending := pending;
      list, pos := ranges, 0;
    }

    /** Emits the next descriptor, if there is one. */
    method EmitNext(mark: bv8) returns (found: bool)
      requires Ready() && (anotherListPending || mark == 0)
      modifies this, out
      ensures Ready() && anotherListPending == old(anotherListPending) && inDesc == old(inDesc)
      ensures written + Todo(mark) == old(written + Todo(mark))
      ensures anotherListPending ==>
                OptionAfter(inDesc, descOpt, Rest()) == old(OptionAfter(inDesc, descOpt, Rest()))
      ensures |Rest()| <= |old(Rest())|
      ensures found ==> |Rest()| < |old(Rest())| || (!IsAlternative(old(descOpt)) && IsAlternative(descOpt))
      ensures found ==> IsAlternative(descOpt)
      ensures !found ==> Rest() == [] && Todo(mark) == [] && descOpt == old(descOpt)
    {
      hide Cursor.Ready, Cursor.Rest, Pending, OptionAfter, Marked, Following, IsAlternative, Set;
      ghost var w, o := written, descOpt;
      OptionBits(o);
      var setDesc;
      found, setDesc := GetNextSupportedRange(inDesc.minimum, inDesc.maximum, mark);
      if found {
        FillIn(setDesc, mark, w, o);
        ghost var x := [Set(inDesc, Marked(o, mark), interval)];
        assert (w + x) + Todo(mark) == w + (x + Todo(mark));
      }
    }

    /** Emits everything for one list. */
    method Drain(ranges: RangeList?, mark: bv8, pending: bool)
      requires Tracks() && (ranges != null ==> ranges.Valid())
      requires pending || mark == 0
      modifies this, out
      ensures Tracks() && inDesc == old(inDesc)
      ensures written == old(written + Pending(inDesc, descOpt, Ranges(ranges), mark, pending))
      ensures pending ==> descOpt == old(OptionAfter(inDesc, descOpt, Ranges(ranges)))
    {
      hide Cursor.Ready, Cursor.Rest, Pending, OptionAfter, Marked, Following, IsAlternative, Set;
      Start(ranges, pending);
      ghost var total := old(written) + Todo(mark);
      var found := true;
      while found
        invariant Ready() && anotherListPending == pending && inDesc == old(inDesc)
        invariant written + Todo(mark) == total
        invariant pending ==> OptionAfter(inDesc, descOpt, Rest()) == old(OptionAfter(inDesc, descOpt, Ranges(ranges)))
        invariant !found ==> Rest() == [] && Todo(mark) == []
        decreases |Rest()|, if IsAlternative(descOpt) then 0 else 1, found
      {
        found := EmitNext(mark);
      }
      EndStep(inDesc, descOpt, mark, pending);
      ReadyTracks();
    }

    lemma ReadyTracks()
      requires Ready()
      ensures Tracks()
    {
    }

    /** Emits everything for one descriptor. */
    method EmitDescriptor(d: Descriptor, s: Supported, interrupt: RangeList?)
      requires Tracks() && s.Valid() && (interrupt != null ==> interrupt.Valid())
      requires d.kind != Unknown
      modifies this, out
      ensures Tracks()
      ensures written == old(written) + old(Emitted(d, BusesOf(s, interrupt)))
    {
      hide Closing, Clips, OptionAfter, RangeList.Valid, RangeList.Contents;
      inDesc := d;
      descOpt := d.option;
      match d.kind {
        case Port => Drain(s.io, 0, false);
        case Interrupt => Drain(interrupt, 0, false);
        case Memory =>
          if d.flags & PREFETCHABLE != 0 {
            Drain(s.prefetchMemory, PREFERRED, true);
          }
          Drain(s.memory, 0, false);
        case Dma => Drain(s.dma, 0, false);
      }
    }

    /** Emits everything for one resource list. */
    method EmitList(ds: seq<Descriptor>, s: Supported, interrupt: RangeList?, ghost b: Buses)
      requires Tracks() && s.Valid() && (interrupt != null ==> interrupt.Valid())
      requires b == BusesOf(s, interrupt) && forall d | d in ds :: d.kind != Unknown
      modifies this, out
      ensures Tracks() && s.Valid() && (interrupt != null ==> interrupt.Valid())
      ensures BusesOf(s, interrupt) == b
      ensures written == old(written) + AllEmitted(ds, b)
    {
      hide Emitted, RangeList.Valid, RangeList.Contents;
      for k := 0 to |ds|
        invariant Tracks() && s.Valid() && (interrupt != null ==> interrupt.Valid())
        invariant b == BusesOf(s, interrupt)
        invariant written == old(written) + AllEmitted(ds[..k], b)
      {
        AllEmittedPrefix(ds, k, b);
        ghost var w := AllEmitted(ds[..k], b);
        EmitDescriptor(ds[k], s, interrupt);
        assert (old(written) + w) + Emitted(ds[k], b) == old(written) + (w + Emitted(ds[k], b));
      }
      assert ds[..|ds|] == ds;
    }
  }

  ghost function BusesOf(s: Supported, interrupt: RangeList?): Buses
    requires s.Valid() && (interrupt != null ==> interrupt.Valid())
    reads s.Repr(), interrupt, if interrupt == null then {} else interrupt.repr
  {
    Buses(s.io.Contents(), s.memory.Contents(), s.prefetchMemory.Contents(), s.dma.Contents(), Ranges(interrupt))
  }

  ghost function Ranges(list: RangeList?): seq<Range>
    requires list != null ==> list.Valid()
    reads list, if list == null then {} else list.repr
  {
    if list == null then [] else list.Contents()
  }

  /** The first pass over one list: what its descriptors add to the count. */
  method CountList(ds: seq<Descriptor>, n: Counts) returns (ok: bool, i: int)
    ensures ok == forall d | d in ds :: d.kind != Unknown
    ensures ok ==> i == CountedAll(ds, n) - |ds| && CountedByKind(ds, n, i + |ds|)
  {
    i := 0;
    for cnt := 0 to |ds|
      invariant forall d | d in ds[..cnt] :: d.kind != Unknown
      invariant i == CountedAll(ds[..cnt], n) - cnt
    {
      var d := ds[cnt];
      assert d in ds && ds[..cnt + 1][..cnt] == ds[..cnt];
      match d.kind {
        case Interrupt => i := i + n.interrupt;
        case Port => i := i + n.io;
        case Dma => i := i + n.dma;
        case Memory =>
          i := i + n.memory;
          if d.flags & PREFETCHABLE != 0 {
            i := i + n.prefetch;
          }
        case Unknown => return false, i;
      }
      i := i - 1;
    }
    assert ds[..|ds|] == ds;
    CountedAllByKind(ds, n);
    ok := true;
  }

  /** The first pass: checks the lists and counts how many more descriptors the
      output may have than the input. */
  method CountRoom(request: seq<ResourceList>, n: Counts) returns (ok: bool, i: int)
    ensures ok == WellFormed(request)
    ensures ok ==>
              && |Flat(request)| + i == 1 + CountedAll(Flat(request), n)
              && CountedByKind(Flat(request), n, |Flat(request)| + i - 1)
  {
    hide CountedAll, CountedByKind, Flat;
    FlatCountOfNone(n);
    assert request[..0] == [];
    i := 1;
    for alt := 0 to |request|
      invariant forall l | l in request[..alt] :: ValidList(l)
      invariant |Flat(request[..alt])| + i == 1 + CountedAll(Flat(request[..alt]), n)
    {
      var l := request[alt];
      assert l in request;
      if l.version != 1 || l.revision < 1 {
        return false, i;
      }
      var added;
      ok, added := CountList(l.descriptors, n);
      if !ok {
        return false, i;
      }
      i := i + added;
      CountedConcat(Flat(request[..alt]), l.descriptors, n);
      FlatOneMore(request, alt);
    }
    assert request[..|request|] == request;
    CountedAllByKind(Flat(request), n);
    ok := true;
  }

  /** The second pass: rewrites every list into one buffer of the counted
      size; fails if it writes behind the buffer, which it does exactly if the
      descriptors of the whole request do not fit. */
  method Rewrite(request: seq<ResourceList>, s: Supported, interrupt: RangeList?, room: nat, ghost b: Buses)
    returns (fits: bool, lists: seq<ResourceList>)
    requires s.Valid() && (interrupt != null ==> interrupt.Valid()) && b == BusesOf(s, interrupt)
    requires WellFormed(request)
    ensures fits <==> |AllEmitted(Flat(request), b)| <= room
    ensures fits ==> |lists| == |request|
    ensures fits ==>
              forall k | 0 <= k < |request| :: lists[k] == ResourceList(1, 1, AllEmitted(request[k].descriptors, b))
  {
    hide RangeList.Valid, RangeList.Contents, AllEmitted, Flat;
    var pos := new Cursor(room);
    lists := [];
    FlatOfNone(b);
    assert request[..0] == [];
    for alt := 0 to |request|
      invariant fresh(pos) && fresh(pos.out) && pos.out.Length == room && pos.Tracks() && pos.outDesc <= room
      invariant s.Valid() && (interrupt != null ==> interrupt.Valid()) && b == BusesOf(s, interrupt)
      invariant pos.written == AllEmitted(Flat(request[..alt]), b)
      invariant |lists| == alt
      invariant forall k | 0 <= k < alt :: lists[k] == ResourceList(1, 1, AllEmitted(request[k].descriptors, b))
    {
      assert request[alt] in request;
      RewriteStep(request, alt, b);
      var headOutDesc := pos.outDesc;
      pos.EmitList(request[alt].descriptors, s, interrupt, b);
      if pos.outDesc > pos.out.Length {
        return false, lists;
      }
      assert pos.out[headOutDesc..pos.outDesc] == pos.written[headOutDesc..];
      lists := lists + [ResourceList(1, 1, pos.out[headOutDesc..pos.outDesc])];
    }
    assert request[..|request|] == request;
    fits := true;
  }

  /** What is recorded or counted for the lists: the recorded counts if the
      ranges are marked as sorted, else the lengths. */
  ghost function CountsOf(s: Supported, interrupt: RangeList?): Counts
    requires s.Valid() && (interrupt != null ==> interrupt.Valid())
    reads s, s.Repr(), interrupt, if interrupt == null then {} else interrupt.repr
  {
    if s.sorted then Counts(s.noIO, s.noMemory, s.noPrefetchMemory, s.noDma, |Ranges(interrupt)|)
    else Counts(|s.Value().io|, |s.Value().memory|, |s.Value().prefetch|, |s.Value().dma|, |Ranges(interrupt)|)
  }

  /** A list that shares nothing with a bus's supported ranges. */
  ghost predicate Outside(list: RangeList, s: Supported)
    reads list, s.io, s.memory, s.prefetchMemory, s.dma
  {
    list !in s.Repr() && forall x | x in list.repr :: x !in s.Repr()
  }

  /** Sorts and counts the interrupt ranges, which are apart from the others. */
  method SortInterrupts(s: Supported, interrupt: RangeList?) returns (icnt: nat)
    requires s.Valid() && (interrupt != null ==> interrupt.Valid() && Outside(interrupt, s))
    modifies if interrupt == null then {} else interrupt.repr`range
    ensures s.Valid() && s.Value() == old(s.Value())
    ensures interrupt != null ==> interrupt.Valid() && SortedDown(old(interrupt.Contents()), interrupt.Contents())
    ensures icnt == |Ranges(interrupt)| == |old(Ranges(interrupt))| && (interrupt != null <==> icnt > 0)
  {
    hide RangeList.Contents, SortedDown, Values, Distinct;
    icnt := 0;
    if interrupt != null {
      icnt := interrupt.SortRanges();
      SortedDownLength(old(interrupt.Contents()), interrupt.Contents());
    }
  }

  /** Sorts the supported ranges, if they are not sorted yet, and the interrupt
      ranges, and counts them. */
  method SortSources(s: Supported, interrupt: RangeList?) returns (n: Counts, ghost b: Buses)
    requires s.Valid() && (interrupt != null ==> interrupt.Valid() && Outside(interrupt, s))
    modifies s, s.Repr(), if interrupt == null then {} else interrupt.repr
    ensures s.Valid() && (interrupt != null ==> interrupt.Valid()) && b == BusesOf(s, interrupt)
    ensures BusSorted(old(s.Value()), s.Value()) && s.sorted
    ensures interrupt != null ==> SortedDown(old(interrupt.Contents()), interrupt.Contents())
    ensures n == old(CountsOf(s, interrupt)) && HaveHeads(b) && (interrupt != null <==> b.interrupt != [])
    ensures old(s.Counted()) ==> Suffices(n, b)
  {
    hide RangeList.Valid, RangeList.Contents, SortedDown, BusSorted, Values, Distinct;
    s.SortOnce();
    var icnt := SortInterrupts(s, interrupt);
    b := BusesOf(s, interrupt);
    n := Counts(s.noIO, s.noMemory, s.noPrefetchMemory, s.noDma, icnt);
  }

  /** The request with every list rewritten. */
  ghost function Adjusted(request: seq<ResourceList>, b: Buses): seq<ResourceList> {
    seq(|request|, k requires 0 <= k < |request| => ResourceList(1, 1, AllEmitted(request[k].descriptors, b)))
  }

  datatype Status = Success | InvalidParameter | Overrun

  /** The two passes over a request, for sorted ranges. */
  method AdjustSorted(s: Supported, interrupt: RangeList?, request: seq<ResourceList>, n: Counts, ghost b: Buses)
    returns (status: Status, lists: seq<ResourceList>)
    requires s.Valid() && (interrupt != null ==> interrupt.Valid()) && b == BusesOf(s, interrupt) && HaveHeads(b)
    ensures status == InvalidParameter <==> !WellFormed(request)
    ensures status != InvalidParameter ==>
              && (status == Overrun <==> !Fits(Flat(request), n, b))
              && (Suffices(n, b) && (b.interrupt != [] || LoneInterrupts(Flat(request)) <= 1) ==> status == Success)
    ensures status == Success ==> lists == Adjusted(request, b)
  {
    hide RangeList.Valid, RangeList.Contents, AllEmitted, LoneInterrupts, CountedAll, CountedByKind;
    var ok, i := CountRoom(request, n);
    if !ok {
      return InvalidParameter, [];
    }
    FlatKinds(request);
    if Suffices(n, b) && (b.interrupt != [] || LoneInterrupts(Flat(request)) <= 1) {
      OutputFits(Flat(request), n, b);
    }
    var fits;
    fits, lists := Rewrite(request, s, interrupt, |Flat(request)| + i, b);
    status := if fits then Success else Overrun;
  }

  /** Adjusts a request to the supported ranges; `b` is what they are when it
      returns, sorted even if the request is refused. The buffer is overrun exactly if the rewritten request does not
      fit into the room that the counts give. */
  method AdjustResourceListRange(s: Supported?, interrupt: RangeList?, request: seq<ResourceList>)
    returns (status: Status, lists: seq<ResourceList>, ghost b: Buses)
    requires s != null ==> s.Valid()
    requires interrupt != null ==> interrupt.Valid() && (s != null ==> Outside(interrupt, s))
    modifies s, if s == null then {} else s.Repr(), if interrupt == null then {} else interrupt.repr
    ensures status == InvalidParameter <==>
            s == null || old(s.version) != BUS_SUPPORTED_RANGE_VERSION || !WellFormed(request)
    ensures s != null && old(s.version) == BUS_SUPPORTED_RANGE_VERSION ==>
              && s.Valid() && (interrupt != null ==> interrupt.Valid()) && b == BusesOf(s, interrupt)
              && BusSorted(old(s.Value()), s.Value()) && s.sorted
              && (interrupt != null ==> SortedDown(old(interrupt.Contents()), interrupt.Contents()))
              && HaveHeads(b) && (interrupt != null <==> b.interrupt != [])
    ensures status != InvalidParameter ==>
              && (status == Overrun <==> !Fits(Flat(request), old(CountsOf(s, interrupt)), b))
              && (old(s.Counted()) && (interrupt != null || LoneInterrupts(Flat(request)) <= 1) ==> status == Success)
    ensures status == Success ==> lists == Adjusted(request, b)
  {
    hide RangeList.Valid, RangeList.Contents, SortedDown, BusSorted, WellFormed, Flat, Fits, LoneInterrupts, CountsOf,
         Supported.Counted, Outside, Adjusted;
    b := Buses([], [], [], [], []);
    if s == null || s.version != BUS_SUPPORTED_RANGE_VERSION {
      return InvalidParameter, [], b;
    }
    var n;
    n, b := SortSources(s, interrupt);
    status, lists := AdjustSorted(s, interrupt, request, n, b);
  }

  /** What the caller gets, in terms of the ranges it passed in: the sort does
      not show. The descriptors emitted for a descriptor that the bus supports
      any part of allow exactly the supported part. For any other descriptor
      nothing is emitted if it is an alternative, else one that is impossible
      unless it starts at the smallest address. */
  lemma AdjustMeaning(was: Buses, b: Buses, d: Descriptor, a: int)
    requires BusSorted(Bus(was.io, was.memory, was.prefetch, was.dma), Bus(b.io, b.memory, b.prefetch, b.dma))
    requires b.interrupt == was.interrupt || SortedDown(was.interrupt, b.interrupt)
    requires WellTyped(d)
    ensures PartlySupported(was, d) ==>
              (Allows(Emitted(d, b), a) <==> d.minimum <= a <= d.maximum && Supports(was, d, a))
    ensures !PartlySupported(was, d) ==>
              && |Emitted(d, b)| == (if IsAlternative(d.option) then 0 else 1)
              && (forall e | e in Emitted(d, b) :: e.minimum > e.maximum <==> d.minimum != MIN_INT64)
  {
    hide Emitted, Allows, Covers, SortedDown;
    forall x: int ensures Supports(b, d, x) <==> Supports(was, d, x) {
      BusSortedCovers(Bus(was.io, was.memory, was.prefetch, was.dma), Bus(b.io, b.memory, b.prefetch, b.dma), x);
      if b.interrupt != was.interrupt {
        SortedDownCovers(was.interrupt, b.interrupt, x);
      }
    }
    assert PartlySupported(was, d) <==> PartlySupported(b, d);
    if PartlySupported(b, d) {
      EmittedIsIntersection(d, b, a);
    } else {
      EmittedIsImpossible(d, b);
    }
  }
}
