/** A bus's supported ranges (hals/rangesup.c): one range list each for I/O
    ports, memory, prefetchable memory and DMA channels, and the operations on
    all four lists. */
module SupportedRanges {
  import opened RangeAlgebra
  import opened RangeLists

  const BUS_SUPPORTED_RANGE_VERSION := 1
  const BLANK := Range(Target(0, 0), NOTHING_BASE, NOTHING_LIMIT)

  /** The four lists as values. */
  datatype Bus = Bus(io: seq<Range>, memory: seq<Range>, prefetch: seq<Range>, dma: seq<Range>)

  ghost predicate NonEmpty(b: Bus) {
    b.io != [] && b.memory != [] && b.prefetch != [] && b.dma != []
  }

  /** The numbers of entries of the four lists. */
  datatype Sizes = Sizes(io: nat, memory: nat, prefetch: nat, dma: nat) {
    predicate NotAbove(x: Sizes) {
      io <= x.io && memory <= x.memory && prefetch <= x.prefetch && dma <= x.dma
    }
  }

  function Lengths(b: Bus): Sizes {
    Sizes(|b.io|, |b.memory|, |b.prefetch|, |b.dma|)
  }

  class Supported {
    const io: RangeList
    const memory: RangeList
    const prefetchMemory: RangeList
    const dma: RangeList
    var version: nat
    var sorted: bool
    var noIO: nat
    var noMemory: nat
    var noPrefetchMemory: nat
    var noDma: nat

    ghost function Repr(): set<object>
      reads io, memory, prefetchMemory, dma
    {
      {io, memory, prefetchMemory, dma} + io.repr + memory.repr + prefetchMemory.repr + dma.repr
    }

    ghost predicate Valid()
      reads Repr()
    {
      && io.Valid() && memory.Valid() && prefetchMemory.Valid() && dma.Valid()
      && io.Apart(memory) && io.Apart(prefetchMemory) && io.Apart(dma)
      && memory.Apart(prefetchMemory) && memory.Apart(dma) && prefetchMemory.Apart(dma)
    }

    ghost function Value(): (b: Bus)
      requires Valid()
      reads Repr()
      ensures NonEmpty(b)
    {
      Bus(io.Contents(), memory.Contents(), prefetchMemory.Contents(), dma.Contents())
    }

    constructor (io: RangeList, memory: RangeList, prefetchMemory: RangeList, dma: RangeList)
      ensures this.io == io && this.memory == memory
      ensures this.prefetchMemory == prefetchMemory && this.dma == dma
      ensures version == BUS_SUPPORTED_RANGE_VERSION && !sorted
    {
      this.io, this.memory, this.prefetchMemory, this.dma := io, memory, prefetchMemory, dma;
      version := BUS_SUPPORTED_RANGE_VERSION;
      sorted, noIO, noMemory, noPrefetchMemory, noDma := false, 0, 0, 0, 0;
    }

    method RemoveIo(x: Supported)
      requires Valid() && x.Valid() && Repr() !! x.Repr()
      modifies Repr()
      ensures unchanged(this)
      ensures Valid() && fresh(Repr() - old(Repr()))
      ensures x.Valid() && Repr() !! x.Repr() && x.Value() == old(x.Value())
      ensures Value() == old(Value()).(io := RemovedAll(old(Value().io), old(x.Value().io)))
    {
      hide RangeList.Valid, RangeList.Contents, RemovedAll, Values;
      io.RemoveRangeList(x.io);
    }

    method RemoveDma(x: Supported)
      requires Valid() && x.Valid() && Repr() !! x.Repr()
      modifies Repr()
      ensures unchanged(this)
      ensures Valid() && fresh(Repr() - old(Repr()))
      ensures x.Valid() && Repr() !! x.Repr() && x.Value() == old(x.Value())
      ensures Value() == old(Value()).(dma := RemovedAll(old(Value().dma), old(x.Value().dma)))
    {
      hide RangeList.Valid, RangeList.Contents, RemovedAll, Values;
      dma.RemoveRangeList(x.dma);
    }

    method RemoveMemory(x: Supported)
      requires Valid() && x.Valid() && Repr() !! x.Repr()
      modifies Repr()
      ensures unchanged(this)
      ensures Valid() && fresh(Repr() - old(Repr()))
      ensures x.Valid() && Repr() !! x.Repr() && x.Value() == old(x.Value())
      ensures Value() == old(Value()).(memory := RemovedAll(old(Value().memory), old(x.Value().memory)))
    {
      hide RangeList.Valid, RangeList.Contents, RemovedAll, Values;
      memory.RemoveRangeList(x.memory);
    }

    method RemovePrefetchFromMemory(x: Supported)
      requires Valid() && x.Valid() && Repr() !! x.Repr()
      modifies Repr()
      ensures unchanged(this)
      ensures Valid() && fresh(Repr() - old(Repr()))
      ensures x.Valid() && Repr() !! x.Repr() && x.Value() == old(x.Value())
      ensures Value() == old(Value()).(memory := RemovedAll(old(Value().memory), old(x.Value().prefetch)))
    {
      hide RangeList.Valid, RangeList.Contents, RemovedAll, Values;
      memory.RemoveRangeList(x.prefetchMemory);
    }

    method RemovePrefetch(x: Supported)
      requires Valid() && x.Valid() && Repr() !! x.Repr()
      modifies Repr()
      ensures unchanged(this)
      ensures Valid() && fresh(Repr() - old(Repr()))
      ensures x.Valid() && Repr() !! x.Repr() && x.Value() == old(x.Value())
      ensures Value() == old(Value()).(prefetch := RemovedAll(old(Value().prefetch), old(x.Value().prefetch)))
    {
      hide RangeList.Valid, RangeList.Contents, RemovedAll, Values;
      prefetchMemory.RemoveRangeList(x.prefetchMemory);
    }

    method RemoveMemoryFromPrefetch(x: Supported)
      requires Valid() && x.Valid() && Repr() !! x.Repr()
      modifies Repr()
      ensures unchanged(this)
      ensures Valid() && fresh(Repr() - old(Repr()))
      ensures x.Valid() && Repr() !! x.Repr() && x.Value() == old(x.Value())
      ensures Value() == old(Value()).(prefetch := RemovedAll(old(Value().prefetch), old(x.Value().memory)))
    {
      hide RangeList.Valid, RangeList.Contents, RemovedAll, Values;
      prefetchMemory.RemoveRangeList(x.memory);
    }

    /** Removes the other bus's ranges; memory and prefetchable memory are both
        removed from both. The lists never get shorter, and the mark and the
        recorded counts stay as they are; so counts that were exact still suffice
        if and only if no list got longer. */
    method RemoveRanges(subtrahend: Supported)
      requires Valid() && subtrahend.Valid() && Repr() !! subtrahend.Repr()
      modifies Repr()
      ensures Valid() && fresh(Repr() - old(Repr()))
      ensures subtrahend.Valid() && Repr() !! subtrahend.Repr() && subtrahend.Value() == old(subtrahend.Value())
      ensures Value() == BusRemoved(old(Value()), old(subtrahend.Value()))
      ensures unchanged(this) && Lengths(old(Value())).NotAbove(Lengths(Value()))
      ensures sorted && Recorded() == Lengths(old(Value())) ==> (Counted() <==> Lengths(Value()) == Lengths(old(Value())))
    {
      hide Supported.Valid, Supported.Value, Supported.Repr, RemovedAll;
      RemovedLengths(Value(), subtrahend.Value());
      RemoveIo(subtrahend);
      label L1:
      RemoveDma(subtrahend);
      forall o | o in Repr() && o !in old(Repr()) ensures fresh(o) { assert o in old@L1(Repr()) || fresh@L1(o); }
      label L2:
      RemoveMemory(subtrahend);
      forall o | o in Repr() && o !in old(Repr()) ensures fresh(o) { assert o in old@L2(Repr()) || fresh@L2(o); }
      label L3:
      RemovePrefetchFromMemory(subtrahend);
      forall o | o in Repr() && o !in old(Repr()) ensures fresh(o) { assert o in old@L3(Repr()) || fresh@L3(o); }
      label L4:
      RemovePrefetch(subtrahend);
      forall o | o in Repr() && o !in old(Repr()) ensures fresh(o) { assert o in old@L4(Repr()) || fresh@L4(o); }
      label L5:
      RemoveMemoryFromPrefetch(subtrahend);
      forall o | o in Repr() && o !in old(Repr()) ensures fresh(o) { assert o in old@L5(Repr()) || fresh@L5(o); }
    }

    /** If the lists are marked as sorted, the recorded counts suffice. */
    ghost predicate Counted()
      requires Valid()
      reads this, Repr()
    {
      sorted ==> Lengths(Value()).NotAbove(Recorded())
    }

    ghost function Recorded(): Sizes
      reads this
    {
      Sizes(noIO, noMemory, noPrefetchMemory, noDma)
    }

    method SortIo()
      requires Valid()
      modifies `noIO, Repr()
      ensures unchanged(`version, `sorted, `noMemory, `noPrefetchMemory, `noDma)
      ensures Valid() && Repr() == old(Repr()) && noIO == |Value().io| == |old(Value().io)|
      ensures Value() == old(Value()).(io := Value().io)
      ensures SortedDown(old(Value().io), Value().io)
    {
      hide RangeList.Valid, RangeList.Contents, SortedDown, Values;
      noIO := io.SortRanges();
      SortedDownLength(old(Value().io), Value().io);
    }

    method SortMemory()
      requires Valid()
      modifies `noMemory, Repr()
      ensures unchanged(`version, `sorted, `noIO, `noPrefetchMemory, `noDma)
      ensures Valid() && Repr() == old(Repr()) && noMemory == |Value().memory| == |old(Value().memory)|
      ensures Value() == old(Value()).(memory := Value().memory)
      ensures SortedDown(old(Value().memory), Value().memory)
    {
      hide RangeList.Valid, RangeList.Contents, SortedDown, Values;
      noMemory := memory.SortRanges();
      SortedDownLength(old(Value().memory), Value().memory);
    }

    method SortPrefetch()
      requires Valid()
      modifies `noPrefetchMemory, Repr()
      ensures unchanged(`version, `sorted, `noIO, `noMemory, `noDma)
      ensures Valid() && Repr() == old(Repr()) && noPrefetchMemory == |Value().prefetch| == |old(Value().prefetch)|
      ensures Value() == old(Value()).(prefetch := Value().prefetch)
      ensures SortedDown(old(Value().prefetch), Value().prefetch)
    {
      hide RangeList.Valid, RangeList.Contents, SortedDown, Values;
      noPrefetchMemory := prefetchMemory.SortRanges();
      SortedDownLength(old(Value().prefetch), Value().prefetch);
    }

    method SortDma()
      requires Valid()
      modifies `noDma, Repr()
      ensures unchanged(`version, `sorted, `noIO, `noMemory, `noPrefetchMemory)
      ensures Valid() && Repr() == old(Repr()) && noDma == |Value().dma| == |old(Value().dma)|
      ensures Value() == old(Value()).(dma := Value().dma)
      ensures SortedDown(old(Value().dma), Value().dma)
    {
      hide RangeList.Valid, RangeList.Contents, SortedDown, Values;
      noDma := dma.SortRanges();
      SortedDownLength(old(Value().dma), Value().dma);
    }

    method MarkSorted()
      requires Valid()
      modifies `sorted
      ensures sorted && Valid() && Repr() == old(Repr()) && Value() == old(Value())
    {
      hide RangeList.Valid, RangeList.Contents, Values;
      sorted := true;
    }

    /** Sorts and counts the lists, once: lists that are marked as sorted are
        left alone, with the counts recorded for them. */
    method SortOnce()
      requires Valid()
      modifies this, Repr()
      ensures Valid() && Repr() == old(Repr()) && sorted && version == old(version)
      ensures BusSorted(old(Value()), Value())
      ensures Recorded() == if old(sorted) then old(Recorded()) else Lengths(old(Value()))
      ensures old(sorted) ==> Value() == old(Value())
      ensures old(Counted()) ==> Counted()
    {
      hide Supported.Valid, Supported.Value, Supported.Repr, SortedDown;
      if !sorted {
        SortIo();
        SortMemory();
        SortPrefetch();
        SortDma();
        MarkSorted();
      }
    }

    /** Consolidates all four lists. No list gets longer and the mark and the
        recorded counts stay, so counts that sufficed still do. */
    method ConsolidateRanges()
      requires Valid()
      modifies Repr()
      ensures Valid() && Repr() == old(Repr())
      ensures BusConsolidated(old(Value()), Value())
      ensures unchanged(this) && Lengths(Value()).NotAbove(Lengths(old(Value())))
      ensures old(Counted()) ==> Counted()
    {
      hide RangeList.Valid, RangeList.Contents, Sorted, Consolidated, Values, ConsolidatedFrom;
      io.Consolidate();
      memory.Consolidate();
      prefetchMemory.Consolidate();
      dma.Consolidate();
      ConsolidatedLengths(old(Value()), Value());
    }
  }

  ghost function BusRemoved(b: Bus, x: Bus): Bus
    requires NonEmpty(b)
  {
    Bus(RemovedAll(b.io, x.io),
        RemovedAll(RemovedAll(b.memory, x.memory), x.prefetch),
        RemovedAll(RemovedAll(b.prefetch, x.prefetch), x.memory),
        RemovedAll(b.dma, x.dma))
  }

  ghost predicate BusConsolidated(was: Bus, now: Bus) {
    && ConsolidatedFrom(was.io, now.io) && ConsolidatedFrom(was.memory, now.memory)
    && ConsolidatedFrom(was.prefetch, now.prefetch) && ConsolidatedFrom(was.dma, now.dma)
  }

  lemma RemovedLengths(b: Bus, x: Bus)
    requires NonEmpty(b)
    ensures Lengths(b).NotAbove(Lengths(BusRemoved(b, x)))
  {
    RemovedNotShorter(b.io, x.io);
    RemovedNotShorter(b.memory, x.memory);
    RemovedNotShorter(RemovedAll(b.memory, x.memory), x.prefetch);
    RemovedNotShorter(b.prefetch, x.prefetch);
    RemovedNotShorter(RemovedAll(b.prefetch, x.prefetch), x.memory);
    RemovedNotShorter(b.dma, x.dma);
  }

  lemma ConsolidatedLengths(was: Bus, now: Bus)
    requires BusConsolidated(was, now)
    ensures Lengths(now).NotAbove(Lengths(was))
  {
    ConsolidatedNotLonger(was.io, now.io);
    ConsolidatedNotLonger(was.memory, now.memory);
    ConsolidatedNotLonger(was.prefetch, now.prefetch);
    ConsolidatedNotLonger(was.dma, now.dma);
  }

  /** Each list is as it was or sorted into descending order. */
  ghost predicate BusSorted(was: Bus, now: Bus) {
    now == was || (&& SortedDown(was.io, now.io) && SortedDown(was.memory, now.memory)
                   && SortedDown(was.prefetch, now.prefetch) && SortedDown(was.dma, now.dma))
  }

  lemma BusSortedCovers(was: Bus, now: Bus, a: int)
    requires BusSorted(was, now)
    ensures (Covers(now.io, a) <==> Covers(was.io, a)) && (Covers(now.memory, a) <==> Covers(was.memory, a))
    ensures (Covers(now.prefetch, a) <==> Covers(was.prefetch, a)) && (Covers(now.dma, a) <==> Covers(was.dma, a))
  {
    if now != was {
      SortedDownCovers(was.io, now.io, a);
      SortedDownCovers(was.memory, now.memory, a);
      SortedDownCovers(was.prefetch, now.prefetch, a);
      SortedDownCovers(was.dma, now.dma, a);
    }
  }

  ghost function BusMerged(p: Bus, c: Bus): Bus {
    Bus(Merged(BLANK, p.io, c.io),
        Merged(BLANK, p.memory, c.memory),
        Merged(BLANK, Added(Added([BLANK], p.memory), p.prefetch), c.prefetch),
        Merged(BLANK, p.dma, c.dma))
  }

  /** A new list with all overlaps of a parent and a child list. */
  method MergedList(parent: RangeList, child: RangeList) returns (list: RangeList)
    requires parent.Valid() && child.Valid()
    ensures list.Valid() && fresh(list) && fresh(list.repr)
    ensures list.Contents() == Merged(BLANK, parent.Contents(), child.Contents())
  {
    hide RangeList.Valid, RangeList.Contents, Merged, Values;
    list := new RangeList();
    list.MergeRangeList(parent, child);
  }

  /** The same with the union of two parent lists. */
  method MergedWithUnion(parent1: RangeList, parent2: RangeList, child: RangeList) returns (list: RangeList)
    requires parent1.Valid() && parent2.Valid() && child.Valid()
    ensures list.Valid() && fresh(list) && fresh(list.repr)
    ensures list.Contents() ==
            Merged(BLANK, Added(Added([BLANK], parent1.Contents()), parent2.Contents()), child.Contents())
  {
    hide RangeList.Valid, RangeList.Contents, Added, Merged, Values;
    var list1 := new RangeList();
    list1.AddRangeList(parent1);
    list1.AddRangeList(parent2);
    list := MergedList(list1, child);
  }

  /** A new structure with all overlaps of a parent and a child bus. */
  method MergeRanges(parent: Supported, child: Supported) returns (list: Supported)
    requires parent.Valid() && child.Valid()
    ensures list.Valid() && fresh(list)
    ensures fresh(list.io.repr) && fresh(list.memory.repr) && fresh(list.prefetchMemory.repr) && fresh(list.dma.repr)
    ensures fresh(list.io) && fresh(list.memory) && fresh(list.prefetchMemory) && fresh(list.dma)
    ensures list.version == BUS_SUPPORTED_RANGE_VERSION && !list.sorted
    ensures list.Value() == BusMerged(old(parent.Value()), old(child.Value()))
  {
    hide RangeList.Valid, RangeList.Contents, Merged, Added, Values;
    var io := MergedList(parent.io, child.io);
    var dma := MergedList(parent.dma, child.dma);
    var memory := MergedList(parent.memory, child.memory);
    var prefetch := MergedWithUnion(parent.memory, parent.prefetchMemory, child.prefetchMemory);
    list := new Supported(io, memory, prefetch, dma);
  }

  // ----- What they mean

  /** After removal no memory address of the other bus is left in memory or
      prefetchable memory, and everything else is as it was. */
  lemma RemoveRangesMeaning(b: Bus, x: Bus, a: int, t: Target)
    requires NonEmpty(b)
    ensures var r := BusRemoved(b, x);
            && (Maps(r.io, a, t) <==> Maps(b.io, a, t) && !Covers(x.io, a))
            && (Maps(r.dma, a, t) <==> Maps(b.dma, a, t) && !Covers(x.dma, a))
            && (Maps(r.memory, a, t) <==> Maps(b.memory, a, t) && !Covers(x.memory, a) && !Covers(x.prefetch, a))
            && (Maps(r.prefetch, a, t) <==> Maps(b.prefetch, a, t) && !Covers(x.memory, a) && !Covers(x.prefetch, a))
  {
    RemoveAllIsDifference(b.io, x.io, a, t);
    RemoveAllIsDifference(b.dma, x.dma, a, t);
    RemoveAllIsDifference(b.memory, x.memory, a, t);
    RemoveAllIsDifference(RemovedAll(b.memory, x.memory), x.prefetch, a, t);
    RemoveAllIsDifference(b.prefetch, x.prefetch, a, t);
    RemoveAllIsDifference(RemovedAll(b.prefetch, x.prefetch), x.memory, a, t);
  }

  lemma CoversIsMaps(rs: seq<Range>, a: int)
    ensures Covers(rs, a) <==> exists t :: Maps(rs, a, t)
  {
    if Covers(rs, a) {
      var r :| r in rs && Contains(r, a);
      assert Maps(rs, a, r.target);
    }
  }

  lemma PrefetchParentCovers(p: Bus, a: int)
    ensures Covers(Added(Added([BLANK], p.memory), p.prefetch), a) <==> Covers(p.memory, a) || Covers(p.prefetch, a)
  {
    var u := Added([BLANK], p.memory);
    forall t: Target
      ensures Maps(Added(u, p.prefetch), a, t) <==> Maps(p.memory, a, t) || Maps(p.prefetch, a, t)
    {
      AddIsUnion([BLANK], p.memory, a, t);
      AddIsUnion(u, p.prefetch, a, t);
      MapsOne(BLANK, a, t);
    }
    CoversIsMaps(Added(u, p.prefetch), a);
    CoversIsMaps(p.memory, a);
    CoversIsMaps(p.prefetch, a);
  }

  /** A merge is the exact intersection with the child's translation; on the
      prefetchable side the parent counts with both kinds of memory. */
  lemma MergeRangesMeaning(p: Bus, c: Bus, a: int, t: Target)
    ensures var r := BusMerged(p, c);
            && (Maps(r.io, a, t) <==> Covers(p.io, a) && Maps(c.io, a, t))
            && (Maps(r.dma, a, t) <==> Covers(p.dma, a) && Maps(c.dma, a, t))
            && (Maps(r.memory, a, t) <==> Covers(p.memory, a) && Maps(c.memory, a, t))
            && (Maps(r.prefetch, a, t) <==>
                  (Covers(p.memory, a) || Covers(p.prefetch, a)) && Maps(c.prefetch, a, t))
  {
    MergeIsIntersection(BLANK, p.io, c.io, a, t);
    MergeIsIntersection(BLANK, p.dma, c.dma, a, t);
    MergeIsIntersection(BLANK, p.memory, c.memory, a, t);
    MergeIsIntersection(BLANK, Added(Added([BLANK], p.memory), p.prefetch), c.prefetch, a, t);
    PrefetchParentCovers(p, a);
  }
}
