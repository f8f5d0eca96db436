/** The static NUMA configuration (hals/halacpi/sratnuma.c): built from the
    Static Resource Affinity Table, section 5.2.16 of the ACPI specification,
    and asked for the node of a page or a processor. */
module Numa {
  import opened Words
  import opened NumaAlgebra

  const MAXIMUM_CCNUMA_NODES := 16

  /** The first entries of the two parallel arrays are those of `ks`. */
  ghost predicate Mirrors(ranges: array<nat>, node: array<nat>, ks: seq<Tagged>)
    reads ranges, node
  {
    && ranges != node && |ks| <= ranges.Length && |ks| <= node.Length
    && forall p | 0 <= p < |ks| :: ranges[p] == ks[p].desc.base && node[p] == ks[p].desc.prox
  }

  /** Exchanges two neighbours, keeping the domain in step with the base. */
  method Exchange(ranges: array<nat>, node: array<nat>, i: nat, ghost ks: seq<Tagged>)
    requires Mirrors(ranges, node, ks) && i + 1 < |ks|
    modifies ranges, node
    ensures Mirrors(ranges, node, SwapNext(ks, i))
  {
    var t := ranges[i];
    ranges[i] := ranges[i + 1];
    ranges[i + 1] := t;
    var td := node[i];
    node[i] := node[i + 1];
    node[i + 1] := td;
  }

  /** One pass of the bubble sort up to position `j`. */
  method BubblePass(ranges: array<nat>, node: array<nat>, j: u32, ghost before: seq<Tagged>)
    returns (swapped: bool, ghost ks: seq<Tagged>)
    requires Mirrors(ranges, node, before) && j < |before| && Settled(before, j) && Stable(before)
    modifies ranges, node
    ensures |ks| == |before| && Mirrors(ranges, node, ks) && multiset(ks) == multiset(before)
    ensures Settled(ks, j) && Stable(ks) && MaxAt(ks, j)
    ensures !swapped ==> SortedTo(ks, j)
    ensures swapped ==> j > 0
  {
    hide Stable, Settled, MaxAt, SortedTo, SwapNext;
    swapped, ks := false, before;
    PassStarts(ks);
    for i := 0 to j
      invariant |ks| == |before| && Mirrors(ranges, node, ks) && multiset(ks) == multiset(before)
      invariant Settled(ks, j) && Stable(ks) && MaxAt(ks, i)
      invariant !swapped ==> SortedTo(ks, i)
      invariant swapped ==> i > 0
    {
      BubbleStep(ks, i, j);
      if ranges[i] > ranges[i + 1] {
        swapped := true;
        Exchange(ranges, node, i, ks);
        ks := SwapNext(ks, i);
      }
    }
  }

  lemma PassStarts(ks: seq<Tagged>)
    requires ks != []
    ensures MaxAt(ks, 0) && SortedTo(ks, 0)
  {
  }

  /** Sorts the ranges by base, with their domains. The unsigned bound of the
      passes only wraps after the last one. */
  method SortMemory(ranges: array<nat>, node: array<nat>, count: u32, ghost ds: seq<Desc>) returns (ghost ks: seq<Tagged>)
    requires 0 < count == |ds| && Mirrors(ranges, node, Tags(ds))
    modifies ranges, node
    ensures Mirrors(ranges, node, ks) && StableOrder(ks, ds) && |ks| == |ds|
  {
    hide Settled, MaxAt, SortedTo, Mirrors;
    ks := Tags(ds);
    var j: u32 := count - 1;
    SortStarts(ks);
    var swapped := true;
    while swapped
      invariant |ks| == count && Mirrors(ranges, node, ks) && multiset(ks) == multiset(Tags(ds)) && Stable(ks)
      invariant swapped ==> j < count && Settled(ks, j)
      invariant !swapped ==> SortedTo(ks, |ks| - 1)
      decreases swapped, j
    {
      swapped, ks := BubblePass(ranges, node, j, ks);
      PassEnds(ks, j);
      j := if j == 0 then 0xFFFF_FFFF else j - 1;
    }
  }

  lemma SortStarts(ks: seq<Tagged>)
    requires ks != []
    ensures Settled(ks, |ks| - 1)
  {
  }

  /** Merges neighbours of one domain in place. */
  method MergeRuns(ranges: array<nat>, node: array<nat>, count: u32, ghost ks: seq<Tagged>)
    returns (merged: nat, ghost starts: seq<nat>)
    requires 0 < count == |ks| && Mirrors(ranges, node, ks)
    modifies ranges, node
    ensures 0 < merged <= count
    ensures Runs(ks, |ks|, starts, ranges[..merged], node[..merged])
  {
    hide Runs;
    var j := 0;
    starts := [0];
    RunsStart(ks);
    assert ranges[..1] == [ks[0].desc.base] && node[..1] == [ks[0].desc.prox];
    for i := 1 to count
      invariant 0 <= j < i
      invariant forall p | i <= p < |ks| :: ranges[p] == ks[p].desc.base && node[p] == ks[p].desc.prox
      invariant Runs(ks, i, starts, ranges[..j + 1], node[..j + 1])
    {
      ghost var rs, ns := ranges[..j + 1], node[..j + 1];
      if node[j] != node[i] {
        RunsBreak(ks, i, starts, rs, ns);
        j := j + 1;
        node[j] := node[i];
        ranges[j] := ranges[i];
        starts := starts + [i];
        assert ranges[..j + 1] == rs + [ks[i].desc.base] && node[..j + 1] == ns + [ks[i].desc.prox];
      } else {
        RunsAgree(ks, i, starts, rs, ns);
        RunsGo(ks, i, starts, rs, ns);
      }
    }
    merged := j + 1;
  }

  lemma RunsAgree(ks: seq<Tagged>, n: nat, starts: seq<nat>, rs: seq<nat>, ns: seq<nat>)
    requires n <= |ks| && Runs(ks, n, starts, rs, ns)
    ensures ns != []
  {
  }

  /** Puts the sentinel behind the bases and 0 in front. */
  method Terminate(ranges: array<nat>, count: nat, allOnes: nat)
    requires 0 < count < ranges.Length
    modifies ranges
    ensures ranges[..count + 1] == Table(old(ranges[..count]), allOnes)
  {
    ranges[count] := allOnes;
    ranges[0] := 0;
  }

  /** Replaces each domain by its place in the list of domains. */
  method ConvertDomains(node: array<nat>, count: nat, domains: seq<nat>)
    requires count <= node.Length
    requires forall i | 0 <= i < count :: node[i] in domains
    modifies node
    ensures forall i | 0 <= i < count :: node[i] < |domains| && domains[node[i]] == old(node[i])
  {
    for i := 0 to count
      invariant forall p | 0 <= p < i :: node[p] < |domains| && domains[node[p]] == old(node[p])
      invariant forall p | i <= p < count :: node[p] == old(node[p])
    {
      var j := 0;
      while j < |domains| && domains[j] != node[i]
        invariant 0 <= j <= |domains|
        invariant forall q | 0 <= q < j :: domains[q] != node[i]
      {
        j := j + 1;
      }
      assert node[i] == old(node[i]) && old(node[i]) in domains;
      node[i] := j;
    }
  }

  // ----- The table and what is taken from it

  datatype Kind = Memory(base: nat) | Processor(apicId: nat) | OtherKind

  datatype Entry = Entry(kind: Kind, enabled: bool, prox: nat)

  datatype Cpu = Cpu(apicId: nat, prox: nat)

  /** The proximity domains in order of first appearance. */
  function Domains(es: seq<Entry>): seq<nat> {
    if es == [] then []
    else
      var d, p := Domains(es[..|es| - 1]), es[|es| - 1].prox;
      if p in d then d else d + [p]
  }

  function Memories(es: seq<Entry>): seq<Desc> {
    if es == [] then []
    else
      var e := es[|es| - 1];
      Memories(es[..|es| - 1]) + if e.kind.Memory? && e.enabled then [Desc(e.kind.base, e.prox)] else []
  }

  function Cpus(es: seq<Entry>): seq<Cpu> {
    if es == [] then []
    else
      var e := es[|es| - 1];
      Cpus(es[..|es| - 1]) + if e.kind.Processor? && e.enabled then [Cpu(e.kind.apicId, e.prox)] else []
  }

  lemma {:induction false} ScanGrows(es: seq<Entry>, k: nat)
    requires k <= |es|
    ensures Domains(es[..k]) <= Domains(es)
    ensures Memories(es[..k]) <= Memories(es)
    ensures Cpus(es[..k]) <= Cpus(es)
    decreases |es| - k
  {
    if k == |es| {
      assert es[..k] == es;
    } else {
      ScanGrows(es, k + 1);
      assert es[..k + 1][..k] == es[..k];
    }
  }

  lemma TakenMore(es: seq<Entry>, e: Entry)
    ensures Domains(es + [e]) == if e.prox in Domains(es) then Domains(es) else Domains(es) + [e.prox]
    ensures Memories(es + [e]) == if EnabledMemory(e) then Memories(es) + [Desc(e.kind.base, e.prox)] else Memories(es)
    ensures Cpus(es + [e]) == if EnabledProcessor(e) then Cpus(es) + [Cpu(e.kind.apicId, e.prox)] else Cpus(es)
  {
    assert (es + [e])[..|es|] == es;
  }

  ghost predicate Distinct(xs: seq<nat>) {
    forall i, j | 0 <= i < j < |xs| :: xs[i] != xs[j]
  }

  lemma {:induction false} DomainsComplete(es: seq<Entry>)
    ensures Distinct(Domains(es))
    ensures forall d | d in Memories(es) :: d.prox in Domains(es)
    ensures forall c | c in Cpus(es) :: c.prox in Domains(es)
    decreases |es|
  {
    if es != [] {
      DomainsComplete(es[..|es| - 1]);
    }
  }

  /** The node number of a page: the place of its owner's domain. */
  ghost predicate NodeOfPage(ds: seq<Desc>, domains: seq<nat>, page: nat, n: nat) {
    n < |domains| && exists k: nat :: Owns(ds, page, k) && domains[n] == ds[k].prox
  }

  // What is taken, entry by entry.

  predicate EnabledMemory(e: Entry) {
    e.kind.Memory? && e.enabled
  }

  predicate EnabledProcessor(e: Entry) {
    e.kind.Processor? && e.enabled
  }

  /** The places of the entries that satisfy `f`, in table order. */
  ghost function Places(es: seq<Entry>, f: Entry -> bool): (at: seq<nat>)
    ensures |at| <= |es|
  {
    if es == [] then []
    else
      var n := |es| - 1;
      Places(es[..n], f) + if f(es[n]) then [n] else []
  }

  /** Each place is that of such an entry, later ones of later entries. */
  lemma {:induction false} PlaceIsTaken(es: seq<Entry>, f: Entry -> bool, i: nat)
    requires i < |Places(es, f)|
    ensures var at := Places(es, f);
            at[i] < |es| && f(es[at[i]]) && forall j | 0 <= j < i :: at[j] < at[i]
    decreases |es|
  {
    var n := |es| - 1;
    var was := Places(es[..n], f);
    if i < |was| {
      PlaceIsTaken(es[..n], f, i);
    } else {
      forall j | 0 <= j < i ensures Places(es, f)[j] < n {
        PlaceIsTaken(es[..n], f, j);
      }
    }
  }

  /** And each such entry has a place. */
  lemma {:induction false} TakenHasPlace(es: seq<Entry>, f: Entry -> bool, p: nat) returns (i: nat)
    requires p < |es| && f(es[p])
    ensures i < |Places(es, f)| && Places(es, f)[i] == p
    decreases |es|
  {
    var n := |es| - 1;
    if p < n {
      i := TakenHasPlace(es[..n], f, p);
    } else {
      i := |Places(es[..n], f)|;
    }
  }

  /** The descriptors are those of exactly the enabled memory entries, in table
      order. */
  lemma {:induction false} MemoriesAreEnabled(es: seq<Entry>, i: nat)
    ensures |Memories(es)| == |Places(es, EnabledMemory)|
    ensures i < |Memories(es)| ==>
              var p := Places(es, EnabledMemory)[i];
              && p < |es| && es[p].enabled && es[p].kind.Memory?
              && Memories(es)[i].base == es[p].kind.base && Memories(es)[i].prox == es[p].prox
    decreases |es|
  {
    if es != [] {
      MemoriesAreEnabled(es[..|es| - 1], i);
    }
  }

  /** And the processors are those of exactly the enabled processor entries. */
  lemma {:induction false} CpusAreEnabled(es: seq<Entry>, i: nat)
    ensures |Cpus(es)| == |Places(es, EnabledProcessor)|
    ensures i < |Cpus(es)| ==>
              var p := Places(es, EnabledProcessor)[i];
              && p < |es| && es[p].enabled && es[p].kind.Processor?
              && Cpus(es)[i].apicId == es[p].kind.apicId && Cpus(es)[i].prox == es[p].prox
    decreases |es|
  {
    if es != [] {
      CpusAreEnabled(es[..|es| - 1], i);
    }
  }

  ghost function DomainSet(es: seq<Entry>): set<nat> {
    set p | 0 <= p < |es| :: es[p].prox
  }

  lemma DomainSetGrows(es: seq<Entry>)
    requires es != []
    ensures DomainSet(es) == DomainSet(es[..|es| - 1]) + {es[|es| - 1].prox}
  {
    var n := |es| - 1;
    assert DomainSet(es) >= DomainSet(es[..n]) by {
      forall d | d in DomainSet(es[..n]) ensures d in DomainSet(es) {
        var p :| 0 <= p < n && es[..n][p].prox == d;
        assert es[p].prox == d;
      }
    }
    forall d | d in DomainSet(es) ensures d in DomainSet(es[..n]) + {es[n].prox} {
      var p :| 0 <= p < |es| && es[p].prox == d;
      assert p < n ==> es[..n][p].prox == d;
    }
  }

  /** Every domain of the table is listed, and listed once. */
  lemma {:induction false} DomainsAreAll(es: seq<Entry>)
    ensures forall d :: d in Domains(es) <==> d in DomainSet(es)
    ensures |Domains(es)| == |DomainSet(es)|
    decreases |es|
  {
    if es != [] {
      DomainsAreAll(es[..|es| - 1]);
      DomainSetGrows(es);
      hide DomainSet;
    }
  }

  /** Entry `p` is the first with this domain. */
  ghost predicate FirstWith(es: seq<Entry>, p: nat, d: nat) {
    p < |es| && es[p].prox == d && forall q | 0 <= q < p :: es[q].prox != d
  }

  /** The domains are listed in order of first appearance, in enabled entries or
      not. */
  lemma {:induction false} DomainsAppear(es: seq<Entry>, i: nat, j: nat, p: nat, q: nat)
    requires i < |Domains(es)| && j < |Domains(es)|
    requires FirstWith(es, p, Domains(es)[i]) && FirstWith(es, q, Domains(es)[j])
    ensures i < j <==> p < q
    decreases |es|
  {
    var n := |es| - 1;
    var ds := Domains(es[..n]);
    DomainsComplete(es);
    DomainsAreAll(es[..n]);
    if i < |ds| && j < |ds| {
      FirstEarlier(es, p, ds[i]);
      FirstEarlier(es, q, ds[j]);
      DomainsAppear(es[..n], i, j, p, q);
    } else if i < |ds| {
      FirstEarlier(es, p, ds[i]);
      FirstLast(es, q);
    } else if j < |ds| {
      FirstEarlier(es, q, ds[j]);
      FirstLast(es, p);
    }
  }

  lemma FirstEarlier(es: seq<Entry>, p: nat, d: nat)
    requires es != [] && FirstWith(es, p, d) && d in DomainSet(es[..|es| - 1])
    ensures FirstWith(es[..|es| - 1], p, d)
  {
    var n := |es| - 1;
    var q :| 0 <= q < n && es[..n][q].prox == d;
    assert es[q].prox == d;
    assert p < n;
  }

  lemma FirstLast(es: seq<Entry>, p: nat)
    requires es != [] && FirstWith(es, p, es[|es| - 1].prox) && es[|es| - 1].prox !in DomainSet(es[..|es| - 1])
    ensures p == |es| - 1
  {
    var n := |es| - 1;
    assert p < n ==> es[..n][p].prox in DomainSet(es[..n]);
  }

  /** The entry that owns a page, on the table itself: of the enabled memory
      entries at or below the page the one with the largest base, the latest of
      equals; if there is none, the enabled memory entry with the smallest base,
      the earliest of equals. */
  ghost predicate EntryOwns(es: seq<Entry>, page: nat, p: nat) {
    && p < |es| && es[p].kind.Memory? && es[p].enabled
    && if exists q: nat :: q < |es| && EnabledMemory(es[q]) && es[q].kind.base <= page
       then && es[p].kind.base <= page
            && forall q: nat | q < |es| && EnabledMemory(es[q]) && es[q].kind.base <= page ::
                 es[q].kind.base < es[p].kind.base || (es[q].kind.base == es[p].kind.base && q <= p)
       else forall q: nat | q < |es| && EnabledMemory(es[q]) ::
              es[p].kind.base < es[q].kind.base || (es[p].kind.base == es[q].kind.base && p <= q)
  }

  /** Entry `p` is to be preferred to `q`, when some or when no memory is at or
      below the page. */
  predicate Preferred(es: seq<Entry>, page: nat, some: bool, p: nat, q: nat)
    requires p < |es| && q < |es| && es[p].kind.Memory? && es[q].kind.Memory?
  {
    var b, c := es[p].kind.base, es[q].kind.base;
    if some then b <= page && (c <= page ==> c < b || (c == b && q <= p))
    else c > page && (b < c || (b == c && p <= q))
  }

  /** The owner among the descriptors is the entry that owns the page. */
  lemma OwnerIsEntry(es: seq<Entry>, page: nat, k: nat) returns (p: nat)
    requires Owns(Memories(es), page, k)
    ensures EntryOwns(es, page, p) && Memories(es)[k].prox == es[p].prox
  {
    var some := exists j :: 0 <= j < |Memories(es)| && Memories(es)[j].base <= page;
    MemoriesAreEnabled(es, k);
    p := Places(es, EnabledMemory)[k];
    forall q: nat | q < |es| && EnabledMemory(es[q]) ensures Preferred(es, page, some, p, q) {
      OwnerIsPreferred(es, page, k, q);
    }
    assert EnabledMemory(es[p]) && Preferred(es, page, some, p, p);
  }

  lemma OwnerIsPreferred(es: seq<Entry>, page: nat, k: nat, q: nat)
    requires Owns(Memories(es), page, k) && q < |es| && EnabledMemory(es[q])
    ensures k < |Places(es, EnabledMemory)|
    ensures var p := Places(es, EnabledMemory)[k];
            var some := exists j :: 0 <= j < |Memories(es)| && Memories(es)[j].base <= page;
            p < |es| && es[p].kind.Memory? && Preferred(es, page, some, p, q)
  {
    MemoriesAreEnabled(es, k);
    PlaceIsTaken(es, EnabledMemory, k);
    var j := TakenHasPlace(es, EnabledMemory, q);
    MemoriesAreEnabled(es, j);
    PlaceIsTaken(es, EnabledMemory, j);
    hide Places, Memories;
    assert Memories(es)[j].base == es[q].kind.base;
  }

  lemma EntryOwnerIsUnique(es: seq<Entry>, page: nat, p: nat, q: nat)
    requires EntryOwns(es, page, p) && EntryOwns(es, page, q)
    ensures p == q
  {
    assert EnabledMemory(es[p]) && EnabledMemory(es[q]);
  }

  /** The node number of a page, on the table itself: the place of the domain of
      the entry that owns it. */
  ghost predicate NodeOfEntry(es: seq<Entry>, domains: seq<nat>, page: nat, n: nat) {
    n < |domains| && exists p: nat :: EntryOwns(es, page, p) && domains[n] == es[p].prox
  }

  lemma NodeIsEntryDomain(es: seq<Entry>, domains: seq<nat>, page: nat, n: nat)
    requires NodeOfPage(Memories(es), domains, page, n)
    ensures NodeOfEntry(es, domains, page, n)
  {
    var ds := Memories(es);
    hide Memories, EntryOwns;
    var k: nat :| Owns(ds, page, k) && domains[n] == ds[k].prox;
    var p := OwnerIsEntry(es, page, k);
  }

  lemma NodeOfEntryIsUnique(es: seq<Entry>, domains: seq<nat>, page: nat, n: nat, n': nat)
    requires Distinct(domains) && NodeOfEntry(es, domains, page, n) && NodeOfEntry(es, domains, page, n')
    ensures n == n'
  {
    var p: nat :| EntryOwns(es, page, p) && domains[n] == es[p].prox;
    var p': nat :| EntryOwns(es, page, p') && domains[n'] == es[p'].prox;
    EntryOwnerIsUnique(es, page, p, p');
  }

  /** The table can be used: it has memory and processors, not more domains
      and processors than there is room for. */
  ghost predicate Usable(es: seq<Entry>, maxProcessors: nat) {
    && (exists p :: 0 <= p < |es| && EnabledMemory(es[p]))
    && (exists p :: 0 <= p < |es| && EnabledProcessor(es[p]))
    && |DomainSet(es)| <= MAXIMUM_CCNUMA_NODES && |Places(es, EnabledProcessor)| <= maxProcessors
  }

  lemma UsableScan(es: seq<Entry>, maxProcessors: nat)
    ensures Usable(es, maxProcessors) <==>
              && Memories(es) != [] && Cpus(es) != []
              && |Domains(es)| <= MAXIMUM_CCNUMA_NODES && |Cpus(es)| <= maxProcessors
  {
    MemoriesAreEnabled(es, 0);
    CpusAreEnabled(es, 0);
    DomainsAreAll(es);
    SomePlace(es, EnabledMemory);
    SomePlace(es, EnabledProcessor);
  }

  lemma CountsAgree(es: seq<Entry>)
    ensures |Places(es, EnabledMemory)| == |Memories(es)| <= |es|
    ensures |Places(es, EnabledProcessor)| == |Cpus(es)|
  {
    MemoriesAreEnabled(es, 0);
    CpusAreEnabled(es, 0);
  }

  lemma SomePlace(es: seq<Entry>, f: Entry -> bool)
    ensures Places(es, f) != [] <==> exists p :: 0 <= p < |es| && f(es[p])
  {
    if Places(es, f) != [] {
      PlaceIsTaken(es, f, 0);
    }
    if p :| 0 <= p < |es| && f(es[p]) {
      var i := TakenHasPlace(es, f, p);
    }
  }

  /** The first enabled processor entry with an APIC ID. */
  ghost predicate FirstProcessor(es: seq<Entry>, apicId: nat, p: nat) {
    && p < |es| && es[p].enabled && es[p].kind == Processor(apicId)
    && forall q | 0 <= q < p && es[q].enabled :: es[q].kind != Processor(apicId)
  }

  /** The first processor taken with an APIC ID is that of the first entry. */
  lemma FirstCpuIsEntry(es: seq<Entry>, apicId: nat)
    ensures var k := FirstCpu(Cpus(es), apicId);
            if k < |Cpus(es)|
            then exists p: nat :: FirstProcessor(es, apicId, p) && Cpus(es)[k].prox == es[p].prox
            else forall p | 0 <= p < |es| && es[p].enabled :: es[p].kind != Processor(apicId)
  {
    var k, at := FirstCpu(Cpus(es), apicId), Places(es, EnabledProcessor);
    CpusAreEnabled(es, k);
    forall q: nat | q < |es| && es[q].enabled && es[q].kind == Processor(apicId)
      ensures k < |Cpus(es)| && at[k] <= q
    {
      var j := TakenHasPlace(es, EnabledProcessor, q);
      CpusAreEnabled(es, j);
      PlaceIsTaken(es, EnabledProcessor, j);
    }
    if k < |Cpus(es)| {
      assert FirstProcessor(es, apicId, at[k]);
    }
  }

  /** The node number of a processor, on the table itself. */
  ghost predicate NodeOfProcessor(es: seq<Entry>, domains: seq<nat>, apicId: nat, n: Option<nat>) {
    match n
    case Some(v) => v < |domains| && exists p: nat :: FirstProcessor(es, apicId, p) && domains[v] == es[p].prox
    case None => forall p | 0 <= p < |es| && es[p].enabled :: es[p].kind != Processor(apicId)
  }

  /** The place of the first processor with an APIC ID. */
  function FirstCpu(cs: seq<Cpu>, apicId: nat): (k: nat)
    ensures k <= |cs|
    ensures k < |cs| ==> cs[k].apicId == apicId
    ensures forall i | 0 <= i < k :: cs[i].apicId != apicId
  {
    if cs == [] then 0 else if cs[0].apicId == apicId then 0
    else
      var k := FirstCpu(cs[1..], apicId);
      assert forall i | 1 <= i < |cs| :: cs[i] == cs[1..][i - 1];
      1 + k
  }

  lemma NodeOfPageIsUnique(ds: seq<Desc>, domains: seq<nat>, page: nat, n: nat, n': nat)
    requires Distinct(domains) && NodeOfPage(ds, domains, page, n) && NodeOfPage(ds, domains, page, n')
    ensures n == n'
  {
    var k: nat :| Owns(ds, page, k) && domains[n] == ds[k].prox;
    var k': nat :| Owns(ds, page, k') && domains[n'] == ds[k'].prox;
    OwnerIsUnique(ds, page, k, k');
  }

  ghost predicate InSlot(t: seq<nat>, page: nat, idx: nat) {
    idx + 1 < |t| && t[idx] <= page < t[idx + 1]
  }

  class Config {
    const allOnes: nat
    const maxProcessors: nat
    var proximityId: seq<nat>
    var cpus: seq<Cpu>
    var ranges: array<nat>
    var node: array<nat>
    var count: nat
    var lastRangeIndex: nat

    /** The finished index answers for the descriptors `ds`. */
    ghost predicate Indexed(ds: seq<Desc>)
      reads this, ranges, node
    {
      && 0 < count < ranges.Length && count <= node.Length && lastRangeIndex < count
      && ranges[0] == 0 && ranges[count] == allOnes
      && (forall p, q | 0 <= p <= q <= count :: ranges[p] <= ranges[q])
      && forall page, idx | 0 <= page < allOnes && 0 <= idx < count && InSlot(ranges[..], page, idx) ::
           NodeOfPage(ds, proximityId, page, node[idx])
    }

    /** Searches up or down from the last slot used. */
    method QueryPageToNode(page: nat, ghost es: seq<Entry>) returns (n: nat)
      requires Indexed(Memories(es)) && page < allOnes
      modifies `lastRangeIndex
      ensures Indexed(Memories(es)) && NodeOfEntry(es, proximityId, page, n)
    {
      hide Memories, NodeOfEntry, NodeOfPage;
      var index := lastRangeIndex;
      if page >= ranges[index] {
        while page >= ranges[index + 1]
          invariant index < count && page >= ranges[index]
          decreases count - index
        {
          index := index + 1;
        }
      } else {
        index := index - 1;
        while page < ranges[index]
          invariant 0 <= index < count && page < ranges[index + 1]
          decreases index
        {
          index := index - 1;
        }
      }
      lastRangeIndex := index;
      assert InSlot(ranges[..], page, index);
      n := node[index];
      NodeIsEntryDomain(es, proximityId, page, n);
    }

    constructor (allOnes: nat, maxProcessors: nat)
      ensures this.allOnes == allOnes && this.maxProcessors == maxProcessors
      ensures proximityId == [] && cpus == [] && count == 0 && lastRangeIndex == 0
      ensures ranges.Length == 0 && node.Length == 0 && fresh(ranges) && fresh(node)
    {
      this.allOnes, this.maxProcessors := allOnes, maxProcessors;
      proximityId, cpus, count, lastRangeIndex := [], [], 0, 0;
      ranges, node := new nat[0], new nat[0];
    }

    /** Enters a domain that has not been seen before; fails if there is no
        room for it. */
    method NoteDomain(prox: nat) returns (ok: bool)
      requires |proximityId| <= MAXIMUM_CCNUMA_NODES
      modifies `proximityId
      ensures var d := if prox in old(proximityId) then old(proximityId) else old(proximityId) + [prox];
              && ok == (|d| <= MAXIMUM_CCNUMA_NODES)
              && proximityId == if ok then d else old(proximityId)
    {
      for i := 0 to |proximityId|
        invariant forall q | 0 <= q < i :: proximityId[q] != prox
      {
        if proximityId[i] == prox {
          return true;
        }
      }
      if |proximityId| >= MAXIMUM_CCNUMA_NODES {
        return false;
      }
      proximityId := proximityId + [prox];
      ok := true;
    }

    /** What has been taken from the table so far. */
    ghost predicate Taken(es: seq<Entry>, descriptors: nat)
      reads this, ranges, node
    {
      && proximityId == Domains(es) && cpus == Cpus(es)
      && descriptors == |Memories(es)| && Mirrors(ranges, node, Tags(Memories(es)))
    }

    /** Takes one entry of the table. */
    method TakeEntry(e: Entry, count0: nat, ghost es: seq<Entry>) returns (ok: bool, descriptors: nat)
      requires Taken(es, count0) && |proximityId| <= MAXIMUM_CCNUMA_NODES && |cpus| <= maxProcessors
      requires |Memories(es + [e])| < ranges.Length && |Memories(es + [e])| <= node.Length
      modifies `proximityId, `cpus, ranges, node
      ensures ok <==> |Domains(es + [e])| <= MAXIMUM_CCNUMA_NODES && |Cpus(es + [e])| <= maxProcessors
      ensures ok ==> Taken(es + [e], descriptors)
    {
      TakenMore(es, e);
      hide Domains, Cpus, Memories, Tags;
      descriptors := count0;
      ok := NoteDomain(e.prox);
      if ok && e.enabled {
        match e.kind {
          case Processor(apicId) =>
            if |cpus| == maxProcessors {
              return false, descriptors;
            }
            cpus := cpus + [Cpu(apicId, e.prox)];
          case Memory(base) =>
            node[descriptors] := e.prox;
            ranges[descriptors] := base;
            descriptors := descriptors + 1;
          case OtherKind =>
        }
      }
    }

    lemma NothingTaken()
      requires proximityId == [] && cpus == [] && ranges != node
      ensures Taken([], 0) && Domains([]) == [] && Cpus([]) == []
    {
    }

    /** The second scan of the table: fills in the configuration and the two
        arrays, unless there are too many domains or processors. */
    method Scan(es: seq<Entry>) returns (ok: bool, descriptors: nat)
      requires ranges != node && ranges.Length > |Memories(es)| && node.Length >= |Memories(es)|
      requires proximityId == [] && cpus == []
      modifies `proximityId, `cpus, ranges, node
      ensures ok <==> |Domains(es)| <= MAXIMUM_CCNUMA_NODES && |Cpus(es)| <= maxProcessors
      ensures ok ==> Taken(es, descriptors)
    {
      hide Domains, Cpus, Memories, Mirrors, Tags;
      assert es[..0] == [];
      descriptors := 0;
      NothingTaken();
      for k := 0 to |es|
        invariant |Domains(es[..k])| <= MAXIMUM_CCNUMA_NODES && |Cpus(es[..k])| <= maxProcessors
        invariant Taken(es[..k], descriptors)
      {
        ScanGrows(es, k + 1);
        assert es[..k + 1] == es[..k] + [es[k]];
        ok, descriptors := TakeEntry(es[k], descriptors, es[..k]);
        if !ok {
          return false, descriptors;
        }
      }
      assert es[..|es|] == es;
      ok := true;
    }

    /** Moves the domain of the boot processor to the front. */
    method BootDomainFirst(apicId: nat)
      requires forall c | c in cpus :: c.prox in proximityId
      modifies `proximityId
      ensures multiset(proximityId) == multiset(old(proximityId))
      ensures var k := FirstCpu(cpus, apicId);
              if k < |cpus| then proximityId != [] && proximityId[0] == cpus[k].prox
              else proximityId == old(proximityId)
    {
      for j := 0 to |cpus|
        invariant forall p | 0 <= p < j :: cpus[p].apicId != apicId
        invariant proximityId == old(proximityId)
      {
        if cpus[j].apicId == apicId {
          assert FirstCpu(cpus, apicId) == j && cpus[j] in cpus;
          var proximity := cpus[j].prox;
          for i := 0 to |proximityId|
            invariant proximityId == old(proximityId)
            invariant forall q | 0 <= q < i :: proximityId[q] != proximity
          {
            if proximityId[i] == proximity {
              proximityId := proximityId[i := proximityId[0]][0 := proximity];
              return;
            }
          }
        }
      }
    }

    /** What initialization leaves for the queries. */
    ghost predicate Configured(es: seq<Entry>, boot: nat)
      reads this, ranges, node
    {
      && Indexed(Memories(es)) && cpus == Cpus(es)
      && Distinct(proximityId) && multiset(proximityId) == multiset(Domains(es))
      && (forall c | c in cpus :: c.prox in proximityId)
      && (FirstCpu(cpus, boot) < |cpus| ==>
            proximityId != [] && proximityId[0] == cpus[FirstCpu(cpus, boot)].prox)
    }

    /** Builds the configuration from the table, for a system whose boot
        processor has the APIC ID `boot`; fails exactly when the table cannot
        be used. */
    method Initialize(es: seq<Entry>, boot: nat) returns (numa: bool)
      requires |es| < TWO_32
      requires forall e | e in es && e.kind.Memory? :: e.kind.base <= allOnes
      modifies this
      ensures numa <==> Usable(es, maxProcessors)
      ensures numa ==> fresh(ranges) && fresh(node) && Configured(es, boot)
    {
      UsableScan(es, maxProcessors);
      CountsAgree(es);
      hide Usable, Places, Domains, Cpus, Memories, FirstCpu, Config.Indexed, Tags, Mirrors;
      var memories, processors := CountEntries(es);
      if memories == 0 || processors == 0 {
        return false;
      }
      proximityId, cpus := [], [];
      ranges, node := new nat[memories + 1], new nat[memories];
      var descriptors;
      numa, descriptors := Scan(es);
      if !numa {
        return;
      }
      DomainsComplete(es);
      MemoryBases(es, allOnes);
      BootDomainFirst(boot);
      SameDomains(proximityId, Domains(es));
      BuildIndex(descriptors, Memories(es));
    }

    /** Sorts, merges and finishes the two arrays filled from the table. */
    method BuildIndex(descriptors: u32, ghost ds: seq<Desc>)
      requires 0 < descriptors == |ds| && descriptors < ranges.Length
      requires Mirrors(ranges, node, Tags(ds))
      requires forall d | d in ds :: d.base <= allOnes && d.prox in proximityId
      modifies `count, `lastRangeIndex, ranges, node
      ensures Indexed(ds)
    {
      hide Runs, StableOrder, Config.Indexed, Tags, Table;
      ghost var ks := SortMemory(ranges, node, descriptors, ds);
      ghost var starts;
      count, starts := MergeRuns(ranges, node, descriptors, ks);
      ghost var rs, ns := ranges[..count], node[..count];
      Terminate(ranges, count, allOnes);
      RunDomains(ks, ds, starts, rs, ns);
      ConvertDomains(node, count, proximityId);
      lastRangeIndex := 0;
      IndexAnswers(ks, ds, starts, rs, ns);
    }

    /** The finished arrays answer for the table. */
    lemma IndexAnswers(ks: seq<Tagged>, ds: seq<Desc>, starts: seq<nat>, rs: seq<nat>, ns: seq<nat>)
      requires StableOrder(ks, ds) && Runs(ks, |ks|, starts, rs, ns)
      requires forall d | d in ds :: d.base <= allOnes
      requires 0 < count == |rs| && count < ranges.Length && count <= node.Length && lastRangeIndex < count
      requires ranges[..count + 1] == Table(rs, allOnes)
      requires forall i | 0 <= i < count :: node[i] < |proximityId| && proximityId[node[i]] == ns[i]
      ensures Indexed(ds)
    {
      hide StableOrder, Runs, Table;
      TableEnds(rs, allOnes);
      assert forall p | 0 <= p <= count :: ranges[p] == Table(rs, allOnes)[p];
      forall p, q | 0 <= p <= q <= count ensures ranges[p] <= ranges[q] {
        TableOrder(ks, ds, starts, rs, ns, allOnes, p, q);
      }
      forall page, idx | 0 <= page < allOnes && 0 <= idx < count && InSlot(ranges[..], page, idx)
        ensures NodeOfPage(ds, proximityId, page, node[idx])
      {
        var k := SlotIsOwner(ks, ds, starts, rs, ns, allOnes, page, idx);
      }
    }

    /** The node of a processor: the place of the domain of the first processor
        entry with its APIC ID. */
    method QueryProcessorNode(apicId: nat) returns (n: Option<nat>)
      requires forall c | c in cpus :: c.prox in proximityId
      ensures var k := FirstCpu(cpus, apicId);
              if k < |cpus|
              then && n.Some? && n.value < |proximityId| && proximityId[n.value] == cpus[k].prox
                   && (forall j | 0 <= j < n.value :: proximityId[j] != cpus[k].prox)
              else n == None
      ensures forall es | cpus == Cpus(es) :: NodeOfProcessor(es, proximityId, apicId, n)
      ensures forall es, boot | Configured(es, boot) && apicId == boot && FirstCpu(cpus, boot) < |cpus| :: n == Some(0)
    {
      forall es | cpus == Cpus(es) {
        FirstCpuIsEntry(es, apicId);
      }
      for i := 0 to |cpus|
        invariant forall p | 0 <= p < i :: cpus[p].apicId != apicId
      {
        if cpus[i].apicId == apicId {
          assert FirstCpu(cpus, apicId) == i && cpus[i] in cpus;
          var proximity := cpus[i].prox;
          for j := 0 to |proximityId|
            invariant forall q | 0 <= q < j :: proximityId[q] != proximity
          {
            if proximityId[j] == proximity {
              return Some(j);
            }
          }
        }
      }
      return None;
    }
  }

  /** The first scan: counts the enabled memory and processor entries. */
  method CountEntries(es: seq<Entry>) returns (memories: nat, processors: nat)
    ensures memories == |Places(es, EnabledMemory)| && processors == |Places(es, EnabledProcessor)|
  {
    memories, processors := 0, 0;
    for k := 0 to |es|
      invariant memories == |Places(es[..k], EnabledMemory)|
      invariant processors == |Places(es[..k], EnabledProcessor)|
    {
      assert es[..k + 1][..k] == es[..k];
      match es[k].kind {
        case Memory(base) =>
          if es[k].enabled {
            memories := memories + 1;
          }
        case Processor(apicId) =>
          if es[k].enabled {
            processors := processors + 1;
          }
        case OtherKind =>
      }
    }
    assert es[..|es|] == es;
  }

  lemma {:induction false} MemoryBases(es: seq<Entry>, allOnes: nat)
    requires forall e | e in es && e.kind.Memory? :: e.kind.base <= allOnes
    ensures forall d | d in Memories(es) :: d.base <= allOnes
    decreases |es|
  {
    if es != [] {
      MemoryBases(es[..|es| - 1], allOnes);
    }
  }

  lemma SameDomains(xs: seq<nat>, ys: seq<nat>)
    requires multiset(xs) == multiset(ys) && Distinct(ys)
    ensures Distinct(xs)
    ensures forall p | p in ys :: p in xs
  {
    forall i, j | 0 <= i < j < |xs| ensures xs[i] != xs[j] {
      if xs[i] == xs[j] {
        TwoPlaces(xs, i, j);
        OnePlace(ys, xs[i]);
      }
    }
    forall p | p in ys ensures p in xs {
      assert p in multiset(ys);
    }
  }

  lemma TwoPlaces(xs: seq<nat>, i: nat, j: nat)
    requires i < j < |xs| && xs[i] == xs[j]
    ensures multiset(xs)[xs[i]] >= 2
  {
    assert xs == xs[..i] + [xs[i]] + xs[i + 1..j] + [xs[j]] + xs[j + 1..];
  }

  lemma {:induction false} OnePlace(ys: seq<nat>, x: nat)
    requires Distinct(ys)
    ensures multiset(ys)[x] <= 1
    decreases |ys|
  {
    if ys != [] {
      var n := |ys| - 1;
      OnePlace(ys[..n], x);
      assert ys == ys[..n] + [ys[n]];
      assert ys[n] !in ys[..n];
    }
  }

  lemma RunDomains(ks: seq<Tagged>, ds: seq<Desc>, starts: seq<nat>, rs: seq<nat>, ns: seq<nat>)
    requires StableOrder(ks, ds) && Runs(ks, |ks|, starts, rs, ns)
    ensures forall r | 0 <= r < |ns| :: exists d :: d in ds && d.prox == ns[r]
  {
    OrderMembers(ks, ds);
    forall r | 0 <= r < |ns| ensures exists d :: d in ds && d.prox == ns[r] {
      var t := ks[starts[r]];
      assert ds[t.tag] in ds && ds[t.tag].prox == ns[r];
    }
  }

  lemma TableEnds(rs: seq<nat>, allOnes: nat)
    requires rs != []
    ensures Table(rs, allOnes)[0] == 0 && Table(rs, allOnes)[|rs|] == allOnes
  {
  }

  lemma TableOrder(ks: seq<Tagged>, ds: seq<Desc>, starts: seq<nat>, rs: seq<nat>, ns: seq<nat>, allOnes: nat, p: nat, q: nat)
    requires StableOrder(ks, ds) && Runs(ks, |ks|, starts, rs, ns)
    requires forall d | d in ds :: d.base <= allOnes
    requires p <= q <= |rs|
    ensures Table(rs, allOnes)[p] <= Table(rs, allOnes)[q]
  {
    OrderMembers(ks, ds);
    TableIsSorted(ks, starts, rs, ns, allOnes, p, q);
  }
}
