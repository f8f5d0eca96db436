/** Memory affinity (hals/halacpi/sratnuma.c): which proximity domain owns a
    physical page, stated on the plain table of descriptors, and why the sorted
    and merged index gives the same answer. */
module NumaAlgebra {

  /** An enabled memory descriptor: its base page and proximity domain. Its
      length is ignored: it extends to the next descriptor. */
  datatype Desc = Desc(base: nat, prox: nat)

  /** The owner of a page: the descriptor with the largest base at or below the
      page, the latest of equals; if there is none, the one with the smallest
      base, the earliest of equals. */
  ghost predicate Owns(ds: seq<Desc>, page: nat, k: nat) {
    && k < |ds|
    && if exists j :: 0 <= j < |ds| && ds[j].base <= page
       then && ds[k].base <= page
            && forall j | 0 <= j < |ds| && ds[j].base <= page ::
                 ds[j].base < ds[k].base || (ds[j].base == ds[k].base && j <= k)
       else forall j | 0 <= j < |ds| :: ds[k].base < ds[j].base || (ds[k].base == ds[j].base && k <= j)
  }

  lemma OwnerIsUnique(ds: seq<Desc>, page: nat, k: nat, k': nat)
    requires Owns(ds, page, k) && Owns(ds, page, k')
    ensures k == k'
  {
  }

  // ----- The bubble sort, which is stable

  /** A descriptor with its place in the table. */
  datatype Tagged = Tagged(desc: Desc, tag: nat)

  ghost function Tags(ds: seq<Desc>): (ks: seq<Tagged>)
    ensures |ks| == |ds|
    ensures forall i | 0 <= i < |ds| :: ks[i] == Tagged(ds[i], i)
  {
    seq(|ds|, i requires 0 <= i < |ds| => Tagged(ds[i], i))
  }

  /** Equal bases are still in table order. */
  ghost predicate Stable(ks: seq<Tagged>) {
    forall p, q | 0 <= p < q < |ks| && ks[p].desc.base == ks[q].desc.base :: ks[p].tag < ks[q].tag
  }

  ghost predicate MaxAt(ks: seq<Tagged>, i: nat)
    requires i < |ks|
  {
    forall p | 0 <= p <= i :: ks[p].desc.base <= ks[i].desc.base
  }

  ghost predicate SortedTo(ks: seq<Tagged>, i: nat)
    requires i < |ks|
  {
    forall p, q | 0 <= p < q <= i :: ks[p].desc.base <= ks[q].desc.base
  }

  /** Everything behind `j` is in its final place. */
  ghost predicate Settled(ks: seq<Tagged>, j: nat) {
    forall p, q | 0 <= p < q < |ks| && q > j :: ks[p].desc.base <= ks[q].desc.base
  }

  ghost function SwapNext(ks: seq<Tagged>, i: nat): (r: seq<Tagged>)
    requires i + 1 < |ks|
    ensures |r| == |ks| && multiset(r) == multiset(ks)
  {
    ks[i := ks[i + 1]][i + 1 := ks[i]]
  }

  lemma BubbleStep(ks: seq<Tagged>, i: nat, j: nat)
    requires i < j < |ks| && MaxAt(ks, i) && Settled(ks, j) && Stable(ks)
    ensures if ks[i].desc.base > ks[i + 1].desc.base
            then MaxAt(SwapNext(ks, i), i + 1) && Settled(SwapNext(ks, i), j) && Stable(SwapNext(ks, i))
            else MaxAt(ks, i + 1) && (SortedTo(ks, i) ==> SortedTo(ks, i + 1))
  {
    if ks[i].desc.base > ks[i + 1].desc.base {
      SwapKeepsStable(ks, i);
      SwapKeepsSettled(ks, i, j);
    }
  }

  lemma SwapKeepsStable(ks: seq<Tagged>, i: nat)
    requires i + 1 < |ks| && ks[i].desc.base > ks[i + 1].desc.base && Stable(ks)
    ensures Stable(SwapNext(ks, i))
  {
  }

  lemma SwapKeepsSettled(ks: seq<Tagged>, i: nat, j: nat)
    requires i < j < |ks| && Settled(ks, j)
    ensures Settled(SwapNext(ks, i), j)
  {
    var r := SwapNext(ks, i);
    forall p, q | 0 <= p < q < |r| && q > j
      ensures r[p].desc.base <= r[q].desc.base
    {
      var p' := if p == i then i + 1 else if p == i + 1 then i else p;
      assert r[p] == ks[p'] && r[q] == ks[q] && ks[p'].desc.base <= ks[q].desc.base;
    }
  }

  lemma PassEnds(ks: seq<Tagged>, j: nat)
    requires j < |ks| && MaxAt(ks, j) && Settled(ks, j)
    ensures j > 0 ==> Settled(ks, j - 1)
    ensures SortedTo(ks, j) ==> SortedTo(ks, |ks| - 1)
  {
    if j > 0 {
      forall p, q | 0 <= p < q < |ks| && q > j - 1
        ensures ks[p].desc.base <= ks[q].desc.base
      {
      }
    }
  }

  /** `ks` is the table in stable order of base. */
  ghost predicate StableOrder(ks: seq<Tagged>, ds: seq<Desc>) {
    && ks != [] && multiset(ks) == multiset(Tags(ds)) && Stable(ks) && SortedTo(ks, |ks| - 1)
  }

  lemma OrderMembers(ks: seq<Tagged>, ds: seq<Desc>)
    requires StableOrder(ks, ds)
    ensures |ks| == |ds|
    ensures forall p | 0 <= p < |ks| :: ks[p].tag < |ds| && ks[p].desc == ds[ks[p].tag]
    ensures forall j | 0 <= j < |ds| :: exists p :: 0 <= p < |ks| && ks[p] == Tagged(ds[j], j)
  {
    assert |multiset(ks)| == |ks| && |multiset(Tags(ds))| == |ds|;
    forall p | 0 <= p < |ks| ensures ks[p].tag < |ds| && ks[p].desc == ds[ks[p].tag] {
      assert ks[p] in multiset(ks);
      assert ks[p] in Tags(ds);
    }
    forall j | 0 <= j < |ds| ensures exists p :: 0 <= p < |ks| && ks[p] == Tagged(ds[j], j) {
      assert Tags(ds)[j] in multiset(Tags(ds));
      assert Tagged(ds[j], j) in ks;
    }
  }

  /** The last entry at or below a page, or the first entry if there is none. */
  ghost predicate LastBelow(ks: seq<Tagged>, page: nat, p: nat) {
    && p < |ks|
    && if ks[0].desc.base <= page
       then ks[p].desc.base <= page && forall q | p < q < |ks| :: ks[q].desc.base > page
       else p == 0
  }

  /** In stable order that entry is the owner. */
  lemma LastBelowOwns(ks: seq<Tagged>, ds: seq<Desc>, page: nat, p: nat)
    requires StableOrder(ks, ds) && LastBelow(ks, page, p)
    ensures Owns(ds, page, ks[p].tag)
  {
    OrderMembers(ks, ds);
    var k := ks[p].tag;
    forall j | 0 <= j < |ds|
      ensures ks[0].desc.base <= ds[j].base
      ensures ks[0].desc.base <= page && ds[j].base <= page ==>
                ds[j].base < ds[k].base || (ds[j].base == ds[k].base && j <= k)
      ensures ks[0].desc.base > page ==>
                ds[k].base < ds[j].base || (ds[k].base == ds[j].base && k <= j)
    {
      var q :| 0 <= q < |ks| && ks[q] == Tagged(ds[j], j);
      assert q > 0 ==> ks[0].desc.base <= ks[q].desc.base;
      assert q < p ==> ks[q].desc.base <= ks[p].desc.base;
    }
    if ks[0].desc.base <= page {
      assert ds[ks[0].tag].base <= page;
    }
  }

  // ----- Merging runs of one domain

  /** `starts` are the first positions of the runs of equal proximity in the
      first `n` entries, and `rs` and `ns` hold their bases and domains. */
  ghost predicate Runs(ks: seq<Tagged>, n: nat, starts: seq<nat>, rs: seq<nat>, ns: seq<nat>)
    requires n <= |ks|
  {
    && 0 < |starts| <= n && |rs| == |starts| == |ns|
    && starts[0] == 0
    && (forall r | 0 <= r < |starts| :: starts[r] < n)
    && (forall r, r' | 0 <= r < r' < |starts| :: starts[r] < starts[r'])
    && (forall r | 0 <= r < |starts| :: rs[r] == ks[starts[r]].desc.base && ns[r] == ks[starts[r]].desc.prox)
    && (forall r: nat, p: nat | InRun(starts, n, r, p) :: ks[p].desc.prox == ns[r])
  }

  /** Position `p` belongs to run `r`. */
  ghost predicate InRun(starts: seq<nat>, n: nat, r: nat, p: nat) {
    r < |starts| && starts[r] <= p < n && (r + 1 < |starts| ==> p < starts[r + 1])
  }

  lemma RunsStart(ks: seq<Tagged>)
    requires ks != []
    ensures Runs(ks, 1, [0], [ks[0].desc.base], [ks[0].desc.prox])
  {
  }

  lemma RunsGo(ks: seq<Tagged>, n: nat, starts: seq<nat>, rs: seq<nat>, ns: seq<nat>)
    requires n < |ks| && Runs(ks, n, starts, rs, ns) && ks[n].desc.prox == ns[|ns| - 1]
    ensures Runs(ks, n + 1, starts, rs, ns)
  {
    forall r: nat, p: nat | InRun(starts, n + 1, r, p)
      ensures ks[p].desc.prox == ns[r]
    {
      if p < n {
        assert InRun(starts, n, r, p);
      } else {
        assert r + 1 < |starts| ==> starts[r + 1] < n;
      }
    }
  }

  lemma RunsBreak(ks: seq<Tagged>, n: nat, starts: seq<nat>, rs: seq<nat>, ns: seq<nat>)
    requires n < |ks| && Runs(ks, n, starts, rs, ns)
    ensures Runs(ks, n + 1, starts + [n], rs + [ks[n].desc.base], ns + [ks[n].desc.prox])
  {
    var starts', ns' := starts + [n], ns + [ks[n].desc.prox];
    forall r: nat, p: nat | InRun(starts', n + 1, r, p)
      ensures ks[p].desc.prox == ns'[r]
    {
      if r < |starts| {
        assert starts'[r] == starts[r] && p < starts'[r + 1];
        assert r + 1 < |starts| ==> starts'[r + 1] == starts[r + 1];
        assert InRun(starts, n, r, p);
      }
    }
  }

  /** The finished table: the run bases with 0 in front and a sentinel behind. */
  ghost function Table(rs: seq<nat>, allOnes: nat): (t: seq<nat>)
    requires rs != []
    ensures |t| == |rs| + 1
  {
    rs[0 := 0] + [allOnes]
  }

  lemma {:induction false} LastIn(ks: seq<Tagged>, page: nat, lo: nat, hi: nat) returns (p: nat)
    requires lo < hi <= |ks| && ks[lo].desc.base <= page
    requires forall q | hi <= q < |ks| :: ks[q].desc.base > page
    ensures lo <= p < hi && ks[p].desc.base <= page
    ensures forall q | p < q < |ks| :: ks[q].desc.base > page
    decreases hi - lo
  {
    p := hi - 1;
    if ks[p].desc.base > page {
      p := LastIn(ks, page, lo, hi - 1);
    }
  }

  /** The last entry at or below a page lies in the run of the page's slot. */
  lemma SlotHasLast(ks: seq<Tagged>, starts: seq<nat>, rs: seq<nat>, ns: seq<nat>, allOnes: nat, page: nat, idx: nat)
    returns (p: nat)
    requires ks != [] && SortedTo(ks, |ks| - 1) && Runs(ks, |ks|, starts, rs, ns)
    requires page < allOnes && idx < |rs|
    requires Table(rs, allOnes)[idx] <= page < Table(rs, allOnes)[idx + 1]
    ensures LastBelow(ks, page, p) && InRun(starts, |ks|, idx, p)
  {
    p := 0;
    forall r | 0 < r < |starts| ensures ks[0].desc.base <= rs[r] {
      assert starts[0] < starts[r] && ks[0].desc.base <= ks[starts[r]].desc.base;
    }
    if ks[0].desc.base <= page {
      var lo := starts[idx];
      var hi := if idx + 1 < |starts| then starts[idx + 1] else |ks|;
      assert ks[lo].desc.base <= page;
      forall q | hi <= q < |ks| ensures ks[q].desc.base > page {
        assert rs[idx + 1] == ks[hi].desc.base;
        assert q > hi ==> ks[hi].desc.base <= ks[q].desc.base;
      }
      p := LastIn(ks, page, lo, hi);
    }
  }

  /** The slot of a page in the finished table holds the domain of the page's
      owner. */
  lemma SlotIsOwner(ks: seq<Tagged>, ds: seq<Desc>, starts: seq<nat>, rs: seq<nat>, ns: seq<nat>,
                    allOnes: nat, page: nat, idx: nat)
    returns (k: nat)
    requires StableOrder(ks, ds) && Runs(ks, |ks|, starts, rs, ns)
    requires page < allOnes && idx < |rs|
    requires Table(rs, allOnes)[idx] <= page < Table(rs, allOnes)[idx + 1]
    ensures Owns(ds, page, k) && ds[k].prox == ns[idx]
  {
    OrderMembers(ks, ds);
    var p := SlotHasLast(ks, starts, rs, ns, allOnes, page, idx);
    LastBelowOwns(ks, ds, page, p);
    k := ks[p].tag;
  }

  /** The finished table is sorted, so a page has only one slot: whichever slot
      a search starts from, it can only end in that one. */
  lemma TableIsSorted(ks: seq<Tagged>, starts: seq<nat>, rs: seq<nat>, ns: seq<nat>, allOnes: nat, i: nat, j: nat)
    requires ks != [] && SortedTo(ks, |ks| - 1) && Runs(ks, |ks|, starts, rs, ns)
    requires forall p | 0 <= p < |ks| :: ks[p].desc.base <= allOnes
    requires i <= j <= |rs|
    ensures Table(rs, allOnes)[i] <= Table(rs, allOnes)[j]
  {
    if 0 < i < j < |rs| {
      assert ks[starts[i]].desc.base <= ks[starts[j]].desc.base;
    }
  }

  lemma SlotIsUnique(t: seq<nat>, page: nat, i: nat, j: nat)
    requires forall p, q | 0 <= p <= q < |t| :: t[p] <= t[q]
    requires i + 1 < |t| && j + 1 < |t| && t[i] <= page < t[i + 1] && t[j] <= page < t[j + 1]
    ensures i == j
  {
  }
}
