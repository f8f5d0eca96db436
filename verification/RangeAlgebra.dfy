/** Supported ranges as values (hals/rangesup.c): lists of closed signed 64-bit
    address intervals, each with the system address space and base it
    translates to. This module says what each list operation computes and what
    that means for the set of addresses; `RangeLists` proves that the pointer
    code computes it. */
module RangeAlgebra {
  import opened Words

  datatype Target = Target(systemBase: int64, space: u32)

  datatype Range = Range(target: Target, base: int64, limit: int64)

  predicate Empty(r: Range) {
    r.limit < r.base
  }

  predicate Contains(r: Range, a: int) {
    r.base <= a <= r.limit
  }

  /** Some range of the list contains the address. */
  ghost predicate Covers(rs: seq<Range>, a: int) {
    exists r :: r in rs && Contains(r, a)
  }

  /** Some range of the list contains the address and translates it to `t`. */
  ghost predicate Maps(rs: seq<Range>, a: int, t: Target) {
    exists r :: r in rs && Contains(r, a) && r.target == t
  }

  lemma MapsConcat(xs: seq<Range>, ys: seq<Range>, a: int, t: Target)
    ensures Maps(xs + ys, a, t) <==> Maps(xs, a, t) || Maps(ys, a, t)
  {
    assert forall r :: r in xs + ys <==> r in xs || r in ys;
  }

  lemma MapsOne(r: Range, a: int, t: Target)
    ensures Maps([r], a, t) <==> Contains(r, a) && r.target == t
  {
    if Contains(r, a) && r.target == t {
      assert r in [r];
    }
  }

  lemma CoversConcat(xs: seq<Range>, ys: seq<Range>, a: int)
    ensures Covers(xs + ys, a) <==> Covers(xs, a) || Covers(ys, a)
  {
    assert forall r :: r in xs + ys <==> r in xs || r in ys;
  }

  lemma CoversOne(r: Range, a: int)
    ensures Covers([r], a) <==> Contains(r, a)
  {
    if Contains(r, a) {
      assert r in [r];
    }
  }

  // ----- Merge: intersection with the translation of the child

  function Overlap(p: Range, c: Range): Range {
    Range(c.target, if p.base < c.base then c.base else p.base, if p.limit > c.limit then c.limit else p.limit)
  }

  /** The nonempty overlaps of one parent range with the child list, in order. */
  function OverlapRow(p: Range, cs: seq<Range>): seq<Range> {
    if cs == [] then []
    else
      var n := |cs| - 1;
      OverlapRow(p, cs[..n]) + (if Empty(Overlap(p, cs[n])) then [] else [Overlap(p, cs[n])])
  }

  function Overlaps(ps: seq<Range>, cs: seq<Range>): seq<Range> {
    if ps == [] then []
    else
      var n := |ps| - 1;
      Overlaps(ps[..n], cs) + OverlapRow(ps[n], cs)
  }

  /** The list a merge leaves in a new list whose only entry was `blank`. */
  function Merged(blank: Range, ps: seq<Range>, cs: seq<Range>): seq<Range> {
    if Overlaps(ps, cs) == [] then [blank] else Overlaps(ps, cs)
  }

  /** A list extended by the overlaps found so far; the blank head makes way
      for the first one. */
  function Extended(rs: seq<Range>, completed: bool, xs: seq<Range>): seq<Range> {
    if xs == [] then rs else (if completed then rs else []) + xs
  }

  lemma ExtendNone(rs: seq<Range>, completed: bool)
    ensures Extended(rs, completed, []) == rs
  {
  }

  lemma ExtendMore(rs: seq<Range>, completed: bool, xs: seq<Range>, p: Range, c: Range)
    ensures var x := if Empty(Overlap(p, c)) then [] else [Overlap(p, c)];
            Extended(Extended(rs, completed, xs), completed || xs != [], x) == Extended(rs, completed, xs + x)
  {
    hide Overlap;
    var from := if completed then rs else [];
    assert (from + xs) + [Overlap(p, c)] == from + (xs + [Overlap(p, c)]);
  }

  lemma ExtendTwice(rs: seq<Range>, xs: seq<Range>, ys: seq<Range>)
    ensures Extended(Extended(rs, false, xs), xs != [], ys) == Extended(rs, false, xs + ys)
  {
  }

  lemma MergedIsExtended(rs: seq<Range>, ps: seq<Range>, cs: seq<Range>)
    requires |rs| == 1
    ensures Merged(rs[0], ps, cs) == Extended(rs, false, Overlaps(ps, cs))
  {
  }

  lemma OverlapRowOfNone(p: Range)
    ensures OverlapRow(p, []) == []
  {
  }

  lemma OverlapsOfNone(cs: seq<Range>)
    ensures Overlaps([], cs) == []
  {
  }

  lemma OverlapRowOneMore(p: Range, cs: seq<Range>, k: nat)
    requires k < |cs|
    ensures OverlapRow(p, cs[..k + 1]) ==
            OverlapRow(p, cs[..k]) + if Empty(Overlap(p, cs[k])) then [] else [Overlap(p, cs[k])]
  {
    assert cs[..k + 1][..k] == cs[..k];
  }

  lemma OverlapsOneMore(ps: seq<Range>, cs: seq<Range>, k: nat)
    requires k < |ps|
    ensures Overlaps(ps[..k + 1], cs) == Overlaps(ps[..k], cs) + OverlapRow(ps[k], cs)
  {
    assert ps[..k + 1][..k] == ps[..k];
  }

  lemma {:induction false} OverlapRowMaps(p: Range, cs: seq<Range>, a: int, t: Target)
    ensures Maps(OverlapRow(p, cs), a, t) <==> Contains(p, a) && Maps(cs, a, t)
    decreases |cs|
  {
    if cs != [] {
      var n := |cs| - 1;
      OverlapRowMaps(p, cs[..n], a, t);
      assert cs == cs[..n] + [cs[n]];
      MapsConcat(cs[..n], [cs[n]], a, t);
      MapsOne(cs[n], a, t);
      var x := if Empty(Overlap(p, cs[n])) then [] else [Overlap(p, cs[n])];
      MapsConcat(OverlapRow(p, cs[..n]), x, a, t);
      MapsOne(Overlap(p, cs[n]), a, t);
    }
  }

  lemma {:induction false} OverlapsMaps(ps: seq<Range>, cs: seq<Range>, a: int, t: Target)
    ensures Maps(Overlaps(ps, cs), a, t) <==> Covers(ps, a) && Maps(cs, a, t)
    decreases |ps|
  {
    if ps != [] {
      var n := |ps| - 1;
      OverlapsMaps(ps[..n], cs, a, t);
      OverlapRowMaps(ps[n], cs, a, t);
      MapsConcat(Overlaps(ps[..n], cs), OverlapRow(ps[n], cs), a, t);
      assert ps == ps[..n] + [ps[n]];
      CoversConcat(ps[..n], [ps[n]], a);
      CoversOne(ps[n], a);
    }
  }

  /** A merge is exact intersection: an address translates to `t` in the result
      if and only if the parent covers it and the child translates it to `t`. */
  lemma MergeIsIntersection(blank: Range, ps: seq<Range>, cs: seq<Range>, a: int, t: Target)
    requires Empty(blank)
    ensures Maps(Merged(blank, ps, cs), a, t) <==> Covers(ps, a) && Maps(cs, a, t)
  {
    OverlapsMaps(ps, cs, a, t);
    MapsOne(blank, a, t);
  }

  // ----- Add: union

  /** The list with a range inserted behind its head. */
  function Inserted(rs: seq<Range>, x: Range): (r: seq<Range>)
    requires rs != []
    ensures |r| == |rs| + 1
  {
    [rs[0], x] + rs[1..]
  }

  function Added(rs: seq<Range>, xs: seq<Range>): (r: seq<Range>)
    requires rs != []
    ensures r != []
  {
    if xs == [] then rs else Inserted(Added(rs, xs[..|xs| - 1]), xs[|xs| - 1])
  }

  lemma AddedNone(rs: seq<Range>, xs: seq<Range>)
    requires rs != []
    ensures Added(rs, xs[..0]) == rs
  {
  }

  lemma AddedOneMore(rs: seq<Range>, xs: seq<Range>, k: nat)
    requires rs != [] && k < |xs|
    ensures Added(rs, xs[..k + 1]) == Inserted(Added(rs, xs[..k]), xs[k])
  {
    assert xs[..k + 1][..k] == xs[..k];
  }

  lemma InsertedMaps(rs: seq<Range>, x: Range, a: int, t: Target)
    requires rs != []
    ensures Maps(Inserted(rs, x), a, t) <==> Maps(rs, a, t) || Maps([x], a, t)
  {
    assert rs == [rs[0]] + rs[1..];
    assert Inserted(rs, x) == [rs[0]] + [x] + rs[1..];
    MapsConcat([rs[0]], rs[1..], a, t);
    MapsConcat([rs[0]] + [x], rs[1..], a, t);
    MapsConcat([rs[0]], [x], a, t);
  }

  /** Adding a list gives the union of the two translations. */
  lemma {:induction false} AddIsUnion(rs: seq<Range>, xs: seq<Range>, a: int, t: Target)
    requires rs != []
    ensures Maps(Added(rs, xs), a, t) <==> Maps(rs, a, t) || Maps(xs, a, t)
    decreases |xs|
  {
    if xs != [] {
      var n := |xs| - 1;
      AddIsUnion(rs, xs[..n], a, t);
      InsertedMaps(Added(rs, xs[..n]), xs[n], a, t);
      assert xs == xs[..n] + [xs[n]];
      MapsConcat(xs[..n], [xs[n]], a, t);
    }
  }

  // ----- Remove: difference, which may split a range
  //
  // The walk clips one entry at a time and inserts split-off parts behind the
  // head of the list it is walking.

  const NOTHING_BASE: int64 := 1
  const NOTHING_LIMIT: int64 := 0

  /** The range properly contains the interval on both sides. */
  predicate Splits(r: Range, base: int64, limit: int64) {
    !Empty(r) && r.base < base && r.limit > limit
  }

  function RightPart(r: Range, base: int64, limit: int64): Range
    requires Splits(r, base, limit)
  {
    r.(base := limit + 1)
  }

  /** What is left in the entry itself. */
  function Clipped(r: Range, base: int64, limit: int64): Range {
    if Empty(r) || r.limit < base || limit < r.base then r
    else if r.base < base then r.(limit := base - 1)
    else if r.limit <= limit then r.(base := NOTHING_BASE, limit := NOTHING_LIMIT)
    else r.(base := limit + 1)
  }

  function ClipAt(rs: seq<Range>, i: nat, base: int64, limit: int64): (r: seq<Range>)
    requires i < |rs|
    ensures |r| == |rs| + if Splits(rs[i], base, limit) then 1 else 0
  {
    var c := rs[i := Clipped(rs[i], base, limit)];
    if Splits(rs[i], base, limit) then Inserted(c, RightPart(rs[i], base, limit)) else c
  }

  /** The position after position `i`, which a split moves unless it is the head. */
  function After(rs: seq<Range>, i: nat, base: int64, limit: int64): nat
    requires i < |rs|
  {
    if i > 0 && Splits(rs[i], base, limit) then i + 2 else i + 1
  }

  /** A bound on the steps left: an entry split off the head is walked too. */
  function Left(length: nat, i: nat): nat
    requires i <= length
  {
    if i == 0 then length + 1 else length - i
  }

  function Walked(rs: seq<Range>, i: nat, base: int64, limit: int64): (r: seq<Range>)
    requires i <= |rs| && rs != []
    ensures r != []
    decreases Left(|rs|, i)
  {
    if i == |rs| then rs else Walked(ClipAt(rs, i, base, limit), After(rs, i, base, limit), base, limit)
  }

  function Removed(rs: seq<Range>, base: int64, limit: int64): (r: seq<Range>)
    requires rs != []
    ensures r != []
  {
    if limit < base then rs else Walked(rs, 0, base, limit)
  }

  /** What the branches of the clipping code come to; a split entry is clipped
      after its right part has been inserted. */
  lemma ClipCases(rs: seq<Range>, i: nat, base: int64, limit: int64)
    requires i < |rs| && base <= limit
    ensures var r := rs[i];
            if Empty(r) then ClipAt(rs, i, base, limit) == rs[i := r]
            else if r.base < base then
              if r.limit > limit then
                ClipAt(rs, i, base, limit) ==
                Inserted(rs, r.(base := limit + 1))[(if i == 0 then 0 else i + 1) := r.(limit := base - 1)]
              else ClipAt(rs, i, base, limit) == rs[i := if r.limit >= base then r.(limit := base - 1) else r]
            else if r.base <= limit then
              ClipAt(rs, i, base, limit) ==
              rs[i := if r.limit <= limit then r.(base := NOTHING_BASE, limit := NOTHING_LIMIT) else r.(base := limit + 1)]
            else ClipAt(rs, i, base, limit) == rs[i := r]
  {
    if Splits(rs[i], base, limit) {
      ClipAfterInsert(rs, i, base, limit);
    }
  }

  lemma ClipAfterInsert(rs: seq<Range>, i: nat, base: int64, limit: int64)
    requires i < |rs| && Splits(rs[i], base, limit)
    ensures var i' := if i == 0 then 0 else i + 1;
            Inserted(rs, RightPart(rs[i], base, limit))[i' := Clipped(rs[i], base, limit)] == ClipAt(rs, i, base, limit)
  {
    hide Clipped, RightPart;
  }

  lemma WalkOneStep(rs: seq<Range>, i: nat, base: int64, limit: int64)
    requires i < |rs|
    ensures After(rs, i, base, limit) <= |ClipAt(rs, i, base, limit)|
    ensures Walked(rs, i, base, limit) == Walked(ClipAt(rs, i, base, limit), After(rs, i, base, limit), base, limit)
    ensures After(rs, i, base, limit) > 0
    ensures Left(|ClipAt(rs, i, base, limit)|, After(rs, i, base, limit)) < Left(|rs|, i)
  {
  }

  lemma WalkEnds(rs: seq<Range>, base: int64, limit: int64)
    requires rs != []
    ensures Walked(rs, |rs|, base, limit) == rs
  {
  }

  /** Clipping one entry takes out the interval and nothing else. */
  lemma ClipMaps(r: Range, base: int64, limit: int64, a: int, t: Target)
    requires base <= limit
    ensures var right := if Splits(r, base, limit) then [RightPart(r, base, limit)] else [];
            Maps([Clipped(r, base, limit)], a, t) || Maps(right, a, t) <==> Maps([r], a, t) && !(base <= a <= limit)
  {
    MapsOne(r, a, t);
    MapsOne(Clipped(r, base, limit), a, t);
    if Splits(r, base, limit) {
      MapsOne(RightPart(r, base, limit), a, t);
    }
  }

  lemma MapsUpdate(rs: seq<Range>, i: nat, x: Range, a: int, t: Target)
    requires i < |rs|
    ensures Maps(rs, a, t) <==> Maps(rs[..i] + rs[i + 1..], a, t) || Maps([rs[i]], a, t)
    ensures Maps(rs[i := x], a, t) <==> Maps(rs[..i] + rs[i + 1..], a, t) || Maps([x], a, t)
  {
    var l, r := rs[..i], rs[i + 1..];
    assert rs == l + [rs[i]] + r && rs[i := x] == l + [x] + r;
    MapsConcat(l + [rs[i]], r, a, t);
    MapsConcat(l, [rs[i]], a, t);
    MapsConcat(l + [x], r, a, t);
    MapsConcat(l, [x], a, t);
    MapsConcat(l, r, a, t);
  }

  lemma ClipAtMaps(rs: seq<Range>, i: nat, base: int64, limit: int64, a: int, t: Target)
    requires i < |rs| && base <= limit && !(base <= a <= limit)
    ensures Maps(ClipAt(rs, i, base, limit), a, t) <==> Maps(rs, a, t)
  {
    hide Clipped, RightPart, Splits, Maps, Inserted;
    var x := Clipped(rs[i], base, limit);
    ClipMaps(rs[i], base, limit, a, t);
    MapsUpdate(rs, i, x, a, t);
    if Splits(rs[i], base, limit) {
      InsertedMaps(rs[i := x], RightPart(rs[i], base, limit), a, t);
    } else {
      MapsNone(a, t);
    }
  }

  lemma MapsNone(a: int, t: Target)
    ensures !Maps([], a, t)
  {
  }

  /** The first `i` entries have nothing left of the interval. */
  ghost predicate Cleared(rs: seq<Range>, i: nat, base: int64, limit: int64)
    requires i <= |rs|
  {
    forall k, a: int | 0 <= k < i && base <= a <= limit :: !Contains(rs[k], a)
  }

  lemma ClipAtClears(rs: seq<Range>, i: nat, base: int64, limit: int64)
    requires i < |rs| && base <= limit && Cleared(rs, i, base, limit)
    ensures After(rs, i, base, limit) <= |ClipAt(rs, i, base, limit)|
    ensures Cleared(ClipAt(rs, i, base, limit), After(rs, i, base, limit), base, limit)
  {
    var c, n := ClipAt(rs, i, base, limit), After(rs, i, base, limit);
    forall k, a: int | 0 <= k < n && base <= a <= limit
      ensures !Contains(c[k], a)
    {
      if Splits(rs[i], base, limit) && k > 1 && k != i + 1 {
        assert c[k] == rs[k - 1];
      }
    }
  }

  lemma {:induction false} WalkRemoves(rs: seq<Range>, i: nat, base: int64, limit: int64, a: int, t: Target)
    requires i <= |rs| && rs != [] && base <= limit
    requires Cleared(rs, i, base, limit)
    ensures Maps(Walked(rs, i, base, limit), a, t) <==> Maps(rs, a, t) && !(base <= a <= limit)
    decreases Left(|rs|, i)
  {
    if i < |rs| {
      hide ClipAt, After, Cleared, Maps, Walked;
      WalkOneStep(rs, i, base, limit);
      ClipAtClears(rs, i, base, limit);
      WalkRemoves(ClipAt(rs, i, base, limit), After(rs, i, base, limit), base, limit, a, t);
      if !(base <= a <= limit) {
        ClipAtMaps(rs, i, base, limit, a, t);
      }
    }
  }

  /** Removing an interval leaves exactly the old translations outside it. */
  lemma RemoveIsDifference(rs: seq<Range>, base: int64, limit: int64, a: int, t: Target)
    requires rs != []
    ensures Maps(Removed(rs, base, limit), a, t) <==> Maps(rs, a, t) && !(base <= a <= limit)
  {
    if base <= limit {
      WalkRemoves(rs, 0, base, limit, a, t);
    }
  }

  /** Every range of `xs` removed in turn. */
  function RemovedAll(rs: seq<Range>, xs: seq<Range>): (r: seq<Range>)
    requires rs != []
    ensures r != []
  {
    if xs == [] then rs
    else
      var n := |xs| - 1;
      Removed(RemovedAll(rs, xs[..n]), xs[n].base, xs[n].limit)
  }

  lemma {:induction false} WalkNotShorter(rs: seq<Range>, i: nat, base: int64, limit: int64)
    requires i <= |rs| && rs != []
    ensures |Walked(rs, i, base, limit)| >= |rs|
    decreases Left(|rs|, i)
  {
    if i < |rs| {
      WalkNotShorter(ClipAt(rs, i, base, limit), After(rs, i, base, limit), base, limit);
    }
  }

  /** Removal empties and splits entries, and never takes one out. */
  lemma {:induction false} RemovedNotShorter(rs: seq<Range>, xs: seq<Range>)
    requires rs != []
    ensures |RemovedAll(rs, xs)| >= |rs|
    decreases |xs|
  {
    if xs != [] {
      var n := |xs| - 1;
      RemovedNotShorter(rs, xs[..n]);
      WalkNotShorter(RemovedAll(rs, xs[..n]), 0, xs[n].base, xs[n].limit);
    }
  }

  lemma RemovedNone(rs: seq<Range>, xs: seq<Range>)
    requires rs != []
    ensures RemovedAll(rs, xs[..0]) == rs
  {
  }

  lemma RemovedOneMore(rs: seq<Range>, xs: seq<Range>, k: nat)
    requires rs != [] && k < |xs|
    ensures RemovedAll(rs, xs[..k + 1]) == Removed(RemovedAll(rs, xs[..k]), xs[k].base, xs[k].limit)
  {
    assert xs[..k + 1][..k] == xs[..k];
  }

  lemma {:induction false} RemoveAllIsDifference(rs: seq<Range>, xs: seq<Range>, a: int, t: Target)
    requires rs != []
    ensures Maps(RemovedAll(rs, xs), a, t) <==> Maps(rs, a, t) && !Covers(xs, a)
    decreases |xs|
  {
    if xs != [] {
      var n := |xs| - 1;
      RemoveAllIsDifference(rs, xs[..n], a, t);
      RemoveIsDifference(RemovedAll(rs, xs[..n]), xs[n].base, xs[n].limit, a, t);
      assert xs == xs[..n] + [xs[n]];
      CoversConcat(xs[..n], [xs[n]], a);
      CoversOne(xs[n], a);
    }
  }

  // ----- Consolidate: sort, drop empty ranges, join neighbours

  predicate Sorted(rs: seq<Range>) {
    forall i, j | 0 <= i < j < |rs| :: rs[i].base <= rs[j].base
  }

  function Swapped(rs: seq<Range>, i: nat, j: nat): (r: seq<Range>)
    requires i < j < |rs|
    ensures BasesSwapped(rs, r, i, j)
    ensures multiset(r) == multiset(rs)
  {
    rs[i := rs[j]][j := rs[i]]
  }

  ghost predicate BasesSwapped(rs: seq<Range>, r: seq<Range>, i: nat, j: nat)
    requires i < j < |rs|
  {
    && |r| == |rs|
    && r[i].base == rs[j].base && r[j].base == rs[i].base
    && forall k | 0 <= k < |rs| && k != i && k != j :: r[k].base == rs[k].base
  }

  /** The order of a sort: ascending, or descending. */
  predicate Precedes(down: bool, x: int64, y: int64) {
    if down then x >= y else x <= y
  }

  /** The first `i` entries are in their final places. */
  ghost predicate SortedUpTo(rs: seq<Range>, i: nat, down: bool)
    requires i <= |rs|
  {
    forall p, q | 0 <= p < i && p < q < |rs| :: Precedes(down, rs[p].base, rs[q].base)
  }

  /** Entry `i` comes before all entries from `i` up to `j`. */
  ghost predicate First(rs: seq<Range>, i: nat, j: nat, down: bool)
    requires i < j <= |rs|
  {
    forall q | i <= q < j :: Precedes(down, rs[i].base, rs[q].base)
  }

  lemma FirstStarts(rs: seq<Range>, i: nat, down: bool)
    requires i < |rs|
    ensures First(rs, i, i + 1, down)
  {
  }

  lemma FirstGrows(rs: seq<Range>, i: nat, j: nat, down: bool)
    requires i < j < |rs| && SortedUpTo(rs, i, down) && First(rs, i, j, down)
    ensures if Precedes(down, rs[i].base, rs[j].base) then First(rs, i, j + 1, down)
            else forall r | BasesSwapped(rs, r, i, j) :: SortedUpTo(r, i, down) && First(r, i, j + 1, down)
  {
    forall r | !Precedes(down, rs[i].base, rs[j].base) && BasesSwapped(rs, r, i, j)
      ensures SortedUpTo(r, i, down) && First(r, i, j + 1, down)
    {
      SwapKeepsSorted(rs, r, i, j, down);
    }
  }

  lemma SwapKeepsSorted(rs: seq<Range>, r: seq<Range>, i: nat, j: nat, down: bool)
    requires i < j < |rs| && SortedUpTo(rs, i, down) && First(rs, i, j, down)
    requires BasesSwapped(rs, r, i, j) && !Precedes(down, rs[i].base, rs[j].base)
    ensures SortedUpTo(r, i, down) && First(r, i, j + 1, down)
  {
    forall p, q | 0 <= p < i && p < q < |r|
      ensures Precedes(down, r[p].base, r[q].base)
    {
      assert Precedes(down, rs[p].base, rs[if q == i then j else if q == j then i else q].base);
    }
  }

  lemma FirstEnds(rs: seq<Range>, i: nat, down: bool)
    requires i < |rs| && SortedUpTo(rs, i, down) && First(rs, i, |rs|, down)
    ensures SortedUpTo(rs, i + 1, down)
  {
  }

  lemma SortedUpToStarts(rs: seq<Range>, down: bool)
    ensures SortedUpTo(rs, 0, down)
  {
  }

  lemma SortedUpToEnds(rs: seq<Range>)
    requires SortedUpTo(rs, |rs|, false)
    ensures Sorted(rs)
  {
  }

  // The descending sort exchanges base, limit and system base of two entries
  // but leaves their address spaces where they are.

  datatype Triple = Triple(systemBase: int64, base: int64, limit: int64)

  function TripleOf(r: Range): Triple {
    Triple(r.target.systemBase, r.base, r.limit)
  }

  function Triples(rs: seq<Range>): (ts: seq<Triple>)
    ensures |ts| == |rs|
    ensures forall i | 0 <= i < |rs| :: ts[i] == TripleOf(rs[i])
  {
    seq(|rs|, i requires 0 <= i < |rs| => TripleOf(rs[i]))
  }

  function WithTriple(r: Range, t: Triple): Range {
    Range(Target(t.systemBase, r.target.space), t.base, t.limit)
  }

  function TriplesSwapped(rs: seq<Range>, i: nat, j: nat): (r: seq<Range>)
    requires i < j < |rs|
    ensures BasesSwapped(rs, r, i, j)
    ensures multiset(Triples(r)) == multiset(Triples(rs))
  {
    var r := rs[i := WithTriple(rs[i], TripleOf(rs[j]))][j := WithTriple(rs[j], TripleOf(rs[i]))];
    assert Triples(r) == Triples(rs)[i := Triples(rs)[j]][j := Triples(rs)[i]];
    r
  }

  /** `now` holds the triples of `was` in descending order of base. */
  ghost predicate SortedDown(was: seq<Range>, now: seq<Range>) {
    && |now| == |was|
    && multiset(Triples(now)) == multiset(Triples(was))
    && forall p, q | 0 <= p < q < |now| :: now[p].base >= now[q].base
  }

  lemma SortedDownEnds(was: seq<Range>, now: seq<Range>)
    requires |now| == |was| && multiset(Triples(now)) == multiset(Triples(was)) && SortedUpTo(now, |now|, true)
    ensures SortedDown(was, now)
  {
  }

  lemma SortedDownLength(was: seq<Range>, now: seq<Range>)
    requires SortedDown(was, now)
    ensures |now| == |was|
  {
  }

  lemma CoversTriples(rs: seq<Range>, a: int)
    ensures Covers(rs, a) <==> exists t :: t in multiset(Triples(rs)) && t.base <= a <= t.limit
  {
    if Covers(rs, a) {
      var r :| r in rs && Contains(r, a);
      var k :| 0 <= k < |rs| && rs[k] == r;
      assert Triples(rs)[k] == TripleOf(r) && TripleOf(r) in multiset(Triples(rs));
    }
    if t :| t in multiset(Triples(rs)) && t.base <= a <= t.limit {
      var k :| 0 <= k < |rs| && Triples(rs)[k] == t;
      assert rs[k] in rs && Contains(rs[k], a);
    }
  }

  /** The descending sort keeps the covered addresses. */
  lemma SortedDownCovers(was: seq<Range>, now: seq<Range>, a: int)
    requires SortedDown(was, now)
    ensures Covers(now, a) <==> Covers(was, a)
  {
    CoversTriples(was, a);
    CoversTriples(now, a);
  }

  /** The test for joining a range with the next one: they overlap or touch,
      the limit can be stepped past, and the system bases agree. */
  predicate Joins(x: Range, y: Range) {
    var l := WrapInt64(x.limit + 1);
    l > x.limit && l >= y.base && x.target.systemBase == y.target.systemBase
  }

  function Joined(x: Range, y: Range): Range {
    if y.limit > x.limit then x.(limit := y.limit) else x
  }

  /** The single pass over a sorted list, with `x` the current entry. */
  function Coalesced(x: Range, rest: seq<Range>): (r: seq<Range>)
    ensures 0 < |r| <= |rest| + 1
    decreases |rest|
  {
    if rest == [] then [x]
    else if Empty(x) then Coalesced(rest[0], rest[1..])
    else if Joins(x, rest[0]) then Coalesced(Joined(x, rest[0]), rest[1..])
    else [x] + Coalesced(rest[0], rest[1..])
  }

  /** The pass with the first `i` entries done. */
  ghost function CoalescedFrom(rs: seq<Range>, i: nat): seq<Range>
    requires i < |rs|
  {
    rs[..i] + Coalesced(rs[i], rs[i + 1..])
  }

  function Deleted<T>(xs: seq<T>, k: nat): (r: seq<T>)
    requires k < |xs|
    ensures |r| == |xs| - 1
    ensures forall i | 0 <= i < |r| :: r[i] == xs[if i < k then i else i + 1]
  {
    xs[..k] + xs[k + 1..]
  }

  /** Entries `i` and `i + 1` replaced by one. */
  function Absorbed(rs: seq<Range>, i: nat, z: Range): (r: seq<Range>)
    requires i + 1 < |rs|
    ensures |r| == |rs| - 1
    ensures r[..i] == rs[..i] && r[i] == z && r[i + 1..] == rs[i + 2..]
  {
    rs[..i] + [z] + rs[i + 2..]
  }

  lemma AbsorbIsDelete(rs: seq<Range>, i: nat, z: Range)
    requires i + 1 < |rs|
    ensures Deleted(rs, i + 1)[i := z] == Absorbed(rs, i, z)
  {
  }

  lemma CoalesceStep(rs: seq<Range>, i: nat)
    requires i + 1 < |rs|
    ensures var x, y := rs[i], rs[i + 1];
            if Empty(x) then CoalescedFrom(rs, i) == CoalescedFrom(Absorbed(rs, i, y), i)
            else if Joins(x, y) then CoalescedFrom(rs, i) == CoalescedFrom(Absorbed(rs, i, Joined(x, y)), i)
            else CoalescedFrom(rs, i) == CoalescedFrom(rs, i + 1)
  {
    hide Joins, Joined, Absorbed;
    var x, y, rest := rs[i], rs[i + 1], rs[i + 1..];
    assert rest[0] == y && rest[1..] == rs[i + 2..];
    assert rs[..i + 1] == rs[..i] + [x];
    var c := Coalesced(y, rs[i + 2..]);
    assert rs[..i] + ([x] + c) == rs[..i] + [x] + c;
  }

  lemma CoalesceEnds(rs: seq<Range>, was: seq<Range>)
    requires rs != [] && was != [] && CoalescedFrom(rs, |rs| - 1) == CoalescedFrom(was, 0)
    ensures rs == Coalesced(was[0], was[1..])
  {
    var n := |rs| - 1;
    assert rs[n + 1..] == [];
    assert CoalescedFrom(rs, n) == rs[..n] + [rs[n]] == rs;
    assert was[..0] + Coalesced(was[0], was[1..]) == Coalesced(was[0], was[1..]);
  }

  /** An empty last entry is dropped unless it is the only one. */
  function Trimmed(rs: seq<Range>): (r: seq<Range>)
    requires rs != []
    ensures r != []
  {
    if |rs| > 1 && Empty(rs[|rs| - 1]) then rs[..|rs| - 1] else rs
  }

  function Consolidated(rs: seq<Range>): (r: seq<Range>)
    requires rs != []
    ensures r != []
  {
    Trimmed(Coalesced(rs[0], rs[1..]))
  }

  /** Some range of the list contains the address and has the system base. */
  ghost predicate MapsBase(rs: seq<Range>, a: int, b: int64) {
    exists r :: r in rs && Contains(r, a) && r.target.systemBase == b
  }

  lemma MapsBaseCons(x: Range, rest: seq<Range>, a: int, b: int64)
    ensures MapsBase([x] + rest, a, b) <==> (Contains(x, a) && x.target.systemBase == b) || MapsBase(rest, a, b)
  {
    assert forall r :: r in [x] + rest <==> r == x || r in rest;
  }

  lemma {:induction false} CoalesceKeepsAddresses(x: Range, rest: seq<Range>, a: int, b: int64)
    requires Sorted([x] + rest)
    ensures MapsBase(Coalesced(x, rest), a, b) <==> MapsBase([x] + rest, a, b)
    decreases |rest|
  {
    MapsBaseCons(x, rest, a, b);
    if rest == [] {
      assert [x] + rest == [x];
    } else {
      var y, tail := rest[0], rest[1..];
      assert rest == [y] + tail;
      MapsBaseCons(y, tail, a, b);
      SortedTail(x, y, tail);
      if Empty(x) {
        CoalesceKeepsAddresses(y, tail, a, b);
      } else if Joins(x, y) {
        CoalesceKeepsAddresses(Joined(x, y), tail, a, b);
        MapsBaseCons(Joined(x, y), tail, a, b);
      } else {
        CoalesceKeepsAddresses(y, tail, a, b);
        MapsBaseCons(x, Coalesced(y, tail), a, b);
      }
    }
  }

  lemma SortedTail(x: Range, y: Range, tail: seq<Range>)
    requires Sorted([x] + ([y] + tail))
    ensures x.base <= y.base
    ensures Sorted([y] + tail)
    ensures Sorted([Joined(x, y)] + tail)
  {
    var s := [x] + ([y] + tail);
    assert s[0] == x && s[1] == y;
    forall i | 0 <= i < |tail| ensures y.base <= tail[i].base {
      assert s[i + 2] == tail[i];
    }
    forall i, j | 0 <= i < j < |tail| ensures tail[i].base <= tail[j].base {
      assert s[i + 2] == tail[i] && s[j + 2] == tail[j];
    }
  }

  lemma TrimKeepsAddresses(rs: seq<Range>, a: int, b: int64)
    requires rs != []
    ensures MapsBase(Trimmed(rs), a, b) <==> MapsBase(rs, a, b)
  {
    var n := |rs| - 1;
    assert rs == rs[..n] + [rs[n]];
    assert forall r :: r in rs <==> r in rs[..n] || r == rs[n];
  }

  /** Consolidation keeps every address and the system base it translates by. */
  lemma ConsolidateKeepsAddresses(rs: seq<Range>, a: int, b: int64)
    requires rs != [] && Sorted(rs)
    ensures MapsBase(Consolidated(rs), a, b) <==> MapsBase(rs, a, b)
  {
    assert rs == [rs[0]] + rs[1..];
    CoalesceKeepsAddresses(rs[0], rs[1..], a, b);
    TrimKeepsAddresses(Coalesced(rs[0], rs[1..]), a, b);
  }

  /** No two entries overlap or touch. */
  ghost predicate Canonical(rs: seq<Range>) {
    forall i, j | 0 <= i < j < |rs| :: rs[i].limit as int + 1 < rs[j].base
  }

  /** All entries but the last are not empty, and the list is sorted from the
      base of its first input on. */
  lemma {:induction false} CoalescedShape(x: Range, rest: seq<Range>)
    requires Sorted([x] + rest)
    ensures var r := Coalesced(x, rest);
            && Sorted(r)
            && (forall i | 0 <= i < |r| :: x.base <= r[i].base)
            && (forall i | 0 <= i < |r| - 1 :: !Empty(r[i]))
    decreases |rest|
  {
    if rest != [] {
      var y, tail := rest[0], rest[1..];
      assert rest == [y] + tail;
      SortedTail(x, y, tail);
      if Empty(x) {
        CoalescedShape(y, tail);
      } else if Joins(x, y) {
        CoalescedShape(Joined(x, y), tail);
      } else {
        CoalescedShape(y, tail);
      }
    }
  }

  /** A consolidated list is sorted by base and has no empty entry unless it
      has only one entry. */
  lemma ConsolidateShape(rs: seq<Range>)
    requires rs != [] && Sorted(rs)
    ensures Sorted(Consolidated(rs))
    ensures |Consolidated(rs)| > 1 ==> forall r | r in Consolidated(rs) :: !Empty(r)
  {
    assert rs == [rs[0]] + rs[1..];
    CoalescedShape(rs[0], rs[1..]);
  }

  // When is the result canonical? A range whose limit is the largest address
  // cannot be stepped past, so nothing behind it is ever joined to it.

  ghost predicate OneBase(rs: seq<Range>) {
    forall r, r' | r in rs && r' in rs :: r.target.systemBase == r'.target.systemBase
  }

  ghost predicate Live(rs: seq<Range>) {
    exists r :: r in rs && !Empty(r)
  }

  /** A non-empty range that reaches the largest address has a non-empty range
      behind it. */
  ghost predicate Blocked(rs: seq<Range>) {
    rs != [] && ((!Empty(rs[0]) && rs[0].limit == MAX_INT64 && Live(rs[1..])) || Blocked(rs[1..]))
  }

  lemma LiveCons(x: Range, rest: seq<Range>)
    ensures Live([x] + rest) <==> !Empty(x) || Live(rest)
  {
    assert forall r :: r in [x] + rest <==> r == x || r in rest;
  }

  lemma {:induction false} CoalescedLive(x: Range, rest: seq<Range>)
    requires Sorted([x] + rest)
    ensures Live(Coalesced(x, rest)) <==> Live([x] + rest)
    decreases |rest|
  {
    if rest == [] {
      assert [x] + rest == [x];
    } else {
      var y, tail := rest[0], rest[1..];
      assert rest == [y] + tail;
      SortedTail(x, y, tail);
      LiveCons(x, rest);
      LiveCons(y, tail);
      if Empty(x) {
        CoalescedLive(y, tail);
      } else if Joins(x, y) {
        CoalescedLive(Joined(x, y), tail);
        LiveCons(Joined(x, y), tail);
      } else {
        LiveCons(x, Coalesced(y, tail));
      }
    }
  }

  lemma OneBaseTail(x: Range, y: Range, tail: seq<Range>)
    requires OneBase([x] + ([y] + tail))
    ensures x.target.systemBase == y.target.systemBase
    ensures OneBase([y] + tail) && OneBase([Joined(x, y)] + tail)
  {
    var s := [x] + ([y] + tail);
    assert x in s && y in s;
    assert forall r :: r in [y] + tail ==> r in s;
    forall r | r in [Joined(x, y)] + tail
      ensures r.target.systemBase == x.target.systemBase
    {
      if r in tail {
        assert r in s;
      }
    }
  }

  lemma BlockedCons(x: Range, rest: seq<Range>)
    ensures Blocked([x] + rest) <==> (!Empty(x) && x.limit == MAX_INT64 && Live(rest)) || Blocked(rest)
    ensures !Blocked([])
  {
    assert ([x] + rest)[1..] == rest;
  }

  /** Entry `j` is empty or lies clear behind every earlier entry. */
  ghost predicate Clear(rs: seq<Range>) {
    forall i, j | 0 <= i < j < |rs| && !Empty(rs[j]) :: rs[i].limit as int + 1 < rs[j].base
  }

  lemma {:induction false} UnblockedIsClear(x: Range, rest: seq<Range>)
    requires Sorted([x] + rest) && OneBase([x] + rest) && !Blocked([x] + rest)
    ensures Clear(Coalesced(x, rest))
    decreases |rest|
  {
    hide Sorted, OneBase, Blocked;
    if rest != [] {
      var y, tail := rest[0], rest[1..];
      assert rest == [y] + tail;
      SortedTail(x, y, tail);
      OneBaseTail(x, y, tail);
      BlockedCons(x, rest);
      BlockedCons(y, tail);
      BlockedCons(Joined(x, y), tail);
      if Empty(x) {
        UnblockedIsClear(y, tail);
      } else if Joins(x, y) {
        UnblockedIsClear(Joined(x, y), tail);
      } else {
        UnblockedIsClear(y, tail);
        var r := Coalesced(y, tail);
        CoalescedShape(y, tail);
        CoalescedLive(y, tail);
        assert forall j | 0 <= j < |r| :: r[j] in r;
        assert forall j | 0 <= j < |r| && !Empty(r[j]) :: x.limit as int + 1 < r[j].base;
      }
    }
  }

  lemma {:induction false} BlockedOverlaps(x: Range, rest: seq<Range>) returns (i: nat, j: nat)
    requires Sorted([x] + rest) && Blocked([x] + rest)
    ensures var r := Coalesced(x, rest);
            i < j < |r| && r[i].limit == MAX_INT64 && !Empty(r[i]) && !Empty(r[j])
    decreases |rest|
  {
    hide Sorted, Blocked;
    BlockedCons(x, rest);
    var y, tail := rest[0], rest[1..];
    assert rest == [y] + tail;
    SortedTail(x, y, tail);
    BlockedCons(y, tail);
    BlockedCons(Joined(x, y), tail);
    if Empty(x) {
      i, j := BlockedOverlaps(y, tail);
    } else if Joins(x, y) {
      i, j := BlockedOverlaps(Joined(x, y), tail);
    } else if x.limit == MAX_INT64 && Live(rest) {
      CoalescedLive(y, tail);
      var r := Coalesced(y, tail);
      assert Coalesced(x, rest) == [x] + r;
      var k :| 0 <= k < |r| && !Empty(r[k]);
      i, j := 0, k + 1;
    } else {
      i, j := BlockedOverlaps(y, tail);
      i, j := i + 1, j + 1;
    }
  }

  /** With one system base, consolidating a sorted list gives a canonical list
      if and only if no range that reaches the largest address has a non-empty
      range behind it; in particular whenever no limit is that address. */
  lemma ConsolidateIsCanonical(rs: seq<Range>)
    requires rs != [] && Sorted(rs) && OneBase(rs)
    ensures Canonical(Consolidated(rs)) <==> !Blocked(rs)
  {
    hide Sorted, OneBase, Blocked, Canonical, Coalesced;
    assert rs == [rs[0]] + rs[1..];
    CoalescedShape(rs[0], rs[1..]);
    var r := Coalesced(rs[0], rs[1..]);
    if Blocked(rs) {
      var i, j := BlockedOverlaps(rs[0], rs[1..]);
      MaximumIsNotClear(Trimmed(r), i, j);
    } else {
      UnblockedIsClear(rs[0], rs[1..]);
      ClearIsCanonical(r);
    }
  }

  lemma ClearIsCanonical(r: seq<Range>)
    requires r != [] && Clear(r)
    requires forall i | 0 <= i < |r| - 1 :: !Empty(r[i])
    ensures Canonical(Trimmed(r))
  {
    var u := Trimmed(r);
    forall i, j | 0 <= i < j < |u|
      ensures u[i].limit as int + 1 < u[j].base
    {
      assert u[i] == r[i] && u[j] == r[j] && !Empty(r[j]);
    }
  }

  lemma MaximumIsNotClear(r: seq<Range>, i: nat, j: nat)
    requires i < j < |r| && r[i].limit == MAX_INT64
    ensures !Canonical(r)
  {
    assert r[i].limit as int + 1 > r[j].base;
  }

  lemma {:induction false} NoMaximumIsUnblocked(rs: seq<Range>)
    requires forall r | r in rs :: r.limit != MAX_INT64
    ensures !Blocked(rs)
  {
    if rs != [] {
      assert rs[0] in rs;
      NoMaximumIsUnblocked(rs[1..]);
    }
  }

  /** The largest address really is a trap: these two overlapping ranges are
      left as they are. */
  lemma MaximumIsNotJoined(t: Target)
    ensures var rs := [Range(t, 0, MAX_INT64), Range(t, 5, 10)];
            Consolidated(rs) == rs && !Canonical(rs)
  {
    var rs := [Range(t, 0, MAX_INT64), Range(t, 5, 10)];
    assert rs[1..] == [rs[1]];
    assert Coalesced(rs[1], []) == [rs[1]];
    assert rs[0].limit as int + 1 >= rs[1].base;
  }

  // ----- Consolidating a list in any order

  /** `now` is `was` sorted in some way and then consolidated. */
  ghost predicate ConsolidatedFrom(was: seq<Range>, now: seq<Range>) {
    exists s :: s != [] && Sorted(s) && multiset(s) == multiset(was) && now == Consolidated(s)
  }

  lemma SameMembers(s: seq<Range>, was: seq<Range>)
    requires multiset(s) == multiset(was)
    ensures forall r :: r in s <==> r in was
  {
    forall r ensures r in s <==> r in was {
      assert r in multiset(s) <==> r in s;
      assert r in multiset(was) <==> r in was;
    }
  }

  lemma ConsolidatedNotLonger(was: seq<Range>, now: seq<Range>)
    requires ConsolidatedFrom(was, now)
    ensures |now| <= |was|
  {
    var s :| s != [] && Sorted(s) && multiset(s) == multiset(was) && now == Consolidated(s);
    assert |s| == |multiset(s)| == |multiset(was)| == |was|;
  }

  /** Whatever order the sort leaves equal bases in, consolidation keeps every
      address with its system base, sorts the list, leaves no empty entry
      unless it is the only one, and is canonical when there is one system base
      and no limit is the largest address. */
  lemma ConsolidateMeaning(was: seq<Range>, now: seq<Range>)
    requires ConsolidatedFrom(was, now)
    ensures forall a: int, b: int64 :: MapsBase(now, a, b) <==> MapsBase(was, a, b)
    ensures Sorted(now)
    ensures |now| > 1 ==> forall r | r in now :: !Empty(r)
    ensures OneBase(was) && (forall r | r in was :: r.limit != MAX_INT64) ==> Canonical(now)
  {
    hide Sorted, Consolidated, Canonical;
    var s :| s != [] && Sorted(s) && multiset(s) == multiset(was) && now == Consolidated(s);
    SameMembers(s, was);
    ConsolidateShape(s);
    forall a: int, b: int64
      ensures MapsBase(now, a, b) <==> MapsBase(was, a, b)
    {
      ConsolidateKeepsAddresses(s, a, b);
      SameMapsBase(s, was, a, b);
    }
    if OneBase(was) && forall r | r in was :: r.limit != MAX_INT64 {
      NoMaximumIsUnblocked(s);
      assert OneBase(s);
      ConsolidateIsCanonical(s);
    }
  }

  lemma SameMapsBase(s: seq<Range>, was: seq<Range>, a: int, b: int64)
    requires forall r :: r in s <==> r in was
    ensures MapsBase(s, a, b) <==> MapsBase(was, a, b)
  {
  }

  /** A non-empty range that reaches the largest address, and another non-empty
      range at or above its base. */
  ghost predicate Trap(was: seq<Range>, r: Range, q: Range) {
    multiset{r, q} <= multiset(was) && !Empty(r) && !Empty(q) && r.limit == MAX_INT64 && q.base >= r.base
  }

  lemma TwoOf(s: seq<Range>, i: nat, j: nat)
    requires i < j < |s|
    ensures multiset{s[i], s[j]} <= multiset(s)
  {
    assert s == s[..j] + s[j..];
    assert multiset(s) == multiset(s[..j]) + multiset(s[j..]);
    assert s[i] in s[..j] && s[j] in s[j..] by { assert s[..j][i] == s[i] && s[j..][0] == s[j]; }
  }

  lemma {:induction false} BlockedPair(s: seq<Range>) returns (i: nat, j: nat)
    requires Blocked(s)
    ensures i < j < |s| && !Empty(s[i]) && !Empty(s[j]) && s[i].limit == MAX_INT64
  {
    if !Empty(s[0]) && s[0].limit == MAX_INT64 && Live(s[1..]) {
      var r :| r in s[1..] && !Empty(r);
      var k :| 0 <= k < |s[1..]| && s[1..][k] == r;
      i, j := 0, k + 1;
    } else {
      i, j := BlockedPair(s[1..]);
      i, j := i + 1, j + 1;
    }
  }

  lemma {:induction false} PairBlocks(s: seq<Range>, i: nat, j: nat)
    requires i < j < |s| && !Empty(s[i]) && !Empty(s[j]) && s[i].limit == MAX_INT64
    ensures Blocked(s)
  {
    if i == 0 {
      assert s[1..][j - 1] == s[j];
    } else {
      PairBlocks(s[1..], i - 1, j - 1);
    }
  }

  /** A sorted list with a range in front of all that do not start below it. */
  function InsertedInOrder(s: seq<Range>, r: Range): seq<Range> {
    if s == [] then [r]
    else if r.base <= s[0].base then [r] + s
    else [s[0]] + InsertedInOrder(s[1..], r)
  }

  lemma {:induction false} InsertedMembers(s: seq<Range>, r: Range)
    ensures multiset(InsertedInOrder(s, r)) == multiset(s) + multiset{r}
  {
    if s != [] && r.base > s[0].base {
      assert s == [s[0]] + s[1..];
      InsertedMembers(s[1..], r);
    }
  }

  lemma {:induction false} InsertedAbove(s: seq<Range>, r: Range, b: int)
    requires b <= r.base && forall i | 0 <= i < |s| :: b <= s[i].base
    ensures forall i | 0 <= i < |InsertedInOrder(s, r)| :: b <= InsertedInOrder(s, r)[i].base
  {
    if s != [] && r.base > s[0].base {
      InsertedAbove(s[1..], r, b);
    }
  }

  lemma {:induction false} InsertedIsSorted(s: seq<Range>, r: Range)
    requires Sorted(s)
    ensures Sorted(InsertedInOrder(s, r))
  {
    if s != [] && r.base > s[0].base {
      var rest := s[1..];
      InsertedIsSorted(rest, r);
      InsertedAbove(rest, r, s[0].base);
    }
  }

  lemma {:induction false} InsertedBefore(s: seq<Range>, r: Range, q: Range) returns (i: nat, j: nat)
    requires Sorted(s) && q in s && q.base >= r.base
    ensures var t := InsertedInOrder(s, r); i < j < |t| && t[i] == r && t[j] == q
  {
    if r.base <= s[0].base {
      var k :| 0 <= k < |s| && s[k] == q;
      i, j := 0, k + 1;
    } else {
      assert q in s[1..];
      var rest := s[1..];
      i, j := InsertedBefore(rest, r, q);
      assert InsertedInOrder(s, r) == [s[0]] + InsertedInOrder(rest, r);
      i, j := i + 1, j + 1;
    }
  }

  function InOrder(rs: seq<Range>): (t: seq<Range>)
    ensures Sorted(t) && multiset(t) == multiset(rs)
  {
    if rs == [] then []
    else
      var n := |rs| - 1;
      assert rs == rs[..n] + [rs[n]];
      InsertedIsSorted(InOrder(rs[..n]), rs[n]);
      InsertedMembers(InOrder(rs[..n]), rs[n]);
      InsertedInOrder(InOrder(rs[..n]), rs[n])
  }

  lemma TrapCanBlock(was: seq<Range>, r: Range, q: Range) returns (s: seq<Range>)
    requires Trap(was, r, q)
    ensures s != [] && Sorted(s) && multiset(s) == multiset(was) && Blocked(s)
  {
    hide Sorted, Blocked;
    assert r in multiset(was);
    var k :| 0 <= k < |was| && was[k] == r;
    var rest := was[..k] + was[k + 1..];
    assert was == was[..k] + [r] + was[k + 1..];
    assert multiset(was) == multiset(rest) + multiset{r};
    assert q in multiset(rest) by { assert multiset{r, q}[q] <= multiset(was)[q]; }
    var o := InOrder(rest);
    SameMembers(o, rest);
    var i, j := InsertedBefore(o, r, q);
    s := InsertedInOrder(o, r);
    InsertedIsSorted(o, r);
    InsertedMembers(o, r);
    PairBlocks(s, i, j);
  }

  /** In terms of the list that is given to the code: with one system base,
      every order that the sort can leave gives a canonical list if and only if
      no non-empty range that reaches the largest address has another non-empty
      range at or above its base. */
  lemma CanonicalInEveryOrder(was: seq<Range>)
    requires was != [] && OneBase(was)
    ensures (forall now | ConsolidatedFrom(was, now) :: Canonical(now)) <==> !exists r, q :: Trap(was, r, q)
  {
    hide Sorted, Consolidated, Canonical, Blocked;
    if r, q :| Trap(was, r, q) {
      var s := TrapCanBlock(was, r, q);
      SameMembers(s, was);
      ConsolidateIsCanonical(s);
      assert ConsolidatedFrom(was, Consolidated(s));
    } else {
      forall now | ConsolidatedFrom(was, now) ensures Canonical(now) {
        var s :| s != [] && Sorted(s) && multiset(s) == multiset(was) && now == Consolidated(s);
        SameMembers(s, was);
        ConsolidateIsCanonical(s);
        if Blocked(s) {
          BlockedIsTrap(s, was);
          assert false;
        }
      }
    }
  }

  lemma BlockedIsTrap(s: seq<Range>, was: seq<Range>)
    requires Sorted(s) && multiset(s) == multiset(was) && Blocked(s)
    ensures exists r, q :: Trap(was, r, q)
  {
    var i, j := BlockedPair(s);
    TwoOf(s, i, j);
    assert Trap(was, s[i], s[j]);
  }

  // ----- The full translation

  /** Two non-empty ranges that overlap or touch and have one system base in
      different address spaces. */
  predicate Mixed(r: Range, q: Range) {
    && !Empty(r) && !Empty(q) && r.base <= q.base && q.base <= r.limit as int + 1
    && r.target.systemBase == q.target.systemBase && r.target != q.target
  }

  ghost predicate Unmixed(rs: seq<Range>) {
    forall r, q | r in rs && q in rs :: !Mixed(r, q)
  }

  lemma UnmixedTail(x: Range, y: Range, tail: seq<Range>)
    requires Sorted([x] + ([y] + tail)) && Unmixed([x] + ([y] + tail))
    ensures Unmixed([y] + tail)
    ensures !Empty(x) && Joins(x, y) ==> Unmixed([Joined(x, y)] + tail)
    ensures !Empty(x) && Joins(x, y) && !Empty(y) ==> x.target == y.target
  {
    var s := [x] + ([y] + tail);
    assert forall r :: r in s <==> r == x || r == y || r in tail;
    assert forall r :: r in [y] + tail <==> r == y || r in tail;
    SortedTail(x, y, tail);
    if !Empty(x) && Joins(x, y) {
      assert !Mixed(x, y);
      var z := Joined(x, y);
      forall r, q | r in [z] + tail && q in [z] + tail ensures !Mixed(r, q) {
        JoinedUnmixed(x, y, tail, r, q);
      }
    }
  }

  lemma JoinedUnmixed(x: Range, y: Range, tail: seq<Range>, r: Range, q: Range)
    requires Sorted([x] + ([y] + tail)) && Unmixed([x] + ([y] + tail)) && !Empty(x) && Joins(x, y)
    requires r in [Joined(x, y)] + tail && q in [Joined(x, y)] + tail
    ensures !Mixed(r, q)
  {
    var s := [x] + ([y] + tail);
    assert x in s && y in s && forall v | v in tail :: v in s;
    forall v | v in tail ensures y.base <= v.base {
      var k :| 0 <= k < |tail| && tail[k] == v;
      assert s[1] == y && s[k + 2] == v;
    }
    assert s[0] == x && s[1] == y;
    assert !Mixed(x, y);
    assert q in tail ==> !Mixed(x, q) && !Mixed(y, q);
    assert r in tail ==> !Mixed(r, x);
    assert r in tail && q in tail ==> !Mixed(r, q);
  }

  lemma {:induction false} CoalesceKeepsTranslation(x: Range, rest: seq<Range>, a: int, t: Target)
    requires Sorted([x] + rest) && Unmixed([x] + rest)
    ensures Maps(Coalesced(x, rest), a, t) <==> Maps([x] + rest, a, t)
    decreases |rest|
  {
    hide Unmixed, Sorted;
    MapsConcat([x], rest, a, t);
    MapsOne(x, a, t);
    if rest == [] {
      assert [x] + rest == [x];
    } else {
      var y, tail := rest[0], rest[1..];
      assert rest == [y] + tail;
      MapsConcat([y], tail, a, t);
      MapsOne(y, a, t);
      SortedTail(x, y, tail);
      UnmixedTail(x, y, tail);
      if Empty(x) {
        CoalesceKeepsTranslation(y, tail, a, t);
      } else if Joins(x, y) {
        CoalesceKeepsTranslation(Joined(x, y), tail, a, t);
        MapsConcat([Joined(x, y)], tail, a, t);
        MapsOne(Joined(x, y), a, t);
      } else {
        CoalesceKeepsTranslation(y, tail, a, t);
        MapsConcat([x], Coalesced(y, tail), a, t);
      }
    }
  }

  lemma TrimKeepsTranslation(rs: seq<Range>, a: int, t: Target)
    requires rs != []
    ensures Maps(Trimmed(rs), a, t) <==> Maps(rs, a, t)
  {
    var n := |rs| - 1;
    assert rs == rs[..n] + [rs[n]];
    MapsConcat(rs[..n], [rs[n]], a, t);
    MapsOne(rs[n], a, t);
  }

  /** Joining compares system bases only. When no two ranges that overlap or
      touch have one system base in different address spaces, consolidation
      keeps the whole translation. */
  lemma ConsolidateKeepsTranslation(was: seq<Range>, now: seq<Range>, a: int, t: Target)
    requires ConsolidatedFrom(was, now) && Unmixed(was)
    ensures Maps(now, a, t) <==> Maps(was, a, t)
  {
    hide Sorted, Coalesced, Trimmed;
    var s :| s != [] && Sorted(s) && multiset(s) == multiset(was) && now == Consolidated(s);
    SameMembers(s, was);
    assert s == [s[0]] + s[1..];
    CoalesceKeepsTranslation(s[0], s[1..], a, t);
    TrimKeepsTranslation(Coalesced(s[0], s[1..]), a, t);
  }

  /** In a canonical list that covers a whole interval, one entry contains it. */
  lemma {:induction false} OneEntryCovers(now: seq<Range>, lo: int, hi: int) returns (e: Range)
    requires Canonical(now) && lo <= hi && forall a | lo <= a <= hi :: Covers(now, a)
    ensures e in now && Contains(e, lo) && Contains(e, hi)
    decreases hi - lo
  {
    assert Covers(now, hi);
    if lo == hi {
      e :| e in now && Contains(e, hi);
    } else {
      e := OneEntryCovers(now, lo, hi - 1);
      var f :| f in now && Contains(f, hi);
      OneEntryAt(now, e, f, hi - 1);
    }
  }

  lemma OneEntryAt(now: seq<Range>, e: Range, f: Range, a: int)
    requires Canonical(now) && e in now && f in now && Contains(e, a) && (Contains(f, a) || Contains(f, a + 1))
    ensures e == f
  {
    var i :| 0 <= i < |now| && now[i] == e;
    var j :| 0 <= j < |now| && now[j] == f;
    assert i == j;
  }

  ghost predicate SameTranslation(was: seq<Range>, now: seq<Range>) {
    forall a: int, t: Target :: Maps(now, a, t) <==> Maps(was, a, t)
  }

  lemma MixedIsLost(was: seq<Range>, now: seq<Range>, r: Range, q: Range)
    requires Canonical(now) && r in was && q in was && Mixed(r, q)
    ensures !SameTranslation(was, now)
  {
    if SameTranslation(was, now) {
      assert Contains(r, r.base) && Contains(q, q.base);
      assert Maps(was, r.base, r.target) && Maps(was, q.base, q.target);
      forall a | r.base <= a <= q.base ensures Covers(now, a) {
        var v := if a <= r.limit then r else q;
        assert Maps(was, a, v.target);
        assert Maps(now, a, v.target);
      }
      var e := OneEntryCovers(now, r.base, q.base);
      var x :| x in now && Contains(x, r.base) && x.target == r.target;
      var y :| y in now && Contains(y, q.base) && y.target == q.target;
      OneEntryAt(now, e, x, r.base);
      OneEntryAt(now, e, y, q.base);
    }
  }

  /** With one system base and no limit at the largest address, consolidation
      keeps the whole translation if and only if no two ranges that overlap or
      touch have different address spaces. */
  lemma TranslationIsKept(was: seq<Range>, now: seq<Range>)
    requires ConsolidatedFrom(was, now) && OneBase(was) && forall r | r in was :: r.limit != MAX_INT64
    ensures SameTranslation(was, now) <==> Unmixed(was)
  {
    hide ConsolidatedFrom, Canonical, OneBase, Mixed;
    if Unmixed(was) {
      forall a: int, t: Target ensures Maps(now, a, t) <==> Maps(was, a, t) {
        ConsolidateKeepsTranslation(was, now, a, t);
      }
    } else {
      ConsolidateMeaning(was, now);
      var r, q :| r in was && q in was && Mixed(r, q);
      MixedIsLost(was, now, r, q);
    }
  }

  /** Two overlapping ranges of one system base: the address space of the second
      is lost. */
  lemma SpaceIsLost()
    ensures var was := [Range(Target(0, 0), 0, 10), Range(Target(0, 1), 5, 8)];
            && ConsolidatedFrom(was, [was[0]])
            && Maps(was, 6, Target(0, 1)) && !Maps([was[0]], 6, Target(0, 1))
  {
    var was := [Range(Target(0, 0), 0, 10), Range(Target(0, 1), 5, 8)];
    assert was[1..] == [was[1]] && was[1..][1..] == [];
    assert Coalesced(was[0], []) == [was[0]];
    assert Consolidated(was) == [was[0]];
    assert was[1] in was && Contains(was[1], 6);
  }

  /** With several system bases a mixed pair can be kept: a range of another base
      between the two keeps them apart, and nothing is lost. */
  lemma MixedPairIsKept()
    ensures var was := [Range(Target(0, 0), 0, 10), Range(Target(1, 0), 2, 3), Range(Target(0, 1), 5, 8)];
            Mixed(was[0], was[2]) && Sorted(was) && Consolidated(was) == was
  {
    var was := [Range(Target(0, 0), 0, 10), Range(Target(1, 0), 2, 3), Range(Target(0, 1), 5, 8)];
    assert was[1..] == [was[1], was[2]] && was[1..][1..] == [was[2]] && [was[2]][1..] == [];
    assert Coalesced(was[2], []) == [was[2]];
    assert Coalesced(was[1], [was[2]]) == [was[1], was[2]];
  }
}
