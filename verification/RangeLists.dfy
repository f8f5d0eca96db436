/** Supported ranges as linked lists (hals/rangesup.c): the code that inserts,
    clips, splits, sorts and joins entries in place, each operation proved to
    compute its function in `RangeAlgebra`. */
module RangeLists {
  import opened Words
  import opened RangeAlgebra

  class Node {
    var next: Node?
    var range: Range

    constructor (range: Range, next: Node?)
      ensures this.range == range && this.next == next
    {
      this.range, this.next := range, next;
    }
  }

  ghost function Values(nodes: seq<Node>): (vs: seq<Range>)
    reads nodes`range
    ensures |vs| == |nodes|
    ensures forall i | 0 <= i < |nodes| :: vs[i] == nodes[i].range
  {
    if nodes == [] then [] else [nodes[0].range] + Values(nodes[1..])
  }

  ghost predicate Distinct(nodes: seq<Node>) {
    forall i, j | 0 <= i < j < |nodes| :: nodes[i] != nodes[j]
  }

  lemma DistinctInsert(nodes: seq<Node>, x: Node)
    requires nodes != [] && Distinct(nodes) && x !in nodes
    ensures Distinct([nodes[0], x] + nodes[1..])
  {
    var r := [nodes[0], x] + nodes[1..];
    assert forall i | 1 < i < |r| :: r[i] == nodes[i - 1];
  }

  lemma DistinctDelete(nodes: seq<Node>, k: nat)
    requires k < |nodes| && Distinct(nodes)
    ensures Distinct(Deleted(nodes, k))
  {
  }

  lemma DistinctAt(nodes: seq<Node>, k: nat)
    requires k < |nodes| && Distinct(nodes)
    ensures forall i | 0 <= i < |nodes| && i != k :: nodes[i] != nodes[k]
  {
  }

  /** A list whose head is embedded in its owner, so it is never empty. */
  class RangeList {
    const head: Node
    ghost var nodes: seq<Node>
    ghost var repr: set<Node>

    ghost predicate Valid()
      reads this, repr
    {
      && nodes != [] && nodes[0] == head
      && (forall i | 0 <= i < |nodes| :: nodes[i] in repr)
      && Distinct(nodes)
      && (forall i {:trigger nodes[i].next} | 0 <= i < |nodes| - 1 :: nodes[i].next == nodes[i + 1])
      && nodes[|nodes| - 1].next == null
    }

    ghost function Contents(): (c: seq<Range>)
      requires Valid()
      reads this, repr
      ensures |c| == |nodes|
    {
      Values(nodes)
    }

    /** The node at a position, or null just past the end. */
    ghost function NodeAt(i: nat): Node?
      requires i <= |nodes|
      reads this
    {
      if i < |nodes| then nodes[i] else null
    }

    lemma HeadIsFirst()
      requires Valid()
      ensures nodes != [] && nodes[0] == head && head in repr
    {
    }

    /** The last node, and whether the blank head has been filled. */
    ghost predicate Filling(tail: Node, headCompleted: bool)
      reads this
    {
      nodes != [] && tail == nodes[|nodes| - 1] && (headCompleted || nodes == [head])
    }

    lemma HeadIsOnly()
      requires Valid()
      ensures forall i | 0 < i < |nodes| :: nodes[i] != head
    {
    }

    /** A list with the one entry [1, 0], which is empty. */
    constructor ()
      ensures Valid() && fresh(repr) && nodes == [head]
      ensures Contents() == [Range(Target(0, 0), NOTHING_BASE, NOTHING_LIMIT)]
    {
      head := new Node(Range(Target(0, 0), NOTHING_BASE, NOTHING_LIMIT), null);
      new;
      nodes := [head];
      repr := {head};
    }

    /** Inserts an entry behind the head. */
    method AddRange(range: Range)
      requires Valid()
      modifies this, head`next
      ensures Valid() && old(repr) <= repr && fresh(repr - old(repr))
      ensures |nodes| == |old(nodes)| + 1
      ensures forall i | 0 < i < |old(nodes)| :: nodes[i + 1] == old(nodes)[i]
      ensures Contents() == Inserted(old(Contents()), range)
    {
      hide Distinct, Values;
      var node := new Node(range, head.next);
      ghost var was := nodes;
      assert node !in was;
      DistinctInsert(was, node);
      assert forall i | 0 < i < |was| :: was[i] != head by { HeadIsOnly(); }
      head.next := node;
      nodes := [head, node] + was[1..];
      repr := repr + {node};
      assert forall i | 1 < i < |nodes| :: nodes[i] == was[i - 1];
    }

    /** Changes the range of one entry. */
    method SetRange(node: Node, ghost i: nat, range: Range)
      requires Valid() && i < |nodes| && nodes[i] == node
      modifies node`range
      ensures Contents() == old(Contents())[i := range]
    {
      node.range := range;
    }

    /** Splits an entry around [base, limit]; the part behind the interval becomes
        a new entry. */
    method SplitEntry(node: Node, ghost i: nat, base: int64, limit: int64)
      requires Valid() && i < |nodes| && nodes[i] == node && base <= limit
      requires node.range.base < base && limit < node.range.limit
      modifies this, head`next, node`range
      ensures Valid() && old(repr) <= repr && fresh(repr - old(repr))
      ensures Contents() == ClipAt(old(Contents()), i, base, limit)
      ensures node.next == NodeAt(After(old(Contents()), i, base, limit))
    {
      hide Values, Distinct, Inserted, ClipAt, Clipped;
      ghost var was := Contents();
      ClipCases(was, i, base, limit);
      var range := node.range;
      AddRange(range.(base := limit + 1));
      SetRange(node, if i == 0 then 0 else i + 1, range.(limit := base - 1));
    }

    /** Takes [base, limit] out of one entry. If the interval lies inside it,
        the part behind the interval becomes a new entry. */
    method ClipEntry(node: Node, ghost i: nat, base: int64, limit: int64)
      requires Valid() && i < |nodes| && nodes[i] == node && base <= limit
      modifies this, head`next, node`range
      ensures Valid() && old(repr) <= repr && fresh(repr - old(repr))
      ensures Contents() == ClipAt(old(Contents()), i, base, limit)
      ensures node.next == NodeAt(After(old(Contents()), i, base, limit))
    {
      hide Values, Distinct, Inserted, ClipAt, Clipped;
      ghost var was := Contents();
      ClipCases(was, i, base, limit);
      var range := node.range;
      if range.limit < range.base {
      } else if range.base < base {
        if base <= range.limit <= limit {
          range := range.(limit := base - 1);
        }
        if range.limit > limit {
          SplitEntry(node, i, base, limit);
          return;
        }
      } else if range.base <= limit {
        if range.limit <= limit {
          range := range.(base := NOTHING_BASE, limit := NOTHING_LIMIT);
        } else {
          range := range.(base := limit + 1);
        }
      }
      SetRange(node, i, range);
    }

    /** Takes [base, limit] out of every entry. An entry split off the head is
        visited next; one split off a later entry is not visited at all. */
    method RemoveRange(base: int64, limit: int64)
      requires Valid()
      modifies this, repr
      ensures Valid() && old(repr) <= repr && fresh(repr - old(repr))
      ensures Contents() == Removed(old(Contents()), base, limit)
    {
      if limit < base {
        return;
      }
      hide RangeList.Valid, RangeList.Contents, ClipAt, Splits, Values, Walked, After;
      HeadIsFirst();
      ghost var was, i, left := Contents(), 0, |nodes| + 1;
      var node: Node? := head;
      while node != null
        invariant Valid()
        invariant 0 <= i <= |nodes| && node == NodeAt(i)
        invariant old(repr) <= repr && fresh(repr - old(repr))
        invariant Walked(Contents(), i, base, limit) == Walked(was, 0, base, limit)
        invariant left == Left(|nodes|, i)
        decreases left
      {
        WalkOneStep(Contents(), i, base, limit);
        ghost var i' := After(Contents(), i, base, limit);
        ClipEntry(node, i, base, limit);
        node, i := node.next, i';
        left := Left(|nodes|, i);
      }
      WalkEnds(Contents(), base, limit);
    }

    // ----- Whole lists

    /** No node belongs to both lists. */
    ghost predicate Apart(other: RangeList)
      reads this, other
    {
      this != other && repr !! other.repr
    }

    /** Adds every entry of another list. */
    method AddRangeList(source: RangeList)
      requires Valid() && source.Valid() && Apart(source)
      modifies this, head`next
      ensures Valid() && old(repr) <= repr && fresh(repr - old(repr))
      ensures Contents() == Added(old(Contents()), source.Contents())
    {
      hide Values, Added, Inserted;
      ghost var was, xs := Contents(), source.Contents();
      ghost var k := 0;
      AddedNone(was, xs);
      var node: Node? := source.head;
      while node != null
        invariant Valid() && source.Valid() && Apart(source)
        invariant 0 <= k <= |xs| && node == source.NodeAt(k) && source.Contents() == xs
        invariant old(repr) <= repr && fresh(repr - old(repr))
        invariant Contents() == Added(was, xs[..k])
        decreases |xs| - k
      {
        AddedOneMore(was, xs, k);
        AddRange(node.range);
        node := node.next;
        k := k + 1;
      }
      assert xs[..k] == xs;
    }

    /** Removes every entry of another list. */
    method RemoveRangeList(subtrahend: RangeList)
      requires Valid() && subtrahend.Valid() && Apart(subtrahend)
      modifies this, repr
      ensures Valid() && old(repr) <= repr && fresh(repr - old(repr))
      ensures Contents() == RemovedAll(old(Contents()), subtrahend.Contents())
    {
      hide Values, RemovedAll;
      ghost var was, xs := Contents(), subtrahend.Contents();
      ghost var k := 0;
      RemovedNone(was, xs);
      var node: Node? := subtrahend.head;
      while node != null
        invariant Valid() && subtrahend.Valid() && Apart(subtrahend)
        invariant 0 <= k <= |xs| && node == subtrahend.NodeAt(k) && subtrahend.Contents() == xs
        invariant old(repr) <= repr && fresh(repr - old(repr))
        invariant Contents() == RemovedAll(was, xs[..k])
        decreases |xs| - k
      {
        RemovedOneMore(was, xs, k);
        RemoveRange(node.range.base, node.range.limit);
        node := node.next;
        k := k + 1;
      }
      assert xs[..k] == xs;
    }

    // ----- Merging two lists into a new one

    /** Writes an overlap: into the head if it is the first one, else into a
        new entry behind the last one. */
    method Emit(tail: Node, headCompleted: bool, range: Range) returns (node: Node)
      requires Valid() && Filling(tail, headCompleted)
      modifies this, repr
      ensures Valid() && old(repr) <= repr && fresh(repr - old(repr))
      ensures Filling(node, true)
      ensures Contents() == (if headCompleted then old(Contents()) else []) + [range]
    {
      if headCompleted {
        node := new Node(range, null);
        tail.next := node;
        nodes := nodes + [node];
        repr := repr + {node};
      } else {
        head.range := range;
        node := head;
      }
    }

    /** Emits the overlap of a parent and a child range, unless it is empty. */
    method EmitOverlap(parent: Range, child: Range, tail0: Node, completed0: bool)
      returns (tail: Node, headCompleted: bool)
      requires Valid() && Filling(tail0, completed0)
      modifies this, repr
      ensures Valid() && old(repr) <= repr && fresh(repr - old(repr))
      ensures Filling(tail, headCompleted)
      ensures var overlap := if Empty(Overlap(parent, child)) then [] else [Overlap(parent, child)];
              && headCompleted == (completed0 || overlap != [])
              && Contents() == Extended(old(Contents()), completed0, overlap)
    {
      tail, headCompleted := tail0, completed0;
      var base, limit := parent.base, parent.limit;
      if base < child.base {
        base := child.base;
      }
      if limit > child.limit {
        limit := child.limit;
      }
      if base <= limit {
        tail := Emit(tail, headCompleted, Range(child.target, base, limit));
        headCompleted := true;
      }
    }

    /** Emits the overlaps of one parent range with every entry of the child. */
    method MergeRow(parent: Range, child: RangeList, tail0: Node, completed0: bool)
      returns (tail: Node, headCompleted: bool)
      requires Valid() && child.Valid() && Apart(child)
      requires Filling(tail0, completed0)
      modifies this, repr
      ensures Valid() && old(repr) <= repr && fresh(repr - old(repr))
      ensures Filling(tail, headCompleted)
      ensures var row := OverlapRow(parent, child.Contents());
              && headCompleted == (completed0 || row != [])
              && Contents() == Extended(old(Contents()), completed0, row)
    {
      hide Values, OverlapRow, Distinct, Overlap, Extended, RangeList.Filling;
      tail, headCompleted := tail0, completed0;
      ghost var was, cs, j := Contents(), child.Contents(), 0;
      assert cs[..0] == [];
      OverlapRowOfNone(parent);
      ExtendNone(was, completed0);
      var node: Node? := child.head;
      while node != null
        invariant Valid() && child.Valid() && Apart(child)
        invariant old(repr) <= repr && fresh(repr - old(repr))
        invariant 0 <= j <= |cs| && node == child.NodeAt(j) && child.Contents() == cs
        invariant Filling(tail, headCompleted)
        invariant headCompleted == (completed0 || OverlapRow(parent, cs[..j]) != [])
        invariant Contents() == Extended(was, completed0, OverlapRow(parent, cs[..j]))
        decreases |cs| - j
      {
        OverlapRowOneMore(parent, cs, j);
        ExtendMore(was, completed0, OverlapRow(parent, cs[..j]), parent, cs[j]);
        tail, headCompleted := EmitOverlap(parent, node.range, tail, headCompleted);
        node := node.next;
        j := j + 1;
      }
      assert cs[..j] == cs;
    }

    /** Fills a new list with all overlaps of a parent and a child list. */
    method MergeRangeList(parent: RangeList, child: RangeList)
      requires Valid() && parent.Valid() && child.Valid() && Apart(parent) && Apart(child)
      requires nodes == [head]
      modifies this, repr
      ensures Valid() && old(repr) <= repr && fresh(repr - old(repr))
      ensures Contents() == Merged(old(Contents())[0], parent.Contents(), child.Contents())
    {
      hide Values, Overlaps, OverlapRow, Distinct, Extended;
      ghost var was, ps, cs, i := Contents(), parent.Contents(), child.Contents(), 0;
      assert ps[..0] == [];
      OverlapsOfNone(cs);
      ExtendNone(was, false);
      var tail, headCompleted := head, false;
      var node: Node? := parent.head;
      while node != null
        invariant Valid() && parent.Valid() && child.Valid() && Apart(parent) && Apart(child)
        invariant old(repr) <= repr && fresh(repr - old(repr))
        invariant 0 <= i <= |ps| && node == parent.NodeAt(i)
        invariant parent.Contents() == ps && child.Contents() == cs
        invariant Filling(tail, headCompleted)
        invariant headCompleted == (Overlaps(ps[..i], cs) != [])
        invariant Contents() == Extended(was, false, Overlaps(ps[..i], cs))
        decreases |ps| - i
      {
        OverlapsOneMore(ps, cs, i);
        ExtendTwice(was, Overlaps(ps[..i], cs), OverlapRow(ps[i], cs));
        tail, headCompleted := MergeRow(node.range, child, tail, headCompleted);
        node := node.next;
        i := i + 1;
      }
      assert ps[..i] == ps;
      MergedIsExtended(was, ps, cs);
    }

    // ----- Consolidating

    /** Exchanges the ranges of two entries. */
    method Exchange(node1: Node, node2: Node, ghost i: nat, ghost j: nat)
      requires Valid() && i < j < |nodes| && nodes[i] == node1 && nodes[j] == node2
      modifies repr`range
      ensures Contents() == Swapped(old(Contents()), i, j)
    {
      var range := node1.range;
      node1.range := node2.range;
      node2.range := range;
    }

    /** One pass of the exchange sort: the least base from position `i` on
        comes to position `i`. */
    method SortPass(list1: Node, ghost i: nat)
      requires Valid() && i < |nodes| && nodes[i] == list1
      requires SortedUpTo(Contents(), i, false)
      modifies repr`range
      ensures SortedUpTo(Contents(), i + 1, false)
      ensures multiset(Contents()) == multiset(old(Contents()))
    {
      hide Values, Swapped, SortedUpTo, First, BasesSwapped;
      ghost var j := i + 1;
      FirstStarts(Contents(), i, false);
      var list2 := list1.next;
      while list2 != null
        invariant i < j <= |nodes| && list2 == NodeAt(j)
        invariant SortedUpTo(Contents(), i, false) && First(Contents(), i, j, false)
        invariant multiset(Contents()) == multiset(old(Contents()))
        decreases |nodes| - j
      {
        FirstGrows(Contents(), i, j, false);
        if list2.range.base < list1.range.base {
          Exchange(list1, list2, i, j);
        }
        list2 := list2.next;
        j := j + 1;
      }
      FirstEnds(Contents(), i, false);
    }

    /** Sorts the entries by base. */
    method Sort()
      requires Valid()
      modifies repr`range
      ensures Sorted(Contents())
      ensures multiset(Contents()) == multiset(old(Contents()))
    {
      hide Values, SortedUpTo, Sorted;
      ghost var i := 0;
      SortedUpToStarts(Contents(), false);
      var list1: Node? := head;
      while list1 != null
        invariant 0 <= i <= |nodes| && list1 == NodeAt(i)
        invariant SortedUpTo(Contents(), i, false)
        invariant multiset(Contents()) == multiset(old(Contents()))
        decreases |nodes| - i
      {
        SortPass(list1, i);
        list1 := list1.next;
        i := i + 1;
      }
      SortedUpToEnds(Contents());
    }

    /** Takes the entry behind `list1` out of the list. */
    method Unlink(list1: Node, ghost i: nat)
      requires Valid() && i + 1 < |nodes| && nodes[i] == list1
      modifies this, list1`next
      ensures Valid() && repr == old(repr)
      ensures nodes == Deleted(old(nodes), i + 1)
      ensures Contents() == Deleted(old(Contents()), i + 1)
    {
      hide Distinct, Values;
      ghost var was := nodes;
      DistinctAt(was, i);
      DistinctDelete(was, i + 1);
      list1.next := list1.next.next;
      nodes := Deleted(was, i + 1);
      assert forall k | 0 <= k < |nodes| :: nodes[k] == was[if k <= i then k else k + 1];
    }

    /** Replaces an entry and the one behind it by one entry. */
    method Absorb(list1: Node, ghost i: nat, range: Range)
      requires Valid() && i + 1 < |nodes| && nodes[i] == list1
      modifies this, list1
      ensures Valid() && repr == old(repr)
      ensures |nodes| == |old(nodes)| - 1 && nodes[i] == list1
      ensures Contents() == Absorbed(old(Contents()), i, range)
    {
      hide Distinct, Values, Deleted, Absorbed;
      ghost var c := Contents();
      Unlink(list1, i);
      SetRange(list1, i, range);
      AbsorbIsDelete(c, i, range);
    }

    /** Drops empty entries and joins neighbours in one pass; returns the last
        entry. */
    method Coalesce() returns (list1: Node)
      requires Valid()
      modifies this, repr
      ensures Valid() && repr == old(repr) && list1 == nodes[|nodes| - 1]
      ensures Contents() == Coalesced(old(Contents())[0], old(Contents())[1..])
    {
      hide Values, Coalesced, Distinct, Absorbed;
      ghost var was, i := Contents(), 0;
      list1 := head;
      while list1.next != null
        invariant Valid() && repr == old(repr)
        invariant 0 <= i < |nodes| && list1 == nodes[i]
        invariant CoalescedFrom(Contents(), i) == CoalescedFrom(was, 0)
        decreases |nodes| - i
      {
        CoalesceStep(Contents(), i);
        var x, y := list1.range, list1.next.range;
        if x.limit < x.base {
          Absorb(list1, i, y);
        } else {
          var l := WrapInt64(x.limit + 1);
          if l > x.limit && l >= y.base && x.target.systemBase == y.target.systemBase {
            Absorb(list1, i, if y.limit > x.limit then x.(limit := y.limit) else x);
          } else {
            list1 := list1.next;
            i := i + 1;
          }
        }
      }
      CoalesceEnds(Contents(), was);
    }

    /** Takes the last entry out of a list of more than one. */
    method DropLast(list1: Node)
      requires Valid() && |nodes| > 1 && list1 == nodes[|nodes| - 1]
      modifies this, repr`next
      ensures Valid() && repr == old(repr)
      ensures Contents() == old(Contents())[..|old(Contents())| - 1]
    {
      hide Values;
      ghost var c, n := Contents(), |nodes| - 1;
      ghost var k := 0;
      var list2 := head;
      while list2.next != list1
        invariant 0 <= k < n && list2 == nodes[k]
        decreases n - k
      {
        list2 := list2.next;
        k := k + 1;
      }
      assert k == n - 1;
      list2.next := null;
      nodes := nodes[..n];
      assert Contents() == c[..n];
    }

    /** Sorts the list, drops its empty entries and joins neighbours. */
    method Consolidate()
      requires Valid()
      modifies this, repr
      ensures Valid() && repr == old(repr)
      ensures ConsolidatedFrom(old(Contents()), Contents())
    {
      hide Values, Coalesced, Sorted;
      Sort();
      ghost var sorted := Contents();
      var list1 := Coalesce();
      if list1 != head && list1.range.limit < list1.range.base {
        DropLast(list1);
      }
      assert Contents() == Consolidated(sorted);
    }

    // ----- Sorting for a resource request

    /** Exchanges base, limit and system base of two entries, not their
        address spaces. */
    method ExchangeTriples(range1: Node, range2: Node, ghost i: nat, ghost j: nat)
      requires Valid() && i < j < |nodes| && nodes[i] == range1 && nodes[j] == range2
      modifies repr`range
      ensures Contents() == TriplesSwapped(old(Contents()), i, j)
    {
      ghost var was := Contents();
      assert was[i] == range1.range && was[j] == range2.range && range1 != range2;
      hide Values, Distinct, Triples, BasesSwapped, TripleOf, WithTriple;
      var held := TripleOf(range1.range);
      SetRange(range1, i, WithTriple(range1.range, TripleOf(range2.range)));
      SetRange(range2, j, WithTriple(range2.range, held));
    }

    /** One pass of the descending exchange sort. */
    method SortDownPass(range1: Node, ghost i: nat)
      requires Valid() && i < |nodes| && nodes[i] == range1
      requires SortedUpTo(Contents(), i, true)
      modifies repr`range
      ensures SortedUpTo(Contents(), i + 1, true)
      ensures multiset(Triples(Contents())) == multiset(Triples(old(Contents())))
    {
      hide Values, TriplesSwapped, SortedUpTo, First, BasesSwapped, Triples;
      ghost var j := i + 1;
      FirstStarts(Contents(), i, true);
      var range2 := range1.next;
      while range2 != null
        invariant i < j <= |nodes| && range2 == NodeAt(j)
        invariant SortedUpTo(Contents(), i, true) && First(Contents(), i, j, true)
        invariant multiset(Triples(Contents())) == multiset(Triples(old(Contents())))
        decreases |nodes| - j
      {
        FirstGrows(Contents(), i, j, true);
        if range2.range.base > range1.range.base {
          ExchangeTriples(range1, range2, i, j);
        }
        range2 := range2.next;
        j := j + 1;
      }
      FirstEnds(Contents(), i, true);
    }

    /** Sorts the entries into descending order of base and counts them. */
    method SortRanges() returns (cnt: nat)
      requires Valid()
      modifies repr`range
      ensures Valid() && cnt == |Contents()|
      ensures SortedDown(old(Contents()), Contents())
    {
      hide Values, SortedUpTo, Triples, SortedDown;
      ghost var i := 0;
      SortedUpToStarts(Contents(), true);
      var range1: Node? := head;
      while range1 != null
        invariant 0 <= i <= |nodes| && range1 == NodeAt(i)
        invariant SortedUpTo(Contents(), i, true)
        invariant multiset(Triples(Contents())) == multiset(Triples(old(Contents())))
        decreases |nodes| - i
      {
        SortDownPass(range1, i);
        range1 := range1.next;
        i := i + 1;
      }
      SortedDownEnds(old(Contents()), Contents());
      cnt := 0;
      range1 := head;
      while range1 != null
        invariant cnt <= |nodes| && range1 == NodeAt(cnt)
        decreases |nodes| - cnt
      {
        cnt := cnt + 1;
        range1 := range1.next;
      }
    }
  }
}
