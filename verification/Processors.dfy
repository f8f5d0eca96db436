/** Processor numbers (hals/halacpi/mpsyssup.c): which local APIC each logical
    processor gets, as processors are started and as the NUMA code predicts it
    before they are. */
module Processors {
  import opened Words

  /** An entry of the local APIC table. */
  datatype Proc = Proc(apicId: u8, started: bool, enumerated: bool, ntNumber: u8)

  // ----- The three routines as functions of the table

  /** The entry waits to be enumerated. */
  predicate Waits(p: Proc) {
    !p.started && !p.enumerated
  }

  /** The positions of the waiting entries, in table order. */
  function Waiting(ps: seq<Proc>): (w: seq<nat>)
    ensures forall i | 0 <= i < |w| :: w[i] < |ps| && Waits(ps[w[i]])
    ensures |w| <= |ps|
  {
    if ps == [] then []
    else
      var n := |ps| - 1;
      Waiting(ps[..n]) + if Waits(ps[n]) then [n] else []
  }

  function StartedCount(ps: seq<Proc>): nat {
    if ps == [] then 0
    else StartedCount(ps[..|ps| - 1]) + if ps[|ps| - 1].started then 1 else 0
  }

  /** The entry is a started processor with the number. */
  predicate IsNumber(p: Proc, n: u8) {
    p.started && p.ntNumber == n
  }

  ghost predicate HasNumber(ps: seq<Proc>, n: u8) {
    exists i :: 0 <= i < |ps| && IsNumber(ps[i], n)
  }

  /** The position of the local APIC predicted for a processor number: the
      first started entry with that number, or else the waiting entry that
      would get it. */
  ghost predicate Predicts(ps: seq<Proc>, n: u8, k: Option<nat>) {
    if HasNumber(ps, n) then
      k.Some? && k.value < |ps| && IsNumber(ps[k.value], n) && forall i | 0 <= i < k.value :: !IsNumber(ps[i], n)
    else
      var skip := n - StartedCount(ps);
      k == if 0 <= skip < |Waiting(ps)| then Some(Waiting(ps)[skip]) else None
  }

  /** The waiting entries are exactly those of the list, in table order. */
  lemma {:induction false} WaitingIsExact(ps: seq<Proc>)
    ensures forall i: nat :: i in Waiting(ps) <==> i < |ps| && Waits(ps[i])
    ensures forall i, j | 0 <= i < j < |Waiting(ps)| :: Waiting(ps)[i] < Waiting(ps)[j]
    decreases |ps|
  {
    if ps != [] {
      var n := |ps| - 1;
      WaitingIsExact(ps[..n]);
      forall i: nat ensures i in Waiting(ps) <==> i < |ps| && Waits(ps[i]) {
        assert i in Waiting(ps) <==> i in Waiting(ps[..n]) || (i == n && Waits(ps[n]));
      }
    }
  }

  /** The APIC ID that a table gives for a processor number: that of the first
      started entry with the number; if there is none, that of the waiting entry
      with as many waiting entries before it as there are numbers between the
      started processors and this one; or none. */
  ghost predicate Answers(ps: seq<Proc>, n: u8, id: Option<u8>) {
    && (forall i | 0 <= i < |ps| && IsNumber(ps[i], n) && (forall j | 0 <= j < i :: !IsNumber(ps[j], n)) ::
          id == Some(ps[i].apicId))
    && (!HasNumber(ps, n) ==>
          var skip := n - StartedCount(ps);
          if 0 <= skip < |Waiting(ps)| then id == Some(ps[Waiting(ps)[skip]].apicId) else id == None)
  }

  /** It is the ID of the predicted entry. */
  lemma AnswerIsPredicted(ps: seq<Proc>, n: u8, id: Option<u8>, k: Option<nat>)
    requires Answers(ps, n, id) && Predicts(ps, n, k)
    ensures k.Some? ==> k.value < |ps|
    ensures id == if k.None? then None else Some(ps[k.value].apicId)
  {
  }

  /** The position of the first entry with an APIC ID. */
  function FirstWithId(ps: seq<Proc>, apicId: u8): (k: nat)
    ensures k <= |ps|
  {
    if ps == [] then 0 else if ps[0].apicId == apicId then 0 else 1 + FirstWithId(ps[1..], apicId)
  }

  function FirstNotEnumerated(ps: seq<Proc>): (k: nat)
    ensures k <= |ps|
  {
    if ps == [] then 0 else if !ps[0].enumerated then 0 else 1 + FirstNotEnumerated(ps[1..])
  }

  lemma {:induction false} FirstIs(ps: seq<Proc>, apicId: u8, k: nat)
    requires k <= |ps|
    requires forall i | 0 <= i < k :: ps[i].apicId != apicId
    requires k < |ps| ==> ps[k].apicId == apicId
    ensures FirstWithId(ps, apicId) == k
    decreases k
  {
    if k > 0 {
      FirstIs(ps[1..], apicId, k - 1);
    }
  }

  lemma {:induction false} FirstNotEnumeratedIs(ps: seq<Proc>, k: nat)
    requires k <= |ps|
    requires forall i | 0 <= i < k :: ps[i].enumerated
    requires k < |ps| ==> !ps[k].enumerated
    ensures FirstNotEnumerated(ps) == k
    decreases k
  {
    if k > 0 {
      FirstNotEnumeratedIs(ps[1..], k - 1);
    }
  }

  function Marked(ps: seq<Proc>, apicId: u8, ntNumber: u8): seq<Proc> {
    var k := FirstWithId(ps, apicId);
    if k < |ps| then ps[k := ps[k].(started := true, ntNumber := ntNumber)] else ps
  }

  lemma MarkedFrom(ps: seq<Proc>, apicId: u8, ntNumber: u8)
    ensures FirstWithId(ps, apicId) == |ps| ==> Marked(ps, apicId, ntNumber) == ps
  {
  }

  lemma {:induction false} WaitingPrefix(ps: seq<Proc>, k: nat)
    requires k <= |ps|
    ensures Waiting(ps[..k]) <= Waiting(ps)
    decreases |ps| - k
  {
    if k == |ps| {
      assert ps[..k] == ps;
    } else {
      WaitingPrefix(ps, k + 1);
      assert ps[..k + 1][..k] == ps[..k];
    }
  }

  class ApicTable {
    const procs: array<Proc>

    constructor (entries: seq<Proc>)
      requires |entries| <= 255
      ensures procs[..] == entries
    {
      procs := new Proc[|entries|](i requires 0 <= i < |entries| => entries[i]);
    }

    /** Marks the processor the system booted on. */
    method MarkBootProcessor(apicNo: u8) returns (procNo: nat)
      modifies procs
      ensures procNo <= procs.Length
      ensures forall i | 0 <= i < procNo :: old(procs[i].apicId) != apicNo
      ensures procNo < procs.Length ==>
                && old(procs[procNo]).apicId == apicNo
                && procs[..] == old(procs[..])[procNo := old(procs[procNo]).(started := true, enumerated := true)]
      ensures procNo == procs.Length ==> procs[..] == old(procs[..])
    {
      procNo := 0;
      while procNo < procs.Length
        invariant 0 <= procNo <= procs.Length
        invariant procs[..] == old(procs[..])
        invariant forall i | 0 <= i < procNo :: old(procs[i].apicId) != apicNo
      {
        if procs[procNo].apicId == apicNo {
          procs[procNo] := procs[procNo].(started := true, enumerated := true);
          return;
        }
        procNo := procNo + 1;
      }
    }

    method MarkProcessorStarted(apicId: u32, ntNumber: u32)
      modifies procs
      ensures procs[..] == Marked(old(procs[..]), apicId % 0x100, ntNumber % 0x100)
    {
      ghost var was := procs[..];
      MarkedFrom(was, apicId % 0x100, ntNumber % 0x100);
      for procNo := 0 to procs.Length
        invariant procs[..] == was
        invariant forall i | 0 <= i < procNo :: was[i].apicId != apicId % 0x100
      {
        if procs[procNo].apicId == apicId % 0x100 {
          FirstIs(was, apicId % 0x100, procNo);
          procs[procNo] := procs[procNo].(started := true, ntNumber := ntNumber % 0x100);
          return;
        }
      }
      FirstIs(was, apicId % 0x100, procs.Length);
    }

    method GetNextProcessorApicId() returns (apicId: Option<u8>)
      requires procs.Length <= 255
      modifies procs
      ensures var e := FirstNotEnumerated(old(procs[..]));
              if e < procs.Length
              then && apicId == Some(old(procs[e]).apicId)
                   && procs[..] == old(procs[..])[e := old(procs[e]).(enumerated := true)]
              else apicId == None && procs[..] == old(procs[..])
    {
      var proc := 0;
      while proc < procs.Length && procs[proc].enumerated
        invariant 0 <= proc <= procs.Length
        invariant forall i | 0 <= i < proc :: procs[i].enumerated
      {
        proc := proc + 1;
      }
      FirstNotEnumeratedIs(procs[..], proc);
      if proc == procs.Length {
        return None;
      }
      apicId := Some(procs[proc].apicId);
      procs[proc] := procs[proc].(enumerated := true);
    }

    /** The first started entry with a processor number; if there is none, the
        number less the started entries. */
    method FindStarted(processor: u8) returns (found: Option<nat>, skip: int)
      ensures found.Some? ==> found.value < procs.Length && IsNumber(procs[found.value], processor)
                              && forall i | 0 <= i < found.value :: !IsNumber(procs[i], processor)
      ensures found.None? ==> !HasNumber(procs[..], processor) && skip == processor - StartedCount(procs[..])
    {
      ghost var ps := procs[..];
      skip := processor;
      for proc := 0 to procs.Length
        invariant skip == processor - StartedCount(ps[..proc])
        invariant forall i | 0 <= i < proc :: !IsNumber(ps[i], processor)
      {
        assert ps[..proc + 1][..proc] == ps[..proc];
        if procs[proc].started {
          skip := skip - 1;
          if procs[proc].ntNumber == processor {
            return Some(proc), skip;
          }
        }
      }
      assert ps[..procs.Length] == ps;
      found := None;
    }

    /** The waiting entry with so many waiting entries before it. */
    method FindWaiting(skip0: int) returns (found: Option<nat>)
      ensures found == if 0 <= skip0 < |Waiting(procs[..])| then Some(Waiting(procs[..])[skip0]) else None
    {
      ghost var ps := procs[..];
      var skip := skip0;
      assert ps[..0] == [];
      for proc := 0 to procs.Length
        invariant skip == skip0 - |Waiting(ps[..proc])|
        invariant skip0 < 0 || skip >= 0
      {
        assert ps[..proc + 1][..proc] == ps[..proc];
        if procs[proc].started || procs[proc].enumerated {
          continue;
        }
        if skip == 0 {
          WaitingPrefix(ps, proc + 1);
          return Some(proc);
        }
        skip := skip - 1;
      }
      assert ps[..procs.Length] == ps;
      found := None;
    }

    /** The APIC ID of the entry predicted for a processor number. */
    method GetApicIdByProcessorNumber(processor: u8) returns (apicId: Option<u8>)
      requires procs.Length <= 255
      ensures Answers(procs[..], processor, apicId)
    {
      ghost var ps := procs[..];
      var place, skip := FindStarted(processor);
      if place.Some? {
        assert IsNumber(procs[..][place.value], processor);
      } else {
        place := FindWaiting(skip);
      }
      apicId := if place.None? then None else Some(procs[place.value].apicId);
      forall i | 0 <= i < |ps| && IsNumber(ps[i], processor) && (forall j | 0 <= j < i :: !IsNumber(ps[j], processor))
        ensures apicId == Some(ps[i].apicId)
      {
        assert HasNumber(ps, processor) && place.Some? && i == place.value;
      }
    }
  }

  // ----- Runs

  /** The table, and the positions started so far in the order they were
      started: the processor started `k`-th has number `k`. */
  datatype World = World(ps: seq<Proc>, order: seq<nat>)

  ghost predicate DistinctIds(ps: seq<Proc>) {
    forall i, j | 0 <= i < j < |ps| :: ps[i].apicId != ps[j].apicId
  }

  ghost predicate Invariant(w: World) {
    && |w.ps| <= 255 && DistinctIds(w.ps)
    && (forall i | 0 <= i < |w.ps| && w.ps[i].started :: w.ps[i].enumerated)
    && (forall k | 0 <= k < |w.order| :: k < 256 && w.order[k] < |w.ps| && IsNumber(w.ps[w.order[k]], k))
    && (forall i | 0 <= i < |w.ps| && w.ps[i].started ::
          w.ps[i].ntNumber < |w.order| && w.order[w.ps[i].ntNumber] == i)
    && StartedCount(w.ps) == |w.order|
  }

  datatype Step =
    | Start  // the next processor is enumerated and started with the next number
    | Refuse // the next processor is enumerated but not started

  function Next(w: World, step: Step): World {
    var k := FirstNotEnumerated(w.ps);
    if k == |w.ps| then w
    else
      var ps := w.ps[k := w.ps[k].(enumerated := true)];
      if step == Start then World(Marked(ps, w.ps[k].apicId, |w.order| % 0x100), w.order + [k])
      else w.(ps := ps)
  }

  /** The seats: the started processors in order, then the waiting ones. */
  function Seats(w: World): seq<nat> {
    w.order + Waiting(w.ps)
  }

  /** In every state a processor number is predicted to be the seat of that
      number. */
  lemma PredictionIsSeat(w: World, n: u8, k: Option<nat>)
    requires Invariant(w) && Predicts(w.ps, n, k)
    ensures k == if n < |Seats(w)| then Some(Seats(w)[n]) else None
  {
    if n < |w.order| {
      assert IsNumber(w.ps[w.order[n]], n);
      assert HasNumber(w.ps, n);
    }
  }

  ghost predicate Increasing(w: seq<nat>) {
    forall i, j | 0 <= i < j < |w| :: w[i] < w[j]
  }

  lemma {:induction false} WaitingIncreases(ps: seq<Proc>)
    ensures Increasing(Waiting(ps))
    decreases |ps|
  {
    hide Increasing;
    NoneIncreases();
    if ps != [] {
      var n := |ps| - 1;
      WaitingIncreases(ps[..n]);
      IncreasingAppend(Waiting(ps[..n]), n);
      assert Waiting(ps[..n]) + [] == Waiting(ps[..n]);
    }
  }

  lemma NoneIncreases()
    ensures Increasing([])
  {
  }

  lemma IncreasingAppend(u: seq<nat>, n: nat)
    requires Increasing(u) && forall i | 0 <= i < |u| :: u[i] < n
    ensures Increasing(u + [n])
  {
  }

  /** Taking the first waiting entry out of the wait leaves the others. */
  lemma {:induction false} WaitingRest(ps: seq<Proc>, k: nat, p: Proc)
    requires k < |ps| && Waits(ps[k]) && !Waits(p)
    requires forall i | 0 <= i < k :: !Waits(ps[i])
    ensures Waiting(ps) != [] && Waiting(ps)[0] == k
    ensures Waiting(ps[k := p]) == Waiting(ps)[1..]
    decreases |ps|
  {
    var n := |ps| - 1;
    var now := ps[k := p];
    hide Waits;
    if k == n {
      NoneWaiting(ps[..n]);
      assert now[..n] == ps[..n];
      assert Waiting(ps) == [n] && Waiting(now) == [];
    } else {
      WaitingRest(ps[..n], k, p);
      assert now[..n] == ps[..n][k := p];
      var last := if Waits(ps[n]) then [n] else [];
      assert Waiting(ps) == Waiting(ps[..n]) + last && Waiting(now) == Waiting(ps[..n])[1..] + last;
    }
  }

  lemma {:induction false} NoneWaiting(ps: seq<Proc>)
    requires forall i | 0 <= i < |ps| :: !Waits(ps[i])
    ensures Waiting(ps) == []
    decreases |ps|
  {
    if ps != [] {
      NoneWaiting(ps[..|ps| - 1]);
    }
  }

  lemma {:induction false} StartedOneMore(ps: seq<Proc>, k: nat, p: Proc)
    requires k < |ps| && !ps[k].started
    ensures StartedCount(ps[k := p]) == StartedCount(ps) + if p.started then 1 else 0
    decreases |ps|
  {
    var n := |ps| - 1;
    if k == n {
      assert ps[k := p][..n] == ps[..n];
    } else {
      assert ps[k := p][..n] == ps[..n][k := p];
      StartedOneMore(ps[..n], k, p);
    }
  }

  lemma {:induction false} StartedBounded(ps: seq<Proc>)
    ensures StartedCount(ps) <= |ps|
    ensures (exists i :: 0 <= i < |ps| && !ps[i].started) ==> StartedCount(ps) < |ps|
    decreases |ps|
  {
    if ps != [] {
      StartedBounded(ps[..|ps| - 1]);
      if i :| 0 <= i < |ps| && !ps[i].started && i < |ps| - 1 {
        assert !ps[..|ps| - 1][i].started;
      }
    }
  }

  lemma {:induction false} FirstNotEnumeratedMeans(ps: seq<Proc>)
    ensures var k := FirstNotEnumerated(ps);
            && (forall i | 0 <= i < k :: ps[i].enumerated)
            && (k < |ps| ==> !ps[k].enumerated)
  {
    if ps != [] && ps[0].enumerated {
      FirstNotEnumeratedMeans(ps[1..]);
      assert forall i | 1 <= i < |ps| :: ps[i] == ps[1..][i - 1];
    }
  }

  lemma MarkedIsUpdate(ps: seq<Proc>, k: nat, n: u8)
    requires k < |ps| && DistinctIds(ps)
    ensures Marked(ps, ps[k].apicId, n) == ps[k := ps[k].(started := true, ntNumber := n)]
  {
    FirstIs(ps, ps[k].apicId, k);
  }

  /** The next processor started with the next number. */
  lemma StartKeepsInvariant(w: World, k: nat)
    requires Invariant(w) && k < |w.ps| && !w.ps[k].enumerated
    ensures |w.order| < 255
    ensures Invariant(World(w.ps[k := w.ps[k].(started := true, enumerated := true, ntNumber := |w.order|)], w.order + [k]))
  {
    StartedBounded(w.ps);
    assert !w.ps[k].started;
    StartedOneMore(w.ps, k, w.ps[k].(started := true, enumerated := true, ntNumber := |w.order|));
  }

  lemma RefusalKeepsInvariant(w: World, k: nat)
    requires Invariant(w) && k < |w.ps| && !w.ps[k].enumerated
    ensures Invariant(w.(ps := w.ps[k := w.ps[k].(enumerated := true)]))
  {
    StartedOneMore(w.ps, k, w.ps[k].(enumerated := true));
  }

  lemma StartIsUpdate(w: World, k: nat)
    requires DistinctIds(w.ps) && k < |w.ps| && |w.order| < 255
    ensures Marked(w.ps[k := w.ps[k].(enumerated := true)], w.ps[k].apicId, |w.order| % 0x100) ==
            w.ps[k := w.ps[k].(started := true, enumerated := true, ntNumber := |w.order|)]
  {
    MarkedIsUpdate(w.ps[k := w.ps[k].(enumerated := true)], k, |w.order|);
  }

  /** Both steps keep the invariant; a start leaves every seat where it is, and
      a refusal takes out the seat that would have been next. */
  lemma StepSeats(w: World, step: Step)
    requires Invariant(w)
    ensures Invariant(Next(w, step))
    ensures var n := |w.order|;
            if step == Start || |Seats(w)| == n then Seats(Next(w, step)) == Seats(w)
            else Seats(Next(w, step)) == Seats(w)[..n] + Seats(w)[n + 1..]
  {
    var k := FirstNotEnumerated(w.ps);
    FirstNotEnumeratedMeans(w.ps);
    assert forall i | 0 <= i < k :: !Waits(w.ps[i]);
    if k == |w.ps| {
      NoneWaiting(w.ps);
    } else {
      assert Waits(w.ps[k]);
      StartKeepsInvariant(w, k);
      RefusalKeepsInvariant(w, k);
      StartIsUpdate(w, k);
      hide Invariant, Waiting, Marked, Waits, FirstNotEnumerated;
      var p := if step == Start then w.ps[k].(started := true, enumerated := true, ntNumber := |w.order|)
               else w.ps[k].(enumerated := true);
      DoesNotWait(p);
      WaitingRest(w.ps, k, p);
      MoveSeat(w.order, Waiting(w.ps));
    }
  }

  lemma DoesNotWait(p: Proc)
    requires p.enumerated
    ensures !Waits(p)
  {
  }

  lemma MoveSeat(xs: seq<nat>, ys: seq<nat>)
    requires ys != []
    ensures xs + [ys[0]] + ys[1..] == xs + ys
    ensures xs + ys[1..] == (xs + ys)[..|xs|] + (xs + ys)[|xs| + 1..]
  {
  }

  ghost function Run(w: World, steps: seq<Step>): World
    decreases |steps|
  {
    if steps == [] then w else Run(Next(w, steps[0]), steps[1..])
  }

  lemma {:induction false} RunKeepsSeats(w: World, steps: seq<Step>)
    requires Invariant(w) && forall i | 0 <= i < |steps| :: steps[i] == Start
    ensures Invariant(Run(w, steps)) && Seats(Run(w, steps)) == Seats(w)
    decreases |steps|
  {
    if steps != [] {
      StepSeats(w, steps[0]);
      RunKeepsSeats(Next(w, steps[0]), steps[1..]);
    }
  }

  ghost predicate SameIds(ps: seq<Proc>, qs: seq<Proc>) {
    |ps| == |qs| && forall i | 0 <= i < |ps| :: ps[i].apicId == qs[i].apicId
  }

  lemma {:induction false} RunKeepsIds(w: World, steps: seq<Step>)
    ensures SameIds(w.ps, Run(w, steps).ps)
    decreases |steps|
  {
    if steps != [] {
      RunKeepsIds(Next(w, steps[0]), steps[1..]);
      assert SameIds(w.ps, Next(w, steps[0]).ps);
    }
  }

  /** While every enumerated processor is started, the prediction for a number
      is the same in every reachable state, and it is the processor that has the
      number once it is started. */
  lemma PredictionIsStable(w: World, steps: seq<Step>, n: u8, k: Option<nat>, k': Option<nat>)
    requires Invariant(w) && forall i | 0 <= i < |steps| :: steps[i] == Start
    requires Predicts(w.ps, n, k) && Predicts(Run(w, steps).ps, n, k')
    ensures k == k'
    ensures n < |Run(w, steps).order| ==> k == Some(Run(w, steps).order[n])
  {
    RunKeepsSeats(w, steps);
    PredictionIsSeat(w, n, k);
    PredictionIsSeat(Run(w, steps), n, k');
  }

  ghost function Prediction(ps: seq<Proc>, n: u8): (k: Option<nat>)
    ensures Predicts(ps, n, k)
  {
    if HasNumber(ps, n) then FirstNumber(ps, n, 0)
    else
      var skip := n - StartedCount(ps);
      if 0 <= skip < |Waiting(ps)| then Some(Waiting(ps)[skip]) else None
  }

  ghost function FirstNumber(ps: seq<Proc>, n: u8, i: nat): (k: Option<nat>)
    requires HasNumber(ps, n) && i <= |ps| && forall j | 0 <= j < i :: !IsNumber(ps[j], n)
    ensures Predicts(ps, n, k)
    decreases |ps| - i
  {
    if i < |ps| && !IsNumber(ps[i], n) then FirstNumber(ps, n, i + 1) else Some(i)
  }

  /** The APIC ID returned for a number in any state of a run is that of the
      processor that has the number when it is started, however much later, and
      none if there is no processor left to get it. */
  lemma AnswerIsStarted(w: World, steps: seq<Step>, n: u8, id: Option<u8>)
    requires Invariant(w) && forall i | 0 <= i < |steps| :: steps[i] == Start
    requires Answers(w.ps, n, id)
    ensures var qs := Run(w, steps).ps;
            forall i | 0 <= i < |qs| && IsNumber(qs[i], n) :: id == Some(qs[i].apicId)
    ensures n < |Seats(w)| ==> Seats(w)[n] < |w.ps| && id == Some(w.ps[Seats(w)[n]].apicId)
    ensures n >= |Seats(w)| ==> id == None
  {
    var w' := Run(w, steps);
    var k, k' := Prediction(w.ps, n), Prediction(w'.ps, n);
    AnswerIsPredicted(w.ps, n, id, k);
    PredictionIsStable(w, steps, n, k, k');
    PredictionIsSeat(w, n, k);
    RunKeepsIds(w, steps);
    RunKeepsSeats(w, steps);
    hide Run, Waiting;
    forall i | 0 <= i < |w'.ps| && IsNumber(w'.ps[i], n) ensures id == Some(w'.ps[i].apicId) {
      assert w'.order[n] == i;
    }
  }

  lemma SeatsAreDistinct(w: World, i: nat, j: nat)
    requires Invariant(w) && i < j < |Seats(w)|
    ensures Seats(w)[i] != Seats(w)[j]
  {
    WaitingIncreases(w.ps);
    if j < |w.order| {
      assert IsNumber(w.ps[w.order[i]], i) && IsNumber(w.ps[w.order[j]], j);
    } else if i < |w.order| {
      assert IsNumber(w.ps[w.order[i]], i) && Waits(w.ps[Seats(w)[j]]);
    } else {
      var n := |w.order|;
      assert Waiting(w.ps)[i - n] < Waiting(w.ps)[j - n];
    }
  }

  /** A refused processor changes the prediction for a number if and only if
      the number was predicted to be a waiting processor. */
  lemma RefusalShiftsPrediction(w: World, n: u8, k: Option<nat>, k': Option<nat>)
    requires Invariant(w)
    requires Predicts(w.ps, n, k) && Predicts(Next(w, Refuse).ps, n, k')
    ensures k != k' <==> |w.order| <= n < |Seats(w)|
  {
    hide Predicts, Invariant, Next, Waiting;
    var w' := Next(w, Refuse);
    StepSeats(w, Refuse);
    PredictionIsSeat(w, n, k);
    PredictionIsSeat(w', n, k');
    if |w.order| <= n < |Seats(w)| - 1 {
      SeatsAreDistinct(w, n, n + 1);
    }
  }

  // ----- From boot

  ghost predicate Fresh(ps: seq<Proc>) {
    && |ps| <= 255 && DistinctIds(ps)
    && forall i | 0 <= i < |ps| :: Waits(ps[i]) && ps[i].ntNumber == 0
  }

  function Booted(ps: seq<Proc>, b: nat): World
    requires b < |ps|
  {
    World(ps[b := ps[b].(started := true, enumerated := true)], [b])
  }

  lemma {:induction false} FreshCounts(ps: seq<Proc>)
    requires forall i | 0 <= i < |ps| :: Waits(ps[i])
    ensures StartedCount(ps) == 0 && |Waiting(ps)| == |ps|
    ensures forall i | 0 <= i < |ps| :: Waiting(ps)[i] == i
    decreases |ps|
  {
    if ps != [] {
      FreshCounts(ps[..|ps| - 1]);
    }
  }

  /** Marking the boot processor starts a run. */
  lemma BootStartsRun(ps: seq<Proc>, b: nat)
    requires Fresh(ps) && b < |ps|
    ensures Invariant(Booted(ps, b))
  {
    FreshCounts(ps);
    StartedOneMore(ps, b, ps[b].(started := true, enumerated := true));
  }

  /** A prediction made before the boot processor is marked takes number 0 for
      the first entry of the table, so it is right if and only if the system
      booted on that entry. */
  lemma PredictionBeforeBoot(ps: seq<Proc>, b: nat, k: Option<nat>, k': Option<nat>)
    requires Fresh(ps) && b < |ps|
    requires Predicts(ps, 0, k) && Predicts(Booted(ps, b).ps, 0, k')
    ensures k == k' <==> b == 0
  {
    FreshCounts(ps);
    BootStartsRun(ps, b);
    PredictionIsSeat(Booted(ps, b), 0, k');
  }
}
