/** The bus handler database (hals/bushnd.c): two tables that find a handler by
    interface type or configuration type and bus number, a list of all
    handlers, and an enumeration of the buses that translate an address. */
module BusHandlers {
  import opened Words

  const UNDEFINED: u32 := 0xFFFF_FFFF

  /** A handler and the address it lives at; a type is UNDEFINED if the handler
      is not in that table. */
  datatype Handler = Handler(address: nat, interfaceType: u32, configType: u32, busNumber: u32)

  /** A table: growable arrays of handler slots, one for each type, in an array
      that grows as well. */
  type Table = seq<Option<seq<Option<Handler>>>>

  /** What a lookup gives: nothing, a handler, or, for a slot that was never
      filled, an address that is not that of a handler. */
  datatype Found = Missing | At(handler: Handler) | Unfilled

  /** The number of elements of an array with a given largest index. */
  function Elements(last: u32): nat {
    if last == UNDEFINED then 1 else last as nat + 1
  }

  function Allocated<T>(last: u32): (a: seq<Option<T>>)
    ensures |a| == Elements(last)
  {
    seq(Elements(last), i => None)
  }

  /** The current array, or, if the new one is larger, the new one with the
      contents of the current one. */
  function Grown<T>(current: seq<Option<T>>, larger: seq<Option<T>>): seq<Option<T>> {
    if |larger| > |current| then current + larger[|current|..] else current
  }

  function Lookup(t: Table, kind: u32, number: u32): Found {
    if kind < |t| && t[kind].Some? && number < |t[kind].value| then
      match t[kind].value[number] { case None => Unfilled case Some(h) => At(h) }
    else Missing
  }

  /** The handler in a slot, if there is one. */
  function Slot(t: Table, kind: u32, number: u32): Option<Handler> {
    match Lookup(t, kind, number) { case At(h) => Some(h) case _ => None }
  }

  /** The table with a handler put into a slot, unless its type is undefined. */
  function Put(t: Table, kind: u32, number: u32, h: Handler): Table
    requires number != UNDEFINED
  {
    var grown := Grown(t, Allocated(kind));
    if kind == UNDEFINED then grown
    else
      var inner := Grown(if grown[kind].Some? then grown[kind].value else [], Allocated(number));
      grown[kind := Some(inner[number := Some(h)])]
  }

  /** Registration changes one slot and no other, whatever has to grow. */
  lemma PutSlot(t: Table, kind: u32, number: u32, h: Handler, k: u32, n: u32)
    requires number != UNDEFINED
    ensures Slot(Put(t, kind, number, h), k, n)
         == if kind != UNDEFINED && k == kind && n == number then Some(h) else Slot(t, k, n)
  {
    var grown := Grown(t, Allocated(kind));
    assert Slot(grown, k, n) == Slot(t, k, n);
    if kind != UNDEFINED && k == kind {
      var inner := if grown[kind].Some? then grown[kind].value else [];
      var larger := Grown(inner, Allocated(number));
      assert n < |inner| ==> larger[n] == inner[n];
      assert |inner| <= n < |larger| ==> larger[n] == None;
    }
  }

  ghost predicate GapFree(t: Table) {
    forall kind: u32, number: u32 :: Lookup(t, kind, number) != Unfilled
  }

  /** The number after those in use for a type. */
  function NextNumber(t: Table, kind: u32): nat {
    if kind < |t| && t[kind].Some? then |t[kind].value| else 0
  }

  /** A registration leaves no slot unfilled if and only if its number is at most
      the next one. */
  lemma PutGapFree(t: Table, kind: u32, number: u32, h: Handler)
    requires number != UNDEFINED && GapFree(t)
    ensures GapFree(Put(t, kind, number, h)) <==> kind == UNDEFINED || number <= NextNumber(t, kind)
  {
    var t' := Put(t, kind, number, h);
    if kind != UNDEFINED && number > NextNumber(t, kind) {
      assert Lookup(t', kind, NextNumber(t, kind)) == Unfilled;
    } else {
      forall k: u32, n: u32 ensures Lookup(t', k, n) != Unfilled {
        assert Lookup(t, k, n) != Unfilled;
      }
    }
  }

  datatype Database = Database(bus: Table, config: Table, all: seq<Handler>)

  const EMPTY := Database(Allocated(0), Allocated(0), [])

  /** The list without the entry at an address. */
  function Without(all: seq<Handler>, address: nat): (r: seq<Handler>)
    ensures forall h :: h in r <==> h in all && h.address != address
  {
    if all == [] then []
    else if all[0].address == address then Without(all[1..], address)
    else [all[0]] + Without(all[1..], address)
  }

  predicate Registrable(h: Handler) {
    h.address >= 2 && h.busNumber != UNDEFINED && (h.interfaceType != UNDEFINED || h.configType != UNDEFINED)
  }

  /** The old handler that a registration takes off the list: the one in the
      configuration slot, or else the one in the bus slot. */
  function Replaced(d: Database, h: Handler): Option<Handler> {
    var c := Slot(d.config, h.configType, h.busNumber);
    if h.configType != UNDEFINED && c.Some? then c
    else if h.interfaceType != UNDEFINED then Slot(d.bus, h.interfaceType, h.busNumber)
    else None
  }

  function Registered(d: Database, h: Handler): Database
    requires Registrable(h)
  {
    var was := Replaced(d, h);
    Database(Put(d.bus, h.interfaceType, h.busNumber, h),
             Put(d.config, h.configType, h.busNumber, h),
             if was.Some? then Without(d.all + [h], was.value.address) else d.all + [h])
  }

  ghost predicate Distinct(all: seq<Handler>) {
    forall i, j | 0 <= i < j < |all| :: all[i].address != all[j].address
  }

  /** A handler is found in every slot that its types name. */
  predicate Slotted(d: Database, h: Handler) {
    && (h.interfaceType != UNDEFINED ==> Slot(d.bus, h.interfaceType, h.busNumber) == Some(h))
    && (h.configType != UNDEFINED ==> Slot(d.config, h.configType, h.busNumber) == Some(h))
  }

  /** What is in a bus slot is on the list and belongs there. */
  ghost predicate BusListed(d: Database) {
    forall k: u32, n: u32 | Slot(d.bus, k, n).Some? ::
      var h := Slot(d.bus, k, n).value;
      h in d.all && h.interfaceType == k && k != UNDEFINED && h.busNumber == n
  }

  ghost predicate ConfigListed(d: Database) {
    forall k: u32, n: u32 | Slot(d.config, k, n).Some? ::
      var h := Slot(d.config, k, n).value;
      h in d.all && h.configType == k && k != UNDEFINED && h.busNumber == n
  }

  /** The list and the two tables hold the same handlers. */
  ghost predicate Consistent(d: Database) {
    && Distinct(d.all)
    && (forall h | h in d.all :: Registrable(h) && Slotted(d, h))
    && BusListed(d) && ConfigListed(d)
  }

  /** A handler that a registration takes out of one table has no slot left:
      where it has a type at all, it is the type of the new handler. */
  predicate Covers(h: Handler, was: Handler) {
    && (was.interfaceType == UNDEFINED || was.interfaceType == h.interfaceType)
    && (was.configType == UNDEFINED || was.configType == h.configType)
  }

  /** The handlers in the slots of the new one are all one handler, and the new
      one covers it. */
  predicate Replaceable(d: Database, h: Handler) {
    var b := if h.interfaceType == UNDEFINED then None else Slot(d.bus, h.interfaceType, h.busNumber);
    var c := if h.configType == UNDEFINED then None else Slot(d.config, h.configType, h.busNumber);
    && (b.Some? && c.Some? ==> b == c)
    && (b.Some? ==> Covers(h, b.value))
    && (c.Some? ==> Covers(h, c.value))
  }

  ghost predicate Fresh(d: Database, h: Handler) {
    Registrable(h) && forall g | g in d.all :: g.address != h.address
  }

  lemma WithoutDistinct(all: seq<Handler>, address: nat)
    requires Distinct(all)
    ensures Distinct(Without(all, address))
  {
    if all != [] {
      var rest := Without(all[1..], address);
      WithoutDistinct(all[1..], address);
      forall i | 0 <= i < |rest| ensures rest[i].address != all[0].address {
        assert rest[i] in all[1..];
      }
    }
  }

  lemma RegisteredSlots(d: Database, h: Handler, k: u32, n: u32)
    requires Registrable(h)
    ensures Slot(Registered(d, h).bus, k, n)
         == if h.interfaceType != UNDEFINED && k == h.interfaceType && n == h.busNumber then Some(h)
            else Slot(d.bus, k, n)
    ensures Slot(Registered(d, h).config, k, n)
         == if h.configType != UNDEFINED && k == h.configType && n == h.busNumber then Some(h)
            else Slot(d.config, k, n)
  {
    hide Put;
    PutSlot(d.bus, h.interfaceType, h.busNumber, h, k, n);
    PutSlot(d.config, h.configType, h.busNumber, h, k, n);
  }

  /** Who is on the list after a registration. */
  lemma RegisteredList(d: Database, h: Handler)
    requires Consistent(d) && Fresh(d, h)
    ensures Distinct(Registered(d, h).all)
    ensures forall g :: g in Registered(d, h).all
                    <==> g == h || (g in d.all && Some(g) != Replaced(d, h))
  {
    var was := Replaced(d, h);
    assert Distinct(d.all + [h]);
    if was.Some? {
      WithoutDistinct(d.all + [h], was.value.address);
      assert was.value in d.all;
      forall g | g in d.all && g.address == was.value.address ensures g == was.value {}
    }
  }

  /** A registration keeps the tables and the list together if it may replace
      what is in its slots. */
  lemma RegisterKeepsConsistent(d: Database, h: Handler)
    requires Consistent(d) && Fresh(d, h) && Replaceable(d, h)
    ensures Consistent(Registered(d, h))
  {
    hide Put;
    var d' := Registered(d, h);
    RegisteredList(d, h);
    forall g | g in d'.all ensures Registrable(g) && Slotted(d', g) {
      RegisteredSlots(d, h, g.interfaceType, g.busNumber);
      RegisteredSlots(d, h, g.configType, g.busNumber);
    }
    forall k: u32, n: u32 | Slot(d'.bus, k, n).Some?
      ensures var g := Slot(d'.bus, k, n).value; g in d'.all && g.interfaceType == k && k != UNDEFINED && g.busNumber == n
    {
      RegisteredSlots(d, h, k, n);
    }
    forall k: u32, n: u32 | Slot(d'.config, k, n).Some?
      ensures var g := Slot(d'.config, k, n).value; g in d'.all && g.configType == k && k != UNDEFINED && g.busNumber == n
    {
      RegisteredSlots(d, h, k, n);
    }
  }

  /** And only then. */
  lemma ConsistentNeedsReplaceable(d: Database, h: Handler)
    requires Consistent(d) && Fresh(d, h) && Consistent(Registered(d, h))
    ensures Replaceable(d, h)
  {
    hide Put;
    var d' := Registered(d, h);
    RegisteredList(d, h);
    var b := if h.interfaceType == UNDEFINED then None else Slot(d.bus, h.interfaceType, h.busNumber);
    var c := if h.configType == UNDEFINED then None else Slot(d.config, h.configType, h.busNumber);
    if b.Some? {
      RegisteredSlots(d, h, b.value.interfaceType, b.value.busNumber);
      RegisteredSlots(d, h, b.value.configType, b.value.busNumber);
    }
    if c.Some? {
      RegisteredSlots(d, h, c.value.interfaceType, c.value.busNumber);
      RegisteredSlots(d, h, c.value.configType, c.value.busNumber);
    }
  }

  /** A registration keeps the tables and the list together if and only if it
      may replace what is in its slots. */
  lemma ConsistentIffReplaceable(d: Database, h: Handler)
    requires Consistent(d) && Fresh(d, h)
    ensures Consistent(Registered(d, h)) <==> Replaceable(d, h)
  {
    hide Consistent, Replaceable, Registered;
    if Replaceable(d, h) { RegisterKeepsConsistent(d, h); }
    if Consistent(Registered(d, h)) { ConsistentNeedsReplaceable(d, h); }
  }

  /** The database after a history of registrations. */
  function Run(hs: seq<Handler>): Database
    requires forall h | h in hs :: Registrable(h)
  {
    if hs == [] then EMPTY else Registered(Run(hs[..|hs| - 1]), hs[|hs| - 1])
  }

  /** The last registration for an interface type and bus number. */
  function LastForBus(hs: seq<Handler>, kind: u32, number: u32): Option<Handler> {
    if hs == [] then None
    else
      var h := hs[|hs| - 1];
      if h.interfaceType == kind && h.busNumber == number then Some(h)
      else LastForBus(hs[..|hs| - 1], kind, number)
  }

  function LastForConfig(hs: seq<Handler>, kind: u32, number: u32): Option<Handler> {
    if hs == [] then None
    else
      var h := hs[|hs| - 1];
      if h.configType == kind && h.busNumber == number then Some(h)
      else LastForConfig(hs[..|hs| - 1], kind, number)
  }

  /** The number of a registration is at most the next one for its types. */
  predicate InOrder(d: Database, h: Handler) {
    && (h.interfaceType == UNDEFINED || h.busNumber <= NextNumber(d.bus, h.interfaceType))
    && (h.configType == UNDEFINED || h.busNumber <= NextNumber(d.config, h.configType))
  }

  ghost predicate Proper(hs: seq<Handler>)
    ensures Proper(hs) ==> forall h | h in hs :: Registrable(h)
  {
    if hs == [] then true
    else
      var h := hs[|hs| - 1];
      Proper(hs[..|hs| - 1])
      && (var d := Run(hs[..|hs| - 1]); Fresh(d, h) && Replaceable(d, h) && InOrder(d, h))
  }

  lemma {:induction false} RunSlots(hs: seq<Handler>, kind: u32, number: u32)
    requires forall h | h in hs :: Registrable(h)
    requires kind != UNDEFINED
    ensures Slot(Run(hs).bus, kind, number) == LastForBus(hs, kind, number)
    ensures Slot(Run(hs).config, kind, number) == LastForConfig(hs, kind, number)
  {
    hide Registered, Put;
    if hs != [] {
      RunSlots(hs[..|hs| - 1], kind, number);
      RegisteredSlots(Run(hs[..|hs| - 1]), hs[|hs| - 1], kind, number);
    }
  }

  lemma {:induction false} RunKeeps(hs: seq<Handler>)
    requires Proper(hs)
    ensures Consistent(Run(hs)) && GapFree(Run(hs).bus) && GapFree(Run(hs).config)
  {
    hide Consistent, GapFree, Put, NextNumber, Replaceable;
    if hs == [] {
      EmptyKeeps();
    } else {
      var h := hs[|hs| - 1];
      var d := Run(hs[..|hs| - 1]);
      RunKeeps(hs[..|hs| - 1]);
      ConsistentIffReplaceable(d, h);
      PutGapFree(d.bus, h.interfaceType, h.busNumber, h);
      PutGapFree(d.config, h.configType, h.busNumber, h);
    }
  }

  lemma EmptyKeeps()
    ensures Consistent(EMPTY) && GapFree(EMPTY.bus) && GapFree(EMPTY.config)
  {
  }

  function Answer(last: Option<Handler>): Found {
    match last { case None => Missing case Some(h) => At(h) }
  }

  /** After every history of registrations without gaps, a lookup in either
      table gives the last registration for its type and number, and the list
      holds exactly the handlers that no later registration replaced. */
  lemma RunIsLastRegistration(hs: seq<Handler>)
    requires Proper(hs)
    ensures forall k: u32, n: u32 | k != UNDEFINED :: Lookup(Run(hs).bus, k, n) == Answer(LastForBus(hs, k, n))
    ensures forall k: u32, n: u32 | k != UNDEFINED :: Lookup(Run(hs).config, k, n) == Answer(LastForConfig(hs, k, n))
    ensures forall h | Registrable(h) ::
      h in Run(hs).all
      <==> (h.interfaceType != UNDEFINED ==> LastForBus(hs, h.interfaceType, h.busNumber) == Some(h))
           && (h.configType != UNDEFINED ==> LastForConfig(hs, h.configType, h.busNumber) == Some(h))
    ensures Distinct(Run(hs).all)
  {
    hide Run, LastForBus, LastForConfig, Proper;
    RunKeeps(hs);
    var d := Run(hs);
    forall k: u32, n: u32 | k != UNDEFINED
      ensures Lookup(d.bus, k, n) == Answer(LastForBus(hs, k, n))
      ensures Lookup(d.config, k, n) == Answer(LastForConfig(hs, k, n))
    {
      RunSlots(hs, k, n);
      assert Lookup(d.bus, k, n) != Unfilled && Lookup(d.config, k, n) != Unfilled;
    }
    forall h | Registrable(h)
      ensures h in d.all
      <==> (h.interfaceType != UNDEFINED ==> LastForBus(hs, h.interfaceType, h.busNumber) == Some(h))
           && (h.configType != UNDEFINED ==> LastForConfig(hs, h.configType, h.busNumber) == Some(h))
    {
      if h.interfaceType != UNDEFINED { RunSlots(hs, h.interfaceType, h.busNumber); }
      if h.configType != UNDEFINED { RunSlots(hs, h.configType, h.busNumber); }
    }
  }

  /** Two handlers have a slot in common. */
  predicate Shares(g: Handler, h: Handler) {
    && g.busNumber == h.busNumber
    && ((g.interfaceType != UNDEFINED && g.interfaceType == h.interfaceType)
        || (g.configType != UNDEFINED && g.configType == h.configType))
  }

  /** No registration after the one at `p` takes a slot of it. */
  predicate Unreplaced(hs: seq<Handler>, p: nat)
    requires p < |hs|
  {
    forall q | p < q < |hs| :: !Shares(hs[p], hs[q])
  }

  /** The unreplaced registrations from `p` on, in order of registration. */
  function Kept(hs: seq<Handler>, p: nat): seq<Handler>
    requires p <= |hs|
    decreases |hs| - p
  {
    if p == |hs| then [] else (if Unreplaced(hs, p) then [hs[p]] else []) + Kept(hs, p + 1)
  }

  /** The handlers of a list that have no slot in common with `h`. */
  function Apart(all: seq<Handler>, h: Handler): seq<Handler> {
    if all == [] then [] else (if Shares(all[0], h) then [] else [all[0]]) + Apart(all[1..], h)
  }

  lemma UnreplacedMore(hs: seq<Handler>, h: Handler, p: nat)
    requires p < |hs|
    ensures Unreplaced(hs + [h], p) <==> Unreplaced(hs, p) && !Shares(hs[p], h)
  {
    var more := hs + [h];
    assert more[|hs|] == h;
    assert forall q | p < q < |hs| :: more[q] == hs[q];
  }

  lemma ApartOf(g: Handler, all: seq<Handler>, h: Handler)
    ensures Apart([g] + all, h) == (if Shares(g, h) then [] else [g]) + Apart(all, h)
  {
    assert ([g] + all)[1..] == all;
  }

  lemma {:induction false} KeptMore(hs: seq<Handler>, h: Handler, p: nat)
    requires p <= |hs|
    ensures Kept(hs + [h], p) == Apart(Kept(hs, p), h) + [h]
    decreases |hs| - p
  {
    var more := hs + [h];
    if p < |hs| {
      KeptMore(hs, h, p + 1);
      UnreplacedMore(hs, h, p);
      var rest := Kept(hs, p + 1);
      ApartOf(hs[p], rest, h);
      assert Kept(hs, p) == if Unreplaced(hs, p) then [hs[p]] + rest else rest;
      var first := if Unreplaced(more, p) then [hs[p]] else [];
      assert Kept(more, p) == first + Kept(more, p + 1);
      hide *;
      assert first + (Apart(rest, h) + [h]) == (first + Apart(rest, h)) + [h];
      assert Apart(Kept(hs, p), h) == first + Apart(rest, h);
    } else {
      assert Kept(more, p + 1) == [];
    }
  }

  lemma {:induction false} WithoutOthers(all: seq<Handler>, h: Handler, address: nat)
    requires address != h.address
    ensures Without(all + [h], address) == Without(all, address) + [h]
    decreases |all|
  {
    if all == [] {
      assert Without([h], address) == [h];
    } else {
      var rest := all[1..];
      WithoutOthers(rest, h, address);
      assert (all + [h])[1..] == rest + [h] && (all + [h])[0] == all[0];
      if all[0].address != address {
        assert [all[0]] + (Without(rest, address) + [h]) == ([all[0]] + Without(rest, address)) + [h];
      }
    }
  }

  /** Taking one entry off the list is keeping the others apart. */
  lemma {:induction false} ApartIsWithout(all: seq<Handler>, h: Handler, address: nat)
    requires forall g | g in all :: Shares(g, h) <==> g.address == address
    ensures Apart(all, h) == Without(all, address)
    decreases |all|
  {
    hide Shares;
    if all != [] {
      assert all[0] in all;
      ApartIsWithout(all[1..], h, address);
    }
  }

  lemma {:induction false} ApartIsAll(all: seq<Handler>, h: Handler)
    requires forall g | g in all :: !Shares(g, h)
    ensures Apart(all, h) == all
    decreases |all|
  {
    if all != [] {
      ApartIsAll(all[1..], h);
    }
  }

  lemma SharesIsReplaced(d: Database, h: Handler)
    requires Consistent(d) && Fresh(d, h) && Replaceable(d, h)
    ensures var was := Replaced(d, h);
            && (was.Some? ==> was.value in d.all)
            && forall g | g in d.all :: Shares(g, h) <==> was.Some? && g.address == was.value.address
  {
    var was := Replaced(d, h);
    forall g | g in d.all ensures Shares(g, h) <==> was == Some(g) {
      assert Slotted(d, g);
    }
    forall g | g in d.all && was.Some? && g.address == was.value.address ensures was == Some(g) {}
  }

  lemma RegisteredApart(d: Database, h: Handler)
    requires Consistent(d) && Fresh(d, h) && Replaceable(d, h)
    ensures Registered(d, h).all == Apart(d.all, h) + [h]
  {
    SharesIsReplaced(d, h);
    hide Consistent, Put, Replaceable, Apart, Shares, Without;
    match Replaced(d, h)
    case Some(was) =>
      ApartIsWithout(d.all, h, was.address);
      WithoutOthers(d.all, h, was.address);
    case None => ApartIsAll(d.all, h);
  }

  /** The list is the unreplaced registrations, in order of registration. */
  lemma {:induction false} ListIsKept(hs: seq<Handler>)
    requires Proper(hs)
    ensures Run(hs).all == Kept(hs, 0)
    decreases |hs|
  {
    hide Consistent, GapFree, Registered, NextNumber, Replaceable, Apart, Unreplaced;
    if hs != [] {
      var was, h := hs[..|hs| - 1], hs[|hs| - 1];
      ListIsKept(was);
      RunKeeps(was);
      RegisteredApart(Run(was), h);
      assert hs == was + [h];
      KeptMore(was, h, 0);
      hide Kept;
    }
  }

  lemma ProperMore(hs: seq<Handler>, h: Handler)
    requires Proper(hs) && Fresh(Run(hs), h) && Replaceable(Run(hs), h) && InOrder(Run(hs), h)
    ensures Proper(hs + [h]) && Run(hs + [h]) == Registered(Run(hs), h)
  {
    hide Registered, Fresh, Replaceable, InOrder;
    assert (hs + [h])[..|hs|] == hs;
  }

  lemma NothingRegistered()
    ensures Proper([]) && Run([]) == EMPTY && EMPTY.all == []
    ensures Slot(EMPTY.bus, 0, 0) == None && Slot(EMPTY.config, 0, 0) == None
  {
  }

  /** A handler with an interface type only. */
  lemma OneIsProper()
    ensures var a := Handler(2, 0, UNDEFINED, 0);
            && Proper([a]) && (forall h | h in Run([a]).all :: h == a)
            && Slot(Run([a]).bus, 0, 0) == Some(a) && Slot(Run([a]).config, 0, 0) == None
  {
    var a := Handler(2, 0, UNDEFINED, 0);
    hide Registered, Slot, Consistent, Run, Proper, NextNumber, EMPTY;
    NothingRegistered();
    EmptyKeeps();
    RegisteredSlots(EMPTY, a, 0, 0);
    RegisteredList(EMPTY, a);
    ProperMore([], a);
    assert [] + [a] == [a];
  }

  /** And one with a configuration type only, with the same bus number. */
  lemma MixedPairIsProper()
    ensures var a, b := Handler(2, 0, UNDEFINED, 0), Handler(3, UNDEFINED, 0, 0);
            && Proper([a, b]) && (forall h | h in Run([a, b]).all :: h == a || h == b)
            && Slot(Run([a, b]).bus, 0, 0) == Some(a) && Slot(Run([a, b]).config, 0, 0) == Some(b)
  {
    var a, b := Handler(2, 0, UNDEFINED, 0), Handler(3, UNDEFINED, 0, 0);
    hide Registered, Slot, Consistent, Run, Proper, NextNumber;
    OneIsProper();
    RunKeeps([a]);
    RegisteredSlots(Run([a]), b, 0, 0);
    RegisteredList(Run([a]), b);
    ProperMore([a], b);
    assert [a] + [b] == [a, b];
  }

  /** After these two, a handler with both types leaves the first on the list
      without a slot. */
  lemma MixedPairIsInconsistent()
    ensures var a, b, c := Handler(2, 0, UNDEFINED, 0), Handler(3, UNDEFINED, 0, 0), Handler(4, 0, 0, 0);
            Proper([a, b]) && Fresh(Run([a, b]), c) && !Consistent(Registered(Run([a, b]), c))
  {
    var a, b, c := Handler(2, 0, UNDEFINED, 0), Handler(3, UNDEFINED, 0, 0), Handler(4, 0, 0, 0);
    hide Run, Proper, Consistent, Registered, Slot;
    MixedPairIsProper();
    RunKeeps([a, b]);
    ConsistentIffReplaceable(Run([a, b]), c);
  }

  // ---- Enumeration ----

  /** Whether an address translates on the bus that a handler's type and number
      lead to; `works` says which handlers' own translation succeeds. */
  predicate Translates(d: Database, works: Handler -> bool, h: Handler) {
    var f := Lookup(d.bus, h.interfaceType, h.busNumber);
    f.At? && works(f.handler)
  }

  /** The first place from i on whose handler translates, or the end. */
  function FirstFrom(d: Database, works: Handler -> bool, i: nat): (r: nat)
    requires i <= |d.all|
    ensures i <= r <= |d.all|
    ensures forall j | i <= j < r :: !Translates(d, works, d.all[j])
    ensures r < |d.all| ==> Translates(d, works, d.all[r])
    decreases |d.all| - i
  {
    if i == |d.all| || Translates(d, works, d.all[i]) then i else FirstFrom(d, works, i + 1)
  }

  /** The place on the list that a context stands for, or the end. */
  function Place(all: seq<Handler>, context: nat): (r: nat)
    ensures r <= |all|
    ensures context != 0 ==> forall j | 0 <= j < r :: all[j].address != context
    ensures context != 0 && r < |all| ==> all[r].address == context
    ensures context == 0 ==> r == 0
  {
    if context == 0 || all == [] then 0
    else if all[0].address == context then 0
    else 1 + Place(all[1..], context)
  }

  /** One call: whether a translation was found, and the new context. */
  function Find(d: Database, works: Handler -> bool, context: nat, nextBus: bool): (bool, nat) {
    var p := Place(d.all, context);
    if p == |d.all| then (false, context)
    else if !nextBus then
      if Translates(d, works, d.all[p]) then (true, d.all[p].address) else (false, context)
    else
      var i := FirstFrom(d, works, if context == 0 then p else p + 1);
      if i < |d.all| then (true, d.all[i].address) else (false, 1)
  }

  /** The answers of `count` calls for the next bus, each with the context of
      the call before it. */
  function Calls(d: Database, works: Handler -> bool, context: nat, count: nat): (r: seq<(bool, nat)>)
    ensures |r| == count
    decreases count
  {
    if count == 0 then []
    else
      var a := Find(d, works, context, true);
      [a] + Calls(d, works, a.1, count - 1)
  }

  /** The handlers from place i on that work, in the order of the list. */
  function Working(all: seq<Handler>, works: Handler -> bool, i: nat): seq<Handler>
    requires i <= |all|
    decreases |all| - i
  {
    if i == |all| then []
    else (if all[i].interfaceType != UNDEFINED && works(all[i]) then [all[i]] else []) + Working(all, works, i + 1)
  }

  /** On a consistent list a handler translates exactly when its own translation
      works and it is on a bus. */
  lemma TranslatesItself(d: Database, works: Handler -> bool, h: Handler)
    requires Consistent(d) && h in d.all
    ensures Translates(d, works, h) <==> h.interfaceType != UNDEFINED && works(h)
  {
    if h.interfaceType == UNDEFINED {
      assert Slot(d.bus, UNDEFINED, h.busNumber) == None;
    }
  }

  lemma WorkingFromFirst(d: Database, works: Handler -> bool, i: nat)
    requires Consistent(d) && i <= |d.all|
    ensures Working(d.all, works, i)
         == (var r := FirstFrom(d, works, i);
             if r == |d.all| then [] else [d.all[r]] + Working(d.all, works, r + 1))
    decreases |d.all| - i
  {
    hide Consistent, Translates;
    if i < |d.all| {
      TranslatesItself(d, works, d.all[i]);
      WorkingFromFirst(d, works, i + 1);
    }
  }

  /** The place the next call starts at. */
  function StartAfter(all: seq<Handler>, context: nat): nat {
    var p := Place(all, context);
    if context == 0 || p == |all| then p else p + 1
  }

  lemma PlaceOfEntry(all: seq<Handler>, i: nat)
    requires Distinct(all) && i < |all| && all[i].address != 0
    ensures Place(all, all[i].address) == i
  {
    var p := Place(all, all[i].address);
    assert p <= i;
  }

  lemma PlaceOfOne(all: seq<Handler>)
    requires forall h | h in all :: Registrable(h)
    ensures Place(all, 1) == |all|
  {
    forall i | 0 <= i < |all| ensures all[i].address != 1 {
      assert Registrable(all[i]);
    }
  }

  /** Repeated calls from a context give each working handler after it once, in
      the order of the list, and after that only failures. */
  lemma {:induction false} CallsEnumerate(d: Database, works: Handler -> bool, context: nat, count: nat)
    requires Consistent(d)
    ensures var ws := Working(d.all, works, StartAfter(d.all, context));
            forall k | 0 <= k < count ::
              if k < |ws| then Calls(d, works, context, count)[k] == (true, ws[k].address)
              else !Calls(d, works, context, count)[k].0
    decreases count
  {
    hide Consistent, Working, Place, FirstFrom, Translates, Calls;
    var s := StartAfter(d.all, context);
    var ws := Working(d.all, works, s);
    var r := Calls(d, works, context, count);
    WorkingFromFirst(d, works, s);
    if count > 0 {
      var a := Find(d, works, context, true);
      var rest := Calls(d, works, a.1, count - 1);
      assert r == [a] + rest by { CallsUnfold(d, works, context, count); }
      CallsEnumerate(d, works, a.1, count - 1);
      NextStart(d, works, context);
      WorkingFromFirst(d, works, |d.all|);
      forall k | 0 <= k < count
        ensures if k < |ws| then r[k] == (true, ws[k].address) else !r[k].0
      {
        assert k > 0 ==> r[k] == rest[k - 1];
      }
    }
  }

  lemma CallsUnfold(d: Database, works: Handler -> bool, context: nat, count: nat)
    requires count > 0
    ensures var a := Find(d, works, context, true);
            Calls(d, works, context, count) == [a] + Calls(d, works, a.1, count - 1)
  {
  }

  /** Where the call after this one starts: behind the handler that was found,
      or at the end. */
  lemma NextStart(d: Database, works: Handler -> bool, context: nat)
    requires Consistent(d)
    ensures var r := FirstFrom(d, works, StartAfter(d.all, context));
            var a := Find(d, works, context, true);
            if r < |d.all| then a == (true, d.all[r].address) && StartAfter(d.all, a.1) == r + 1
            else !a.0 && StartAfter(d.all, a.1) == |d.all|
  {
    hide Working, Translates, Calls;
    var r := FirstFrom(d, works, StartAfter(d.all, context));
    PlaceOfOne(d.all);
    if r < |d.all| {
      assert d.all[r] in d.all;
      PlaceOfEntry(d.all, r);
    }
  }

  /** Which handlers work, and that none is named twice. */
  lemma WorkingIsExact(all: seq<Handler>, works: Handler -> bool, i: nat)
    requires i <= |all| && Distinct(all)
    ensures forall h :: h in Working(all, works, i) <==> h in all[i..] && h.interfaceType != UNDEFINED && works(h)
    ensures Distinct(Working(all, works, i))
    decreases |all| - i
  {
    if i < |all| {
      WorkingIsExact(all, works, i + 1);
      var rest := Working(all, works, i + 1);
      assert all[i..] == [all[i]] + all[i + 1..];
      forall j | 0 <= j < |rest| ensures rest[j].address != all[i].address {
        assert rest[j] in all[i + 1..];
      }
    }
  }

  /** A caller that starts with context 0 and keeps asking for the next bus is
      given every handler that translates the address exactly once, in the order
      of the list, and then only failures. */
  lemma EnumerationIsComplete(d: Database, works: Handler -> bool, count: nat)
    requires Consistent(d)
    ensures var ws := Working(d.all, works, 0);
            forall k | 0 <= k < count ::
              if k < |ws| then Calls(d, works, 0, count)[k] == (true, ws[k].address)
              else !Calls(d, works, 0, count)[k].0
    ensures forall h :: h in Working(d.all, works, 0) <==> h in d.all && Translates(d, works, h)
    ensures Distinct(Working(d.all, works, 0))
  {
    hide Working, Calls, Translates;
    CallsEnumerate(d, works, 0, count);
    WorkingIsExact(d.all, works, 0);
    assert d.all[0..] == d.all;
    forall h | h in d.all ensures Translates(d, works, h) <==> h.interfaceType != UNDEFINED && works(h) {
      TranslatesItself(d, works, h);
    }
  }

  /** A call that does not ask for the next bus answers for the handler of its
      context, the first one for context 0, and keeps a context that fails. */
  lemma FindHere(d: Database, works: Handler -> bool, context: nat)
    requires Consistent(d)
    ensures var r := Find(d, works, context, false);
            && (forall i | 0 <= i < |d.all| && (if context == 0 then i == 0 else d.all[i].address == context) ::
                  var h := d.all[i];
                  r == if h.interfaceType != UNDEFINED && works(h) then (true, h.address) else (false, context))
            && ((forall i | 0 <= i < |d.all| :: context != 0 && d.all[i].address != context) ==> r == (false, context))
  {
    hide Place, Translates;
    forall i | 0 <= i < |d.all| && (if context == 0 then i == 0 else d.all[i].address == context)
      ensures Find(d, works, context, false)
              == if d.all[i].interfaceType != UNDEFINED && works(d.all[i]) then (true, d.all[i].address)
                 else (false, context)
    {
      TranslatesItself(d, works, d.all[i]);
      if context != 0 {
        PlaceOfEntry(d.all, i);
      }
    }
  }

  class BusDatabase {
    var busTable: Table
    var configTable: Table
    var allHandlers: seq<Handler>

    ghost function Value(): Database
      reads this
    {
      Database(busTable, configTable, allHandlers)
    }

    constructor ()
      ensures Value() == EMPTY
    {
      busTable := Allocated(0);
      configTable := Allocated(0);
      allHandlers := [];
    }

    method LookupHandler(table: Table, kind: u32, number: u32) returns (f: Found)
      ensures f == Lookup(table, kind, number)
    {
      f := Missing;
      if kind < |table| {
        var numbers := table[kind];
        if numbers.Some? && number < |numbers.value| {
          var slot := numbers.value[number];
          f := if slot.None? then Unfilled else At(slot.value);
        }
      }
    }

    /** The first number that a lookup finds nothing for. */
    method NextFreeNumber(interfaceType: u32) returns (number: u32)
      requires NextNumber(busTable, interfaceType) < UNDEFINED
      ensures Lookup(busTable, interfaceType, number) == Missing
      ensures forall n: u32 | n < number :: Lookup(busTable, interfaceType, n) != Missing
      ensures number == NextNumber(busTable, interfaceType)
    {
      number := 0;
      var f := LookupHandler(busTable, interfaceType, number);
      while f != Missing
        invariant f == Lookup(busTable, interfaceType, number)
        invariant number <= NextNumber(busTable, interfaceType)
        invariant forall n: u32 | n < number :: Lookup(busTable, interfaceType, n) != Missing
        decreases NextNumber(busTable, interfaceType) - number
      {
        number := number + 1;
        f := LookupHandler(busTable, interfaceType, number);
      }
    }

    /** Put a handler into a table; give the handler that was in its slot. */
    method Install(table: Table, kind: u32, h: Handler) returns (r: Table, was: Option<Handler>)
      requires h.busNumber != UNDEFINED
      ensures r == Put(table, kind, h.busNumber, h)
      ensures was == if kind == UNDEFINED then None else Slot(table, kind, h.busNumber)
    {
      r := Grown(table, Allocated(kind));
      was := None;
      if kind != UNDEFINED {
        var inner := Grown(if r[kind].Some? then r[kind].value else [], Allocated(h.busNumber));
        was := inner[h.busNumber];
        inner := inner[h.busNumber := Some(h)];
        r := r[kind := Some(inner)];
      }
    }

    /** Register a handler; the install routine's outcome is a parameter, and
        UNDEFINED asks for the next number of the interface type. */
    method Register(interfaceType: u32, configType: u32, busNumber: u32, address: nat, installs: bool)
      returns (ok: bool, number: u32)
      requires interfaceType != UNDEFINED || configType != UNDEFINED
      requires address >= 2
      requires busNumber == UNDEFINED ==> NextNumber(busTable, interfaceType) < UNDEFINED
      modifies this
      ensures ok == installs
      ensures number == if busNumber == UNDEFINED then old(NextNumber(busTable, interfaceType)) else busNumber
      ensures Registrable(Handler(address, interfaceType, configType, number))
      ensures Value() == if ok then Registered(old(Value()), Handler(address, interfaceType, configType, number))
                         else old(Value())
    {
      hide Put, Slot, Lookup, NextNumber;
      number := busNumber;
      if busNumber == UNDEFINED {
        number := NextFreeNumber(interfaceType);
      }
      var h := Handler(address, interfaceType, configType, number);
      ok := installs;
      if ok {
        var was, other: Option<Handler>;
        busTable, was := Install(busTable, interfaceType, h);
        configTable, other := Install(configTable, configType, h);
        if other.Some? {
          was := other;
        }
        allHandlers := allHandlers + [h];
        if was.Some? {
          allHandlers := Without(allHandlers, was.value.address);
        }
      }
    }

    /** The place of a context on the list, or none. */
    method ContextToBusHandler(context: nat) returns (place: Option<nat>)
      ensures var p := Place(allHandlers, context);
              place == if p == |allHandlers| then None else Some(p)
    {
      var i := 0;
      if context != 0 {
        while i < |allHandlers| && allHandlers[i].address != context
          invariant 0 <= i <= |allHandlers|
          invariant forall j | 0 <= j < i :: allHandlers[j].address != context
        {
          i := i + 1;
        }
      }
      place := if i == |allHandlers| then None else Some(i);
    }

    method TranslateBusAddress(interfaceType: u32, busNumber: u32, works: Handler -> bool) returns (ok: bool)
      ensures ok == (Lookup(busTable, interfaceType, busNumber).At?
                     && works(Lookup(busTable, interfaceType, busNumber).handler))
    {
      var f := LookupHandler(busTable, interfaceType, busNumber);
      ok := f.At? && works(f.handler);
    }

    /** One step of the enumeration of the buses that translate an address. */
    method FindBusAddressTranslation(works: Handler -> bool, context: nat, nextBus: bool)
      returns (found: bool, context': nat)
      ensures (found, context') == Find(Value(), works, context, nextBus)
    {
      hide Place, Lookup, FirstFrom;
      ghost var d := Value();
      var place := ContextToBusHandler(context);
      if place.None? {
        return false, context;
      }
      var i := place.value;
      if !nextBus {
        found := TranslateBusAddress(allHandlers[i].interfaceType, allHandlers[i].busNumber, works);
        context' := if found then allHandlers[i].address else context;
        return;
      }
      if context != 0 {
        i := i + 1;
      }
      ghost var start := i;
      while i < |allHandlers|
        invariant start <= i <= |allHandlers|
        invariant forall j | start <= j < i :: !Translates(d, works, d.all[j])
      {
        found := TranslateBusAddress(allHandlers[i].interfaceType, allHandlers[i].busNumber, works);
        if found {
          return true, allHandlers[i].address;
        }
        i := i + 1;
      }
      return false, 1;
    }
  }
}
