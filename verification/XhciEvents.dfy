/** The xHCI event ring and the interrupt endpoints that live on it. One ring serves
    every endpoint, so whoever drains it must re-arm the HID endpoints whose reports
    it meets. The controller side follows section 4.9.4 of the xHCI specification:
    it writes events with its own cycle bit and never overwrites an unread one. It runs
    beside the driver: it may post between any two steps of the driver. */
module XhciEvents {

  const CAPACITY: nat := 256
  const POLL_LIMIT: nat := 8

  datatype Kind = Transfer | CommandDone | Other

  datatype Event = Event(kind: Kind, slot: nat, ptr: nat)

  datatype Cell = Cell(ev: Event, cycle: bool)

  // ------------------------------------------------------- sequences of events

  /** Transfer events of slot `s` among `q`. */
  function Count(q: seq<Event>, s: nat): nat {
    if q == [] then 0 else (if q[0].kind == Transfer && q[0].slot == s then 1 else 0) + Count(q[1..], s)
  }

  lemma {:induction false} CountConcat(p: seq<Event>, q: seq<Event>, s: nat)
    ensures Count(p + q, s) == Count(p, s) + Count(q, s)
  {
    if p == [] {
      assert p + q == q;
    } else {
      assert (p + q)[1..] == p[1..] + q;
      CountConcat(p[1..], q, s);
    }
  }

  lemma CountOne(e: Event, s: nat)
    ensures Count([e], s) == if e.kind == Transfer && e.slot == s then 1 else 0
  {
    assert [e][1..] == [];
  }

  /** The transfer events of the slots in `hid`, in order. */
  function Reports(q: seq<Event>, hid: set<nat>): seq<Event> {
    if q == [] then []
    else (if q[0].kind == Transfer && q[0].slot in hid then [q[0]] else []) + Reports(q[1..], hid)
  }

  lemma {:induction false} ReportsAppend(q: seq<Event>, e: Event, hid: set<nat>)
    ensures Reports(q + [e], hid) == Reports(q, hid) + if e.kind == Transfer && e.slot in hid then [e] else []
  {
    if q == [] {
      assert [e][1..] == [] && q + [e] == [e];
    } else {
      assert (q + [e])[1..] == q[1..] + [e];
      ReportsAppend(q[1..], e, hid);
    }
  }

  /** A report counts for its slot exactly once among the reports. */
  lemma {:induction false} CountReports(q: seq<Event>, hid: set<nat>, s: nat)
    requires s in hid
    ensures Count(Reports(q, hid), s) == Count(q, s)
  {
    if q != [] {
      var first := if q[0].kind == Transfer && q[0].slot in hid then [q[0]] else [];
      CountConcat(first, Reports(q[1..], hid), s);
      if first != [] { CountOne(q[0], s); }
      CountReports(q[1..], hid, s);
    }
  }

  /** Transfer events, of HID endpoints or not. */
  function Transfers(q: seq<Event>): nat {
    if q == [] then 0 else (if q[0].kind == Transfer then 1 else 0) + Transfers(q[1..])
  }

  lemma {:induction false} TransfersConcat(p: seq<Event>, q: seq<Event>)
    ensures Transfers(p + q) == Transfers(p) + Transfers(q)
  {
    if p == [] {
      assert p + q == q;
    } else {
      assert (p + q)[1..] == p[1..] + q;
      TransfersConcat(p[1..], q);
    }
  }

  lemma {:induction false} NoTransfers(q: seq<Event>)
    requires forall i :: 0 <= i < |q| ==> q[i].kind != Transfer
    ensures Transfers(q) == 0
  {
    if q != [] {
      forall i | 0 <= i < |q[1..]| ensures q[1..][i].kind != Transfer { assert q[1..][i] == q[i + 1]; }
      NoTransfers(q[1..]);
    }
  }

  predicate Wanted(e: Event, kind: Kind, ptr: nat) { e.kind == kind && (ptr == 0 || e.ptr == ptr) }

  /** None of the events after the first `n` is the one waited for. */
  ghost predicate NoneWanted(q: seq<Event>, n: nat, kind: Kind, ptr: nat) {
    forall i :: n <= i < |q| ==> !Wanted(q[i], kind, ptr)
  }

  lemma NoneWantedNext(q: seq<Event>, e: Event, n: nat, kind: Kind, ptr: nat)
    requires NoneWanted(q, n, kind, ptr)
    ensures (q + [e])[..|q + [e]| - 1] == q
    ensures !Wanted(e, kind, ptr) ==> NoneWanted(q + [e], n, kind, ptr)
  {}

  /** Nothing wanted up to `mid`, and nothing from there on. */
  lemma NoneWantedOn(n: nat, mid: seq<Event>, after: seq<Event>, kind: Kind, ptr: nat)
    requires n <= |mid| && mid <= after && NoneWanted(mid, n, kind, ptr) && NoneWanted(after, |mid|, kind, ptr)
    ensures NoneWanted(after, n, kind, ptr)
  {
    forall i | n <= i < |after| ensures !Wanted(after[i], kind, ptr) {
      if i < |mid| { assert after[i] == mid[i]; }
    }
  }

  /** Position and cycle bit of the `i`-th cell from position `deq`. */
  function At(deq: nat, i: nat): nat { if deq + i < CAPACITY then deq + i else deq + i - CAPACITY }
  function CycleAt(deq: nat, cycle: bool, i: nat): bool { if deq + i < CAPACITY then cycle else !cycle }

  class EventPump {
    /** Slots with an armed HID endpoint, and the addresses of their TRBs. */
    const hid: set<nat>
    const hidPtrs: set<nat>
    const ring: array<Cell>
    var dequeueIndex: nat
    var cycleState: bool
    /** The controller's side: where it writes next, and the TRBs it still holds. */
    var writeIndex: nat
    var writeCycle: bool
    var outstanding: map<nat, nat>
    /** Events written and not yet read; all events ever written; all events ever read; and the
        reports that were handed on and their endpoint re-armed, each in order. */
    ghost var queue: seq<Event>
    ghost var posted: seq<Event>
    ghost var taken: seq<Event>
    ghost var served: seq<Event>

    ghost predicate RingOk()
      reads this`dequeueIndex, this`cycleState, this`writeIndex, this`writeCycle, this`queue, ring
      ensures RingOk() ==> |queue| < CAPACITY
    {
      && ring.Length == CAPACITY && dequeueIndex < CAPACITY && |queue| < CAPACITY
      && writeIndex == At(dequeueIndex, |queue|) && writeCycle == CycleAt(dequeueIndex, cycleState, |queue|)
      && (forall i :: 0 <= i < |queue| ==>
            ring[At(dequeueIndex, i)] == Cell(queue[i], CycleAt(dequeueIndex, cycleState, i)))
      && (forall i :: |queue| <= i < CAPACITY ==>
            ring[At(dequeueIndex, i)].cycle != CycleAt(dequeueIndex, cycleState, i))
    }

    /** Each HID endpoint was given one TRB at the start and one per report served, and the
        controller completed one per report posted. */
    ghost predicate Ledger()
      reads this`outstanding, this`posted, this`served
    {
      && (forall s :: s in hid ==> s in outstanding && outstanding[s] + Count(posted, s) == 1 + Count(served, s))
      && (forall i :: 0 <= i < |posted| && posted[i].kind == Transfer && posted[i].slot in hid ==>
            posted[i].ptr in hidPtrs)
    }

    ghost predicate Valid()
      reads this, ring
    {
      RingOk() && posted == taken + queue && Ledger()
    }

    /** Every report that was read was served, once and in order. */
    ghost predicate AllServed()
      reads this`served, this`taken
    {
      served == Reports(taken, hid)
    }

    /** Then each HID endpoint has one TRB with the controller, or its completion is unread. */
    lemma Balanced()
      requires Valid() && AllServed()
      ensures forall s :: s in hid ==> outstanding[s] + Count(queue, s) == 1
    {
      forall s | s in hid ensures outstanding[s] + Count(queue, s) == 1 {
        CountReports(taken, hid, s);
        CountConcat(taken, queue, s);
      }
    }

    /** A zeroed ring whose consumer expects cycle bit 1, and one TRB queued per HID endpoint. */
    constructor (slots: set<nat>, ptrs: set<nat>)
      ensures Valid() && AllServed() && fresh(ring) && hid == slots && hidPtrs == ptrs && posted == []
    {
      hid, hidPtrs := slots, ptrs;
      ring := new Cell[CAPACITY](_ => Cell(Event(Other, 0, 0), false));
      dequeueIndex, cycleState, writeIndex, writeCycle := 0, true, 0, true;
      outstanding := map s | s in slots :: 1;
      queue, posted, taken, served := [], [], [], [];
    }

    // ------------------------------------------------------------ controller

    /** The controller writes one event, if there is room. */
    method Post(e: Event)
      requires RingOk() && |queue| < CAPACITY - 1
      modifies this`writeIndex, this`writeCycle, this`queue, this`posted, ring
      ensures RingOk() && queue == old(queue) + [e] && posted == old(posted) + [e]
    {
      ghost var n := |queue|;
      ring[writeIndex] := Cell(e, writeCycle);
      writeIndex := writeIndex + 1;
      if writeIndex == CAPACITY { writeIndex, writeCycle := 0, !writeCycle; }
      queue, posted := queue + [e], posted + [e];
      forall i | 0 <= i < CAPACITY && i != n ensures ring[At(dequeueIndex, i)] == old(ring[At(dequeueIndex, i)]) {}
    }

    /** The controller completes a TRB that a HID endpoint has given it, or posts an event of
        anything else. */
    method Complete(e: Event)
      requires Valid()
      modifies this`writeIndex, this`writeCycle, this`queue, this`posted, this`outstanding, ring
      ensures Valid() && old(queue) <= queue && old(posted) <= posted
    {
      if !HasRoom() { return; }
      var report := e.kind == Transfer && e.slot in hid;
      if report && (outstanding[e.slot] == 0 || e.ptr !in hidPtrs) { return; }
      hide RingOk;
      forall s ensures Count(posted + [e], s) == Count(posted, s) + if e.kind == Transfer && e.slot == s then 1 else 0 {
        CountConcat(posted, [e], s);
        CountOne(e, s);
      }
      Post(e);
      if report { outstanding := outstanding[e.slot := outstanding[e.slot] - 1]; }
    }

    /** Whatever the controller does between two steps of the driver. */
    method Controller()
      requires Valid()
      modifies this`writeIndex, this`writeCycle, this`queue, this`posted, this`outstanding, ring
      ensures Valid() && old(queue) <= queue && old(posted) <= posted
    {
      hide RingOk, Ledger;
      var todo: seq<Event> := *;
      for k := 0 to |todo|
        invariant Valid() && old(queue) <= queue && old(posted) <= posted
      {
        Complete(todo[k]);
      }
    }

    /** The ring is full when the cell after the next one is the first unread one. */
    predicate HasRoom()
      reads this, ring
      requires RingOk()
      ensures HasRoom() <==> |queue| < CAPACITY - 1
    {
      var next := if writeIndex + 1 == CAPACITY then 0 else writeIndex + 1;
      next != dequeueIndex
    }

    // ----------------------------------------------------------------- driver

    predicate HasEvent()
      reads this, ring
      requires RingOk()
      ensures HasEvent() <==> queue != []
    {
      assert At(dequeueIndex, 0) == dequeueIndex && CycleAt(dequeueIndex, cycleState, 0) == cycleState;
      ring[dequeueIndex].cycle == cycleState
    }

    /** Reads the next event and moves on, toggling the cycle state at the end. */
    method Take() returns (e: Event)
      requires RingOk() && HasEvent()
      modifies this`dequeueIndex, this`cycleState, this`queue, this`taken
      ensures RingOk() && old(queue) == [e] + queue && taken == old(taken) + [e]
    {
      assert At(dequeueIndex, 0) == dequeueIndex;
      e := ring[dequeueIndex].ev;
      ghost var d, c, q := dequeueIndex, cycleState, queue;
      dequeueIndex := dequeueIndex + 1;
      if dequeueIndex >= CAPACITY { dequeueIndex, cycleState := 0, !cycleState; }
      queue, taken := queue[1..], taken + [e];
      forall i | 0 <= i < CAPACITY - 1
        ensures At(dequeueIndex, i) == At(d, i + 1) && CycleAt(dequeueIndex, cycleState, i) == CycleAt(d, c, i + 1) {}
      forall i | |queue| <= i < CAPACITY
        ensures ring[At(dequeueIndex, i)].cycle != CycleAt(dequeueIndex, cycleState, i)
      {
        if i == CAPACITY - 1 { assert At(dequeueIndex, i) == d == At(d, 0); }
      }
      forall i | 0 <= i < |queue| ensures queue[i] == q[i + 1] {}
    }

    /** `xhci_service_hid_event`: hands the report on and re-arms the endpoint; events
        of other devices are ignored. */
    method Service(e: Event)
      requires Valid() && e.kind == Transfer
      modifies this`outstanding, this`served
      ensures Valid() && served == old(served) + if e.slot in hid then [e] else []
    {
      hide RingOk;
      if e.slot !in hid { return; }
      forall s ensures Count(served + [e], s) == Count(served, s) + if e.slot == s then 1 else 0 {
        CountConcat(served, [e], s);
        CountOne(e, s);
      }
      outstanding := outstanding[e.slot := outstanding[e.slot] + 1];
      served := served + [e];
    }

    /** The last event read is the one waited for; the reports before it were served. */
    ghost predicate Handed(e: Event)
      reads this`served, this`taken
    {
      taken != [] && taken[|taken| - 1] == e && served == Reports(taken[..|taken| - 1], hid)
    }

    /** One pass of the inner loop: takes an event, and serves it unless it is the one
        waited for. The controller may post in between. */
    method TakeOne(wantKind: Kind, wantPtr: nat) returns (found: bool, e: Event)
      requires Valid() && AllServed() && HasEvent()
      modifies this, ring
      ensures Valid() && taken == old(taken) + [e] && old(posted) <= posted && e == old(queue)[0]
      ensures found == Wanted(e, wantKind, wantPtr)
      ensures if found then Handed(e) else AllServed()
    {
      hide RingOk, Ledger, Reports;
      ghost var q := queue;
      e := Take();
      assert old(taken) + q == old(taken) + ([e] + queue) == taken + queue;
      ReportsAppend(old(taken), e, hid);
      LastOf(old(taken), e);
      found := e.kind == wantKind && (wantPtr == 0 || e.ptr == wantPtr);
      if found { return; }
      Controller();
      if e.kind == Transfer { Service(e); }
    }

    /** An event that is no report leaves no report unserved. */
    lemma NoReport(e: Event)
      requires Valid() && Handed(e)
      ensures e.kind != Transfer || e.ptr !in hidPtrs ==> AllServed()
    {
      hide RingOk;
      assert taken == taken[..|taken| - 1] + [e] && posted[|taken| - 1] == e;
      ReportsAppend(taken[..|taken| - 1], e, hid);
    }

    /** `xhci_wait_for_event_impl`. A zero `wantPtr` is the non-blocking poll of the tick.
        Success hands over the first wanted event among those read, and every report before it
        was served. Failure means that everything unread at the start was read and is not
        wanted; `waits` counts the waits of one millisecond. */
    method WaitForEvent(wantKind: Kind, wantPtr: nat, timeout: nat) returns (rc: int, e: Event, ghost waits: nat)
      requires Valid() && AllServed()
      modifies this, ring
      ensures Valid() && old(taken) <= taken && old(posted) <= posted && (rc == 0 || rc == -1)
      ensures rc == 0 ==> |taken| > |old(taken)| && Wanted(e, wantKind, wantPtr) && Handed(e)
      ensures rc == 0 ==> NoneWanted(taken[..|taken| - 1], |old(taken)|, wantKind, wantPtr)
      ensures rc == 0 && (wantKind != Transfer || (wantPtr != 0 && wantPtr !in hidPtrs)) ==> AllServed()
      ensures rc == -1 ==> AllServed() && NoneWanted(taken, |old(taken)|, wantKind, wantPtr)
      ensures rc == -1 ==> old(taken + queue) <= taken
      ensures rc == -1 && wantPtr == 0 ==> queue == [] || |taken| >= |old(taken)| + CAPACITY
      ensures if wantPtr == 0 then waits == 0 else waits <= timeout + 1 && (rc == -1 ==> waits == timeout + 1)
    {
      hide RingOk, Ledger, NoneWanted, Reports, Handed, AllServed;
      waits, e := 0, Event(Other, 0, 0);
      NothingYet(taken, wantKind, wantPtr);
      for elapsed := 0 to timeout + 1
        invariant Valid() && AllServed() && old(taken) <= taken && old(posted) <= posted
        invariant NoneWanted(taken, |old(taken)|, wantKind, wantPtr)
        invariant waits == elapsed && (elapsed > 0 ==> wantPtr != 0 && old(taken + queue) <= taken)
      {
        var found;
        ghost var before := taken;
        found, e := Drain(wantKind, wantPtr);
        ghost var skipped := if found then taken[..|taken| - 1] else taken;
        assert before <= skipped;
        NoneWantedOn(|old(taken)|, before, skipped, wantKind, wantPtr);
        if found { NoReport(e); return 0, e, waits; }
        if wantPtr == 0 { return -1, e, waits; }
        Controller();
        waits := waits + 1;
        Prefixes(old(taken + queue), taken, posted);
      }
      rc := -1;
    }

    /** The inner loop: reads until the wanted event, an empty ring or the guard. */
    method Drain(wantKind: Kind, wantPtr: nat) returns (found: bool, e: Event)
      requires Valid() && AllServed()
      modifies this, ring
      ensures Valid() && old(taken) <= taken && old(posted) <= posted
      ensures found ==> |taken| > |old(taken)| && Wanted(e, wantKind, wantPtr) && Handed(e)
      ensures found ==> NoneWanted(taken[..|taken| - 1], |old(taken)|, wantKind, wantPtr)
      ensures !found ==> AllServed() && NoneWanted(taken, |old(taken)|, wantKind, wantPtr)
      ensures !found ==> old(taken + queue) <= taken && (queue == [] || |taken| >= |old(taken)| + CAPACITY)
    {
      hide RingOk, Ledger, NoneWanted, Wanted, Reports, Handed, AllServed;
      found, e := false, Event(Other, 0, 0);
      NothingYet(taken, wantKind, wantPtr);
      var guard := 0;
      while guard < CAPACITY
        invariant Valid() && AllServed() && old(posted) <= posted
        invariant |taken| == |old(taken)| + guard && guard <= CAPACITY
        invariant old(taken) <= taken && NoneWanted(taken, |old(taken)|, wantKind, wantPtr)
      {
        Controller();
        if !HasEvent() { break; }
        ghost var before := taken;
        found, e := TakeOne(wantKind, wantPtr);
        NoneWantedNext(before, e, |old(taken)|, wantKind, wantPtr);
        if found { return; }
        guard := guard + 1;
      }
      Prefixes(old(taken + queue), taken, posted);
    }

    /** A report that was handed over and then served closes the account. */
    lemma ServedToo(e: Event, before: seq<Event>)
      requires taken != [] && taken[|taken| - 1] == e && e.kind == Transfer
      requires before == Reports(taken[..|taken| - 1], hid)
      ensures Reports(taken, hid) == before + if e.slot in hid then [e] else []
    {
      assert taken == taken[..|taken| - 1] + [e];
      ReportsAppend(taken[..|taken| - 1], e, hid);
    }

    /** The draining half of `usb_poll`: it reads in order, serves every report it reads, stops at
        the eighth transfer, and otherwise has read all that was there. */
    method PollTick()
      requires Valid() && AllServed()
      modifies this, ring
      ensures Valid() && AllServed() && old(taken) <= taken && old(posted) <= posted
      ensures Transfers(taken[|old(taken)|..]) <= POLL_LIMIT
      ensures Transfers(taken[|old(taken)|..]) < POLL_LIMIT ==> old(taken + queue) <= taken
    {
      hide RingOk, Ledger;
      for i := 0 to POLL_LIMIT
        invariant Valid() && AllServed() && old(taken) <= taken && old(posted) <= posted
        invariant Transfers(taken[|old(taken)|..]) == i
      {
        ghost var before, all := taken, posted;
        var rc, e;
        ghost var waits;
        rc, e, waits := WaitForEvent(Transfer, 0, 0);
        TransfersSince(|old(taken)|, before, taken, rc == 0);
        if rc != 0 { Prefixes(old(posted), taken, posted); break; }
        ServedToo(e, served);
        Service(e);
      }
    }
  }

  lemma NothingYet(q: seq<Event>, kind: Kind, ptr: nat)
    ensures NoneWanted(q, |q|, kind, ptr)
  {}

  lemma LastOf(q: seq<Event>, e: Event)
    ensures (q + [e])[..|q + [e]| - 1] == q && (q + [e])[|q + [e]| - 1] == e
  {}

  lemma Prefixes(p: seq<Event>, q: seq<Event>, all: seq<Event>)
    requires p <= all && q <= all && |p| <= |q|
    ensures p <= q
  {}

  /** Reading on to the next transfer event, or to none, adds one or none. */
  lemma TransfersSince(n: nat, before: seq<Event>, after: seq<Event>, found: bool)
    requires n <= |before| && before <= after && (found ==> |after| > |before| && after[|after| - 1].kind == Transfer)
    requires NoneWanted(if found then after[..|after| - 1] else after, |before|, Transfer, 0)
    ensures Transfers(after[n..]) == Transfers(before[n..]) + if found then 1 else 0
  {
    var rest := after[|before|..];
    assert after[n..] == before[n..] + rest;
    TransfersConcat(before[n..], rest);
    var skipped := if found then rest[..|rest| - 1] else rest;
    forall i | 0 <= i < |skipped| ensures skipped[i].kind != Transfer {
      assert skipped[i] == after[|before| + i] && !Wanted(after[|before| + i], Transfer, 0);
    }
    NoTransfers(skipped);
    if found {
      var last := after[|after| - 1];
      assert rest == skipped + [last] && [last][1..] == [];
      TransfersConcat(skipped, [last]);
    }
  }
}
