/** The xHCI producer ring: 255 TRB slots and a Link TRB, handed over by the cycle
    bit. The producer is the driver's enqueue, broken into the two stores a
    controller can see apart; the consumer follows sections 4.9.2 and 4.11.5.1 of
    the xHCI specification: it takes TRBs whose cycle bit equals its own cycle
    state, and at a Link TRB it jumps to slot 0 and toggles that state. */
module XhciRing {

  const USABLE: nat := 255

  datatype Trb = Trb(parameter: int, status: int, control: int)

  /** A slot: the TRB without its cycle bit, and that bit. */
  datatype Slot = Slot(trb: Trb, cycle: bool)

  /** Ring memory, the driver's position and cycle state, the controller's position
      (255 is the Link TRB) and cycle state, and what was sent and received so far. */
  datatype Ring = Ring(slots: seq<Slot>, link: bool, enq: nat, pcs: bool, deq: nat, ccs: bool,
                       sent: seq<Trb>, got: seq<Trb>)

  function Init(): Ring {
    Ring(seq(USABLE, _ => Slot(Trb(0, 0, 0), false)), true, 0, true, 0, true, [], [])
  }

  // ----------------------------------------------------------- elementary steps

  /** The driver stores a TRB with the current cycle bit and advances. */
  function Store(r: Ring, x: Trb): Ring
    requires r.enq < USABLE == |r.slots|
  {
    r.(slots := r.slots[r.enq := Slot(x, r.pcs)], enq := r.enq + 1, sent := r.sent + [x])
  }

  /** After the last slot: the Link TRB gets the cycle bit, the driver starts over. */
  function Wrap(r: Ring): Ring
    requires r.enq == USABLE
  {
    r.(enq := 0, link := r.pcs, pcs := !r.pcs)
  }

  /** Whether the controller can act where it is. */
  predicate CanConsume(r: Ring)
    requires |r.slots| == USABLE && r.deq <= USABLE
  {
    if r.deq == USABLE then r.link == r.ccs else r.slots[r.deq].cycle == r.ccs
  }

  function Consume(r: Ring): Ring
    requires |r.slots| == USABLE && r.deq <= USABLE && CanConsume(r)
  {
    if r.deq == USABLE then r.(deq := 0, ccs := !r.ccs)
    else r.(deq := r.deq + 1, got := r.got + [r.slots[r.deq].trb])
  }

  datatype Step = DoStore(x: Trb) | DoWrap | DoConsume

  /** One step of any interleaving; the driver keeps at most `limit` TRBs outstanding. */
  ghost predicate Next(r: Ring, s: Step, t: Ring, limit: nat) {
    && |r.slots| == USABLE && r.deq <= USABLE
    && match s
       case DoStore(x) => r.enq < USABLE && |r.sent| - |r.got| < limit && t == Store(r, x)
       case DoWrap => r.enq == USABLE && t == Wrap(r)
       case DoConsume => CanConsume(r) && t == Consume(r)
  }

  // --------------------------------------------------------------- invariant

  predicate Even(n: nat) { n % 2 == 0 }

  /** Lap counts of both sides explain positions, cycle bits and slot contents. */
  ghost predicate Explained(r: Ring, lapP: nat, lapC: nat) {
    && |r.slots| == USABLE && r.enq <= USABLE && r.deq <= USABLE
    && |r.sent| == USABLE * lapP + r.enq && r.pcs == Even(lapP)
    && |r.got| == USABLE * lapC + r.deq && r.ccs == Even(lapC)
    && r.link == (if lapP == 0 then true else !r.pcs)
    && |r.got| <= |r.sent| && r.got == r.sent[..|r.got|]
    && (forall i :: 0 <= i < r.enq ==> r.slots[i] == Slot(r.sent[USABLE * lapP + i], r.pcs))
    && (forall i :: r.enq <= i < USABLE ==> r.slots[i].cycle == !r.pcs)
    && (lapP > 0 ==> forall i :: r.enq <= i < USABLE ==> r.slots[i].trb == r.sent[USABLE * (lapP - 1) + i])
  }

  ghost predicate Inv(r: Ring, limit: nat) {
    && |r.sent| - |r.got| <= limit
    && exists lapP: nat, lapC: nat :: Explained(r, lapP, lapC)
  }

  lemma InitInv(limit: nat)
    ensures Inv(Init(), limit)
  {
    assert Explained(Init(), 0, 0);
  }

  lemma StoreExplained(r: Ring, x: Trb, lapP: nat, lapC: nat)
    requires Explained(r, lapP, lapC) && r.enq < USABLE && |r.sent| - |r.got| < USABLE
    ensures Explained(Store(r, x), lapP, lapC)
  {
    var t := Store(r, x);
    assert t.got == t.sent[..|t.got|];
    forall i | 0 <= i < t.enq ensures t.slots[i] == Slot(t.sent[USABLE * lapP + i], t.pcs) {}
    if lapP > 0 {
      forall i | t.enq <= i < USABLE ensures t.slots[i].trb == t.sent[USABLE * (lapP - 1) + i] {
        assert t.slots[i] == r.slots[i];
      }
    }
  }

  lemma WrapExplained(r: Ring, lapP: nat, lapC: nat)
    requires Explained(r, lapP, lapC) && r.enq == USABLE
    ensures Explained(Wrap(r), lapP + 1, lapC)
  {
    assert Even(lapP + 1) == !Even(lapP);
  }

  /** The slot the controller may take holds exactly the next TRB. */
  lemma ConsumeTakesNext(r: Ring, lapP: nat, lapC: nat)
    requires Explained(r, lapP, lapC) && |r.sent| - |r.got| <= USABLE
    requires r.deq < USABLE && CanConsume(r)
    ensures |r.got| < |r.sent| && r.slots[r.deq].trb == r.sent[|r.got|]
  {
    Laps(r, lapP, lapC);
    assert Even(lapP + 1) == !Even(lapP);
  }

  /** The controller is on the driver's lap, one behind, or one ahead at slot 0. */
  lemma Laps(r: Ring, lapP: nat, lapC: nat)
    requires Explained(r, lapP, lapC) && |r.sent| - |r.got| <= USABLE
    ensures lapC == lapP || lapC + 1 == lapP || (lapC == lapP + 1 && r.deq == 0 && r.enq == USABLE)
            || (lapC + 2 == lapP && r.deq == USABLE && r.enq == 0 && |r.sent| - |r.got| == USABLE)
  {
    Multiples(lapC, lapP + 1);
    Multiples(lapC, lapP + 2);
    Multiples(lapP, lapC + 2);
    Multiples(lapP, lapC + 3);
  }

  lemma Multiples(a: nat, b: nat)
    ensures a >= b ==> USABLE * a >= USABLE * b
  {}

  lemma ConsumeExplained(r: Ring, lapP: nat, lapC: nat)
    requires Explained(r, lapP, lapC) && |r.sent| - |r.got| <= USABLE && CanConsume(r)
    ensures Explained(Consume(r), lapP, if r.deq == USABLE then lapC + 1 else lapC)
  {
    if r.deq < USABLE {
      ConsumeTakesNext(r, lapP, lapC);
      assert r.got + [r.sent[|r.got|]] == r.sent[..|r.got| + 1];
    } else {
      assert Even(lapC + 1) == !Even(lapC);
    }
  }

  /** Every step of every interleaving keeps the invariant, for either bound. */
  lemma NextInv(r: Ring, s: Step, t: Ring, limit: nat)
    requires limit <= USABLE && Inv(r, limit) && Next(r, s, t, limit)
    ensures Inv(t, limit)
  {
    var lapP: nat, lapC: nat :| Explained(r, lapP, lapC);
    hide Explained;
    match s
    case DoStore(x) => StoreExplained(r, x, lapP, lapC);
    case DoWrap => WrapExplained(r, lapP, lapC);
    case DoConsume => ConsumeExplained(r, lapP, lapC);
  }

  // --------------------------------------------------------------------- runs

  /** `rs` is a run from the initial ring under `steps`. */
  ghost predicate IsRun(rs: seq<Ring>, steps: seq<Step>, limit: nat) {
    && |rs| == |steps| + 1 && rs[0] == Init()
    && forall i :: 0 <= i < |steps| ==> Next(rs[i], steps[i], rs[i + 1], limit)
  }

  lemma {:induction false} RunInv(rs: seq<Ring>, steps: seq<Step>, limit: nat, k: nat)
    requires limit <= USABLE && IsRun(rs, steps, limit) && k < |rs|
    ensures Inv(rs[k], limit)
    decreases k
  {
    if k == 0 { InitInv(limit); } else {
      RunInv(rs, steps, limit, k - 1);
      NextInv(rs[k - 1], steps[k - 1], rs[k], limit);
    }
  }

  /** Over any number of laps the controller receives exactly what was enqueued,
      each TRB once and in order. */
  lemma ReceivedInOrder(rs: seq<Ring>, steps: seq<Step>, limit: nat, k: nat)
    requires limit <= USABLE && IsRun(rs, steps, limit) && k < |rs|
    ensures |rs[k].got| <= |rs[k].sent| && rs[k].got == rs[k].sent[..|rs[k].got|]
  {
    RunInv(rs, steps, limit, k);
    var lapP: nat, lapC: nat :| Explained(rs[k], lapP, lapC);
  }

  /** With at most 254 outstanding TRBs the controller can always go on while any
      TRB is outstanding: it never waits at the Link TRB or at a slot for good. */
  lemma NeverStuck(rs: seq<Ring>, steps: seq<Step>, k: nat)
    requires IsRun(rs, steps, USABLE - 1) && k < |rs|
    ensures |rs[k].slots| == USABLE && rs[k].deq <= USABLE
    ensures |rs[k].got| < |rs[k].sent| ==> CanConsume(rs[k])
  {
    RunInv(rs, steps, USABLE - 1, k);
    var lapP: nat, lapC: nat :| Explained(rs[k], lapP, lapC);
    if |rs[k].got| < |rs[k].sent| { GoesOn(rs[k], lapP, lapC); }
  }

  lemma GoesOn(r: Ring, lapP: nat, lapC: nat)
    requires Explained(r, lapP, lapC) && |r.got| < |r.sent| && |r.sent| - |r.got| <= USABLE
    ensures CanConsume(r) <==> !(r.deq == USABLE && r.enq == 0 && |r.sent| == |r.got| + USABLE)
  {
    Laps(r, lapP, lapC);
    assert Even(lapC + 1) == !Even(lapC) && Even(lapC + 2) == Even(lapC);
    if r.deq == USABLE && r.enq == 0 && |r.sent| == |r.got| + USABLE {
      assert USABLE * lapP == USABLE * (lapC + 2);
    }
  }

  /** With 255, the controller is stuck exactly when it stands at the Link TRB of a
      full ring whose Link TRB the driver has already passed again. */
  lemma StuckIff(r: Ring)
    requires Inv(r, USABLE)
    ensures |r.slots| == USABLE && r.deq <= USABLE
    ensures |r.got| < |r.sent| && !CanConsume(r) <==> r.deq == USABLE && r.enq == 0 && |r.sent| == |r.got| + USABLE
  {
    var lapP: nat, lapC: nat :| Explained(r, lapP, lapC);
    if |r.got| < |r.sent| { GoesOn(r, lapP, lapC); }
  }

  // ------------------------------------------------- 254 is the right bound

  ghost predicate Reachable(r: Ring, limit: nat) {
    exists rs, steps :: IsRun(rs, steps, limit) && rs[|rs| - 1] == r
  }

  lemma ReachNext(r: Ring, s: Step, t: Ring, limit: nat)
    requires Reachable(r, limit) && Next(r, s, t, limit)
    ensures Reachable(t, limit)
  {
    var rs, steps :| IsRun(rs, steps, limit) && rs[|rs| - 1] == r;
    assert IsRun(rs + [t], steps + [s], limit);
    assert (rs + [t])[|rs + [t]| - 1] == t;
  }

  lemma {:induction false} ReachPairs(n: nat, x: Trb) returns (r: Ring)
    requires n <= USABLE
    ensures Reachable(r, USABLE) && |r.slots| == USABLE && r.enq == r.deq == n && r.pcs && r.ccs && r.link
    ensures |r.sent| == |r.got| == n
  {
    if n == 0 {
      r := Init();
      assert IsRun([r], [], USABLE) && [r][|[r]| - 1] == r;
    } else {
      var p := ReachPairs(n - 1, x);
      var q := Store(p, x);
      ReachNext(p, DoStore(x), q, USABLE);
      r := Consume(q);
      ReachNext(q, DoConsume, r, USABLE);
    }
  }

  lemma {:induction false} ReachStores(r: Ring, n: nat, x: Trb) returns (t: Ring)
    requires Reachable(r, USABLE) && |r.slots| == USABLE && r.deq == USABLE && r.enq == 0 && |r.sent| == |r.got|
    requires n <= USABLE
    ensures Reachable(t, USABLE) && |t.slots| == USABLE && t.enq == n && t.deq == USABLE
    ensures t.pcs == r.pcs && t.ccs == r.ccs && t.got == r.got && |t.sent| == |t.got| + n
  {
    if n == 0 { t := r; } else {
      var p := ReachStores(r, n - 1, x);
      t := Store(p, x);
      ReachNext(p, DoStore(x), t, USABLE);
    }
  }

  /** Some run with 255 outstanding TRBs ends with the controller waiting at the Link
      TRB for a cycle bit that the driver has already overwritten. */
  lemma FullRingSticks() returns (r: Ring)
    ensures Reachable(r, USABLE) && |r.slots| == USABLE && r.deq <= USABLE
    ensures |r.got| < |r.sent| && !CanConsume(r)
  {
    var x := Trb(0, 0, 0);
    var a := ReachPairs(USABLE, x);
    var b := Wrap(a);
    ReachNext(a, DoWrap, b, USABLE);
    var c := ReachStores(b, USABLE, x);
    r := Wrap(c);
    ReachNext(c, DoWrap, r, USABLE);
  }

  // ------------------------------------------------------------- the driver

  /** Both stores of one enqueue. */
  function Enqueued(r: Ring, x: Trb): Ring
    requires r.enq < USABLE == |r.slots|
  {
    var t := Store(r, x);
    if t.enq == USABLE then Wrap(t) else t
  }

  /** The type field of a TRB, bits 10 to 15 of its control word. */
  function TypeOf(x: Trb): int { x.control / 1024 % 64 }

  /** The toggle-cycle flag, bit 1. */
  predicate Toggles(x: Trb) { x.control / 2 % 2 == 1 }

  const LINK_CONTROL: int := 0x1802

  class ProducerRing {
    const phys: nat
    const trbs: array<Slot>
    var enqueueIndex: nat
    var cycleState: bool

    /** The last slot holds a Link TRB (type 6) back to the start of the ring, which toggles the
        cycle state. */
    ghost predicate Valid()
      reads this, trbs
    {
      && trbs.Length == USABLE + 1 && enqueueIndex < USABLE
      && trbs[USABLE].trb == Trb(phys, 0, LINK_CONTROL) && TypeOf(trbs[USABLE].trb) == 6 && Toggles(trbs[USABLE].trb)
    }

    /** This ring with a given controller side and history. */
    ghost function View(deq: nat, ccs: bool, sent: seq<Trb>, got: seq<Trb>): Ring
      reads this, trbs
      requires Valid()
    {
      Ring(trbs[..USABLE], trbs[USABLE].cycle, enqueueIndex, cycleState, deq, ccs, sent, got)
    }

    constructor (phys: nat)
      ensures Valid() && fresh(trbs) && this.phys == phys && View(0, true, [], []) == Init()
    {
      this.phys := phys;
      var link := Trb(phys, 0, LINK_CONTROL);
      trbs := new Slot[USABLE + 1](i => if i == USABLE then Slot(link, true) else Slot(Trb(0, 0, 0), false));
      enqueueIndex, cycleState := 0, true;
    }

    /** `xhci_ring_enqueue`: returns the slot that was written. */
    method Enqueue(x: Trb) returns (index: nat)
      requires Valid()
      modifies this, trbs
      ensures Valid() && index == old(enqueueIndex)
      ensures forall deq, ccs, sent, got ::
                View(deq, ccs, sent + [x], got) == Enqueued(old(View(deq, ccs, sent, got)), x)
    {
      index := enqueueIndex;
      trbs[index] := Slot(x, cycleState);
      enqueueIndex := enqueueIndex + 1;
      if enqueueIndex >= USABLE {
        enqueueIndex := 0;
        trbs[USABLE] := Slot(trbs[USABLE].trb.(control := LINK_CONTROL), cycleState);
        cycleState := !cycleState;
      }
    }
  }
}
