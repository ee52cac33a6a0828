/** Re-entrancy of the xHCI driver. Timer ticks run `usb_poll` on top of whatever
    stands in `pit_wait_ms`; the flags `xhci_sync_wait_depth` and `xhci_enum_busy`
    keep a tick out of the shared event ring and out of enumeration. */
module XhciPoll {

  /** Who runs: the boot-time port scan, a storage command, or a timer tick. */
  datatype Kind = Boot | Command | Tick

  /** Where it stands. `Resetting` is the bare `pit_wait_ms` of a port reset,
      the three waits are the `pit_wait_ms` of `xhci_wait_for_event`. */
  datatype Place =
    | Working
    | CommandWait
    | Entered
    | Hotplug
    | Resetting
    | Enumerating
    | EnumWait
    | TeardownWait
    | Draining

  datatype Act = Act(kind: Kind, place: Place)

  /** The two flags and the activations, the running one last. */
  datatype State = State(depth: nat, busy: bool, stack: seq<Act>)

  predicate InWait(a: Act) { a.place == CommandWait || a.place == EnumWait || a.place == TeardownWait }
  predicate InEnum(a: Act) { a.place == Resetting || a.place == Enumerating || a.place == EnumWait }
  predicate InDrain(a: Act) { InWait(a) || a.place == Draining }
  /** Where a tick can come: at the waits, and, as the boot scan runs with interrupts on, anywhere
      in an enumeration. */
  predicate Interruptible(a: Act) { InWait(a) || a.place == Resetting || a.place == Enumerating }

  function Top(s: State): Act
    requires s.stack != []
  {
    s.stack[|s.stack| - 1]
  }

  function Goto(s: State, p: Place): State
    requires s.stack != []
  {
    s.(stack := s.stack[|s.stack| - 1 := Act(Top(s).kind, p)])
  }

  function Leave(s: State): State
    requires s.stack != []
  {
    s.(stack := s.stack[..|s.stack| - 1])
  }

  function Init(): State { State(0, false, []) }

  /** Something new starts: a thread when nothing runs, a tick on top of a wait. */
  ghost predicate Enter(s: State, t: State) {
    || (s.stack == [] && t == State(s.depth, true, [Act(Boot, Enumerating)]))
    || (s.stack == [] && t == s.(stack := [Act(Command, Working)]))
    || ((s.stack == [] || Interruptible(Top(s))) && t == s.(stack := s.stack + [Act(Tick, Entered)]))
  }

  /** `usb_poll` and `xhci_poll_hotplug`. */
  ghost predicate TickStep(s: State, t: State)
    requires s.stack != []
  {
    match Top(s).place
    case Entered =>
      if s.depth > 0 then t == Leave(s)
      else if s.busy then t == Goto(s, Draining) || t == Leave(s)
      else t == Goto(s, Hotplug)
    case Hotplug =>
      || t == Goto(s, Enumerating).(busy := true)
      || t == Goto(s, TeardownWait).(depth := s.depth + 1)
      || t == Goto(s, Draining) || t == Leave(s)
    case TeardownWait => s.depth > 0 && t == Goto(s, Hotplug).(depth := s.depth - 1)
    case Draining => t == Leave(s)
    case Enumerating => t == Goto(s, Hotplug).(busy := false)
    case _ => false
  }

  /** Enumeration of a port, by the boot scan or by a tick. */
  ghost predicate EnumStep(s: State, t: State)
    requires s.stack != []
  {
    match Top(s).place
    case Enumerating => t == Goto(s, Resetting) || t == Goto(s, EnumWait).(depth := s.depth + 1)
    case Resetting => t == Goto(s, Enumerating)
    case EnumWait => s.depth > 0 && t == Goto(s, Enumerating).(depth := s.depth - 1)
    case _ => false
  }

  ghost predicate ThreadStep(s: State, t: State)
    requires s.stack != []
  {
    match (Top(s).kind, Top(s).place)
    case (Boot, Enumerating) => t == Leave(s).(busy := false)
    case (Command, Working) => t == Goto(s, CommandWait).(depth := s.depth + 1) || t == Leave(s)
    case (Command, CommandWait) => s.depth > 0 && t == Goto(s, Working).(depth := s.depth - 1)
    case _ => false
  }

  ghost predicate Next(s: State, t: State) {
    || Enter(s, t)
    || (s.stack != [] && EnumStep(s, t))
    || (s.stack != [] && Top(s).kind == Tick && TickStep(s, t))
    || (s.stack != [] && ThreadStep(s, t))
  }

  function Count(p: Act -> bool, st: seq<Act>): nat {
    if st == [] then 0 else (if p(st[0]) then 1 else 0) + Count(p, st[1..])
  }

  lemma CountOf(p: Act -> bool, st: seq<Act>)
    requires |st| <= 2
    ensures Count(p, st) == (if |st| > 0 && p(st[0]) then 1 else 0) + (if |st| > 1 && p(st[1]) then 1 else 0)
  {
    if |st| == 2 { assert st[1..] == [st[1]]; assert [st[1]][1..] == []; }
    if |st| == 1 { assert st[1..] == []; }
  }

  /** Kinds stand only where their code goes. */
  predicate Fits(a: Act) {
    match a.place
    case Working => a.kind == Command
    case CommandWait => a.kind == Command
    case Resetting => a.kind != Command
    case Enumerating => a.kind != Command
    case EnumWait => a.kind != Command
    case _ => a.kind == Tick
  }

  ghost predicate Inv(s: State) {
    && |s.stack| <= 2 && (forall i :: 0 <= i < |s.stack| ==> Fits(s.stack[i]))
    && s.depth == Count(InWait, s.stack) && s.busy == (Count(InEnum, s.stack) > 0)
    && (|s.stack| == 2 ==>
          && s.stack[1].kind == Tick && Interruptible(s.stack[0])
          && (s.stack[1].place == Entered || (s.stack[1].place == Draining && !InWait(s.stack[0]))))
  }

  lemma EnterInv(s: State, t: State)
    requires Inv(s) && Enter(s, t)
    ensures Inv(t)
  {
    CountOf(InWait, s.stack); CountOf(InEnum, s.stack);
    CountOf(InWait, t.stack); CountOf(InEnum, t.stack);
  }

  lemma EnumInv(s: State, t: State)
    requires Inv(s) && s.stack != [] && EnumStep(s, t)
    ensures Inv(t)
  {
    CountOf(InWait, s.stack); CountOf(InEnum, s.stack);
    CountOf(InWait, t.stack); CountOf(InEnum, t.stack);
  }

  lemma TickInv(s: State, t: State)
    requires Inv(s) && s.stack != [] && Top(s).kind == Tick && TickStep(s, t)
    ensures Inv(t)
  {
    CountOf(InWait, s.stack); CountOf(InEnum, s.stack);
    CountOf(InWait, t.stack); CountOf(InEnum, t.stack);
  }

  lemma ThreadInv(s: State, t: State)
    requires Inv(s) && s.stack != [] && ThreadStep(s, t)
    ensures Inv(t)
  {
    CountOf(InWait, s.stack); CountOf(InEnum, s.stack);
    CountOf(InWait, t.stack); CountOf(InEnum, t.stack);
  }

  lemma StepInv(s: State, t: State)
    requires Inv(s) && Next(s, t)
    ensures Inv(t)
  {
    hide Inv, Enter, EnumStep, TickStep, ThreadStep;
    if Enter(s, t) { EnterInv(s, t); }
    else if EnumStep(s, t) { EnumInv(s, t); }
    else if Top(s).kind == Tick && TickStep(s, t) { TickInv(s, t); }
    else { ThreadInv(s, t); }
  }

  ghost predicate IsRun(ss: seq<State>) {
    && ss != [] && ss[0] == Init()
    && forall i :: 0 <= i < |ss| - 1 ==> Next(ss[i], ss[i + 1])
  }

  lemma {:induction false} RunInv(ss: seq<State>, k: nat)
    requires IsRun(ss) && k < |ss|
    ensures Inv(ss[k])
    decreases k
  {
    if k > 0 {
      RunInv(ss, k - 1);
      StepInv(ss[k - 1], ss[k]);
    }
  }

  /** In every run, whatever ticks come at whatever waits: the event ring is never
      drained by two activations at once, no enumeration starts inside another,
      activations nest at most two deep, and the flags say what is going on. */
  lemma NoOverlap(ss: seq<State>, k: nat)
    requires IsRun(ss) && k < |ss|
    ensures Count(InDrain, ss[k].stack) <= 1 && Count(InEnum, ss[k].stack) <= 1 && |ss[k].stack| <= 2
    ensures ss[k].depth == Count(InWait, ss[k].stack) <= 1
    ensures ss[k].busy <==> Count(InEnum, ss[k].stack) == 1
  {
    RunInv(ss, k);
    CountOf(InWait, ss[k].stack);
    CountOf(InEnum, ss[k].stack);
    CountOf(InDrain, ss[k].stack);
  }
}
