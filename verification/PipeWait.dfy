/** Sleeping and waking on a pipe with any number of processes: why one waiter slot per
    side loses no wake-up as long as one process waits per side, and loses the first
    sleeper as soon as a second process goes to sleep there. */
module PipeWait {

  datatype Slot = Nobody | Waits(who: nat)

  /** Fill level, open ends, the two waiter slots, and who sleeps on each side. */
  datatype State = State(size: nat, count: nat, readers: nat, writers: nat,
                         readSlot: Slot, writeSlot: Slot, asleepR: set<nat>, asleepW: set<nat>)

  datatype Step =
    | SleepRead(p: nat)
    | SleepWrite(p: nat)
    | Take
    | Put
    | CloseRead
    | CloseWrite
    | DupRead
    | DupWrite

  function WakeReader(s: State): State {
    if s.readSlot.Waits? then s.(asleepR := s.asleepR - {s.readSlot.who}, readSlot := Nobody) else s
  }

  function WakeWriter(s: State): State {
    if s.writeSlot.Waits? then s.(asleepW := s.asleepW - {s.writeSlot.who}, writeSlot := Nobody) else s
  }

  predicate Awake(s: State, p: nat) { p !in s.asleepR && p !in s.asleepW }

  /** When the code takes a step: the tests of `pipe_read`, `pipe_write` and the closes. */
  predicate Enabled(s: State, st: Step) {
    match st
    case SleepRead(p) => Awake(s, p) && s.count == 0 && s.writers > 0
    case SleepWrite(p) => Awake(s, p) && s.count == s.size && s.readers > 0
    case Take => s.count > 0
    case Put => s.count < s.size && s.readers > 0
    case CloseRead => s.readers > 0
    case CloseWrite => s.writers > 0
    case DupRead => s.readers > 0
    case DupWrite => s.writers > 0
  }

  function Apply(s: State, st: Step): State
    requires Enabled(s, st)
  {
    match st
    case SleepRead(p) => s.(readSlot := Waits(p), asleepR := s.asleepR + {p})
    case SleepWrite(p) => s.(writeSlot := Waits(p), asleepW := s.asleepW + {p})
    case Take => WakeWriter(s.(count := s.count - 1))
    case Put => WakeReader(s.(count := s.count + 1))
    case CloseRead => WakeWriter(s.(readers := s.readers - 1))
    case CloseWrite => WakeReader(s.(writers := s.writers - 1))
    case DupRead => s.(readers := s.readers + 1)
    case DupWrite => s.(writers := s.writers + 1)
  }

  /** A sleeper that no waiter slot names: nobody will ever wake it. */
  predicate Orphan(s: State, p: nat) {
    (p in s.asleepR && s.readSlot != Waits(p)) || (p in s.asleepW && s.writeSlot != Waits(p))
  }

  ghost predicate NoOrphans(s: State) { forall p :: !Orphan(s, p) }

  /** Sleepers sleep for a reason that still holds. */
  ghost predicate Justified(s: State) {
    && (s.readSlot.Waits? ==> s.readSlot.who in s.asleepR && s.count == 0 && s.writers > 0)
    && (s.writeSlot.Waits? ==> s.writeSlot.who in s.asleepW && s.count == s.size && s.readers > 0)
    && s.count <= s.size && s.size > 0 && s.asleepR !! s.asleepW
  }

  /** At most one process waits on each side. */
  predicate Single(s: State, st: Step) {
    && (st.SleepRead? ==> s.readSlot == Nobody)
    && (st.SleepWrite? ==> s.writeSlot == Nobody)
  }

  /** A step leaves a sleeper orphaned exactly when it is a second sleeper on a side. */
  lemma OrphanIff(s: State, st: Step)
    requires NoOrphans(s) && Justified(s) && Enabled(s, st)
    ensures NoOrphans(Apply(s, st)) <==> Single(s, st)
    ensures Justified(Apply(s, st))
  {
    var t := Apply(s, st);
    if !Single(s, st) {
      var q := if st.SleepRead? then s.readSlot.who else s.writeSlot.who;
      assert Orphan(t, q);
    } else {
      forall p ensures !Orphan(t, p) { assert !Orphan(s, p); }
    }
  }

  /** Once orphaned, asleep for ever, whatever readers and writers do. */
  lemma OrphanStays(s: State, st: Step, p: nat)
    requires Orphan(s, p) && Justified(s) && Enabled(s, st)
    ensures Orphan(Apply(s, st), p)
  {}

  ghost predicate IsRun(ss: seq<State>, steps: seq<Step>) {
    && |ss| == |steps| + 1
    && forall i :: 0 <= i < |steps| ==> Enabled(ss[i], steps[i]) && ss[i + 1] == Apply(ss[i], steps[i])
  }

  /** A run of `steps` from `s` to `t`. */
  ghost predicate Leads(s: State, steps: seq<Step>, t: State) {
    exists ss :: IsRun(ss, steps) && ss[0] == s && ss[|steps|] == t
  }

  lemma LeadsNowhere(s: State)
    ensures Leads(s, [], s)
  {
    assert IsRun([s], []);
  }

  lemma LeadsOn(s: State, steps: seq<Step>, t: State, st: Step)
    requires Leads(s, steps, t) && Enabled(t, st)
    ensures Leads(s, steps + [st], Apply(t, st))
  {
    hide Enabled, Apply;
    var ss :| IsRun(ss, steps) && ss[0] == s && ss[|steps|] == t;
    var us, more := ss + [Apply(t, st)], steps + [st];
    forall i | 0 <= i < |more| ensures Enabled(us[i], more[i]) && us[i + 1] == Apply(us[i], more[i]) {
      if i < |steps| { assert us[i] == ss[i] && us[i + 1] == ss[i + 1] && more[i] == steps[i]; }
    }
    assert IsRun(us, more);
  }

  /** A lost sleeper sleeps through any run. */
  lemma OrphanThrough(s: State, steps: seq<Step>, t: State, p: nat)
    requires Leads(s, steps, t) && Justified(s) && Orphan(s, p)
    ensures Orphan(t, p)
  {
    hide Enabled, Apply, Justified, Orphan;
    var ss :| IsRun(ss, steps) && ss[0] == s && ss[|steps|] == t;
    OrphanForEver(ss, steps, p, |steps|);
  }

  lemma {:induction false} OrphanForEver(ss: seq<State>, steps: seq<Step>, p: nat, k: nat)
    requires IsRun(ss, steps) && k < |ss| && Justified(ss[0]) && Orphan(ss[0], p)
    ensures Orphan(ss[k], p) && Justified(ss[k])
    decreases k
  {
    if k > 0 {
      OrphanForEver(ss, steps, p, k - 1);
      OrphanStays(ss[k - 1], steps[k - 1], p);
      StepJustified(ss[k - 1], steps[k - 1]);
    }
  }

  lemma StepJustified(s: State, st: Step)
    requires Justified(s) && Enabled(s, st)
    ensures Justified(Apply(s, st))
  {}

  /** In every run with one sleeper per side: a sleeping reader means an empty pipe with
      writers, a sleeping writer a full pipe with readers, each is the one its slot will
      wake, and the two sides never sleep together. */
  lemma {:induction false} NoLostWakeup(ss: seq<State>, steps: seq<Step>, k: nat)
    requires IsRun(ss, steps) && k < |ss|
    requires NoOrphans(ss[0]) && Justified(ss[0])
    requires forall i :: 0 <= i < |steps| ==> Single(ss[i], steps[i])
    ensures NoOrphans(ss[k]) && Justified(ss[k])
    ensures ss[k].asleepR != {} ==> ss[k].count == 0 && ss[k].writers > 0
    ensures ss[k].asleepW != {} ==> ss[k].count == ss[k].size && ss[k].readers > 0
    ensures ss[k].asleepR == {} || ss[k].asleepW == {}
    decreases k
  {
    if k > 0 {
      NoLostWakeup(ss, steps, k - 1);
      OrphanIff(ss[k - 1], steps[k - 1]);
    }
    SleepersInSlots(ss[k]);
  }

  lemma SleepersInSlots(s: State)
    requires NoOrphans(s) && Justified(s)
    ensures s.asleepR != {} ==> s.readSlot.Waits?
    ensures s.asleepW != {} ==> s.writeSlot.Waits?
  {
    if s.asleepR != {} { var p :| p in s.asleepR; assert !Orphan(s, p); }
    if s.asleepW != {} { var p :| p in s.asleepW; assert !Orphan(s, p); }
  }

  /** A pipe as `vfs_pipe` makes it. */
  function Fresh(size: nat): State { State(size, 0, 1, 1, Nobody, Nobody, {}, {}) }

  /** From a new pipe to a lost reader: the read end is shared, both readers find the pipe
      empty, and the writer puts a byte and leaves. The second reader is woken; the first
      sleeps on although a byte and then the end of file are there for it. */
  lemma FirstReaderLost(size: nat, p: nat, q: nat) returns (ss: seq<State>, steps: seq<Step>)
    requires size > 0 && p != q
    ensures Justified(Fresh(size)) && NoOrphans(Fresh(size))
    ensures IsRun(ss, steps) && |steps| == 5 && ss[0] == Fresh(size)
    ensures ss[5].count == 1 && ss[5].writers == 0 && Orphan(ss[5], p) && Awake(ss[5], q)
  {
    steps := [DupRead, SleepRead(p), SleepRead(q), Put, CloseWrite];
    var s0 := Fresh(size);
    var s1 := Apply(s0, DupRead);
    var s2 := Apply(s1, SleepRead(p));
    var s3 := Apply(s2, SleepRead(q));
    var s4 := Apply(s3, Put);
    var s5 := Apply(s4, CloseWrite);
    ss := [s0, s1, s2, s3, s4, s5];
  }
}
