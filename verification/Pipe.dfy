/** Anonymous pipes: a bounded ring with one waiter slot per side. A method runs from
    entry (or from the point where the scheduler resumes it) to its return or to the
    next `schedule()`, so that any order of calls is any interleaving. */
module Pipe {

  import opened Bytes
  import opened PipeWait

  /** The bytes in the ring, oldest first. */
  function Queue(buf: seq<Byte>, pos: nat, count: nat): (q: seq<Byte>)
    requires pos < |buf| && count <= |buf|
    ensures |q| == count
  {
    if pos + count <= |buf| then buf[pos..pos + count] else buf[pos..] + buf[..pos + count - |buf|]
  }

  /** `x` modulo `n` for a position at most one lap ahead. */
  function Wrap(x: nat, n: nat): nat
    requires x < 2 * n
  {
    if x < n then x else x - n
  }

  lemma WrapIsMod(x: nat, n: nat)
    requires x < 2 * n
    ensures x % n == Wrap(x, n)
  {
    if x >= n { assert x == n * 1 + (x - n); }
  }

  /** The next position in the ring. */
  method Advance(p: nat, n: nat) returns (q: nat)
    requires p < n
    ensures q == Wrap(p + 1, n)
  {
    WrapIsMod(p + 1, n);
    q := (p + 1) % n;
  }

  lemma QueueAt(buf: seq<Byte>, pos: nat, count: nat, i: nat)
    requires pos < |buf| && count <= |buf| && i < count
    ensures Queue(buf, pos, count)[i] == buf[Wrap(pos + i, |buf|)]
  {}

  /** Writing behind the last byte appends it. */
  lemma QueuePut(buf: seq<Byte>, pos: nat, count: nat, x: Byte)
    requires pos < |buf| && count < |buf|
    ensures Queue(buf[Wrap(pos + count, |buf|) := x], pos, count + 1) == Queue(buf, pos, count) + [x]
  {
    hide Queue;
    var c := buf[Wrap(pos + count, |buf|) := x];
    forall i | 0 <= i < count + 1 ensures Queue(c, pos, count + 1)[i] == (Queue(buf, pos, count) + [x])[i] {
      QueueAt(c, pos, count + 1, i);
      if i < count { QueueAt(buf, pos, count, i); }
    }
  }

  /** Reading at the front removes the first byte. */
  lemma QueueTake(buf: seq<Byte>, pos: nat, count: nat)
    requires pos < |buf| && 0 < count <= |buf|
    ensures Queue(buf, pos, count) == [buf[pos]] + Queue(buf, Wrap(pos + 1, |buf|), count - 1)
    ensures Wrap(Wrap(pos + 1, |buf|) + (count - 1), |buf|) == Wrap(pos + count, |buf|)
  {
    hide Queue;
    var rest := Queue(buf, Wrap(pos + 1, |buf|), count - 1);
    forall i | 0 <= i < count ensures Queue(buf, pos, count)[i] == ([buf[pos]] + rest)[i] {
      QueueAt(buf, pos, count, i);
      if i > 0 { QueueAt(buf, Wrap(pos + 1, |buf|), count - 1, i - 1); }
    }
  }

  class Pipe {
    const buffer: array<Byte>
    var readPos: nat
    var writePos: nat
    var count: nat
    var readers: nat
    var writers: nat
    var readWaiter: Slot
    var writeWaiter: Slot
    /** Processes in PROCESS_BLOCKED on this pipe, by the side they wait on. */
    var asleepR: set<nat>
    var asleepW: set<nat>
    /** Every byte that writes accepted, and every byte that reads delivered. */
    ghost var accepted: seq<Byte>
    ghost var delivered: seq<Byte>

    ghost predicate Ring()
      reads this
    {
      && buffer.Length > 0 && readPos < buffer.Length && count <= buffer.Length
      && writePos == Wrap(readPos + count, buffer.Length)
    }

    ghost function Contents(): seq<Byte>
      reads this, buffer
      requires Ring()
    {
      Queue(buffer[..], readPos, count)
    }

    /** The waiting side of the pipe, as a state of the step system. */
    ghost function W(): State
      reads this
    {
      State(buffer.Length, count, readers, writers, readWaiter, writeWaiter, asleepR, asleepW)
    }

    /** What every call keeps, with any number of sleepers: no byte is lost, doubled or moved,
        and a process in a waiter slot sleeps for a reason that still holds. */
    ghost predicate Valid()
      reads this, buffer
    {
      Ring() && Justified(W()) && accepted == delivered + Contents()
    }

    constructor (size: nat)
      requires size > 0
      ensures Valid() && Contents() == [] && fresh(buffer) && accepted == [] && delivered == []
      ensures W() == Fresh(size) && NoOrphans(W())
    {
      buffer := new Byte[size](_ => 0);
      readPos, writePos, count, readers, writers := 0, 0, 0, 1, 1;
      readWaiter, writeWaiter, asleepR, asleepW := Nobody, Nobody, {}, {};
      accepted, delivered := [], [];
    }

    // ------------------------------------------------------------------ waking

    method WakeReader()
      modifies this`readWaiter, this`asleepR
      ensures W() == PipeWait.WakeReader(old(W()))
    {
      if readWaiter.Waits? {
        asleepR := asleepR - {readWaiter.who};
        readWaiter := Nobody;
      }
    }

    method WakeWriter()
      modifies this`writeWaiter, this`asleepW
      ensures W() == PipeWait.WakeWriter(old(W()))
    {
      if writeWaiter.Waits? {
        asleepW := asleepW - {writeWaiter.who};
        writeWaiter := Nobody;
      }
    }

    // -------------------------------------------------------------- reading

    /** `pipe_read` by process `me` until it returns or sleeps: `Take`s, and then perhaps a
        sleep. It loses a sleeper exactly when it sleeps itself where one sleeps already. */
    method Read(me: nat, n: nat) returns (out: seq<Byte>, slept: bool, ghost steps: seq<Step>)
      requires Valid() && Awake(W(), me)
      modifies this, buffer
      ensures Valid() && buffer[..] == old(buffer[..]) && accepted == old(accepted)
      ensures delivered == old(delivered) + out && old(Contents()) == out + Contents()
      ensures |out| == if n <= |old(Contents())| then n else |old(Contents())|
      ensures slept <==> n > 0 && old(Contents()) == [] && writers > 0
      ensures readers == old(readers) && writers == old(writers) && (Awake(W(), me) <==> !slept)
      ensures readWaiter == if slept then Waits(me) else old(readWaiter)
      ensures writeWaiter == if out == [] then old(writeWaiter) else Nobody
      ensures Leads(old(W()), steps, W()) && steps == Takes(|out|) + if slept then [SleepRead(me)] else []
      ensures old(NoOrphans(W())) ==> (NoOrphans(W()) <==> !(slept && old(readWaiter).Waits?))
      ensures forall p :: old(Orphan(W(), p)) ==> Orphan(W(), p)
    {
      hide Queue, Wrap, Justified, NoOrphans, Orphan, Leads;
      out, slept, steps := [], false, [];
      LeadsNowhere(W());
      while |out| < n
        invariant Valid() && buffer[..] == old(buffer[..]) && accepted == old(accepted)
        invariant delivered == old(delivered) + out && old(Contents()) == out + Contents()
        invariant |out| <= n && Leads(old(W()), steps, W()) && steps == Takes(|out|)
        invariant Awake(W(), me) && readers == old(readers) && writers == old(writers)
        invariant if out == [] then W() == old(W()) else writeWaiter == Nobody && readWaiter == old(readWaiter)
        invariant old(NoOrphans(W())) ==> NoOrphans(W())
        decreases n - |out|
      {
        ghost var w := W();
        if count == 0 {
          if writers == 0 { break; }
          if |out| > 0 { break; }
          readWaiter := Waits(me);
          asleepR := asleepR + {me};
          slept := true;
          Stepped(w, SleepRead(me), W());
          LeadsOn(old(W()), steps, w, SleepRead(me));
          steps := steps + [SleepRead(me)];
          break;
        }
        var x := TakeByte();
        LeadsOn(old(W()), steps, w, Take);
        out, steps := out + [x], steps + [Take];
      }
      forall p | old(Orphan(W(), p)) ensures Orphan(W(), p) { OrphanThrough(old(W()), steps, W(), p); }
    }

    /** One byte from the ring to the reader; a writer that waits for room is woken. */
    method TakeByte() returns (x: Byte)
      requires Valid() && count > 0
      modifies this, buffer
      ensures Valid() && buffer[..] == old(buffer[..]) && accepted == old(accepted)
      ensures delivered == old(delivered) + [x] && old(Contents()) == [x] + Contents()
      ensures W() == Apply(old(W()), Take) && Stays(old(W()), W())
    {
      hide Queue;
      QueueTake(buffer[..], readPos, count);
      ghost var w := W();
      x := buffer[readPos];
      readPos := Advance(readPos, buffer.Length);
      count := count - 1;
      delivered := delivered + [x];
      WakeWriter();
      Stepped(w, Take, W());
    }

    // -------------------------------------------------------------- writing

    /** `pipe_write` by process `me` until it returns or sleeps; after a sleep it is resumed
        with the rest of the data. `before` bytes were stored before the last sleep, and `r` is
        what the call returns. */
    method Write(me: nat, data: seq<Byte>, before: nat)
      returns (r: int, total: nat, slept: bool, ghost steps: seq<Step>)
      requires Valid() && Awake(W(), me)
      modifies this, buffer
      ensures Valid() && total <= |data| && delivered == old(delivered)
      ensures accepted == old(accepted) + data[..total] && Contents() == old(Contents()) + data[..total]
      ensures total == var room := buffer.Length - |old(Contents())|;
                       if readers == 0 then 0 else if |data| <= room then |data| else room
      ensures slept <==> total < |data| && readers > 0
      ensures readers == old(readers) && writers == old(writers) && (Awake(W(), me) <==> !slept)
      ensures writeWaiter == if slept then Waits(me) else old(writeWaiter)
      ensures readWaiter == if total == 0 then old(readWaiter) else Nobody
      ensures !slept ==> r == if before + total == 0 && data != [] then -1 else before + total
      ensures Leads(old(W()), steps, W()) && steps == Puts(total) + if slept then [SleepWrite(me)] else []
      ensures old(NoOrphans(W())) ==> (NoOrphans(W()) <==> !(slept && old(writeWaiter).Waits?))
      ensures forall p :: old(Orphan(W(), p)) ==> Orphan(W(), p)
    {
      hide Queue, Wrap, Justified, NoOrphans, Orphan, Leads;
      total, slept, steps := 0, false, [];
      LeadsNowhere(W());
      while total < |data|
        invariant Valid() && total <= |data| && delivered == old(delivered)
        invariant accepted == old(accepted) + data[..total] && Contents() == old(Contents()) + data[..total]
        invariant Leads(old(W()), steps, W()) && steps == Puts(total)
        invariant Awake(W(), me) && readers == old(readers) && writers == old(writers)
        invariant total == 0 ==> W() == old(W())
        invariant total > 0 ==> readers > 0 && readWaiter == Nobody && writeWaiter == old(writeWaiter) == Nobody
        invariant old(NoOrphans(W())) ==> NoOrphans(W())
      {
        ghost var w := W();
        if readers == 0 { break; }
        if count == buffer.Length {
          writeWaiter := Waits(me);
          asleepW := asleepW + {me};
          slept := true;
          Stepped(w, SleepWrite(me), W());
          LeadsOn(old(W()), steps, w, SleepWrite(me));
          steps := steps + [SleepWrite(me)];
          break;
        }
        PutByte(data[total]);
        LeadsOn(old(W()), steps, w, Put);
        assert data[..total + 1] == data[..total] + [data[total]];
        total, steps := total + 1, steps + [Put];
      }
      r := if before + total == 0 && |data| > 0 then -1 else before + total;
      forall p | old(Orphan(W(), p)) ensures Orphan(W(), p) { OrphanThrough(old(W()), steps, W(), p); }
    }

    method PutByte(x: Byte)
      requires Valid() && count < buffer.Length && readers > 0
      modifies this, buffer
      ensures Valid() && delivered == old(delivered)
      ensures accepted == old(accepted) + [x] && Contents() == old(Contents()) + [x]
      ensures W() == Apply(old(W()), Put) && Stays(old(W()), W()) && writeWaiter == old(writeWaiter) == Nobody
    {
      ghost var w := W();
      assert writeWaiter == Nobody;
      hide Queue, Justified, NoOrphans, Orphan;
      Append(x);
      WakeReader();
      Stepped(w, Put, W());
    }

    /** One byte into the ring. */
    method Append(x: Byte)
      requires Ring() && count < buffer.Length
      modifies this`writePos, this`count, this`accepted, buffer
      ensures Ring() && count == old(count) + 1
      ensures accepted == old(accepted) + [x] && Contents() == old(Contents()) + [x]
    {
      QueuePut(buffer[..], readPos, count, x);
      hide Queue;
      ghost var b := buffer[..];
      buffer[writePos] := x;
      assert buffer[..] == b[writePos := x];
      writePos := Advance(writePos, buffer.Length);
      count := count + 1;
      accepted := accepted + [x];
    }

    // --------------------------------------------------------- ends come and go

    method CloseRead()
      requires Valid() && readers > 0
      modifies this`readers, this`writeWaiter, this`asleepW
      ensures Valid() && W() == Apply(old(W()), PipeWait.CloseRead) && Stays(old(W()), W())
    {
      ghost var w := W();
      readers := readers - 1;
      WakeWriter();
      Stepped(w, PipeWait.CloseRead, W());
    }

    method CloseWrite()
      requires Valid() && writers > 0
      modifies this`writers, this`readWaiter, this`asleepR
      ensures Valid() && W() == Apply(old(W()), PipeWait.CloseWrite) && Stays(old(W()), W())
    {
      ghost var w := W();
      writers := writers - 1;
      WakeReader();
      Stepped(w, PipeWait.CloseWrite, W());
    }

    method DupRead()
      requires Valid() && readers > 0
      modifies this`readers
      ensures Valid() && W() == Apply(old(W()), PipeWait.DupRead) && Stays(old(W()), W())
    {
      ghost var w := W();
      readers := readers + 1;
      Stepped(w, PipeWait.DupRead, W());
    }

    method DupWrite()
      requires Valid() && writers > 0
      modifies this`writers
      ensures Valid() && W() == Apply(old(W()), PipeWait.DupWrite) && Stays(old(W()), W())
    {
      ghost var w := W();
      writers := writers + 1;
      Stepped(w, PipeWait.DupWrite, W());
    }
  }

  function Takes(n: nat): seq<Step> { seq(n, _ => Take) }
  function Puts(n: nat): seq<Step> { seq(n, _ => Put) }

  /** No sleeper is lost, and none of those lost already is found. */
  ghost predicate Stays(s: State, t: State) {
    (NoOrphans(s) ==> NoOrphans(t)) && forall p :: Orphan(s, p) ==> Orphan(t, p)
  }

  /** What one step does to sleepers. */
  lemma Stepped(s: State, st: Step, t: State)
    requires Justified(s) && Enabled(s, st) && t == Apply(s, st)
    ensures Justified(t)
    ensures NoOrphans(s) ==> (NoOrphans(t) <==> Single(s, st))
    ensures forall p :: Orphan(s, p) ==> Orphan(t, p)
  {
    StepJustified(s, st);
    if NoOrphans(s) { OrphanIff(s, st); }
    forall p | Orphan(s, p) ensures Orphan(t, p) { OrphanStays(s, st, p); }
  }
}
