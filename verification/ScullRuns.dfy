/** Every interleaving of threads that open, read and write one scull pipe, step by step. */
module ScullRuns {
  import opened Arithmetic
  import opened FatDefs
  import opened ScullPipe

  /** Where a thread stands: about to take the semaphore, testing, asleep, copying, or about to move a pointer. */
  datatype Thread =
    | Idle
    | OpenDown
    | OpenReset
    | ReadDown(count: nat)
    | ReadTest(count: nat)
    | ReadSleep(count: nat)
    | ReadCopy(count: nat)
    | ReadDone(bytes: seq<byte>)
    | WriteDown(data: seq<byte>)
    | WriteTest(data: seq<byte>)
    | WriteSleep(data: seq<byte>)
    | WriteCopy(data: seq<byte>)
    | WriteDone(data: seq<byte>, k: nat)

  datatype Holder = Nobody | Held(pid: nat)

  datatype System = System(pipe: Pipe, sem: Holder, threads: seq<Thread>)

  datatype Event = Silent | Reset | DidRead(bytes: seq<byte>) | DidWrite(bytes: seq<byte>)

  predicate Holding(t: Thread) {
    t.OpenReset? || t.ReadTest? || t.ReadCopy? || t.ReadDone? || t.WriteTest? || t.WriteCopy? || t.WriteDone?
  }

  /** Thread pid goes on at t, and the semaphore and the pipe become these. */
  function Goes(s: System, pid: nat, t: Thread, sem: Holder, pipe: Pipe): System
    requires pid < |s.threads|
  {
    System(pipe, sem, s.threads[pid := t])
  }

  /** Thread pid takes the semaphore if it is free, or a signal ends its call. */
  predicate Downs(s: System, pid: nat, t: Thread, s': System)
    requires pid < |s.threads|
  {
    || (s.sem.Nobody? && s' == Goes(s, pid, t, Held(pid), s.pipe))
    || s' == Goes(s, pid, Idle, s.sem, s.pipe)
  }

  /** One step of thread pid. */
  ghost predicate Step(s: System, pid: nat, e: Event, s': System)
    requires InRange(s.pipe)
  {
    && pid < |s.threads|
    && match s.threads[pid]
       case Idle =>
         && e.Silent? && pid < |s'.threads|
         && (var t := s'.threads[pid];
             (t.OpenDown? || t.ReadDown? || t.WriteDown?) && s' == Goes(s, pid, t, s.sem, s.pipe))
       case OpenDown => e.Silent? && Downs(s, pid, OpenReset, s')
       case OpenReset =>
         && e.Reset? && |s'.pipe.buffer| == |s.pipe.buffer| && s'.pipe.rp == s'.pipe.wp == 0
         && s' == Goes(s, pid, Idle, Nobody, s'.pipe)
       case ReadDown(count) => e.Silent? && Downs(s, pid, ReadTest(count), s')
       case ReadTest(count) =>
         && e.Silent?
         && if s.pipe.rp == s.pipe.wp
            then s' == Goes(s, pid, ReadSleep(count), Nobody, s.pipe) || s' == Goes(s, pid, Idle, Nobody, s.pipe)
            else s' == Goes(s, pid, ReadCopy(count), s.sem, s.pipe)
       case ReadSleep(count) =>
         e.Silent? && (s' == Goes(s, pid, ReadDown(count), s.sem, s.pipe) || s' == Goes(s, pid, Idle, s.sem, s.pipe))
       case ReadCopy(count) =>
         && e.Silent? && s.pipe.rp != s.pipe.wp
         && (|| s' == Goes(s, pid, ReadDone(Front(s.pipe, count)), s.sem, s.pipe)
             || s' == Goes(s, pid, Idle, Nobody, s.pipe))
       case ReadDone(bytes) =>
         e == DidRead(bytes) && s' == Goes(s, pid, Idle, Nobody, AfterRead(s.pipe, |bytes|))
       case WriteDown(data) => e.Silent? && Downs(s, pid, WriteTest(data), s')
       case WriteTest(data) =>
         && e.Silent?
         && if SpaceFree(s.pipe) == 0
            then s' == Goes(s, pid, WriteSleep(data), Nobody, s.pipe) || s' == Goes(s, pid, Idle, Nobody, s.pipe)
            else s' == Goes(s, pid, WriteCopy(data), s.sem, s.pipe)
       case WriteSleep(data) =>
         e.Silent? && (s' == Goes(s, pid, WriteDown(data), s.sem, s.pipe) || s' == Goes(s, pid, Idle, s.sem, s.pipe))
       case WriteCopy(data) =>
         && e.Silent? && SpaceFree(s.pipe) > 0
         && (var k := WriteCount(s.pipe, |data|);
             || s' == Goes(s, pid, WriteDone(data, k), s.sem, Filled(s.pipe, data, k))
             || exists c :: 0 <= c <= k && s' == Goes(s, pid, Idle, Nobody, Filled(s.pipe, data, c)))
       case WriteDone(data, k) =>
         && e == DidWrite(data[..Min(k, |data|)])
         && s' == Goes(s, pid, Idle, Nobody, s.pipe.(wp := Wrapped(s.pipe, s.pipe.wp + k)))
  }

  /** The bytes one read hands out. */
  function Front(p: Pipe, count: nat): seq<byte>
    requires InRange(p) && p.rp != p.wp
  {
    p.buffer[p.rp..p.rp + ReadCount(p, count)]
  }

  /** The pipe once k bytes of data are in the buffer and the write position has not moved yet. */
  function Filled(p: Pipe, data: seq<byte>, k: nat): Pipe
    requires InRange(p)
  {
    if k <= |data| && p.wp + k <= |p.buffer| then AfterWrite(p, data[..k]).(wp := p.wp) else p
  }

  // ----- what every step keeps -----

  /** What a thread that holds the semaphore relies on. */
  ghost predicate Ready(p: Pipe, t: Thread)
    requires InRange(p)
  {
    && (t.ReadCopy? ==> p.rp != p.wp)
    && (t.ReadDone? ==> p.rp != p.wp && t.bytes == Front(p, |t.bytes|))
    && (t.WriteCopy? ==> SpaceFree(p) > 0)
    && (t.WriteDone? ==>
          && SpaceFree(p) > 0 && t.k == WriteCount(p, |t.data|) <= |t.data|
          && p.wp + t.k <= |p.buffer| && p.buffer[p.wp..p.wp + t.k] == t.data[..t.k])
  }

  /** At most the holder of the semaphore is inside, and what it has seen or copied still holds of the pipe. */
  ghost predicate Inv(s: System) {
    && InRange(s.pipe)
    && (forall i :: 0 <= i < |s.threads| ==>
          (Holding(s.threads[i]) <==> s.sem == Held(i)) && Ready(s.pipe, s.threads[i]))
  }

  lemma NotReady(p: Pipe, q: Pipe, t: Thread)
    requires InRange(p) && InRange(q) && !Holding(t)
    ensures Ready(p, t)
  {
  }

  /** The step of one thread does not touch what the others rely on. */
  lemma OthersReady(s: System, pid: nat, t: Thread, sem: Holder, pipe: Pipe)
    requires Inv(s) && pid < |s.threads| && InRange(pipe) && Ready(pipe, t)
    requires Holding(t) <==> sem == Held(pid)
    requires if Holding(s.threads[pid]) then sem.Nobody? || sem == Held(pid)
             else pipe == s.pipe && (sem == s.sem || (s.sem.Nobody? && sem == Held(pid)))
    ensures Inv(Goes(s, pid, t, sem, pipe))
  {
    var s' := Goes(s, pid, t, sem, pipe);
    forall i | 0 <= i < |s'.threads|
      ensures (Holding(s'.threads[i]) <==> sem == Held(i)) && Ready(pipe, s'.threads[i])
    {
      if i != pid && Holding(s.threads[pid]) {
        assert !Holding(s.threads[i]);
        NotReady(pipe, pipe, s.threads[i]);
      }
    }
  }

  /** The bytes that an event hands over to the pipe, and those it takes from it. */
  function In(e: Event): seq<byte> {
    if e.DidWrite? then e.bytes else []
  }

  function Out(e: Event): seq<byte> {
    if e.DidRead? then e.bytes else []
  }

  lemma ReadCopied(s: System, pid: nat, count: nat)
    requires InRange(s.pipe) && s.pipe.rp != s.pipe.wp
    ensures Ready(s.pipe, ReadDone(Front(s.pipe, count)))
  {
    ReadTakesFront(s.pipe, count);
  }

  lemma ReadAdvanced(p: Pipe, bytes: seq<byte>)
    requires InRange(p) && Ready(p, ReadDone(bytes))
    ensures InRange(AfterRead(p, |bytes|)) && Contents(p) == bytes + Contents(AfterRead(p, |bytes|))
  {
    hide Contents;
    ReadTakesFront(p, |bytes|);
  }

  /** Bytes copied into the free part are there, and the contents are not affected. */
  lemma WriteCopied(p: Pipe, data: seq<byte>, c: nat)
    requires InRange(p) && SpaceFree(p) > 0 && c <= WriteCount(p, |data|)
    ensures var q := Filled(p, data, c);
            && InRange(q) && Contents(q) == Contents(p)
            && (c == WriteCount(p, |data|) ==> Ready(q, WriteDone(data, c)))
  {
    hide SpaceFree, Contents;
    FailedCopyHidden(p, data, c);
    var q := Filled(p, data, c);
    SpaceCases(p);
    SpaceCases(q);
    assert q.buffer[q.wp..q.wp + c] == data[..c];
  }

  lemma WriteAdvanced(p: Pipe, data: seq<byte>, k: nat)
    requires InRange(p) && Ready(p, WriteDone(data, k))
    ensures var q := p.(wp := Wrapped(p, p.wp + k));
            InRange(q) && Contents(q) == Contents(p) + data[..k]
  {
    hide SpaceFree, Contents;
    WriteAppends(p, data);
    assert p.buffer == Overlaid(p.buffer, p.wp, data[..k]) by {
      forall i | 0 <= i < |p.buffer|
        ensures p.buffer[i] == Overlaid(p.buffer, p.wp, data[..k])[i]
      {
        if p.wp <= i < p.wp + k {
          assert p.buffer[p.wp..p.wp + k][i - p.wp] == data[..k][i - p.wp];
        }
      }
    }
    assert p.(wp := Wrapped(p, p.wp + k)) == AfterWrite(p, data[..k]);
  }

  /** The invariant holds again, and unless the step reset the pipe every byte written to it is still in it or read. */
  ghost predicate Kept(s: System, e: Event, s': System)
    requires InRange(s.pipe)
  {
    Inv(s') && (!e.Reset? ==> Contents(s.pipe) + In(e) == Out(e) + Contents(s'.pipe))
  }

  lemma ReadDoneKeeps(s: System, pid: nat, e: Event, s': System)
    requires Inv(s) && Step(s, pid, e, s') && s.threads[pid].ReadDone?
    ensures Kept(s, e, s')
  {
    hide SpaceFree, Contents, Ready;
    assert Ready(s.pipe, s.threads[pid]);
    SpaceCases(s.pipe);
    var bytes := s.threads[pid].bytes;
    ReadAdvanced(s.pipe, bytes);
    NotReady(s'.pipe, s'.pipe, Idle);
    OthersReady(s, pid, Idle, Nobody, s'.pipe);
  }

  lemma WriteDoneKeeps(s: System, pid: nat, e: Event, s': System)
    requires Inv(s) && Step(s, pid, e, s') && s.threads[pid].WriteDone?
    ensures Kept(s, e, s')
  {
    hide SpaceFree, Contents, Ready;
    assert Ready(s.pipe, s.threads[pid]);
    SpaceCases(s.pipe);
    var data, k := s.threads[pid].data, s.threads[pid].k;
    WriteAdvanced(s.pipe, data, k);
    ReadyCount(s.pipe, data, k);
    NotReady(s'.pipe, s'.pipe, Idle);
    OthersReady(s, pid, Idle, Nobody, s'.pipe);
  }

  lemma WriteCopyKeeps(s: System, pid: nat, e: Event, s': System)
    requires Inv(s) && Step(s, pid, e, s') && s.threads[pid].WriteCopy?
    ensures Kept(s, e, s')
  {
    hide SpaceFree, Contents, Ready;
    assert Ready(s.pipe, s.threads[pid]);
    SpaceCases(s.pipe);
    var data := s.threads[pid].data;
    var c := CopiedBytes(s, pid, data, s');
    WriteCopied(s.pipe, data, c);
    NotReady(s'.pipe, s'.pipe, Idle);
    OthersReady(s, pid, s'.threads[pid], s'.sem, s'.pipe);
  }

  lemma ReadCopyKeeps(s: System, pid: nat, e: Event, s': System)
    requires Inv(s) && Step(s, pid, e, s') && s.threads[pid].ReadCopy?
    ensures Kept(s, e, s')
  {
    hide SpaceFree, Contents, Ready;
    assert Ready(s.pipe, s.threads[pid]);
    SpaceCases(s.pipe);
    var count := s.threads[pid].count;
    ReadCopied(s, pid, count);
    NotReady(s.pipe, s.pipe, Idle);
    OthersReady(s, pid, s'.threads[pid], s'.sem, s.pipe);
  }

  lemma TestKeeps(s: System, pid: nat, e: Event, s': System)
    requires Inv(s) && Step(s, pid, e, s')
              && (s.threads[pid].ReadTest? || s.threads[pid].WriteTest? || s.threads[pid].OpenReset?)
    ensures Kept(s, e, s')
  {
    hide SpaceFree, Contents, Ready;
    var t, t' := s.threads[pid], s'.threads[pid];
    SpaceCases(s.pipe);
    EasyReady(s.pipe, s'.pipe, t, t');
    OthersReady(s, pid, t', s'.sem, s'.pipe);
  }

  lemma OutsideKeeps(s: System, pid: nat, e: Event, s': System)
    requires Inv(s) && Step(s, pid, e, s') && !Holding(s.threads[pid])
    ensures Kept(s, e, s')
  {
    hide SpaceFree, Contents, Ready;
    var t, t' := s.threads[pid], s'.threads[pid];
    EasyReady(s.pipe, s'.pipe, t, t');
    OthersReady(s, pid, t', s'.sem, s'.pipe);
  }

  /** Every step of every thread keeps the invariant and loses no byte. */
  lemma StepKeeps(s: System, pid: nat, e: Event, s': System)
    requires Inv(s) && Step(s, pid, e, s')
    ensures Kept(s, e, s')
  {
    hide Inv, Kept, SpaceFree;
    match s.threads[pid] {
      case ReadDone(_) => ReadDoneKeeps(s, pid, e, s');
      case WriteDone(_, _) => WriteDoneKeeps(s, pid, e, s');
      case WriteCopy(_) => WriteCopyKeeps(s, pid, e, s');
      case ReadCopy(_) => ReadCopyKeeps(s, pid, e, s');
      case ReadTest(_) => TestKeeps(s, pid, e, s');
      case WriteTest(_) => TestKeeps(s, pid, e, s');
      case OpenReset => TestKeeps(s, pid, e, s');
      case _ => OutsideKeeps(s, pid, e, s');
    }
  }

  lemma ReadyCount(p: Pipe, data: seq<byte>, k: nat)
    requires InRange(p) && Ready(p, WriteDone(data, k))
    ensures k <= |data|
  {
  }

  /** How many bytes the copy of a writer moved. */
  ghost function CopiedBytes(s: System, pid: nat, data: seq<byte>, s': System): (c: nat)
    requires InRange(s.pipe) && pid < |s.threads| && s.threads[pid] == WriteCopy(data) && Step(s, pid, Silent, s')
    ensures c <= WriteCount(s.pipe, |data|) && s'.pipe == Filled(s.pipe, data, c)
    ensures s'.threads[pid].WriteDone? ==> c == WriteCount(s.pipe, |data|) && s'.threads[pid] == WriteDone(data, c)
  {
    var k := WriteCount(s.pipe, |data|);
    if s' == Goes(s, pid, WriteDone(data, k), s.sem, Filled(s.pipe, data, k)) then k
    else
      var c :| 0 <= c <= k && s' == Goes(s, pid, Idle, Nobody, Filled(s.pipe, data, c));
      c
  }

  lemma EasyReady(p: Pipe, q: Pipe, t: Thread, t': Thread)
    requires InRange(p) && InRange(q)
    requires !Holding(t') || t'.OpenReset? || t'.ReadTest? || t'.WriteTest?
             || (p == q && t'.ReadCopy? && p.rp != p.wp) || (p == q && t'.WriteCopy? && SpaceFree(p) > 0)
    ensures Ready(q, t')
  {
  }

  // ----- runs -----

  /** States and the events between them, each by a step of some thread. */
  ghost predicate Run(states: seq<System>, events: seq<Event>) {
    && |states| == |events| + 1
    && forall i :: 0 <= i < |events| ==> Stepped(states[i], events[i], states[i + 1])
  }

  ghost predicate Stepped(s: System, e: Event, s': System) {
    InRange(s.pipe) && exists pid :: Step(s, pid, e, s')
  }

  function AllIn(events: seq<Event>): seq<byte> {
    if events == [] then [] else AllIn(events[..|events| - 1]) + In(events[|events| - 1])
  }

  function AllOut(events: seq<Event>): seq<byte> {
    if events == [] then [] else AllOut(events[..|events| - 1]) + Out(events[|events| - 1])
  }

  /** Over any run every byte written comes out once and in order: what was read, and then what still waits, is what
      waited at first and then what was written; until an open resets the pipe. */
  lemma {:induction false} RunFifo(states: seq<System>, events: seq<Event>)
    requires Run(states, events) && Inv(states[0])
    ensures Inv(states[|events|])
    ensures (forall i :: 0 <= i < |events| ==> !events[i].Reset?) ==>
              Contents(states[0].pipe) + AllIn(events) == AllOut(events) + Contents(states[|events|].pipe)
  {
    hide Inv, Step, Contents;
    InvRange(states[0]);
    if events != [] {
      var n := |events| - 1;
      var es := events[..n];
      assert forall i :: 0 <= i < n ==> es[i] == events[i];
      RunFifo(states[..n + 1], es);
      assert Stepped(states[n], events[n], states[n + 1]);
      var pid :| Step(states[n], pid, events[n], states[n + 1]);
      StepKeeps(states[n], pid, events[n], states[n + 1]);
      InvRange(states[n + 1]);
      if forall i :: 0 <= i < |events| ==> !events[i].Reset? {
        Joins(Contents(states[0].pipe), AllIn(es), In(events[n]), AllOut(es), Out(events[n]), Contents(states[n].pipe),
              Contents(states[n + 1].pipe));
      }
    }
  }

  lemma InvRange(s: System)
    requires Inv(s)
    ensures InRange(s.pipe)
  {
  }

  lemma Joins(first: seq<byte>, ins: seq<byte>, i: seq<byte>, outs: seq<byte>, o: seq<byte>, mid: seq<byte>,
      end: seq<byte>)
    requires first + ins == outs + mid && mid + i == o + end
    ensures first + (ins + i) == (outs + o) + end
  {
    assert first + (ins + i) == (first + ins) + i == outs + (mid + i) == (outs + o) + end;
  }
}
