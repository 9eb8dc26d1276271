/** What every interleaving of the bounded buffer keeps, and that it cannot jam. */
module BufferProofs {
  import opened Arithmetic
  import opened BufferProtocol
  import opened Options

  // ----- One step keeps the invariant -----

  /** What moving process `p` from `from` to `to` does to the count at each place. */
  ghost function Shift(from: Pc, to: Pc, pc: Pc): int {
    (if to == pc then 1 else 0) - (if from == pc then 1 else 0)
  }

  lemma Recount(pcs: seq<Pc>, p: nat, to: Pc)
    requires p < |pcs|
    ensures At(pcs, pcs[p]) > 0
    ensures Recounted(pcs, pcs[p := to], pcs[p], to)
  {
    hide At;
    CountedAt(pcs, p);
    forall pc
      ensures At(pcs[p := to], pc) == At(pcs, pc) + Shift(pcs[p], to, pc)
    {
      AtAfterMove(pcs, p, to, pc);
    }
  }

  ghost predicate Recounted(pcs: seq<Pc>, pcs': seq<Pc>, from: Pc, to: Pc) {
    && At(pcs', SendWantMutex) == At(pcs, SendWantMutex) + Shift(from, to, SendWantMutex)
    && At(pcs', Write) == At(pcs, Write) + Shift(from, to, Write)
    && At(pcs', AdvanceIn) == At(pcs, AdvanceIn) + Shift(from, to, AdvanceIn)
    && At(pcs', SendRelease) == At(pcs, SendRelease) + Shift(from, to, SendRelease)
    && At(pcs', PostChars) == At(pcs, PostChars) + Shift(from, to, PostChars)
    && At(pcs', RecvWantMutex) == At(pcs, RecvWantMutex) + Shift(from, to, RecvWantMutex)
    && At(pcs', Read) == At(pcs, Read) + Shift(from, to, Read)
    && At(pcs', AdvanceOut) == At(pcs, AdvanceOut) + Shift(from, to, AdvanceOut)
    && At(pcs', RecvRelease) == At(pcs, RecvRelease) + Shift(from, to, RecvRelease)
    && At(pcs', PostSpace) == At(pcs, PostSpace) + Shift(from, to, PostSpace)
  }

  lemma WaitKeepsUnits(s: State, p: nat, sem: Sem, n: nat)
    requires WellSized(s) && Units(s, n) && p < |s.pcs| && WaitsOn(s.pcs[p]) == Some(sem)
    ensures Units(Wait(s, p, sem), n)
  {
    hide At;
    if Value(s, sem) > 0 {
      Recount(s.pcs, p, Next(s.pcs[p]));
      match s.pcs[p]
      case WantSpace =>
      case WantChars =>
      case SendWantMutex =>
      case RecvWantMutex =>
    }
  }

  lemma SignalKeepsUnits(s: State, p: nat, sem: Sem, n: nat)
    requires WellSized(s) && Units(s, n) && p < |s.pcs|
    requires (s.pcs[p], sem) in {(SendRelease, Mutex), (RecvRelease, Mutex), (PostChars, Chars), (PostSpace, Space)}
    ensures Units(Signal(s, p, sem), n)
  {
    hide At, Sleepers;
    Recount(s.pcs, p, Next(s.pcs[p]));
  }

  lemma BodyKeepsUnits(s: State, p: nat, n: nat)
    requires WellSized(s) && Units(s, n) && p < |s.pcs| && s.pcs[p] in {Write, AdvanceIn, Read, AdvanceOut}
    ensures Units(Instruction(s, p), n)
  {
    hide At;
    Recount(s.pcs, p, Next(s.pcs[p]));
  }

  lemma CallKeepsUnits(s: State, e: Event, n: nat)
    requires WellSized(s) && Enabled(s, e) && !e.Exec? && Units(s, n)
    ensures Units(Step(s, e), n)
  {
    hide At;
    Recount(s.pcs, e.p, if e.Send? then WantSpace else WantChars);
  }

  lemma UnitsStep(s: State, e: Event, n: nat)
    requires WellSized(s) && Enabled(s, e) && Units(s, n)
    ensures Units(Step(s, e), n)
  {
    hide At, Units, Wait, Signal;
    match e
    case Send(_, _) => CallKeepsUnits(s, e, n);
    case Recv(_) => CallKeepsUnits(s, e, n);
    case Exec(p) =>
      match s.pcs[p]
      case WantSpace => WaitKeepsUnits(s, p, Space, n);
      case WantChars => WaitKeepsUnits(s, p, Chars, n);
      case SendWantMutex => WaitKeepsUnits(s, p, Mutex, n);
      case RecvWantMutex => WaitKeepsUnits(s, p, Mutex, n);
      case SendRelease => SignalKeepsUnits(s, p, Mutex, n);
      case RecvRelease => SignalKeepsUnits(s, p, Mutex, n);
      case PostChars => SignalKeepsUnits(s, p, Chars, n);
      case PostSpace => SignalKeepsUnits(s, p, Space, n);
      case _ => BodyKeepsUnits(s, p, n);
  }

  lemma WaitKeepsWakeups(s: State, p: nat, sem: Sem)
    requires NoLostWakeup(s) && p < |s.pcs| && WaitsOn(s.pcs[p]) == Some(sem) && p !in s.asleep
    ensures NoLostWakeup(Wait(s, p, sem))
  {
  }

  lemma SignalKeepsWakeups(s: State, p: nat, sem: Sem)
    requires NoLostWakeup(s) && p < |s.pcs| && p !in s.asleep
    ensures NoLostWakeup(Signal(s, p, sem))
  {
  }

  lemma NoLostWakeupStep(s: State, e: Event)
    requires WellSized(s) && Enabled(s, e) && NoLostWakeup(s)
    ensures NoLostWakeup(Step(s, e))
  {
    if e.Exec? {
      match s.pcs[e.p]
      case WantSpace => WaitKeepsWakeups(s, e.p, Space);
      case WantChars => WaitKeepsWakeups(s, e.p, Chars);
      case SendWantMutex => WaitKeepsWakeups(s, e.p, Mutex);
      case RecvWantMutex => WaitKeepsWakeups(s, e.p, Mutex);
      case SendRelease => SignalKeepsWakeups(s, e.p, Mutex);
      case RecvRelease => SignalKeepsWakeups(s, e.p, Mutex);
      case PostChars => SignalKeepsWakeups(s, e.p, Chars);
      case PostSpace => SignalKeepsWakeups(s, e.p, Space);
      case _ =>
    }
  }

  /** In its critical section a process is alone. */
  lemma Alone(s: State, n: nat, p: nat)
    requires Units(s, n) && p < |s.pcs|
    requires s.pcs[p] in {Write, AdvanceIn, SendRelease, Read, AdvanceOut, RecvRelease}
    ensures forall pc :: pc in {Write, AdvanceIn, SendRelease, Read, AdvanceOut, RecvRelease} ==>
      At(s.pcs, pc) == if pc == s.pcs[p] then 1 else 0
  {
    hide At;
    CountedAt(s.pcs, p);
  }

  lemma NextSlot(i: nat, n: nat)
    requires n > 0
    ensures Slot(Slot(i, n) + 1, n) == Slot(i + 1, n)
  {
    NextRemainder(i, n);
  }

  /** A writer finds room, and the slot it writes holds no unread character. */
  lemma WriterHasRoom(s: State, n: nat, p: nat)
    requires Units(s, n) && Fifo(s, n) && p < |s.pcs| && s.pcs[p] == Write
    ensures |s.sent| - |s.received| < n && s.inPos == Slot(|s.sent|, n)
    ensures forall j :: |s.received| <= j < |s.sent| ==> Slot(j, n) != s.inPos
  {
    hide At;
    Alone(s, n, p);
    forall j | |s.received| <= j < |s.sent|
      ensures Slot(j, n) != s.inPos
    {
      RemaindersDiffer(j, |s.sent|, n);
    }
  }

  /** A reader finds a character: the oldest one not yet read. */
  lemma ReaderHasNext(s: State, n: nat, p: nat)
    requires Units(s, n) && Fifo(s, n) && p < |s.pcs| && s.pcs[p] == Read
    ensures |s.received| < |s.sent| && s.outPos == Slot(|s.received|, n)
    ensures s.buf[s.outPos] == s.sent[|s.received|]
  {
    hide At;
    Alone(s, n, p);
  }

  lemma WriteKeepsFifo(s: State, n: nat, p: nat)
    requires Units(s, n) && Fifo(s, n) && Runnable(s, p) && s.pcs[p] == Write
    ensures Fifo(Instruction(s, p), n)
  {
    hide At;
    WriterHasRoom(s, n, p);
    Recount(s.pcs, p, AdvanceIn);
    Alone(s, n, p);
    var s' := Instruction(s, p);
    assert At(s'.pcs, AdvanceIn) == 1 && At(s'.pcs, AdvanceOut) == 0;
  }

  lemma AdvanceInKeepsFifo(s: State, n: nat, p: nat)
    requires Units(s, n) && Fifo(s, n) && Runnable(s, p) && s.pcs[p] == AdvanceIn
    ensures Fifo(Instruction(s, p), n)
  {
    hide At, Pending, Slot;
    Recount(s.pcs, p, SendRelease);
    Alone(s, n, p);
    NextSlot(|s.sent| - 1, n);
    var s' := Instruction(s, p);
    assert At(s'.pcs, AdvanceIn) == 0 && At(s'.pcs, AdvanceOut) == At(s.pcs, AdvanceOut);
  }

  lemma ReadKeepsFifo(s: State, n: nat, p: nat)
    requires Units(s, n) && Fifo(s, n) && Runnable(s, p) && s.pcs[p] == Read
    ensures Fifo(Instruction(s, p), n)
  {
    hide At;
    ReaderHasNext(s, n, p);
    Recount(s.pcs, p, AdvanceOut);
    Alone(s, n, p);
    var s' := Instruction(s, p);
    assert At(s'.pcs, AdvanceOut) == 1 && At(s'.pcs, AdvanceIn) == 0;
  }

  lemma AdvanceOutKeepsFifo(s: State, n: nat, p: nat)
    requires Units(s, n) && Fifo(s, n) && Runnable(s, p) && s.pcs[p] == AdvanceOut
    ensures Fifo(Instruction(s, p), n)
  {
    hide At, Pending, Slot;
    Recount(s.pcs, p, RecvRelease);
    Alone(s, n, p);
    NextSlot(|s.received| - 1, n);
    var s' := Instruction(s, p);
    assert At(s'.pcs, AdvanceOut) == 0 && At(s'.pcs, AdvanceIn) == At(s.pcs, AdvanceIn);
  }

  lemma FifoStep(s: State, e: Event, n: nat)
    requires WellSized(s) && Enabled(s, e) && Units(s, n) && Fifo(s, n)
    ensures Fifo(Step(s, e), n)
  {
    if e.Exec? && s.pcs[e.p] == Write {
      WriteKeepsFifo(s, n, e.p);
    } else if e.Exec? && s.pcs[e.p] == AdvanceIn {
      AdvanceInKeepsFifo(s, n, e.p);
    } else if e.Exec? && s.pcs[e.p] == Read {
      ReadKeepsFifo(s, n, e.p);
    } else if e.Exec? && s.pcs[e.p] == AdvanceOut {
      AdvanceOutKeepsFifo(s, n, e.p);
    } else {
      OtherKeepsFifo(s, e, n);
    }
  }

  /** The step leaves buffer, positions and records alone, and moves no process but `p`. */
  ghost predicate OnlyMoves(s: State, s': State, p: nat, to: Pc)
    requires p < |s.pcs|
  {
    && s'.buf == s.buf && s'.inPos == s.inPos && s'.outPos == s.outPos
    && s'.sent == s.sent && s'.received == s.received && |s'.items| == |s.items|
    && (s'.pcs == s.pcs || s'.pcs == s.pcs[p := to])
  }

  lemma WaitOnlyMoves(s: State, p: nat, sem: Sem)
    requires p < |s.pcs|
    ensures OnlyMoves(s, Wait(s, p, sem), p, Next(s.pcs[p]))
  {
  }

  lemma SignalOnlyMoves(s: State, p: nat, sem: Sem)
    requires p < |s.pcs|
    ensures OnlyMoves(s, Signal(s, p, sem), p, Next(s.pcs[p]))
  {
  }

  lemma OtherOnlyMoves(s: State, p: nat)
    requires WellSized(s) && Runnable(s, p) && s.pcs[p] !in {Write, AdvanceIn, Read, AdvanceOut}
    ensures OnlyMoves(s, Instruction(s, p), p, Next(s.pcs[p]))
  {
    hide OnlyMoves, Wait, Signal;
    match s.pcs[p]
    case WantSpace => WaitOnlyMoves(s, p, Space);
    case WantChars => WaitOnlyMoves(s, p, Chars);
    case SendWantMutex => WaitOnlyMoves(s, p, Mutex);
    case RecvWantMutex => WaitOnlyMoves(s, p, Mutex);
    case SendRelease => SignalOnlyMoves(s, p, Mutex);
    case RecvRelease => SignalOnlyMoves(s, p, Mutex);
    case PostChars => SignalOnlyMoves(s, p, Chars);
    case PostSpace => SignalOnlyMoves(s, p, Space);
  }

  lemma MoveKeepsFifo(s: State, s': State, p: nat, to: Pc, n: nat)
    requires Fifo(s, n) && p < |s.pcs| && OnlyMoves(s, s', p, to)
    requires s.pcs[p] !in {AdvanceIn, AdvanceOut} && to !in {AdvanceIn, AdvanceOut}
    ensures Fifo(s', n)
  {
    hide At, Pending, Slot;
    Recount(s.pcs, p, to);
  }

  lemma OtherKeepsFifo(s: State, e: Event, n: nat)
    requires WellSized(s) && Enabled(s, e) && Fifo(s, n)
    requires e.Exec? ==> s.pcs[e.p] !in {Write, AdvanceIn, Read, AdvanceOut}
    ensures Fifo(Step(s, e), n)
  {
    hide Fifo, Instruction;
    match e
    case Send(p, _) => MoveKeepsFifo(s, Step(s, e), p, WantSpace, n);
    case Recv(p) => MoveKeepsFifo(s, Step(s, e), p, WantChars, n);
    case Exec(p) =>
      OtherOnlyMoves(s, p);
      MoveKeepsFifo(s, Step(s, e), p, Next(s.pcs[p]), n);
  }

  lemma StepKeepsInv(s: State, s': State, n: nat)
    requires Inv(s, n) && IsStep(s, s')
    ensures Inv(s', n)
  {
    var e :| Enabled(s, e) && s' == Step(s, e);
    UnitsStep(s, e, n);
    FifoStep(s, e, n);
    NoLostWakeupStep(s, e);
  }

  lemma StartHasInv(n: nat, processes: nat, junk: char)
    requires n > 0
    ensures Inv(Start(n, processes, junk), n)
  {
    hide At;
    forall pc | pc != Idle
      ensures At(Start(n, processes, junk).pcs, pc) == 0
    {
      NobodyAt(processes, pc);
    }
  }

  // ----- Every run -----

  lemma {:induction false} RunKeepsInv(n: nat, processes: nat, junk: char, states: seq<State>, i: nat)
    requires n > 0 && IsRun(n, processes, junk, states) && i < |states|
    ensures Inv(states[i], n)
  {
    if i == 0 {
      StartHasInv(n, processes, junk);
    } else {
      RunKeepsInv(n, processes, junk, states, i - 1);
      assert IsStep(states[i - 1], states[i - 1 + 1]);
      StepKeepsInv(states[i - 1], states[i], n);
    }
  }

  predicate Critical(pc: Pc) {
    pc in {Write, AdvanceIn, SendRelease, Read, AdvanceOut, RecvRelease}
  }

  /** In every state of every run: characters come out in the order they went in; every slot is a
      free space, a character on offer or in the hands of one process; and no two processes are
      between wait and signal on mutex. */
  lemma RunIsSafe(n: nat, processes: nat, junk: char, states: seq<State>, i: nat)
    requires n > 0 && IsRun(n, processes, junk, states) && i < |states|
    ensures var s := states[i];
      && s.received <= s.sent && |s.sent| - |s.received| <= n
      && s.space + s.chars + BeforeWrite(s.pcs) + AfterWrite(s.pcs) + BeforeRead(s.pcs) + AfterRead(s.pcs) == n
      && (forall p, q :: 0 <= p < q < |s.pcs| ==> !(Critical(s.pcs[p]) && Critical(s.pcs[q])))
  {
    var s := states[i];
    RunKeepsInv(n, processes, junk, states, i);
    forall p, q | 0 <= p < q < |s.pcs|
      ensures !(Critical(s.pcs[p]) && Critical(s.pcs[q]))
    {
      if Critical(s.pcs[p]) && Critical(s.pcs[q]) {
        TwoCritical(s.pcs, p, q);
        assert false;
      }
    }
  }

  lemma TwoCritical(pcs: seq<Pc>, p: nat, q: nat)
    requires p < q < |pcs| && Critical(pcs[p]) && Critical(pcs[q])
    ensures InCritical(pcs) >= 2
  {
    hide At;
    Recount(pcs, q, Idle);
    CountedAt(pcs[q := Idle], p);
  }

  /** In every state of every run, a send overwrites only a slot whose character has been read. */
  lemma RunNeverOverwrites(n: nat, processes: nat, junk: char, states: seq<State>, i: nat, p: nat)
    requires n > 0 && IsRun(n, processes, junk, states) && i < |states|
    requires p < |states[i].pcs| && states[i].pcs[p] == Write
    ensures var s := states[i];
      && |s.buf| == n
      && forall j :: |s.received| <= j < |s.sent| ==> s.buf[Slot(j, n)] == s.sent[j] && Slot(j, n) != s.inPos
  {
    RunKeepsInv(n, processes, junk, states, i);
    WriterHasRoom(states[i], n, p);
  }

  // ----- No deadlock -----

  predicate Sending(pc: Pc) {
    pc in {WantSpace, SendWantMutex, Write, AdvanceIn, SendRelease, PostChars}
  }

  predicate Receiving(pc: Pc) {
    pc in {WantChars, RecvWantMutex, Read, AdvanceOut, RecvRelease, PostSpace}
  }

  ghost predicate Jammed(s: State) {
    forall p :: 0 <= p < |s.pcs| ==> !Runnable(s, p)
  }

  /** Where nobody can run, everybody waits, and on the outer semaphores only. */
  lemma JammedCounts(s: State, n: nat)
    requires Inv(s, n) && Jammed(s)
    ensures s.mutex == 1 && s.space + s.chars == n
    ensures forall p :: 0 <= p < |s.pcs| ==> s.pcs[p] in {Idle, WantSpace, WantChars}
    ensures forall p :: 0 <= p < |s.pcs| && s.pcs[p] == WantSpace ==> s.space == 0
    ensures forall p :: 0 <= p < |s.pcs| && s.pcs[p] == WantChars ==> s.chars == 0
    ensures |s.sent| - |s.received| == s.chars
  {
    hide At;
    forall p | 0 <= p < |s.pcs|
      ensures s.pcs[p] != Idle ==> p in s.asleep
    {
      assert !Runnable(s, p);
    }
    forall pc | pc !in {Idle, WantSpace, WantChars, SendWantMutex, RecvWantMutex}
      ensures At(s.pcs, pc) == 0
    {
      if At(s.pcs, pc) > 0 {
        SomeoneAt(s.pcs, pc);
        assert false;
      }
    }
    forall pc | pc in {SendWantMutex, RecvWantMutex}
      ensures At(s.pcs, pc) == 0
    {
      if At(s.pcs, pc) > 0 {
        SomeoneAt(s.pcs, pc);
        assert false;
      }
    }
    forall p | 0 <= p < |s.pcs|
      ensures s.pcs[p] in {Idle, WantSpace, WantChars}
    {
      CountedAt(s.pcs, p);
    }
  }

  /** A state where nobody can run has only idle processes and senders at a full buffer, or
      only idle processes and receivers at an empty one. */
  lemma JamIsOneSided(n: nat, processes: nat, junk: char, states: seq<State>, i: nat)
    requires n > 0 && IsRun(n, processes, junk, states) && i < |states|
    requires Jammed(states[i])
    ensures var s := states[i];
      || (|s.sent| - |s.received| == n && forall p :: 0 <= p < |s.pcs| ==> s.pcs[p] in {Idle, WantSpace})
      || (s.sent == s.received && forall p :: 0 <= p < |s.pcs| ==> s.pcs[p] in {Idle, WantChars})
      || (forall p :: 0 <= p < |s.pcs| ==> s.pcs[p] == Idle)
  {
    var s := states[i];
    RunKeepsInv(n, processes, junk, states, i);
    JammedCounts(s, n);
    if p :| 0 <= p < |s.pcs| && s.pcs[p] == WantSpace {
    } else if p :| 0 <= p < |s.pcs| && s.pcs[p] == WantChars {
      assert |s.sent| == |s.received|;
    }
  }

  /** While a call of send and a call of recv are both under way, some process can run. */
  lemma NeverDeadlocked(n: nat, processes: nat, junk: char, states: seq<State>, i: nat, p: nat, q: nat)
    requires n > 0 && IsRun(n, processes, junk, states) && i < |states|
    requires p < |states[i].pcs| && Sending(states[i].pcs[p])
    requires q < |states[i].pcs| && Receiving(states[i].pcs[q])
    ensures exists r :: 0 <= r < |states[i].pcs| && Runnable(states[i], r)
  {
    if Jammed(states[i]) {
      RunKeepsInv(n, processes, junk, states, i);
      JammedCounts(states[i], n);
      assert false;
    }
  }

  /** In no state of any run does a process sleep on a semaphore whose value is positive. */
  lemma RunLosesNoWakeup(n: nat, processes: nat, junk: char, states: seq<State>, i: nat, p: nat)
    requires n > 0 && IsRun(n, processes, junk, states) && i < |states|
    requires p in states[i].asleep
    ensures var s := states[i];
      p < |s.pcs| && WaitsOn(s.pcs[p]).Some? && Value(s, WaitsOn(s.pcs[p]).value) == 0
  {
    RunKeepsInv(n, processes, junk, states, i);
  }
}
