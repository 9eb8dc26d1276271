/** Who is sent what by whom: the characters that send is called with and recv returns. */
module BufferCalls {
  import opened BufferProofs
  import opened BufferProtocol
  import opened Options

  /** A run of the protocol with a buffer of `n` slots, and the events that make it. */
  ghost predicate IsRunBy(n: nat, processes: nat, junk: char, events: seq<Event>, states: seq<State>) {
    && |states| == |events| + 1 && states[0] == Start(n, processes, junk)
    && forall i :: 0 <= i < |events| ==> Happens(states[i], events[i], states[i + 1])
  }

  ghost predicate Happens(s: State, e: Event, s': State) {
    WellSized(s) && Enabled(s, e) && s' == Step(s, e)
  }

  /** The call of send or recv that process `p` made last. */
  function LastCall(events: seq<Event>, p: nat): Option<Event> {
    if events == [] then None
    else
      var m := |events| - 1;
      if !events[m].Exec? && events[m].p == p then Some(events[m]) else LastCall(events[..m], p)
  }

  /** `e` executes the line `pc`. */
  predicate Executes(s: State, e: Event, pc: Pc) {
    e.Exec? && e.p < |s.pcs| && s.pcs[e.p] == pc
  }

  /** What the sends that have written were called with, in the order of writing. */
  function Written(events: seq<Event>, states: seq<State>, i: nat): seq<char>
    requires i <= |events| < |states|
  {
    if i == 0 then []
    else
      var e, call := events[i - 1], LastCall(events[..i - 1], events[i - 1].p);
      Written(events, states, i - 1)
      + if Executes(states[i - 1], e, Write) && call.Some? && call.value.Send? then [call.value.c] else []
  }

  /** How many reads there have been. */
  function Reads(events: seq<Event>, states: seq<State>, i: nat): nat
    requires i <= |events| < |states|
  {
    if i == 0 then 0
    else Reads(events, states, i - 1) + if Executes(states[i - 1], events[i - 1], Read) then 1 else 0
  }

  /** How many reads there were before the last one that process `p` made. */
  function ReadNumber(events: seq<Event>, states: seq<State>, i: nat, p: nat): nat
    requires i <= |events| < |states|
  {
    if i == 0 then 0
    else if Executes(states[i - 1], events[i - 1], Read) && events[i - 1].p == p then Reads(events, states, i - 1)
    else ReadNumber(events, states, i - 1, p)
  }

  predicate HasRead(pc: Pc) { pc in {AdvanceOut, RecvRelease, PostSpace} }

  /** A process is where its last call has brought it; until it has written, a sender carries what
      it was called with. */
  ghost predicate Calling(s: State, events: seq<Event>, p: nat)
    requires p < |s.pcs| == |s.items|
  {
    && (Sending(s.pcs[p]) ==> LastCall(events, p) == Some(Send(p, s.items[p])))
    && (Receiving(s.pcs[p]) ==> LastCall(events, p) == Some(Recv(p)))
  }

  /** What an event does to the characters that processes carry, and to the records. */
  lemma StepCarries(s: State, e: Event, s': State)
    requires Happens(s, e, s')
    ensures |s'.pcs| == |s.pcs| == |s.items| == |s'.items|
    ensures forall p :: 0 <= p < |s.pcs| && p != e.p ==> s'.pcs[p] == s.pcs[p] && s'.items[p] == s.items[p]
    ensures match e
      case Send(p, c) => s'.pcs[p] == WantSpace && s'.items[p] == c
      case Recv(p) => s'.pcs[p] == WantChars && s'.items[p] == s.items[p]
      case Exec(p) =>
        && (Sending(s'.pcs[p]) ==> Sending(s.pcs[p])) && (Receiving(s'.pcs[p]) ==> Receiving(s.pcs[p]))
        && (HasRead(s'.pcs[p]) ==> HasRead(s.pcs[p]) || s.pcs[p] == Read)
        && (s.pcs[p] != Read ==> s'.items[p] == s.items[p])
    ensures s'.sent == s.sent + if Executes(s, e, Write) then [s.items[e.p]] else []
    ensures |s'.received| == |s.received| + if Executes(s, e, Read) then 1 else 0
    ensures s.received <= s'.received
    ensures Executes(s, e, Read) ==> s'.items[e.p] == s'.received[|s.received|]
  {
    if e.Exec? && s.pcs[e.p] !in {Write, AdvanceIn, Read, AdvanceOut} {
      hide BufferProtocol.Instruction;
      OtherOnlyMoves(s, e.p);
      OtherKeepsItems(s, e.p);
    }
  }

  lemma OtherKeepsItems(s: State, p: nat)
    requires WellSized(s) && Runnable(s, p) && s.pcs[p] !in {Write, AdvanceIn, Read, AdvanceOut}
    ensures Instruction(s, p).items == s.items
  {
  }

  lemma StepKeepsCalling(s: State, e: Event, s': State, events: seq<Event>, p: nat)
    requires Happens(s, e, s') && p < |s.pcs| == |s.items| && Calling(s, events, p)
    ensures p < |s'.pcs| == |s'.items| && Calling(s', events + [e], p)
  {
    hide Happens, BufferProtocol.Step;
    StepCarries(s, e, s');
    assert (events + [e])[..|events|] == events;
  }

  /** What holds in state `i` of a run of who carries what. */
  ghost predicate Carried(events: seq<Event>, states: seq<State>, i: nat)
    requires i <= |events| < |states|
  {
    var s := states[i];
    && |s.pcs| == |s.items|
    && (forall p :: 0 <= p < |s.pcs| ==> Calling(s, events[..i], p))
    && s.sent == Written(events, states, i)
    && |s.received| == Reads(events, states, i)
    && (forall p :: 0 <= p < |s.pcs| && HasRead(s.pcs[p]) ==>
          var r := ReadNumber(events, states, i, p);
          r < |s.received| && s.items[p] == s.received[r])
  }

  lemma CarriedStep(events: seq<Event>, states: seq<State>, i: nat)
    requires i < |events| < |states| && Happens(states[i], events[i], states[i + 1])
    requires Carried(events, states, i)
    ensures Carried(events, states, i + 1)
  {
    hide Happens;
    var s, e, s' := states[i], events[i], states[i + 1];
    StepCarries(s, e, s');
    var upTo := events[..i + 1];
    assert upTo == events[..i] + [e];
    forall p | 0 <= p < |s'.pcs|
      ensures Calling(s', upTo, p)
    {
      StepKeepsCalling(s, e, s', events[..i], p);
    }
    if Executes(s, e, Write) {
      assert Calling(s, events[..i], e.p);
      WriterWasCalled(s, events[..i], e.p);
    }
  }

  lemma WriterWasCalled(s: State, events: seq<Event>, p: nat)
    requires p < |s.pcs| == |s.items| && s.pcs[p] == Write && Calling(s, events, p)
    ensures LastCall(events, p) == Some(Send(p, s.items[p]))
  {
  }

  lemma {:induction false} RunIsCarried(n: nat, processes: nat, junk: char,
                                        events: seq<Event>, states: seq<State>, i: nat)
    requires IsRunBy(n, processes, junk, events, states) && i <= |events|
    ensures Carried(events, states, i)
  {
    hide Happens, Calling, Carried;
    if i == 0 {
      StartIsCarried(n, processes, junk, events, states);
    } else {
      RunIsCarried(n, processes, junk, events, states, i - 1);
      assert Happens(states[i - 1], events[i - 1], states[i - 1 + 1]);
      CarriedStep(events, states, i - 1);
    }
  }

  lemma StartIsCarried(n: nat, processes: nat, junk: char, events: seq<Event>, states: seq<State>)
    requires IsRunBy(n, processes, junk, events, states)
    ensures Carried(events, states, 0)
  {
  }

  lemma EventsMakeRun(n: nat, processes: nat, junk: char, events: seq<Event>, states: seq<State>)
    requires IsRunBy(n, processes, junk, events, states)
    ensures IsRun(n, processes, junk, states)
  {
    forall i | 0 <= i < |states| - 1
      ensures IsStep(states[i], states[i + 1])
    {
      assert Happens(states[i], events[i], states[i + 1]);
    }
  }

  // ----- Every run -----

  /** Until it has written, a sender carries what its last call was made with. */
  lemma SenderCarriesArgument(n: nat, processes: nat, junk: char,
                              events: seq<Event>, states: seq<State>, i: nat, p: nat)
    requires IsRunBy(n, processes, junk, events, states) && i <= |events| && p < |states[i].pcs|
    ensures |states[i].items| == |states[i].pcs|
    ensures Sending(states[i].pcs[p]) ==> LastCall(events[..i], p) == Some(Send(p, states[i].items[p]))
    ensures Receiving(states[i].pcs[p]) ==> LastCall(events[..i], p) == Some(Recv(p))
  {
    RunIsCarried(n, processes, junk, events, states, i);
    assert Calling(states[i], events[..i], p);
  }

  /** From its read to its return, the recv that makes the r-th read carries what the r-th send to
      write was called with. */
  lemma ReceiverCarriesArgument(n: nat, processes: nat, junk: char,
                                events: seq<Event>, states: seq<State>, i: nat, p: nat)
    requires n > 0 && IsRunBy(n, processes, junk, events, states) && i <= |events|
    requires p < |states[i].pcs| && HasRead(states[i].pcs[p])
    ensures var r := ReadNumber(events, states, i, p);
      && |states[i].items| == |states[i].pcs| && r < |Written(events, states, i)|
      && states[i].items[p] == Written(events, states, i)[r]
  {
    RunIsCarried(n, processes, junk, events, states, i);
    EventsMakeRun(n, processes, junk, events, states);
    RunIsSafe(n, processes, junk, states, i);
  }

  /** What is received are the arguments of the first sends to write, in that order. */
  lemma ReceivedAreArguments(n: nat, processes: nat, junk: char, events: seq<Event>, states: seq<State>, i: nat)
    requires n > 0 && IsRunBy(n, processes, junk, events, states) && i <= |events|
    ensures states[i].sent == Written(events, states, i)
    ensures states[i].received <= Written(events, states, i) && |states[i].received| == Reads(events, states, i)
  {
    RunIsCarried(n, processes, junk, events, states, i);
    EventsMakeRun(n, processes, junk, events, states);
    RunIsSafe(n, processes, junk, states, i);
  }

  // ----- Falling asleep and waking -----

  /** The semaphore that a process at this line signals. */
  function Signals(pc: Pc): Option<Sem> {
    match pc
    case SendRelease | RecvRelease => Some(Mutex)
    case PostChars => Some(Chars)
    case PostSpace => Some(Space)
    case _ => None
  }

  /** Process `q` falls asleep if it waits on a semaphore with no unit, and wakes if `sem` is
      signalled and it waits on that. */
  ghost predicate SleepsRightly(s: State, s': State, q: nat, mover: nat, sem: Option<Sem>)
    requires q < |s.pcs|
  {
    q in s'.asleep <==>
      if q in s.asleep then sem.None? || sem != WaitsOn(s.pcs[q])
      else q == mover && WaitsOn(s.pcs[q]).Some? && Value(s, WaitsOn(s.pcs[q]).value) <= 0
  }

  lemma WaitSleeps(s: State, p: nat, sem: Sem, q: nat)
    requires p < |s.pcs| && q < |s.pcs| && p !in s.asleep && WaitsOn(s.pcs[p]) == Some(sem)
    ensures SleepsRightly(s, Wait(s, p, sem), q, p, None)
  {
  }

  lemma SignalWakes(s: State, p: nat, sem: Sem, q: nat)
    requires p < |s.pcs| && q < |s.pcs| && p !in s.asleep && WaitsOn(s.pcs[p]).None?
    ensures SleepsRightly(s, Signal(s, p, sem), q, p, Some(sem))
  {
  }

  /** A process falls asleep exactly by waiting on a semaphore with no unit, and is woken exactly by
      a signal on it. */
  lemma AsleepIff(s: State, e: Event, s': State, q: nat)
    requires Happens(s, e, s') && q < |s.pcs|
    ensures q in s'.asleep <==>
      if q in s.asleep then !(e.Exec? && Signals(s.pcs[e.p]).Some? && Signals(s.pcs[e.p]) == WaitsOn(s.pcs[q]))
      else e == Exec(q) && WaitsOn(s.pcs[q]).Some? && Value(s, WaitsOn(s.pcs[q]).value) <= 0
  {
    if e.Exec? {
      hide Wait, Signal;
      match s.pcs[e.p]
      case WantSpace => WaitSleeps(s, e.p, Space, q);
      case WantChars => WaitSleeps(s, e.p, Chars, q);
      case SendWantMutex => WaitSleeps(s, e.p, Mutex, q);
      case RecvWantMutex => WaitSleeps(s, e.p, Mutex, q);
      case SendRelease => SignalWakes(s, e.p, Mutex, q);
      case RecvRelease => SignalWakes(s, e.p, Mutex, q);
      case PostChars => SignalWakes(s, e.p, Chars, q);
      case PostSpace => SignalWakes(s, e.p, Space, q);
      case _ =>
    }
  }
}
