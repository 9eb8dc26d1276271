/** The bounded buffer: any number of processes calling send and recv over three kernel
    semaphores, one instruction at a time, in any interleaving. */
module BufferProtocol {
  import opened Options

  /** Where a process is: idle between calls, or about to execute a line of send or recv. */
  datatype Pc =
    | Idle
    | WantSpace | SendWantMutex | Write | AdvanceIn | SendRelease | PostChars
    | WantChars | RecvWantMutex | Read | AdvanceOut | RecvRelease | PostSpace

  datatype Sem = Space | Chars | Mutex

  /** `sent` and `received` record the characters in critical-section order. */
  datatype State = State(
    buf: seq<char>, inPos: nat, outPos: nat,
    space: int, chars: int, mutex: int,
    pcs: seq<Pc>, asleep: set<nat>, items: seq<char>,
    sent: seq<char>, received: seq<char>)

  /** What the scheduler may do next. */
  datatype Event = Send(p: nat, c: char) | Recv(p: nat) | Exec(p: nat)

  /** The slot of the `i`-th character in a buffer of `n`. */
  function Slot(i: nat, n: nat): (slot: nat)
    requires n > 0
    ensures slot < n
  {
    i % n
  }

  function Value(s: State, sem: Sem): int {
    match sem case Space => s.space case Chars => s.chars case Mutex => s.mutex
  }

  function WithValue(s: State, sem: Sem, v: int): State {
    match sem
    case Space => s.(space := v)
    case Chars => s.(chars := v)
    case Mutex => s.(mutex := v)
  }

  /** The semaphore a process at this line waits on. */
  function WaitsOn(pc: Pc): Option<Sem> {
    match pc
    case WantSpace => Some(Space)
    case WantChars => Some(Chars)
    case SendWantMutex | RecvWantMutex => Some(Mutex)
    case _ => None
  }

  function Next(pc: Pc): Pc {
    match pc
    case Idle => Idle
    case WantSpace => SendWantMutex
    case SendWantMutex => Write
    case Write => AdvanceIn
    case AdvanceIn => SendRelease
    case SendRelease => PostChars
    case PostChars => Idle
    case WantChars => RecvWantMutex
    case RecvWantMutex => Read
    case Read => AdvanceOut
    case AdvanceOut => RecvRelease
    case RecvRelease => PostSpace
    case PostSpace => Idle
  }

  predicate Runnable(s: State, p: nat) {
    p < |s.pcs| && s.pcs[p] != Idle && p !in s.asleep
  }

  function Moved(s: State, p: nat): State
    requires p < |s.pcs|
  {
    s.(pcs := s.pcs[p := Next(s.pcs[p])])
  }

  /** wait_h: with no unit to take, sleep and come back to the same instruction. */
  function Wait(s: State, p: nat, sem: Sem): State
    requires p < |s.pcs|
  {
    if Value(s, sem) <= 0 then s.(asleep := s.asleep + {p})
    else Moved(WithValue(s, sem, Value(s, sem) - 1), p)
  }

  function Sleepers(s: State, sem: Sem): set<nat> {
    set q | q in s.asleep && q < |s.pcs| && WaitsOn(s.pcs[q]) == Some(sem)
  }

  /** signal_h: add a unit and wake every process asleep on the semaphore. */
  function Signal(s: State, p: nat, sem: Sem): State
    requires p < |s.pcs|
  {
    var woken := s.asleep - Sleepers(s, sem);
    Moved(WithValue(s, sem, Value(s, sem) + 1).(asleep := woken), p)
  }

  /** One instruction of process `p`. */
  function Instruction(s: State, p: nat): State
    requires p < |s.pcs| == |s.items| && s.inPos < |s.buf| && s.outPos < |s.buf|
  {
    match s.pcs[p]
    case Idle => s
    case WantSpace => Wait(s, p, Space)
    case SendWantMutex => Wait(s, p, Mutex)
    case Write =>
      Moved(s.(buf := s.buf[s.inPos := s.items[p]], sent := s.sent + [s.items[p]]), p)
    case AdvanceIn => Moved(s.(inPos := Slot(s.inPos + 1, |s.buf|)), p)
    case SendRelease => Signal(s, p, Mutex)
    case PostChars => Signal(s, p, Chars)
    case WantChars => Wait(s, p, Chars)
    case RecvWantMutex => Wait(s, p, Mutex)
    case Read =>
      var c := s.buf[s.outPos];
      Moved(s.(items := s.items[p := c], received := s.received + [c]), p)
    case AdvanceOut => Moved(s.(outPos := Slot(s.outPos + 1, |s.buf|)), p)
    case RecvRelease => Signal(s, p, Mutex)
    case PostSpace => Signal(s, p, Space)
  }

  predicate WellSized(s: State) {
    |s.pcs| == |s.items| && s.inPos < |s.buf| && s.outPos < |s.buf|
  }

  predicate Enabled(s: State, e: Event) {
    match e
    case Send(p, _) => p < |s.pcs| && s.pcs[p] == Idle
    case Recv(p) => p < |s.pcs| && s.pcs[p] == Idle
    case Exec(p) => Runnable(s, p)
  }

  function Step(s: State, e: Event): State
    requires WellSized(s) && Enabled(s, e)
  {
    match e
    case Send(p, c) => s.(pcs := s.pcs[p := WantSpace], items := s.items[p := c])
    case Recv(p) => s.(pcs := s.pcs[p := WantChars])
    case Exec(p) => Instruction(s, p)
  }

  function Start(n: nat, processes: nat, junk: char): State
  {
    State(seq(n, _ => junk), 0, 0, n, 0, 1, seq(processes, _ => Idle), {}, seq(processes, _ => junk), [], [])
  }

  /** `states` is a run of the protocol with a buffer of `n` slots. */
  ghost predicate IsRun(n: nat, processes: nat, junk: char, states: seq<State>) {
    && |states| > 0 && states[0] == Start(n, processes, junk)
    && forall i :: 0 <= i < |states| - 1 ==> IsStep(states[i], states[i + 1])
  }

  ghost predicate IsStep(s: State, s': State) {
    WellSized(s) && exists e :: Enabled(s, e) && s' == Step(s, e)
  }

  // ----- The invariant -----

  /** How many processes are at `pc`. */
  ghost function At(pcs: seq<Pc>, pc: Pc): (n: nat) {
    if pcs == [] then 0 else At(pcs[..|pcs| - 1], pc) + if pcs[|pcs| - 1] == pc then 1 else 0
  }

  ghost function InCritical(pcs: seq<Pc>): nat {
    At(pcs, Write) + At(pcs, AdvanceIn) + At(pcs, SendRelease)
    + At(pcs, Read) + At(pcs, AdvanceOut) + At(pcs, RecvRelease)
  }

  /** Senders that have taken a space and not yet written, or written and not yet posted. */
  ghost function BeforeWrite(pcs: seq<Pc>): nat { At(pcs, SendWantMutex) + At(pcs, Write) }
  ghost function AfterWrite(pcs: seq<Pc>): nat { At(pcs, AdvanceIn) + At(pcs, SendRelease) + At(pcs, PostChars) }
  ghost function BeforeRead(pcs: seq<Pc>): nat { At(pcs, RecvWantMutex) + At(pcs, Read) }
  ghost function AfterRead(pcs: seq<Pc>): nat { At(pcs, AdvanceOut) + At(pcs, RecvRelease) + At(pcs, PostSpace) }

  /** One process at most between wait and signal on mutex; every slot is accounted for. */
  ghost predicate Units(s: State, n: nat) {
    && s.space >= 0 && s.chars >= 0 && s.mutex >= 0
    && s.mutex + InCritical(s.pcs) == 1
    && s.space + s.chars + BeforeWrite(s.pcs) + AfterWrite(s.pcs) + BeforeRead(s.pcs) + AfterRead(s.pcs) == n
    && |s.sent| - |s.received| == s.chars + AfterWrite(s.pcs) + BeforeRead(s.pcs)
  }

  /** What is received is a prefix of what is sent, and the rest is in the buffer, in order. */
  ghost predicate Fifo(s: State, n: nat) {
    && |s.buf| == n > 0 && |s.pcs| == |s.items|
    && |s.sent| >= At(s.pcs, AdvanceIn) && |s.received| >= At(s.pcs, AdvanceOut)
    && s.inPos == Slot(|s.sent| - At(s.pcs, AdvanceIn), n)
    && s.outPos == Slot(|s.received| - At(s.pcs, AdvanceOut), n)
    && s.received <= s.sent
    && Pending(s.buf, s.sent, |s.received|, n)
  }

  /** The characters of `sent` from index `from` on are in the buffer, each in its slot. */
  ghost predicate Pending(buf: seq<char>, sent: seq<char>, from: nat, n: nat)
    requires |buf| == n > 0
  {
    forall j :: from <= j < |sent| ==> buf[Slot(j, n)] == sent[j]
  }

  /** No process sleeps on a semaphore that has a unit to give. */
  ghost predicate NoLostWakeup(s: State) {
    forall p :: p in s.asleep ==>
      p < |s.pcs| && WaitsOn(s.pcs[p]).Some? && Value(s, WaitsOn(s.pcs[p]).value) <= 0
  }

  ghost predicate Inv(s: State, n: nat) {
    Units(s, n) && Fifo(s, n) && NoLostWakeup(s)
  }

  // ----- Counting processes -----

  ghost predicate MovedAt(pcs: seq<Pc>, p: nat, to: Pc, pc: Pc)
    requires p < |pcs|
  {
    At(pcs[p := to], pc) == At(pcs, pc) - (if pcs[p] == pc then 1 else 0) + (if to == pc then 1 else 0)
  }

  lemma {:induction false} AtAfterMove(pcs: seq<Pc>, p: nat, to: Pc, pc: Pc)
    requires p < |pcs|
    ensures MovedAt(pcs, p, to, pc)
  {
    var m := |pcs| - 1;
    if p < m {
      AtAfterMove(pcs[..m], p, to, pc);
      assert pcs[p := to][..m] == pcs[..m][p := to];
    } else {
      assert pcs[p := to][..m] == pcs[..m];
    }
  }

  lemma {:induction false} SomeoneAt(pcs: seq<Pc>, pc: Pc)
    requires At(pcs, pc) > 0
    ensures exists p :: 0 <= p < |pcs| && pcs[p] == pc
  {
    var m := |pcs| - 1;
    if pcs[m] == pc {
    } else {
      SomeoneAt(pcs[..m], pc);
      var p :| 0 <= p < m && pcs[..m][p] == pc;
      assert pcs[p] == pc;
    }
  }

  lemma {:induction false} CountedAt(pcs: seq<Pc>, p: nat)
    requires p < |pcs|
    ensures At(pcs, pcs[p]) > 0
  {
    var m := |pcs| - 1;
    if p == m {
    } else {
      CountedAt(pcs[..m], p);
      assert pcs[..m][p] == pcs[p];
    }
  }

  lemma {:induction false} NobodyAt(processes: nat, pc: Pc)
    requires pc != Idle
    ensures At(seq(processes, _ => Idle), pc) == 0
  {
    var pcs := seq(processes, _ => Idle);
    if processes == 0 {
    } else {
      NobodyAt(processes - 1, pc);
      assert pcs[..processes - 1] == seq(processes - 1, _ => Idle);
    }
  }
}
