/** The semaphore among many processes.  The locked parts of down and up are single steps;
    between its down and its schedule() a process can be overtaken by any other. */
module SemaphoreProtocol {
  import opened Arithmetic
  import opened WaitQueue

  /** Outside; past the lock of down but not yet through schedule(); taken off the processor; or
      returned from down. */
  datatype Stage = Outside | Scheduling | Parked | Inside

  /** `interruptible`: the processes whose task state tells schedule() to park them. */
  datatype State = State(value: int, queue: seq<Pid>, interruptible: set<Pid>, stages: seq<Stage>)

  datatype Event = Down(p: Pid) | Schedule(p: Pid) | Up(p: Pid)

  function Start(numResources: int, processes: nat): State {
    State(numResources, [], {}, seq(processes, _ => Outside))
  }

  predicate Enabled(s: State, e: Event) {
    && e.p < |s.stages|
    && match e
       case Schedule(p) => s.stages[p] == Scheduling
       case _ => s.stages[e.p] in {Outside, Inside}
  }

  /** up is about to take a process from a queue that has none. */
  predicate Crashes(s: State, e: Event) {
    e.Up? && s.value + 1 <= 0 && s.queue == []
  }

  predicate InBounds(s: State) {
    forall i :: 0 <= i < |s.queue| ==> s.queue[i] < |s.stages|
  }

  function Step(s: State, e: Event): (s': State)
    requires InBounds(s) && Enabled(s, e) && !Crashes(s, e)
    ensures InBounds(s') && |s'.stages| == |s.stages|
  {
    match e
    case Down(p) =>
      var entered := s.(value := s.value - 1, stages := s.stages[p := Scheduling]);
      if entered.value < 0 then
        entered.(queue := s.queue + [p], interruptible := s.interruptible + {p})
      else entered
    case Schedule(p) =>
      s.(stages := s.stages[p := if p in s.interruptible then Parked else Inside])
    case Up(p) =>
      var left := s.(value := s.value + 1, stages := s.stages[p := Outside]);
      if left.value <= 0 then
        var w := s.queue[0];
        left.(queue := s.queue[1..], interruptible := s.interruptible - {w},
              stages := if left.stages[w] == Parked then left.stages[w := Inside] else left.stages)
      else left
  }

  // ----- Runs -----

  /** `events` can happen one after the other from `s`, none of them crashing. */
  ghost predicate CanRun(s: State, events: seq<Event>)
    requires InBounds(s)
    decreases |events|
  {
    events == [] || (Enabled(s, events[0]) && !Crashes(s, events[0]) && CanRun(Step(s, events[0]), events[1..]))
  }

  function Run(s: State, events: seq<Event>): (s': State)
    requires InBounds(s) && CanRun(s, events)
    ensures InBounds(s') && |s'.stages| == |s.stages|
    decreases |events|
  {
    if events == [] then s else Run(Step(s, events[0]), events[1..])
  }

  function Ups(events: seq<Event>): nat {
    if events == [] then 0 else (if events[0].Up? then 1 else 0) + Ups(events[1..])
  }

  // ----- The invariant -----

  ghost predicate Distinct(q: seq<Pid>) {
    forall i, j :: 0 <= i < j < |q| ==> q[i] != q[j]
  }

  /** As many waiters as units owed; and a process is on the queue, marked to be parked, and
      not past schedule(), all at once or not at all. */
  ghost predicate Inv(s: State) {
    && |s.queue| == Max(0, -s.value)
    && Distinct(s.queue) && InBounds(s)
    && (forall p :: p in s.queue <==> p in s.interruptible)
    && (forall p :: p in s.queue ==> s.stages[p] in {Scheduling, Parked})
    && (forall p :: 0 <= p < |s.stages| && s.stages[p] == Parked ==> p in s.queue)
  }

  lemma InvNeverCrashes(s: State, e: Event)
    requires Inv(s)
    ensures !Crashes(s, e)
  {
  }

  lemma StepKeepsInv(s: State, e: Event)
    requires Inv(s) && Enabled(s, e)
    ensures !Crashes(s, e) && Inv(Step(s, e))
  {
    InvNeverCrashes(s, e);
    var s' := Step(s, e);
    match e
    case Down(p) =>
      assert p !in s.queue;
      assert forall q :: q in s'.queue <==> q in s.queue || (s'.value < 0 && q == p);
    case Schedule(p) =>
    case Up(p) =>
      if s'.value <= 0 {
        QueueSplit(s.queue);
      }
  }

  lemma {:induction false} RunKeepsInv(s: State, events: seq<Event>)
    requires Inv(s) && CanRun(s, events)
    ensures Inv(Run(s, events))
    decreases |events|
  {
    if events == [] {
    } else {
      StepKeepsInv(s, events[0]);
      RunKeepsInv(Step(s, events[0]), events[1..]);
    }
  }

  /** From any number of resources that is not negative, no run reaches a crash, the wait queue
      is as long as the value is negative, and nobody is parked who is not on it. */
  lemma RunIsSafe(numResources: int, processes: nat, events: seq<Event>, e: Event)
    requires numResources >= 0
    requires CanRun(Start(numResources, processes), events)
    ensures var s := Run(Start(numResources, processes), events);
      Inv(s) && !Crashes(s, e)
  {
    RunKeepsInv(Start(numResources, processes), events);
    InvNeverCrashes(Run(Start(numResources, processes), events), e);
  }

  /** `events` can happen, and then `e` can, and crashes. */
  ghost predicate CrashesAfter(numResources: int, processes: nat, events: seq<Event>, e: Event) {
    var s := Start(numResources, processes);
    CanRun(s, events) && Enabled(Run(s, events), e) && Crashes(Run(s, events), e)
  }

  /** Safety of all runs is exactly starting from a number that is not negative: otherwise the
      first up takes from the empty queue, if there is a process to call it. */
  lemma SafeIffNotNegative(numResources: int, processes: nat)
    ensures numResources >= 0 || processes == 0 <==>
      forall events, e :: !CrashesAfter(numResources, processes, events, e)
  {
    if numResources >= 0 || processes == 0 {
      forall events, e
        ensures !CrashesAfter(numResources, processes, events, e)
      {
        if numResources >= 0 && CanRun(Start(numResources, processes), events) {
          RunIsSafe(numResources, processes, events, e);
        }
      }
    } else {
      assert CrashesAfter(numResources, processes, [], Up(0));
    }
  }

  // ----- First come, first released -----

  /** While no more ups have come than there were processes ahead of it, a waiter has moved up
      by one place for each, and is still blocked. */
  lemma {:induction false} WaiterMovesUp(s: State, events: seq<Event>, k: nat)
    requires Inv(s) && CanRun(s, events) && k < |s.queue| && Ups(events) <= k
    ensures var s' := Run(s, events); var p, k' := s.queue[k], k - Ups(events);
      k' < |s'.queue| && s'.queue[k'] == p && s'.stages[p] in {Scheduling, Parked}
    decreases |events|
  {
    if events == [] {
      assert s.queue[k] in s.queue;
    } else {
      var e := events[0];
      StepKeepsInv(s, e);
      var s1 := Step(s, e);
      var k1 := if e.Up? then k - 1 else k;
      assert s1.queue[k1] == s.queue[k];
      WaiterMovesUp(s1, events[1..], k1);
    }
  }

  /** A waiter with `k` processes ahead of it is released by exactly the (k+1)-th up that
      follows, whatever else happens in between and whether or not it had got to schedule();
      if it had not, its schedule() then returns at once. */
  lemma ReleasedInTurn(s: State, events: seq<Event>, k: nat, up: Event)
    requires Inv(s) && CanRun(s, events) && k < |s.queue| && Ups(events) == k
    requires up.Up? && Enabled(Run(s, events), up)
    ensures var p, before := s.queue[k], Run(s, events);
      && before.queue != [] && before.queue[0] == p && !Crashes(before, up)
      && var after := Step(before, up);
         && p !in after.queue && p !in after.interruptible
         && after.stages[p] == (if before.stages[p] == Parked then Inside else Scheduling)
         && (after.stages[p] == Scheduling ==>
               Enabled(after, Schedule(p)) && Step(after, Schedule(p)).stages[p] == Inside)
  {
    WaiterMovesUp(s, events, k);
    RunKeepsInv(s, events);
    var before := Run(s, events);
    StepKeepsInv(before, up);
    var after := Step(before, up);
    QueueSplit(before.queue);
  }

  // ----- What schedule() does -----

  /** Down queues the caller, last in line, exactly when it finds no unit. */
  lemma DownQueuesIff(s: State, p: Pid)
    requires Inv(s) && Enabled(s, Down(p))
    ensures var s' := Step(s, Down(p));
      && s'.stages[p] == Scheduling && s'.value == s.value - 1
      && s'.queue == s.queue + (if s.value <= 0 then [p] else [])
      && (p in s'.queue <==> s.value <= 0)
  {
    assert p !in s.queue;
  }

  /** At its schedule() a process is parked exactly when it is still waiting; otherwise it is inside. */
  lemma ScheduleParksIff(s: State, p: Pid)
    requires Inv(s) && Enabled(s, Schedule(p))
    ensures Step(s, Schedule(p)).stages[p] == if p in s.queue then Parked else Inside
    ensures Step(s, Schedule(p)).queue == s.queue && Step(s, Schedule(p)).value == s.value
  {
  }

  lemma {:induction false} StaysUnqueued(s: State, events: seq<Event>, p: Pid)
    requires Inv(s) && CanRun(s, events) && Enabled(s, Schedule(p)) && p !in s.queue
    requires forall i :: 0 <= i < |events| ==> events[i].p != p
    ensures var s' := Run(s, events); Inv(s') && Enabled(s', Schedule(p)) && p !in s'.queue
    decreases |events|
  {
    if events == [] {
    } else {
      StepKeepsInv(s, events[0]);
      OthersLeaveUnqueued(s, events[0], p);
      StaysUnqueued(Step(s, events[0]), events[1..], p);
    }
  }

  lemma OthersLeaveUnqueued(s: State, e: Event, p: Pid)
    requires Inv(s) && Enabled(s, e) && !Crashes(s, e) && Enabled(s, Schedule(p)) && p !in s.queue && e.p != p
    ensures Enabled(Step(s, e), Schedule(p)) && p !in Step(s, e).queue
  {
  }

  /** A process whose down finds a unit gets inside at its schedule(), whatever others do between. */
  lemma UnitLetsInside(s: State, p: Pid, events: seq<Event>)
    requires Inv(s) && Enabled(s, Down(p)) && s.value > 0
    requires CanRun(Step(s, Down(p)), events) && forall i :: 0 <= i < |events| ==> events[i].p != p
    ensures var s' := Run(Step(s, Down(p)), events);
      Enabled(s', Schedule(p)) && Step(s', Schedule(p)).stages[p] == Inside
  {
    StepKeepsInv(s, Down(p));
    DownQueuesIff(s, p);
    StaysUnqueued(Step(s, Down(p)), events, p);
    ScheduleParksIff(Run(Step(s, Down(p)), events), p);
  }

  // ----- Mutual exclusion -----

  /** down from outside, up from inside. */
  predicate Disciplined(s: State, e: Event)
    requires Enabled(s, e)
  {
    match e
    case Down(p) => s.stages[p] == Outside
    case Schedule(p) => true
    case Up(p) => s.stages[p] == Inside
  }

  ghost predicate RunsDisciplined(s: State, events: seq<Event>)
    requires InBounds(s) && CanRun(s, events)
    decreases |events|
  {
    events == [] || (Disciplined(s, events[0]) && RunsDisciplined(Step(s, events[0]), events[1..]))
  }

  /** The processes that have been given a unit and not returned it. */
  ghost function Holders(s: State): set<Pid> {
    set p | 0 <= p < |s.stages| && (s.stages[p] == Inside || (s.stages[p] == Scheduling && p !in s.queue))
  }

  /** Every unit is available, held, or owed to a waiter. */
  ghost predicate UnitsKept(s: State, numResources: int) {
    s.value == numResources - |Holders(s)| - |s.queue|
  }

  lemma DownKeepsUnits(s: State, p: Pid, numResources: int)
    requires Inv(s) && p < |s.stages| && s.stages[p] == Outside && UnitsKept(s, numResources)
    ensures UnitsKept(Step(s, Down(p)), numResources)
  {
    var s' := Step(s, Down(p));
    assert p !in s.queue;
    if s'.value < 0 {
      assert Holders(s') == Holders(s);
    } else {
      assert Holders(s') == Holders(s) + {p};
    }
  }

  lemma ScheduleKeepsUnits(s: State, p: Pid, numResources: int)
    requires Inv(s) && p < |s.stages| && s.stages[p] == Scheduling && UnitsKept(s, numResources)
    ensures UnitsKept(Step(s, Schedule(p)), numResources)
  {
    assert Holders(Step(s, Schedule(p))) == Holders(s);
  }

  lemma UpKeepsUnits(s: State, p: Pid, numResources: int)
    requires Inv(s) && p < |s.stages| && s.stages[p] == Inside && UnitsKept(s, numResources)
    ensures UnitsKept(Step(s, Up(p)), numResources)
  {
    hide Holders;
    if s.value < 0 {
      UpPassesUnit(s, p);
    } else {
      UpReturnsUnit(s, p);
    }
  }

  lemma UpReturnsUnit(s: State, p: Pid)
    requires Inv(s) && p < |s.stages| && s.stages[p] == Inside && s.value >= 0
    ensures Holders(Step(s, Up(p))) == Holders(s) - {p} && p in Holders(s)
  {
  }

  /** With a waiter, the unit goes from the process that returns it to the first in line. */
  lemma UpPassesUnit(s: State, p: Pid)
    requires Inv(s) && p < |s.stages| && s.stages[p] == Inside && s.value < 0
    ensures Holders(Step(s, Up(p))) == Holders(s) - {p} + {s.queue[0]}
    ensures p in Holders(s) && s.queue[0] !in Holders(s)
  {
  }

  lemma QueueSplit(q: seq<Pid>)
    requires q != [] && Distinct(q)
    ensures forall p :: p in q <==> p == q[0] || p in q[1..]
    ensures q[0] !in q[1..]
  {
  }

  lemma StepKeepsUnits(s: State, e: Event, numResources: int)
    requires Inv(s) && Enabled(s, e) && !Crashes(s, e) && Disciplined(s, e) && UnitsKept(s, numResources)
    ensures UnitsKept(Step(s, e), numResources)
  {
    hide Inv, Step, UnitsKept;
    match e
    case Down(p) => DownKeepsUnits(s, p, numResources);
    case Schedule(p) => ScheduleKeepsUnits(s, p, numResources);
    case Up(p) => UpKeepsUnits(s, p, numResources);
  }

  lemma {:induction false} RunKeepsUnits(s: State, events: seq<Event>, numResources: int)
    requires Inv(s) && CanRun(s, events) && RunsDisciplined(s, events) && UnitsKept(s, numResources)
    ensures UnitsKept(Run(s, events), numResources)
    decreases |events|
  {
    if events == [] {
    } else {
      StepKeepsInv(s, events[0]);
      StepKeepsUnits(s, events[0], numResources);
      RunKeepsUnits(Step(s, events[0]), events[1..], numResources);
    }
  }

  /** At most `numResources` processes are inside at any moment; with one resource, at most one. */
  lemma AtMostSoManyInside(numResources: nat, processes: nat, events: seq<Event>)
    requires CanRun(Start(numResources, processes), events)
    requires RunsDisciplined(Start(numResources, processes), events)
    ensures var s := Run(Start(numResources, processes), events);
      && |set p: Pid | p < |s.stages| && s.stages[p] == Inside| <= |Holders(s)| <= numResources
      && (numResources == 1 ==> forall p, q :: 0 <= p < q < |s.stages| ==>
            !(s.stages[p] == Inside && s.stages[q] == Inside))
  {
    hide Inv, CanRun, Run, RunsDisciplined;
    var s0 := Start(numResources, processes);
    var s := Run(s0, events);
    StartIsFree(numResources, processes);
    RunKeepsInv(s0, events);
    RunKeepsUnits(s0, events, numResources);
    HoldersBounded(s, numResources);
    var inside := set p: Pid | p < |s.stages| && s.stages[p] == Inside;
    assert Holders(s) == inside + (Holders(s) - inside);
    forall p, q | 0 <= p < q < |s.stages| && s.stages[p] == Inside && s.stages[q] == Inside
      ensures numResources >= 2
    {
      TwoInside(s, p, q);
    }
  }

  lemma HoldersBounded(s: State, numResources: nat)
    requires Inv(s) && UnitsKept(s, numResources)
    ensures |Holders(s)| <= numResources
  {
  }

  lemma StartIsFree(numResources: nat, processes: nat)
    ensures Inv(Start(numResources, processes)) && UnitsKept(Start(numResources, processes), numResources)
  {
  }

  lemma TwoInside(s: State, p: Pid, q: Pid)
    requires p < q < |s.stages| && s.stages[p] == Inside && s.stages[q] == Inside
    ensures |Holders(s)| >= 2
  {
    assert Holders(s) == {p, q} + (Holders(s) - {p, q});
  }
}
