/** The system calls over the linked wait queue, step by step the protocol over a sequence. */
module SemaphoreMachine {
  import opened WaitQueue
  import opened SemaphoreProtocol

  class Kernel {
    const sem: Semaphore
    var interruptible: set<Pid>
    var stages: seq<Stage>

    ghost function St(): State
      reads this, sem, sem.processList
    {
      State(sem.value, sem.Waiting(), interruptible, stages)
    }

    ghost predicate Valid()
      reads this, sem, sem.processList, sem.processList.nodes
    {
      sem.Valid() && InBounds(St())
    }

    constructor (numResources: int, processes: nat)
      ensures Valid() && St() == Start(numResources, processes)
    {
      sem := new Semaphore(numResources);
      interruptible, stages := {}, seq(processes, _ => Outside);
    }

    /** Down as far as the unlock. */
    method SysDown(current: Pid)
      requires Valid() && Enabled(St(), Down(current))
      modifies this, sem, sem.processList, sem.processList.nodes
      ensures Valid() && St() == Step(old(St()), Down(current))
    {
      var mustSleep := sem.Down(current);
      if mustSleep {
        interruptible := interruptible + {current};
      }
      stages := stages[current := Scheduling];
    }

    /** The rest of down: a process marked to sleep leaves the processor. */
    method CallSchedule(current: Pid)
      requires Valid() && Enabled(St(), Schedule(current))
      modifies this
      ensures Valid() && St() == Step(old(St()), Schedule(current))
    {
      stages := stages[current := if current in interruptible then Parked else Inside];
    }

    method SysUp(current: Pid)
      requires Valid() && Enabled(St(), Up(current)) && !Crashes(St(), Up(current))
      modifies this, sem, sem.processList
      ensures Valid() && St() == Step(old(St()), Up(current))
    {
      var woken := sem.Up();
      stages := stages[current := Outside];
      if woken != [] {
        WakeUpProcess(woken[0]);
      }
    }

    /** A process already parked is put back on the processor; one that is not will not be parked. */
    method WakeUpProcess(p: Pid)
      requires p < |stages|
      modifies this
      ensures interruptible == old(interruptible) - {p}
      ensures stages == if old(stages)[p] == Parked then old(stages)[p := Inside] else old(stages)
    {
      interruptible := interruptible - {p};
      if stages[p] == Parked {
        stages := stages[p := Inside];
      }
    }
  }
}
