/** The machine the protocol runs on: shared buffer and semaphores, changed in place by the
    kernel calls and by the lines of send and recv. */
module BufferMachine {
  import opened BufferProtocol
  import opened Options
  import opened BufferProofs

  class Machine {
    var buf: array<char>
    var inPos: nat
    var outPos: nat
    var space: int
    var chars: int
    var mutex: int
    var pcs: seq<Pc>
    var asleep: set<nat>
    var items: seq<char>
    ghost var sent: seq<char>
    ghost var received: seq<char>

    ghost function St(): State
      reads this, buf
    {
      State(buf[..], inPos, outPos, space, chars, mutex, pcs, asleep, items, sent, received)
    }

    constructor (n: nat, processes: nat, junk: char)
      requires n > 0
      ensures fresh(buf) && St() == Start(n, processes, junk)
    {
      buf := new char[n](_ => junk);
      inPos, outPos := 0, 0;
      space, chars, mutex := n, 0, 1;
      pcs, asleep, items := seq(processes, _ => Idle), {}, seq(processes, _ => junk);
      sent, received := [], [];
    }

    method Load(sem: Sem) returns (v: int)
      ensures v == Value(St(), sem)
    {
      match sem
      case Space => v := space;
      case Chars => v := chars;
      case Mutex => v := mutex;
    }

    method Store(sem: Sem, v: int)
      modifies this`space, this`chars, this`mutex
      ensures St() == WithValue(old(St()), sem, v)
    {
      match sem
      case Space => space := v;
      case Chars => chars := v;
      case Mutex => mutex := v;
    }

    /** The wait call: take a unit and go on, or sleep on the semaphore and try again later. */
    method WaitH(p: nat, sem: Sem)
      requires p < |pcs|
      modifies this
      ensures buf == old(buf) && St() == Wait(old(St()), p, sem)
    {
      var v := Load(sem);
      if v <= 0 {
        asleep := asleep + {p};
      } else {
        Store(sem, v - 1);
        pcs := pcs[p := Next(pcs[p])];
      }
    }

    /** The signal call: add a unit and wake everyone asleep on the semaphore. */
    method SignalH(p: nat, sem: Sem)
      requires p < |pcs|
      modifies this
      ensures buf == old(buf) && St() == Signal(old(St()), p, sem)
    {
      var v := Load(sem);
      Store(sem, v + 1);
      asleep := set q | q in asleep && !(q < |pcs| && WaitsOn(pcs[q]) == Some(sem));
      assert asleep == old(asleep) - Sleepers(old(St()), sem);
      pcs := pcs[p := Next(pcs[p])];
    }

    /** One instruction of a process that is neither idle nor asleep. */
    method ExecuteOne(p: nat)
      requires WellSized(St()) && Runnable(St(), p)
      modifies this, buf
      ensures buf == old(buf) && St() == Step(old(St()), Exec(p))
    {
      match pcs[p]
      case WantSpace => WaitH(p, Space);
      case SendWantMutex => WaitH(p, Mutex);
      case Write =>
        buf[inPos] := items[p];
        sent := sent + [items[p]];
        pcs := pcs[p := AdvanceIn];
      case AdvanceIn =>
        inPos := (inPos + 1) % buf.Length;
        pcs := pcs[p := SendRelease];
      case SendRelease => SignalH(p, Mutex);
      case PostChars => SignalH(p, Chars);
      case WantChars => WaitH(p, Chars);
      case RecvWantMutex => WaitH(p, Mutex);
      case Read =>
        items := items[p := buf[outPos]];
        received := received + [buf[outPos]];
        pcs := pcs[p := AdvanceOut];
      case AdvanceOut =>
        outPos := (outPos + 1) % buf.Length;
        pcs := pcs[p := RecvRelease];
      case RecvRelease => SignalH(p, Mutex);
      case PostSpace => SignalH(p, Space);
    }

    /** Whatever the scheduler picks, the machine takes a step of the protocol and stays safe. */
    method Schedule(e: Event, ghost n: nat)
      requires WellSized(St()) && Enabled(St(), e) && Inv(St(), n)
      modifies this, buf
      ensures buf == old(buf)
      ensures St() == Step(old(St()), e) && Inv(St(), n)
    {
      hide BufferProtocol.Instruction;
      ghost var s := St();
      match e {
        case Send(p, c) =>
          pcs, items := pcs[p := WantSpace], items[p := c];
        case Recv(p) =>
          pcs := pcs[p := WantChars];
        case Exec(p) =>
          ExecuteOne(p);
      }
      assert St() == Step(s, e);
      StepKeepsInv(s, St(), n);
    }
  }
}
