/** The semaphore's wait queue and the semaphore itself, as linked nodes changed in place. */
module WaitQueue {
  import opened Arithmetic

  /** A process, by its number. */
  type Pid = nat

  class Node {
    const item: Pid
    var next: Node?

    constructor (item: Pid)
      ensures this.item == item && next == null
    {
      this.item, next := item, null;
    }
  }

  class Queue {
    var size: int
    var head: Node?
    var tail: Node?
    ghost var nodes: seq<Node>

    /** The nodes from head on.  When there are none, `tail` may point anywhere: dequeue leaves
        it at the node it has just given up. */
    ghost predicate Valid()
      reads this, nodes
    {
      && size == |nodes|
      && (forall i, j :: 0 <= i < j < |nodes| ==> nodes[i] != nodes[j])
      && head == (if nodes == [] then null else nodes[0])
      && (nodes != [] ==> tail == nodes[|nodes| - 1] && nodes[|nodes| - 1].next == null)
      && (forall i {:trigger nodes[i].next} :: 0 <= i < |nodes| - 1 ==> nodes[i].next == nodes[i + 1])
    }

    ghost function Contents(): (s: seq<Pid>)
      reads this
      ensures |s| == |nodes|
    {
      seq(|nodes|, i requires 0 <= i < |nodes| reads this => nodes[i].item)
    }

    constructor ()
      ensures Valid() && Contents() == []
    {
      size, head, tail, nodes := 0, null, null, [];
    }

    /** Touches the old tail only when the queue is not empty. */
    method Enqueue(item: Pid)
      requires Valid()
      modifies this, if head == null then {} else {tail}
      ensures Valid() && Contents() == old(Contents()) + [item]
      ensures fresh(set n | n in nodes && n !in old(nodes))
    {
      var n := new Node(item);
      if head == null {
        head := n;
      } else {
        tail.next := n;
      }
      tail := n;
      size := size + 1;
      nodes := nodes + [n];
    }

    method Dequeue() returns (item: Pid)
      requires Valid() && Contents() != []
      modifies this
      ensures Valid() && item == old(Contents())[0] && Contents() == old(Contents())[1..]
      ensures tail == old(tail) && nodes == old(nodes)[1..]
    {
      item := head.item;
      head := head.next;
      size := size - 1;
      nodes := nodes[1..];
    }
  }

  class Semaphore {
    var value: int
    var processList: Queue

    ghost function Waiting(): seq<Pid>
      reads this, processList
    {
      processList.Contents()
    }

    ghost predicate Valid()
      reads this, processList, processList.nodes
    {
      processList.Valid()
    }

    /** One waiter for every unit that is owed. */
    ghost predicate Balanced()
      reads this, processList
    {
      |Waiting()| == Max(0, -value)
    }

    constructor (numResources: int)
      ensures Valid() && value == numResources && Waiting() == []
      ensures Balanced() <==> numResources >= 0
    {
      value := numResources;
      processList := new Queue();
    }

    /** The locked part of down: the caller must sleep exactly when no unit was left. */
    method Down(current: Pid) returns (mustSleep: bool)
      requires Valid()
      modifies this, processList, processList.nodes
      ensures Valid() && processList == old(processList) && value == old(value) - 1
      ensures mustSleep <==> value < 0
      ensures Waiting() == old(Waiting()) + if mustSleep then [current] else []
      ensures old(Balanced()) ==> Balanced()
    {
      value := value - 1;
      mustSleep := value < 0;
      if mustSleep {
        processList.Enqueue(current);
      }
    }

    /** The locked part of up: the process to wake, when one is owed a unit. */
    method Up() returns (woken: seq<Pid>)
      requires Valid() && (value < 0 ==> Waiting() != [])
      modifies this, processList
      ensures Valid() && processList == old(processList) && value == old(value) + 1
      ensures value <= 0 ==> woken == [old(Waiting())[0]] && Waiting() == old(Waiting())[1..]
      ensures value > 0 ==> woken == [] && Waiting() == old(Waiting())
      ensures old(Balanced()) ==> Balanced()
    {
      value := value + 1;
      woken := [];
      if value <= 0 {
        var p := processList.Dequeue();
        woken := [p];
      }
    }
  }
}
