/** Notifier chains: a linked list kept in order of priority, and calls along it. */
module Notifier {

  class Block {
    const priority: int
    var next: Block?

    constructor (priority: int)
      ensures this.priority == priority && next == null
    {
      this.priority, next := priority, null;
    }
  }

  /** What a notifier answers: its value, and whether it stops the chain. */
  datatype Reply = Reply(value: int, stop: bool)

  const NOTIFY_DONE := 0

  /** How many of `nodes` a call reaches: up to and including the first that stops it, and no
      more than `limit` of them unless that is negative. */
  ghost function Reached(nodes: seq<Block>, limit: int, reply: Block -> Reply): (k: nat)
    ensures k <= |nodes|
  {
    if nodes == [] || limit == 0 then 0
    else if reply(nodes[0]).stop then 1
    else 1 + Reached(nodes[1..], limit - 1, reply)
  }

  lemma {:induction false} ReachedIsCut(nodes: seq<Block>, limit: int, reply: Block -> Reply)
    ensures var k := Reached(nodes, limit, reply);
      && (limit >= 0 ==> k <= limit)
      && (forall i :: 0 <= i < k - 1 ==> !reply(nodes[i]).stop)
      && (k == |nodes| || k == limit || (k > 0 && reply(nodes[k - 1]).stop))
  {
    if nodes == [] || limit == 0 || reply(nodes[0]).stop {
    } else {
      ReachedIsCut(nodes[1..], limit - 1, reply);
    }
  }

  ghost predicate Distinct(nodes: seq<Block>) {
    forall i, j :: 0 <= i < j < |nodes| ==> nodes[i] != nodes[j]
  }

  /** `stamps` tells when each block was registered.  Higher priorities come first, and equal
      priorities in the order of registration. */
  ghost predicate InOrder(nodes: seq<Block>, stamps: map<Block, nat>) {
    && (forall b :: b in nodes ==> b in stamps)
    && forall i, j :: 0 <= i < j < |nodes| ==> Before(nodes[i], nodes[j], stamps)
  }

  ghost predicate Before(a: Block, b: Block, stamps: map<Block, nat>)
    requires a in stamps && b in stamps
  {
    a.priority > b.priority || (a.priority == b.priority && stamps[a] < stamps[b])
  }

  ghost function Inserted(nodes: seq<Block>, i: nat, n: Block): seq<Block>
    requires i <= |nodes|
  {
    nodes[..i] + [n] + nodes[i..]
  }

  /** Put in after the last block that is not of lower priority, the newest block is in order. */
  lemma InsertKeepsOrder(nodes: seq<Block>, stamps: map<Block, nat>, i: nat, n: Block, now: nat)
    requires InOrder(nodes, stamps) && i <= |nodes| && n !in nodes
    requires forall b :: b in nodes ==> b in stamps && stamps[b] < now
    requires forall j :: 0 <= j < i ==> n.priority <= nodes[j].priority
    requires i < |nodes| ==> n.priority > nodes[i].priority
    ensures InOrder(Inserted(nodes, i, n), stamps[n := now])
  {
  }

  /** The blocks between `q` and `i` have gone. */
  ghost function Bypassed(nodes: seq<Block>, q: nat, i: nat): seq<Block>
    requires q < i <= |nodes|
  {
    nodes[..q + 1] + nodes[i..]
  }

  lemma BypassKeepsOrder(nodes: seq<Block>, stamps: map<Block, nat>, q: nat, i: nat)
    requires InOrder(nodes, stamps) && q < i <= |nodes|
    ensures InOrder(Bypassed(nodes, q, i), stamps)
    ensures forall b :: b in Bypassed(nodes, q, i) ==> b in nodes
  {
  }

  /** The first `i` blocks are those whose priority is not lower. */
  ghost predicate IsCut(nodes: seq<Block>, i: nat, priority: int) {
    && i <= |nodes| && (forall j :: 0 <= j < i ==> priority <= nodes[j].priority)
    && forall j :: i <= j < |nodes| ==> priority > nodes[j].priority
  }

  lemma CutIsAtEnd(nodes: seq<Block>, stamps: map<Block, nat>, i: nat, n: Block)
    requires InOrder(nodes, stamps) && i <= |nodes|
    requires forall j :: 0 <= j < i ==> n.priority <= nodes[j].priority
    requires i < |nodes| ==> n.priority > nodes[i].priority
    ensures IsCut(nodes, i, n.priority)
    ensures forall j :: 0 <= j < |nodes| && nodes[j] == n ==> j < i
  {
  }

  lemma RemoveKeepsOrder(nodes: seq<Block>, stamps: map<Block, nat>, i: nat)
    requires InOrder(nodes, stamps) && i < |nodes|
    ensures InOrder(nodes[..i] + nodes[i + 1..], stamps)
  {
  }

  class Chain {
    var head: Block?
    ghost var nodes: seq<Block>
    ghost var stamps: map<Block, nat>
    ghost var registrations: nat

    ghost predicate Linked()
      reads this, nodes
    {
      && Distinct(nodes)
      && head == (if nodes == [] then null else nodes[0])
      && (forall i {:trigger nodes[i].next} :: 0 <= i < |nodes| ==>
            nodes[i].next == if i + 1 < |nodes| then nodes[i + 1] else null)
    }

    ghost predicate Valid()
      reads this, nodes
    {
      Linked() && InOrder(nodes, stamps) && forall b :: b in nodes ==> b in stamps && stamps[b] < registrations
    }

    constructor ()
      ensures Valid() && nodes == [] && registrations == 0
    {
      head, nodes, stamps, registrations := null, [], map[], 0;
    }

    /** Find where the walk stops: after `prev`, before `cur`. */
    ghost predicate Between(i: nat, prev: Block?, cur: Block?)
      reads this
    {
      && i <= |nodes|
      && prev == (if i == 0 then null else nodes[i - 1])
      && cur == (if i == |nodes| then null else nodes[i])
    }

    /** `q` is where `n` stands already, if it does: then linking it in again cuts off the blocks
        in between, or, if there are none, makes it its own successor. */
    method LinkIn(prev: Block?, n: Block, cur: Block?, ghost i: nat, ghost q: nat)
      requires Linked() && Between(i, prev, cur)
      requires n in nodes ==> q < i && nodes[q] == n
      modifies `head, `nodes, n, if prev == null then {} else {prev}
      ensures n !in old(nodes) ==> Linked() && nodes == Inserted(old(nodes), i, n)
      ensures n in old(nodes) && q + 1 < i ==> Linked() && nodes == Bypassed(old(nodes), q, i)
      ensures n in old(nodes) && q + 1 == i ==> nodes == old(nodes) && n.next == n
    {
      n.next := cur;
      if prev == null {
        head := n;
      } else {
        prev.next := n;
      }
      if n !in nodes {
        nodes := Inserted(nodes, i, n);
      } else if q + 1 < i {
        nodes := Bypassed(nodes, q, i);
      }
    }

    method LinkOut(prev: Block?, n: Block, ghost i: nat)
      requires Linked() && Between(i, prev, n) && i < |nodes|
      modifies `head, `nodes, if prev == null then {} else {prev}
      ensures Linked() && nodes == old(nodes)[..i] + old(nodes)[i + 1..]
    {
      assert nodes[i].next == if i + 1 < |nodes| then nodes[i + 1] else null;
      if prev == null {
        head := n.next;
      } else {
        prev.next := n.next;
      }
      nodes := nodes[..i] + nodes[i + 1..];
    }

    /** Walk to the first block of lower priority and link `n` in before it.  A block that is on
        the chain already is not recognised. */
    method Register(n: Block)
      requires Valid()
      modifies this, n, nodes
      ensures n !in old(nodes) ==>
        && Valid() && (exists i :: 0 <= i <= |old(nodes)| && nodes == Inserted(old(nodes), i, n))
        && stamps == old(stamps)[n := old(registrations)] && registrations == old(registrations) + 1
      ensures n in old(nodes) ==> exists q, i ::
        && 0 <= q < i <= |old(nodes)| && old(nodes)[q] == n && IsCut(old(nodes), i, n.priority)
        && if q + 1 < i then Valid() && nodes == Bypassed(old(nodes), q, i) else n.next == n
    {
      hide InOrder, Inserted, Bypassed;
      var prev: Block? := null;
      var cur := head;
      ghost var i := 0;
      while cur != null && n.priority <= cur.priority
        invariant Between(i, prev, cur)
        invariant forall j :: 0 <= j < i ==> n.priority <= nodes[j].priority
        decreases |nodes| - i
      {
        assert nodes[i].next == if i + 1 < |nodes| then nodes[i + 1] else null;
        prev, cur := cur, cur.next;
        i := i + 1;
      }
      ghost var was := nodes;
      ghost var q := 0;
      CutIsAtEnd(was, stamps, i, n);
      if n in was {
        q :| 0 <= q < |was| && was[q] == n;
      }
      LinkIn(prev, n, cur, i, q);
      if n in was {
        if q + 1 < i {
          BypassKeepsOrder(was, stamps, q, i);
        }
      } else {
        InsertKeepsOrder(was, stamps, i, n, registrations);
        stamps := stamps[n := registrations];
        registrations := registrations + 1;
        InsertedMembers(was, i, n);
      }
    }

    method Unregister(n: Block) returns (found: bool)
      requires Valid()
      modifies `head, `nodes, nodes
      ensures Valid()
      ensures found <==> n in old(nodes)
      ensures found ==>
        exists i :: 0 <= i < |old(nodes)| && old(nodes)[i] == n && nodes == old(nodes)[..i] + old(nodes)[i + 1..]
      ensures !found ==> nodes == old(nodes)
    {
      hide InOrder;
      var prev: Block? := null;
      var cur := head;
      ghost var i := 0;
      while cur != null
        invariant Between(i, prev, cur) && nodes == old(nodes) && Valid()
        invariant forall j :: 0 <= j < i ==> nodes[j] != n
        decreases |nodes| - i
      {
        assert nodes[i].next == if i + 1 < |nodes| then nodes[i + 1] else null;
        if cur == n {
          RemoveKeepsOrder(nodes, stamps, i);
          LinkOut(prev, n, i);
          return true;
        }
        prev, cur := cur, cur.next;
        i := i + 1;
      }
      return false;
    }

    /** Call the blocks one after the other; `called` records which. */
    method Call(nrToCall: int, nrCalls: nat, reply: Block -> Reply)
      returns (ret: int, nrCalls': nat, called: seq<Block>)
      requires Valid()
      ensures called == nodes[..Reached(nodes, nrToCall, reply)]
      ensures nrCalls' == nrCalls + |called|
      ensures ret == if called == [] then NOTIFY_DONE else reply(called[|called| - 1]).value
    {
      ret, nrCalls', called := NOTIFY_DONE, nrCalls, [];
      var nb, left := head, nrToCall;
      while nb != null && left != 0
        invariant |called| <= |nodes| && called == nodes[..|called|]
        invariant nb == if |called| == |nodes| then null else nodes[|called|]
        invariant nrCalls' == nrCalls + |called|
        invariant ret == if called == [] then NOTIFY_DONE else reply(called[|called| - 1]).value
        invariant |called| + Reached(nodes[|called|..], left, reply) == Reached(nodes, nrToCall, reply)
        decreases |nodes| - |called|
      {
        ghost var rest := nodes[|called|..];
        assert rest[1..] == nodes[|called| + 1..];
        assert nodes[|called|].next == if |called| + 1 < |nodes| then nodes[|called| + 1] else null;
        var nextNb := nb.next;
        ret := reply(nb).value;
        nrCalls' := nrCalls' + 1;
        called := called + [nb];
        if reply(nb).stop {
          break;
        }
        nb := nextNb;
        left := left - 1;
      }
    }
  }

  lemma InsertedMembers(nodes: seq<Block>, i: nat, n: Block)
    requires i <= |nodes|
    ensures forall b :: b in Inserted(nodes, i, n) <==> b == n || b in nodes
  {
  }
}
