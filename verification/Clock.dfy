/** The circular queue and the clock as they run: frames and hand updated in place. */
module Clock {
  import opened Arithmetic
  import opened Options
  import opened Paging
  import opened SecondChance
  import opened ClockSpec

  class CircularQueue {
    const list: array<Frame>
    var pointer: nat

    constructor (queueSize: nat)
      ensures fresh(list) && list[..] == Start(queueSize).frames && pointer == 0
    {
      list := new Frame[queueSize]((i: nat) => Frame(0, false, false, false, i));
      pointer := 0;
    }

    method AddOrUpdateSuccessful(a: Access) returns (added: bool)
      modifies list
      ensures var i := FirstMatch(old(list[..]), a.vpn, 0);
        && (added <==> i < list.Length)
        && list[..] == (if added then old(list[..])[i := Touch(old(list[i]), a)] else old(list[..]))
    {
      ghost var k := FirstMatch(list[..], a.vpn, 0);
      for i := 0 to list.Length
        invariant i <= k && list[..] == old(list[..])
      {
        if !list[i].inUse || list[i].vpn == a.vpn {
          list[i] := list[i].(inUse := true, vpn := a.vpn);
          if a.write {
            list[i] := list[i].(dirty := true);
          } else {
            list[i] := list[i].(reference := true);
          }
          return true;
        }
      }
      return false;
    }

    /** The frame's old page number and reference bit stay behind. */
    method Remove(ppn: nat)
      requires ppn < list.Length
      modifies list
      ensures list[..] == old(list[..])[ppn := old(list[ppn]).(inUse := false, dirty := false)]
    {
      list[ppn] := list[ppn].(inUse := false, dirty := false);
    }

    /** One trip of at most `list.Length` looks.  Wherever it ends, the hand and the references
        are those that the plain sweep reaches; it names no victim when the frame there is dirty
        or the trip was spent on clearing references. */
    method FindVictim() returns (victim: Option<nat>)
      requires pointer < list.Length && forall i :: 0 <= i < list.Length ==> list[i].ppn == i
      modifies this, list
      ensures (Refs(list[..]), pointer) == old(Sweep(Refs(list[..]), pointer))
      ensures list[..] == WithRefs(old(list[..]), Refs(list[..]))
      ensures victim == if old(NeedsFlush(State(list[..], pointer, 0, 0))) then None else Some(pointer)
      ensures victim.None? <==>
        (forall i :: 0 <= i < list.Length ==> old(list[..])[i].reference) || list[pointer].dirty
    {
      hide Sweep, CountTrue, Inv, FlushCount, Around;
      ghost var was, hand := list[..], pointer;
      AroundIs(hand, list.Length);
      AllReferencedIff(was);
      for index := 0 to list.Length
        invariant pointer < list.Length
        invariant Sweep(Refs(list[..]), pointer) == Sweep(Refs(was), hand)
        invariant list[..] == WithRefs(was, Refs(list[..]))
        invariant Stuck(list[..], pointer) || CountTrue(Refs(list[..])) + index == CountTrue(Refs(was))
        invariant Stuck(list[..], pointer) || pointer == Around(hand, index, list.Length)
        invariant forall e :: index <= e < list.Length ==>
          var i := Around(hand, e, list.Length); list[i].reference == was[i].reference
      {
        SweepStep(list[..], pointer);
        var elem := list[pointer];
        if !elem.reference && !elem.dirty {
          return Some(elem.ppn);
        } else if !elem.reference && elem.dirty {
          continue;
        }
        list[pointer] := elem.(reference := false);
        NextIsRemainder(pointer, list.Length);
        pointer := (pointer + 1) % list.Length;
      }
      SweepEnds(list[..], pointer);
      return None;
    }

    method FlushDirtyAndUnreferencedPages() returns (writes: nat)
      modifies list
      ensures list[..] == Flush(old(list[..]))
      ensures writes == FlushCount(old(list[..]), list.Length)
    {
      ghost var was := list[..];
      writes := 0;
      for i := 0 to list.Length
        invariant forall j :: 0 <= j < i ==> list[j] == Clean(was[j])
        invariant forall j :: i <= j < list.Length ==> list[j] == was[j]
        invariant writes == FlushCount(was, i)
      {
        if list[i].dirty && !list[i].reference {
          list[i] := list[i].(dirty := false);
          writes := writes + 1;
        }
      }
      assert list[..] == Flush(was);
    }
  }

  class Simulator {
    const queue: CircularQueue
    var trace: seq<Access>
    var pageFaults: nat
    var writesToDisk: nat
    var totalAccesses: nat

    ghost function St(): State
      reads this, queue, queue.list
    {
      State(queue.list[..], queue.pointer, pageFaults, writesToDisk)
    }

    constructor (numFrames: nat, addresses: seq<Access>)
      ensures fresh(queue) && fresh(queue.list)
      ensures St() == Start(numFrames) && trace == addresses && totalAccesses == 0
    {
      queue := new CircularQueue(numFrames);
      trace, pageFaults, writesToDisk, totalAccesses := addresses, 0, 0, 0;
    }

    /** The flush loop runs at most once, and the page lands in the frame just freed. */
    method AddPageOrUpdate(a: Access)
      requires Inv(St())
      modifies this`pageFaults, this`writesToDisk, queue, queue.list
      ensures St() == ClockSpec.Serve(old(St()), a)
    {
      hide CountTrue, Sweep, FlushCount;
      ghost var s := St();
      var added := queue.AddOrUpdateSuccessful(a);
      if !added {
        pageFaults := pageFaults + 1;
        var victim := queue.FindVictim();
        ghost var v := queue.pointer;
        ghost var swept := queue.list[..];
        while victim.None?
          invariant queue.pointer == v && v < queue.list.Length
          invariant pageFaults == s.faults + 1
          invariant victim == Some(v)
                 || (victim.None? && NeedsFlush(s) && queue.list[..] == swept && writesToDisk == s.writes)
          invariant victim.Some? ==> queue.list[..] == (if NeedsFlush(s) then Flush(swept) else swept)
          invariant victim.Some? ==>
            writesToDisk == s.writes + if NeedsFlush(s) then FlushCount(swept, |swept|) else 0
          decreases if victim.None? then 1 else 0
        {
          var numDiskWrites := queue.FlushDirtyAndUnreferencedPages();
          writesToDisk := writesToDisk + numDiskWrites;
          SecondTripSucceeds(swept, v);
          victim := queue.FindVictim();
        }
        ghost var cleaned := queue.list[..];
        FreedIsFirstMatch(s, cleaned, v, a);
        queue.Remove(victim.value);
        added := queue.AddOrUpdateSuccessful(a);
      }
    }

    method RunAlgorithm()
      requires St() == Start(queue.list.Length) && queue.list.Length > 0
      modifies this, queue, queue.list
      ensures St() == old(StateAt(trace, queue.list.Length, |trace|))
      ensures totalAccesses == |old(trace)|
    {
      hide ClockSpec.Serve, Inv;
      ghost var full, n := trace, queue.list.Length;
      totalAccesses := 0;
      while |trace| > 0
        invariant totalAccesses <= |full| && trace == full[totalAccesses..]
        invariant St() == StateAt(full, n, totalAccesses)
        decreases |full| - totalAccesses
      {
        AddPageOrUpdate(trace[0]);
        trace := trace[1..];
        totalAccesses := totalAccesses + 1;
      }
    }
  }

  /** After the flush, the frame under the hand is clean and the second trip stops at once. */
  lemma SecondTripSucceeds(swept: seq<Frame>, v: nat)
    requires v < |swept| && !swept[v].reference
    requires forall i :: 0 <= i < |swept| ==> swept[i].ppn == i
    ensures var f := Flush(swept);
      && Refs(f) == Refs(swept) && Sweep(Refs(f), v) == (Refs(f), v) && WithRefs(f, Refs(f)) == f
      && !NeedsFlush(State(f, v, 0, 0))
      && (forall i :: 0 <= i < |f| ==> f[i].ppn == i)
  {
    var f := Flush(swept);
    assert Refs(f) == Refs(swept);
    CountTrueFull(Refs(f));
    assert !Refs(f)[v];
  }

  /** Once the victim is removed, the first frame that matches is its own. */
  lemma FreedIsFirstMatch(s: State, cleaned: seq<Frame>, v: nat, a: Access)
    requires v < |cleaned| == |s.frames| && FirstMatch(s.frames, a.vpn, 0) == |s.frames|
    requires forall i :: 0 <= i < |cleaned| ==>
      cleaned[i].inUse == s.frames[i].inUse && cleaned[i].vpn == s.frames[i].vpn
    ensures FirstMatch(cleaned[v := cleaned[v].(inUse := false, dirty := false)], a.vpn, 0) == v
  {
    var freed := cleaned[v := cleaned[v].(inUse := false, dirty := false)];
    var k := FirstMatch(freed, a.vpn, 0);
    assert !freed[v].inUse;
    assert forall i :: 0 <= i < |s.frames| ==> s.frames[i].inUse && s.frames[i].vpn != a.vpn;
  }

  lemma NextIsRemainder(p: nat, n: nat)
    requires p < n
    ensures (p + 1) % n == Next(p, n)
  {
    if p + 1 == n {
      QuotientRemainder(1, 0, n);
    } else {
      QuotientRemainder(0, p + 1, n);
    }
  }

  predicate Stuck(frames: seq<Frame>, pointer: nat)
    requires pointer < |frames|
  {
    !frames[pointer].reference && frames[pointer].dirty
  }

  /** What one look does to the sweep still to come. */
  lemma AroundIs(hand: nat, n: nat)
    requires hand < n
    ensures Around(hand, 0, n) == hand
    ensures forall e :: 0 <= e < n ==> Around(hand, e + 1, n) == Next(Around(hand, e, n), n)
    ensures forall d, e :: 0 <= d < e < n ==> Around(hand, d, n) != Around(hand, e, n)
  {
  }

  lemma SweepStep(frames: seq<Frame>, pointer: nat)
    requires pointer < |frames|
    ensures !frames[pointer].reference ==> Sweep(Refs(frames), pointer) == (Refs(frames), pointer)
    ensures frames[pointer].reference ==>
      var cleared := frames[pointer := frames[pointer].(reference := false)];
      && Sweep(Refs(cleared), Next(pointer, |frames|)) == Sweep(Refs(frames), pointer)
      && CountTrue(Refs(cleared)) == CountTrue(Refs(frames)) - 1
  {
    var refs := Refs(frames);
    if frames[pointer].reference {
      assert Refs(frames[pointer := frames[pointer].(reference := false)]) == refs[pointer := false];
      CountTrueUpdate(refs, pointer, false);
    }
  }

  lemma AllReferencedIff(frames: seq<Frame>)
    ensures CountTrue(Refs(frames)) == |frames| <==> forall i :: 0 <= i < |frames| ==> frames[i].reference
  {
    CountTrueFull(Refs(frames));
    assert forall i :: 0 <= i < |frames| ==> Refs(frames)[i] == frames[i].reference;
  }

  lemma SweepEnds(frames: seq<Frame>, pointer: nat)
    requires pointer < |frames|
    requires Stuck(frames, pointer) || CountTrue(Refs(frames)) == 0
    ensures Sweep(Refs(frames), pointer) == (Refs(frames), pointer)
  {
    CountTrueZero(Refs(frames));
  }
}
