/** The Aging simulator as it runs: slots aged, marked and evicted in place. */
module Aging {
  import opened AgingHistory
  import opened AgingSpec
  import opened Paging

  class Simulator {
    const frameQueue: array<Frame>
    var trace: seq<Access>
    var pageFaults: nat
    var writesToDisk: nat
    var totalAccesses: nat
    var hit: bool
    ghost var histories: seq<seq<bool>>

    ghost function St(): State
      reads this, frameQueue
    {
      State(frameQueue[..], histories, pageFaults, writesToDisk)
    }

    constructor (numFrames: nat, addresses: seq<Access>)
      ensures fresh(frameQueue) && frameQueue.Length == numFrames
      ensures St() == Start(numFrames) && trace == addresses
    {
      frameQueue := new Frame[numFrames]((i: nat) => Frame(0, false, false, false, 0, i));
      trace, pageFaults, writesToDisk, totalAccesses, hit := addresses, 0, 0, 0, false;
      histories := seq(numFrames, _ => []);
    }

    method AgeAndMark()
      modifies frameQueue
      ensures forall i :: 0 <= i < frameQueue.Length ==> frameQueue[i] == Age(old(frameQueue[i]))
    {
      for i := 0 to frameQueue.Length
        invariant forall j :: 0 <= j < i ==> frameQueue[j] == Age(old(frameQueue[j]))
        invariant forall j :: i <= j < frameQueue.Length ==> frameQueue[j] == old(frameQueue[j])
      {
        frameQueue[i] := frameQueue[i].(agingValue := frameQueue[i].agingValue / 2);
        if frameQueue[i].reference {
          frameQueue[i] := frameQueue[i].(agingValue := frameQueue[i].agingValue + MSB);
        }
      }
    }

    /** `tick` tells whether the refresh interval has passed. */
    method CollectDataOnReferences(tick: bool)
      requires |histories| == frameQueue.Length
      modifies this`histories, frameQueue
      ensures St() == if tick then Tick(old(St())) else old(St())
    {
      if tick {
        ghost var was, hs := frameQueue[..], histories;
        AgeAndMark();
        for i := 0 to frameQueue.Length
          invariant histories == hs
          invariant forall j :: 0 <= j < i ==> frameQueue[j] == Age(was[j]).(reference := false)
          invariant forall j :: i <= j < frameQueue.Length ==> frameQueue[j] == Age(was[j])
        {
          frameQueue[i] := frameQueue[i].(reference := false);
        }
        histories := Tick(State(was, hs, 0, 0)).histories;
        assert frameQueue[..] == Tick(old(St())).frames;
      }
    }

    method Remove(ppn: nat)
      requires ppn < frameQueue.Length
      modifies frameQueue
      ensures frameQueue[..] == old(frameQueue[..])[ppn := old(frameQueue[ppn]).(inUse := false, dirty := false)]
    {
      frameQueue[ppn] := frameQueue[ppn].(inUse := false, dirty := false);
    }

    method EvictLowestValuePage(ppn: nat)
      requires ppn < frameQueue.Length
      modifies this`writesToDisk, frameQueue
      ensures St() == Evict(old(St()), ppn)
    {
      if frameQueue[ppn].dirty {
        writesToDisk := writesToDisk + 1;
      }
      Remove(ppn);
    }

    method MarkFrame(i: nat, a: Access)
      requires i < frameQueue.Length
      modifies frameQueue
      ensures frameQueue[..] == old(frameQueue[..])[i := Mark(old(frameQueue[i]), a)]
    {
      if a.write {
        frameQueue[i] := frameQueue[i].(dirty := true);
      } else {
        frameQueue[i] := frameQueue[i].(reference := true);
      }
    }

    /** The recursive call after an eviction fills the slot just freed. */
    method AddOrUpdatePage(a: Access)
      requires Slot(St(), a) < frameQueue.Length
      modifies this`writesToDisk, this`hit, frameQueue
      ensures hit == (old(hit) || FirstVpn(old(frameQueue[..]), a.vpn, 0) < frameQueue.Length)
      ensures St().(faults := 0) == Serve(old(St()), a).(faults := 0)
      decreases if FirstFree(frameQueue[..], 0) < frameQueue.Length then 0 else 1
    {
      hide CountTrue, ValueOf;
      ghost var s := St();
      ghost var k, free := FirstVpn(s.frames, a.vpn, 0), FirstFree(s.frames, 0);
      var lowestPage, lowestValue := 0, 257;
      for i := 0 to frameQueue.Length
        invariant i <= k && St() == s && hit == old(hit)
        invariant (lowestPage, lowestValue) == LowestScan(s.frames, i)
      {
        if frameQueue[i].agingValue < lowestValue {
          lowestPage, lowestValue := frameQueue[i].ppn, frameQueue[i].agingValue;
        }
        if frameQueue[i].vpn == a.vpn {
          hit := true;
          MarkFrame(i, a);
          return;
        }
      }
      for i := 0 to frameQueue.Length
        invariant i <= free && St() == s && hit == old(hit)
      {
        if !frameQueue[i].inUse {
          frameQueue[i] := frameQueue[i].(inUse := true, vpn := a.vpn);
          MarkFrame(i, a);
          return;
        }
      }
      EvictLowestValuePage(lowestPage);
      EvictedIsNext(s, a, lowestPage);
      AddOrUpdatePage(a);
    }

    /** One round of the main loop. */
    method RunOneAccess(tick: bool, a: Access)
      requires |histories| == frameQueue.Length
      requires Slot(AgeIf(St(), Round(tick, a)), a) < |AgeIf(St(), Round(tick, a)).frames|
      modifies this, frameQueue
      ensures St() == Serve(AgeIf(old(St()), Round(tick, a)), a)
      ensures trace == old(trace) && totalAccesses == old(totalAccesses)
    {
      hide Serve, Slot, Tick;
      hit := false;
      CollectDataOnReferences(tick);
      FaultIsMiss(St(), a);
      AddOrUpdatePage(a);
      if !hit {
        pageFaults := pageFaults + 1;
      }
    }

    /** `ticks[i]` tells whether the refresh interval has passed at access `i`. */
    method RunAlgorithm(ticks: seq<bool>)
      requires frameQueue.Length > 0 && St() == Start(frameQueue.Length) && |ticks| == |trace|
      modifies this, frameQueue
      ensures St() == StateAt(Rounds(ticks, old(trace)), frameQueue.Length, |ticks|)
    {
      hide Inv, Serve, Slot, AgeIf;
      ghost var n := frameQueue.Length;
      ghost var full := trace;
      ghost var rounds := Rounds(ticks, trace);
      totalAccesses := 0;
      while |trace| > 0
        invariant totalAccesses <= |full| && trace == full[totalAccesses..]
        invariant St() == StateAt(rounds, n, totalAccesses)
        decreases |full| - totalAccesses
      {
        NextRound(rounds, n, totalAccesses);
        assert rounds[totalAccesses] == Round(ticks[totalAccesses], trace[0]);
        RunOneAccess(ticks[totalAccesses], trace[0]);
        trace := trace[1..];
        totalAccesses := totalAccesses + 1;
      }
    }
  }

  ghost function Rounds(ticks: seq<bool>, trace: seq<Access>): (r: seq<Round>)
    requires |ticks| == |trace|
    ensures |r| == |ticks|
  {
    seq(|ticks|, i requires 0 <= i < |ticks| => Round(ticks[i], trace[i]))
  }

  lemma NextRound(rounds: seq<Round>, n: nat, t: nat)
    requires n > 0 && t < |rounds|
    ensures var s, r := StateAt(rounds, n, t), rounds[t];
      && |s.histories| == |s.frames| == n
      && |AgeIf(s, r).frames| == n && Slot(AgeIf(s, r), r.access) < n
      && StateAt(rounds, n, t + 1) == Serve(AgeIf(s, r), r.access)
  {
    hide Slot, Serve, AgeIf, Inv;
    RoundIsServed(StateAt(rounds, n, t), rounds[t]);
  }

  lemma FaultIsMiss(s: State, a: Access)
    requires Slot(s, a) < |s.frames|
    ensures Serve(s, a).faults == s.faults + if FirstVpn(s.frames, a.vpn, 0) < |s.frames| then 0 else 1
  {
  }

  lemma EvictedIsNext(s: State, a: Access, v: nat)
    requires v < |s.frames| && FirstVpn(s.frames, a.vpn, 0) == |s.frames| == FirstFree(s.frames, 0)
    ensures var e := Evict(s, v);
      FirstVpn(e.frames, a.vpn, 0) == |s.frames| && FirstFree(e.frames, 0) == v && Slot(e, a) == v
  {
    var e := Evict(s, v);
    assert forall i :: 0 <= i < |s.frames| ==> s.frames[i].inUse && s.frames[i].vpn != a.vpn;
    assert !e.frames[v].inUse;
  }
}
