/** Facts about every run of the Opt simulator that hold whatever its counters do. */
module OptRuns {
  import opened Options
  import opened Paging
  import opened Belady
  import opened OptSpec
  import opened OptProps

  // ----- What survives of the counters -----

  /** A page that stays resident keeps its frame, and its counter goes down by one until it is -1. */
  lemma StepKeepsFrame(s: State, full: seq<Access>, k: nat, p: int)
    requires Inv(s, full, k) && s.total < |full|
    requires p in s.fastIndex && p in Step(s, full, k).fastIndex
    ensures var i, s' := s.fastIndex[p], Step(s, full, k);
      && s'.fastIndex[p] == i
      && s.frames[i].untilUse.Some?
      && (s.frames[i].untilUse.value >= 0 ==> s'.frames[i].untilUse == Some(s.frames[i].untilUse.value - 1))
  {
    hide Belady.NextUse, VictimScan, UseList, LastMatch, Fault, Evictable, Victim;
    AdvanceKeepsUses(s, full, k);
    AdvanceKeepsTable(s);
    var m, a := Advance(s), s.trace[0];
    assert a.vpn == Pages(full)[s.total] && a.vpn in Pages(full);
    if a.vpn !in m.fastIndex {
      FaultShape(m, a);
    }
  }

  lemma LoadSetsCounter(s: State, full: seq<Access>, k: nat)
    requires Inv(s, full, k) && s.total < |full| && Pages(full)[s.total] !in s.fastIndex
    ensures var p, s' := Pages(full)[s.total], Step(s, full, k);
      && p in s'.fastIndex
      && s'.frames[s'.fastIndex[p]].untilUse
         == Some(NextUse(Pages(full), p, s.total + 1) - (s.total + 1))
  {
    hide Belady.NextUse, UseList, LastMatch, TickAll, Fault, Evictable, Victim;
    AdvanceKeepsUses(s, full, k);
    AdvanceKeepsTable(s);
    assert s.trace[0].vpn == Pages(full)[s.total] && Pages(full)[s.total] in Pages(full);
    FaultShape(Advance(s), s.trace[0]);
  }

  /** From the access that loads a page until just after its next use, its counter is the
      distance to that use; a page never used again counts down from `|trace| + 1`. */
  lemma {:induction false} CounterExactSinceLoad(full: seq<Access>, k: nat, loaded: nat, t: nat, p: int)
    requires k > 0 && loaded < t <= |full|
    requires Pages(full)[loaded] == p && p !in StateAt(full, k, loaded).fastIndex
    requires forall j :: loaded < j <= t ==> p in StateAt(full, k, j).fastIndex
    requires t <= NextUse(Pages(full), p, loaded + 1) + 1
    ensures var s := StateAt(full, k, t);
      s.frames[s.fastIndex[p]].untilUse == Some(NextUse(Pages(full), p, loaded + 1) - t)
  {
    hide Belady.NextUse, Step, Inv;
    assert p in StateAt(full, k, t).fastIndex;
    if t == loaded + 1 {
      LoadSetsCounter(StateAt(full, k, loaded), full, k);
    } else {
      CounterExactSinceLoad(full, k, loaded, t - 1, p);
      assert StateAt(full, k, t) == Step(StateAt(full, k, t - 1), full, k);
      StepKeepsFrame(StateAt(full, k, t - 1), full, k, p);
    }
  }

  // ----- Dirty pages and disk writes -----

  /** A dirty frame in use owes the disk a write. */
  predicate OwesWrite(f: Frame) { f.inUse && f.dirty }

  function DirtyFrames(frames: seq<Frame>): nat {
    CountIf(frames, OwesWrite)
  }

  lemma DirtyFramesTick(frames: seq<Frame>, refresh: int)
    ensures DirtyFrames(TickAll(frames, refresh)) == DirtyFrames(frames)
  {
    assert Bits(TickAll(frames, refresh), OwesWrite) == Bits(frames, OwesWrite);
  }

  /** 1 if this access turns a resident page from clean to dirty. */
  function Dirties(s: State, a: Access): nat
    requires TableOk(s)
  {
    if a.write && (a.vpn in s.fastIndex ==> !s.frames[s.fastIndex[a.vpn]].dirty) then 1 else 0
  }

  /** Disk writes so far, and those still owed by dirty resident pages. */
  function Accounted(s: State): nat {
    s.writes + DirtyFrames(s.frames)
  }

  /** A write to page 0 while some frame is still free: such a frame also says it holds page 0. */
  predicate Misplaced(s: State, a: Access) {
    a.write && a.vpn == 0 && 0 in s.fastIndex && FirstFree(s.frames, 0) < |s.frames|
  }

  /** The linear scan finds the frame that the index names, except for page 0 in a table
      that is not full. */
  lemma ScanAgreesIff(s: State, vpn: int)
    requires TableOk(s) && vpn in s.fastIndex
    ensures LastMatch(s.frames, vpn, |s.frames|) == Some(s.fastIndex[vpn])
       <==> vpn != 0 || FirstFree(s.frames, 0) == |s.frames|
  {
  }

  lemma HitConserves(m: State, a: Access)
    requires TableOk(m) && a.vpn in m.fastIndex
    ensures Ready(m, a)
    ensures DirtyFrames(Hit(m, a).frames) + (if Misplaced(m, a) then Dirties(m, a) else 0)
      == DirtyFrames(m.frames) + Dirties(m, a)
  {
    if a.write {
      ScanAgreesIff(m, a.vpn);
      var i := LastMatch(m.frames, a.vpn, |m.frames|).value;
      CountIfUpdate(m.frames, i, m.frames[i].(dirty := true), OwesWrite);
    }
  }

  lemma FaultConserves(m: State, a: Access)
    requires TableOk(m) && |m.frames| > 0 && a.vpn in m.uses && |m.uses[a.vpn]| > 0
    requires a.vpn !in m.fastIndex
    ensures Ready(m, a)
    ensures Accounted(Fault(m, a)) == Accounted(m) + Dirties(m, a)
  {
    hide Fault, Evictable, Victim, TimeUntilNextAccess;
    FaultShape(m, a);
    var m' := Fault(m, a);
    var i := m'.fastIndex[a.vpn];
    assert m.frames[i].inUse ==> forall j :: 0 <= j < |m.frames| ==> m.frames[j].inUse;
    CountIfUpdate(m.frames, i, m'.frames[i], OwesWrite);
  }

  lemma StepConserves(s: State, full: seq<Access>, k: nat)
    requires Inv(s, full, k) && s.total < |full|
    ensures var s' := Step(s, full, k); var a := full[s.total];
      Accounted(s') + (if Misplaced(s, a) then Dirties(s, a) else 0) == Accounted(s) + Dirties(s, a)
  {
    hide Belady.NextUse, UseList, VictimScan, LastMatch, TimeUntilNextAccess, DirtyFrames, Victim;
    AdvanceKeepsUses(s, full, k);
    AdvanceKeepsTable(s);
    var m, a := Advance(s), s.trace[0];
    assert a == full[s.total] && a.vpn == Pages(full)[s.total];
    var refresh :| m.frames == TickAll(s.frames, refresh);
    DirtyFramesTick(s.frames, refresh);
    TickKeepsUse(s.frames, refresh, 0);
    if a.vpn in m.fastIndex {
      HitConserves(m, a);
    } else {
      FaultConserves(m, a);
    }
  }

  lemma {:induction false} TickKeepsUse(frames: seq<Frame>, refresh: int, i: nat)
    requires i <= |frames|
    ensures FirstFree(TickAll(frames, refresh), i) == FirstFree(frames, i)
    ensures forall j :: 0 <= j < |frames| ==> TickAll(frames, refresh)[j].dirty == frames[j].dirty
    decreases |frames| - i
  {
    if i == |frames| {
    } else {
      TickKeepsUse(frames, refresh, i + 1);
    }
  }

  /** How often a resident page went from clean to dirty in the first `t` accesses. */
  function Dirtied(full: seq<Access>, k: nat, t: nat): nat
    requires k > 0 && t <= |full|
  {
    if t == 0 then 0 else Dirtied(full, k, t - 1) + Dirties(StateAt(full, k, t - 1), full[t - 1])
  }

  /** How many of those were marked on a frame that is not in use. */
  function Lost(full: seq<Access>, k: nat, t: nat): nat
    requires k > 0 && t <= |full|
  {
    if t == 0 then 0
    else
      var s, a := StateAt(full, k, t - 1), full[t - 1];
      Lost(full, k, t - 1) + if Misplaced(s, a) then Dirties(s, a) else 0
  }

  /** Every modification of a resident page is written once, still pending, or lost to page 0. */
  lemma {:induction false} WritesAreConserved(full: seq<Access>, k: nat, t: nat)
    requires k > 0 && t <= |full|
    ensures var s := StateAt(full, k, t);
      Accounted(s) + Lost(full, k, t) == Dirtied(full, k, t)
  {
    hide Belady.NextUse, Step, Dirties, Misplaced;
    if t == 0 {
      NothingDirtyAtStart(full, k);
    } else {
      WritesAreConserved(full, k, t - 1);
      StepConserves(StateAt(full, k, t - 1), full, k);
    }
  }

  lemma NothingDirtyAtStart(full: seq<Access>, k: nat)
    requires k > 0
    ensures Accounted(StateAt(full, k, 0)) == 0
  {
    CountTrueZero(Bits(StateAt(full, k, 0).frames, OwesWrite));
  }

  /** No modified page is dropped without its write, exactly when no clean page 0 is
      written while a frame is free. */
  lemma ConservedIff(full: seq<Access>, k: nat, t: nat)
    requires k > 0 && t <= |full|
    ensures var s := StateAt(full, k, t);
      Accounted(s) == Dirtied(full, k, t)
      <==> forall j :: 0 <= j < t ==>
             !(Misplaced(StateAt(full, k, j), full[j]) && Dirties(StateAt(full, k, j), full[j]) == 1)
  {
    WritesAreConserved(full, k, t);
    LostIff(full, k, t);
  }

  lemma {:induction false} LostIff(full: seq<Access>, k: nat, t: nat)
    requires k > 0 && t <= |full|
    ensures Lost(full, k, t) == 0 <==> forall j :: 0 <= j < t ==>
      !(Misplaced(StateAt(full, k, j), full[j]) && Dirties(StateAt(full, k, j), full[j]) == 1)
  {
    hide Misplaced, Step, Inv;
    if t == 0 {
    } else {
      LostIff(full, k, t - 1);
    }
  }
}
