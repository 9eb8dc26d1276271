/** What can be told of a run of the Opt simulator from its trace alone. */
module OptTraces {
  import opened Options
  import opened Paging
  import opened Belady
  import opened OptSpec
  import opened OptProps
  import opened OptRuns

  // ----- Which pages are resident -----

  /** The pages of the first `t` accesses. */
  ghost function Seen(pages: seq<int>, t: nat): set<int>
    requires t <= |pages|
  {
    if t == 0 then {} else Seen(pages, t - 1) + {pages[t - 1]}
  }

  lemma {:induction false} SeenIsPrefix(pages: seq<int>, t: nat, p: int)
    requires t <= |pages|
    ensures p in Seen(pages, t) <==> p in pages[..t]
  {
    if t == 0 {
    } else {
      SeenIsPrefix(pages, t - 1, p);
      assert pages[..t] == pages[..t - 1] + [pages[t - 1]];
    }
  }

  lemma {:induction false} SeenGrows(pages: seq<int>, t: nat, n: nat)
    requires t <= n <= |pages|
    ensures Seen(pages, t) <= Seen(pages, n) && |Seen(pages, t)| <= |Seen(pages, n)|
  {
    if t == n {
    } else {
      SeenGrows(pages, t, n - 1);
      SubsetSize(Seen(pages, t), Seen(pages, n));
    }
  }

  lemma StepIsResident(s: State, full: seq<Access>, k: nat)
    requires Inv(s, full, k) && s.total < |full|
    requires Pages(full)[s.total] in Resident(s) || |Resident(s)| < k
    ensures Resident(Step(s, full, k)) == Resident(s) + {Pages(full)[s.total]}
  {
    hide Belady.NextUse, VictimScan, UseList, LastMatch, TickAll, Fault, Evictable, Victim, FirstFree;
    AdvanceKeepsUses(s, full, k);
    AdvanceKeepsTable(s);
    var m, a := Advance(s), s.trace[0];
    assert a.vpn == Pages(full)[s.total] && a.vpn in Pages(full);
    TableIsReady(m, a);
    ServeResident(m, a);
  }

  /** Until more pages have been accessed than there are frames, all of them are resident. */
  lemma {:induction false} ResidentIsSeen(full: seq<Access>, k: nat, t: nat)
    requires k > 0 && t <= |full| && |Seen(Pages(full), t)| <= k
    ensures Resident(StateAt(full, k, t)) == Seen(Pages(full), t)
  {
    hide Inv, Step;
    StateAtSteps(full, k, t);
    if t == 0 {
    } else {
      SeenGrows(Pages(full), t - 1, t);
      ResidentIsSeen(full, k, t - 1);
      StepIsResident(StateAt(full, k, t - 1), full, k);
    }
  }

  lemma StepLoadsOnly(s: State, full: seq<Access>, k: nat)
    requires Inv(s, full, k) && s.total < |full|
    ensures Resident(Step(s, full, k)) <= Resident(s) + {Pages(full)[s.total]}
  {
    hide Belady.NextUse, VictimScan, UseList, LastMatch, TickAll, Fault, Evictable, Victim;
    AdvanceKeepsUses(s, full, k);
    AdvanceKeepsTable(s);
    var m, a := Advance(s), s.trace[0];
    assert a.vpn == Pages(full)[s.total] && a.vpn in Pages(full);
    if a.vpn !in m.fastIndex {
      FaultShape(m, a);
    }
  }

  lemma {:induction false} ResidentWasUsed(full: seq<Access>, k: nat, t: nat, p: int)
    requires k > 0 && t <= |full| && p in Resident(StateAt(full, k, t))
    ensures p in Pages(full)[..t]
  {
    hide Inv, Step;
    StateAtSteps(full, k, t);
    if t == 0 {
    } else {
      var pages := Pages(full);
      StepLoadsOnly(StateAt(full, k, t - 1), full, k);
      assert pages[..t] == pages[..t - 1] + [pages[t - 1]];
      if p != pages[t - 1] {
        ResidentWasUsed(full, k, t - 1, p);
      }
    }
  }

  /** A counter at -1 belongs to a page that was used just now, and earlier. */
  lemma SpentCounterWasHit(full: seq<Access>, k: nat, t: nat, i: nat)
    requires k > 0 && t <= |full| && ExactBefore(full, k, t)
    requires i < k && StateAt(full, k, t).frames[i].inUse
    requires StateAt(full, k, t).frames[i].untilUse == Some(-1)
    ensures var p := StateAt(full, k, t).frames[i].vpn;
      p.Some? && t > 0 && Pages(full)[t - 1] == p.value && p.value in Pages(full)[..t - 1]
  {
    hide Step, Belady.NextUse;
    var s, pages := StateAt(full, k, t), Pages(full);
    assert ExactAt(s, pages, i);
    var before := StateAt(full, k, t - 1);
    var p := pages[t - 1];
    if p in Resident(before) {
      ResidentWasUsed(full, k, t - 1, p);
    } else {
      LoadSetsCounter(before, full, k);
    }
  }

  // ----- When the counters go wrong -----

  /** At access `t` the page is resident already. */
  ghost predicate Hits(full: seq<Access>, k: nat, t: nat)
    requires k > 0 && t < |full|
  {
    Pages(full)[t] in Resident(StateAt(full, k, t))
  }

  /** The page accessed last was hit, and its counter did not restart at that access. */
  ghost predicate Spent(full: seq<Access>, k: nat, t: nat)
    requires k > 0 && t <= |full|
  {
    t > 0 && Hits(full, k, t - 1)
    && !(t > 1 && Pages(full)[t - 2] == Pages(full)[t - 1] && Spent(full, k, t - 1))
  }

  /** A hit on a page whose counter has passed zero restarts it, from the next use of that page. */
  lemma StepRestartsFrame(s: State, full: seq<Access>, k: nat)
    requires Inv(s, full, k) && s.total < |full| && Pages(full)[s.total] in s.fastIndex
    requires s.frames[s.fastIndex[Pages(full)[s.total]]].untilUse == Some(-1)
    ensures var p, s' := Pages(full)[s.total], Step(s, full, k);
      && p in s'.fastIndex
      && s'.frames[s'.fastIndex[p]].untilUse == Some(NextUse(Pages(full), p, s.total + 1) - (s.total + 1))
  {
    hide Belady.NextUse, VictimScan, UseList, LastMatch, Fault, Evictable, Victim;
    AdvanceKeepsUses(s, full, k);
    AdvanceKeepsTable(s);
    assert s.trace[0].vpn == Pages(full)[s.total] && Pages(full)[s.total] in Pages(full);
  }

  lemma StepKeepsHit(s: State, full: seq<Access>, k: nat)
    requires Inv(s, full, k) && s.total < |full| && Pages(full)[s.total] in Resident(s)
    ensures Pages(full)[s.total] in Step(s, full, k).fastIndex
  {
    hide Belady.NextUse, VictimScan, UseList, LastMatch, TickAll, Fault, Evictable, Victim;
    AdvanceKeepsUses(s, full, k);
    AdvanceKeepsTable(s);
    assert s.trace[0].vpn == Pages(full)[s.total] && Pages(full)[s.total] in Pages(full);
  }

  /** The counter of page `p` just before access `t`. */
  ghost function CounterOf(full: seq<Access>, k: nat, t: nat, p: int): Option<int>
    requires k > 0 && t <= |full|
  {
    var s := StateAt(full, k, t);
    if p in s.fastIndex then s.frames[s.fastIndex[p]].untilUse else None
  }

  /** What access `t` does to the counter of its page, when counters are exact. */
  lemma CounterAfterUse(full: seq<Access>, k: nat, t: nat)
    requires k > 0 && t < |full| && ExactBefore(full, k, t)
    ensures var p := Pages(full)[t]; var c, c' := CounterOf(full, k, t, p), CounterOf(full, k, t + 1, p);
      if Hits(full, k, t) && c != Some(-1) then c' == Some(-1)
      else c' == Some(NextUse(Pages(full), p, t + 1) - (t + 1))
    ensures CounterOf(full, k, t, Pages(full)[t]) == Some(-1) ==> t > 0 && Pages(full)[t - 1] == Pages(full)[t]
  {
    hide Step, Belady.NextUse;
    var s, p := StateAt(full, k, t), Pages(full)[t];
    StateAtSteps(full, k, t);
    if p !in Resident(s) {
      LoadSetsCounter(s, full, k);
    } else {
      CounterAtUse(full, k, t);
      if CounterOf(full, k, t, p) == Some(-1) {
        StepRestartsFrame(s, full, k);
      } else {
        StepKeepsHit(s, full, k);
        StepKeepsFrame(s, full, k, p);
      }
    }
  }

  /** An exact counter of the page about to be accessed is at 0, or at -1 if it was accessed last. */
  lemma CounterAtUse(full: seq<Access>, k: nat, t: nat)
    requires k > 0 && t < |full| && ExactBefore(full, k, t) && Hits(full, k, t)
    ensures CounterOf(full, k, t, Pages(full)[t]) in {Some(0), Some(-1)}
    ensures CounterOf(full, k, t, Pages(full)[t]) == Some(-1) ==> t > 0 && Pages(full)[t - 1] == Pages(full)[t]
  {
    hide Step;
    var s, p := StateAt(full, k, t), Pages(full)[t];
    assert ExactAt(s, Pages(full), s.fastIndex[p]);
  }

  /** The counter of the page accessed last is at -1 exactly when that page is spent. */
  lemma {:induction false} SpentIff(full: seq<Access>, k: nat, t: nat)
    requires k > 0 && 0 < t <= |full| && RestartsSafely(full, k, t)
    ensures CounterOf(full, k, t, Pages(full)[t - 1]) == Some(-1) <==> Spent(full, k, t)
  {
    hide Step, Inv, StateAt, CounterOf, ExactBefore, Hits, SafeAt;
    RunExactIff(full, k, t - 1);
    CounterAfterUse(full, k, t - 1);
    if t == 1 {
    } else {
      SpentIff(full, k, t - 1);
    }
  }

  /** The page accessed last is spent, another one is accessed, and one of the two is used again. */
  ghost predicate GoesWrong(full: seq<Access>, k: nat, t: nat)
    requires k > 0 && t < |full|
  {
    var pages := Pages(full);
    Spent(full, k, t) && pages[t] != pages[t - 1]
    && (pages[t - 1] in pages[t + 1..] || pages[t] in pages[t + 1..])
  }

  lemma SafeAtIff(full: seq<Access>, k: nat, t: nat)
    requires k > 0 && t < |full| && RestartsSafely(full, k, t)
    ensures SafeAt(full, k, t) <==> !GoesWrong(full, k, t)
  {
    hide Step, ExactBefore, Belady.NextUse;
    RunExactIff(full, k, t);
    var s, pages := StateAt(full, k, t), Pages(full);
    if t > 0 {
      SpentIff(full, k, t);
    }
    if GoesWrong(full, k, t) {
      assert !RestartIsSafeFor(s, pages, s.fastIndex[pages[t - 1]]);
    } else {
      forall i | 0 <= i < |s.frames| && s.frames[i].inUse
        ensures RestartIsSafeFor(s, pages, i)
      {
        if s.frames[i].untilUse == Some(-1) {
          SpentCounterWasHit(full, k, t, i);
          assert CounterOf(full, k, t, pages[t - 1]) == Some(-1);
        }
      }
    }
  }

  /** The counters of a run are exact at every decision, exactly when it never goes wrong. */
  lemma {:induction false} RestartsSafelyIff(full: seq<Access>, k: nat, n: nat)
    requires k > 0 && n <= |full|
    ensures RestartsSafely(full, k, n) <==> forall t :: 0 <= t < n ==> !GoesWrong(full, k, t)
  {
    hide SafeAt, GoesWrong;
    if n == 0 {
    } else {
      RestartsSafelyIff(full, k, n - 1);
      if RestartsSafely(full, k, n - 1) {
        SafeAtIff(full, k, n - 1);
      }
    }
  }

  // ----- Conditions on the trace alone -----

  /** `Spent`, in a memory where a page once accessed stays. */
  predicate SpentOnTrace(pages: seq<int>, t: nat)
    requires t <= |pages|
  {
    t > 0 && pages[t - 1] in pages[..t - 1]
    && !(t > 1 && pages[t - 2] == pages[t - 1] && SpentOnTrace(pages, t - 1))
  }

  /** A page has been accessed an even number of times in a row, or an odd number if it had been
      accessed before those; and it, or the page accessed next, is used again later. */
  predicate GoesWrongOnTrace(pages: seq<int>, t: nat)
    requires t < |pages|
  {
    SpentOnTrace(pages, t) && pages[t] != pages[t - 1]
    && (pages[t - 1] in pages[t + 1..] || pages[t] in pages[t + 1..])
  }

  lemma {:induction false} SpentOnTraceIff(full: seq<Access>, k: nat, t: nat)
    requires k > 0 && t <= |full| && |Seen(Pages(full), t)| <= k
    ensures Spent(full, k, t) <==> SpentOnTrace(Pages(full), t)
  {
    hide StateAt;
    if t == 0 {
    } else {
      SeenGrows(Pages(full), t - 1, t);
      ResidentIsSeen(full, k, t - 1);
      SeenIsPrefix(Pages(full), t - 1, Pages(full)[t - 1]);
      SpentOnTraceIff(full, k, t - 1);
    }
  }

  /** With no more pages in the trace than frames, a run keeps exact counters exactly when the
      trace never goes wrong. */
  lemma RoomyRunIsSafeIff(full: seq<Access>, k: nat)
    requires k > 0 && |Seen(Pages(full), |full|)| <= k
    ensures RestartsSafely(full, k, |full|)
       <==> forall t :: 0 <= t < |full| ==> !GoesWrongOnTrace(Pages(full), t)
  {
    hide RestartsSafely, Spent, SpentOnTrace, Seen;
    RestartsSafelyIff(full, k, |full|);
    forall t | 0 <= t < |full|
      ensures GoesWrong(full, k, t) <==> GoesWrongOnTrace(Pages(full), t)
    {
      SeenGrows(Pages(full), t, |full|);
      SpentOnTraceIff(full, k, t);
    }
  }

  /** Whenever a page is used again, the next access is to the same page, or neither of the two
      is used after that. */
  predicate Quiet(pages: seq<int>) {
    forall t :: 0 < t < |pages| && pages[t - 1] in pages[..t - 1] && pages[t] != pages[t - 1] ==>
      pages[t - 1] !in pages[t + 1..] && pages[t] !in pages[t + 1..]
  }

  /** On a quiet trace no run, with however many frames, takes the restarting branch unsafely. */
  lemma QuietTraceRestartsSafely(full: seq<Access>, k: nat, n: nat)
    requires k > 0 && n <= |full| && Quiet(Pages(full))
    ensures RestartsSafely(full, k, n)
  {
    hide StateAt;
    RestartsSafelyIff(full, k, n);
    forall t | 0 <= t < n
      ensures !GoesWrong(full, k, t)
    {
      if Spent(full, k, t) {
        ResidentWasUsed(full, k, t - 1, Pages(full)[t - 1]);
      }
    }
  }

  // ----- When a modification is lost -----

  /** Frames are free exactly while fewer pages have been accessed than there are frames. */
  lemma {:induction false} RoomIff(full: seq<Access>, k: nat, t: nat)
    requires k > 0 && t <= |full|
    ensures FirstFree(StateAt(full, k, t).frames, 0) < k <==> |Seen(Pages(full), t)| < k
  {
    hide Step, Inv, FirstFree, StateAt, Resident;
    RoomIsResident(full, k, t);
    if |Seen(Pages(full), t)| <= k {
      ResidentIsSeen(full, k, t);
    } else if t == 0 {
    } else {
      RoomIff(full, k, t - 1);
      SeenByOne(Pages(full), t);
      RoomIsResident(full, k, t - 1);
      StepStaysFull(StateAt(full, k, t - 1), full, k);
      StateAtSteps(full, k, t);
    }
  }

  lemma RoomIsResident(full: seq<Access>, k: nat, t: nat)
    requires k > 0 && t <= |full|
    ensures FirstFree(StateAt(full, k, t).frames, 0) == |Resident(StateAt(full, k, t))| <= k
    ensures Inv(StateAt(full, k, t), full, k)
  {
    hide Step, FirstFree, StateAt, Resident;
    ResidentSize(StateAt(full, k, t));
  }

  lemma SeenByOne(pages: seq<int>, t: nat)
    requires 0 < t <= |pages|
    ensures |Seen(pages, t)| <= |Seen(pages, t - 1)| + 1
  {
  }

  lemma StepStaysFull(s: State, full: seq<Access>, k: nat)
    requires Inv(s, full, k) && s.total < |full| && |Resident(s)| == k
    ensures |Resident(Step(s, full, k))| == k
  {
    hide Belady.NextUse, VictimScan, UseList, LastMatch, TickAll, Fault, FirstFree, Victim;
    AdvanceKeepsUses(s, full, k);
    AdvanceKeepsTable(s);
    var m, a := Advance(s), s.trace[0];
    assert a.vpn == Pages(full)[s.total] && a.vpn in Pages(full);
    TableIsReady(m, a);
    ServeResident(m, a);
    if a.vpn !in Resident(m) {
      ResidentSize(m);
      FullTableIsEvictable(m);
      assert m.frames[Victim(m.frames)].vpn.value in Resident(m);
    }
  }

  /** Access `t` writes page 0 while there is room, and page 0 was first read. */
  ghost predicate MarksFreeFrame(full: seq<Access>, k: nat, t: nat)
    requires t < |full|
  {
    var pages := Pages(full);
    var first := NextUse(pages, 0, 0);
    && full[t] == Access(0, true) && |Seen(pages, t)| < k
    && first < t && !full[first].write
  }

  /** Page 0 has the modification, if any, of its first access. */
  ghost predicate ZeroAsLoaded(s: State, full: seq<Access>) {
    0 in s.fastIndex && s.fastIndex[0] < |s.frames| ==>
      var first := NextUse(Pages(full), 0, 0);
      first < s.total <= |full| && s.frames[s.fastIndex[0]].dirty == full[first].write
  }

  lemma HitKeepsZero(m: State, a: Access)
    requires TableOk(m) && a.vpn in m.fastIndex && FirstFree(m.frames, 0) < |m.frames|
    ensures Ready(m, a) && Hit(m, a).fastIndex == m.fastIndex && |Hit(m, a).frames| == |m.frames|
    ensures 0 in m.fastIndex ==> Hit(m, a).frames[m.fastIndex[0]].dirty == m.frames[m.fastIndex[0]].dirty
  {
    hide FirstFree;
    ScanAgreesIff(m, a.vpn);
  }

  lemma FaultKeepsZero(m: State, a: Access)
    requires TableOk(m) && |m.frames| > 0 && a.vpn in m.uses && |m.uses[a.vpn]| > 0
    requires a.vpn !in m.fastIndex && FirstFree(m.frames, 0) < |m.frames|
    ensures Ready(m, a)
    ensures var m' := Fault(m, a);
      0 in m'.fastIndex && m'.fastIndex[0] < |m'.frames| ==>
        if a.vpn == 0 then m'.frames[m'.fastIndex[0]].dirty == a.write
        else 0 in m.fastIndex && m'.frames[m'.fastIndex[0]].dirty == m.frames[m.fastIndex[0]].dirty
  {
    hide Fault, Evictable, Victim, TimeUntilNextAccess, FirstFree;
    FaultShape(m, a);
  }

  lemma StepKeepsZero(s: State, full: seq<Access>, k: nat)
    requires Inv(s, full, k) && s.total < |full| && FirstFree(s.frames, 0) < k
    requires ZeroAsLoaded(s, full)
    requires 0 in Resident(s) <==> NextUse(Pages(full), 0, 0) < s.total
    ensures ZeroAsLoaded(Step(s, full, k), full)
  {
    hide Belady.NextUse, UseList, Evictable, Victim, TimeUntilNextAccess, Fault, Hit, FirstFree, LastMatch;
    AdvanceKeepsUses(s, full, k);
    AdvanceKeepsTable(s);
    var m, a := Advance(s), s.trace[0];
    assert a == full[s.total] && a.vpn == Pages(full)[s.total] && a.vpn in Pages(full);
    NextUseIsFirst(Pages(full), 0, 0);
    var refresh :| m.frames == TickAll(s.frames, refresh);
    TickKeepsUse(s.frames, refresh, 0);
    if a.vpn in m.fastIndex {
      HitKeepsZero(m, a);
    } else {
      FaultKeepsZero(m, a);
    }
  }

  lemma SeenIff(full: seq<Access>, k: nat, t: nat)
    requires k > 0 && t <= |full| && |Seen(Pages(full), t)| <= k
    ensures 0 in Resident(StateAt(full, k, t)) <==> NextUse(Pages(full), 0, 0) < t
  {
    hide StateAt, Resident;
    var pages := Pages(full);
    ResidentIsSeen(full, k, t);
    SeenIsPrefix(pages, t, 0);
    NextUseIsFirst(pages, 0, 0);
    var first := NextUse(pages, 0, 0);
    assert first < t ==> pages[..t][first] == 0;
  }

  lemma {:induction false} ZeroStaysAsLoaded(full: seq<Access>, k: nat, t: nat)
    requires k > 0 && t <= |full| && |Seen(Pages(full), t)| < k
    ensures ZeroAsLoaded(StateAt(full, k, t), full)
  {
    hide Step, Inv, FirstFree, Seen;
    StateAtSteps(full, k, t);
    if t == 0 {
    } else {
      SeenGrows(Pages(full), t - 1, t);
      ZeroStaysAsLoaded(full, k, t - 1);
      RoomIff(full, k, t - 1);
      SeenIff(full, k, t - 1);
      StepKeepsZero(StateAt(full, k, t - 1), full, k);
    }
  }

  lemma MisplacedIff(full: seq<Access>, k: nat, t: nat)
    requires k > 0 && t < |full|
    ensures Misplaced(StateAt(full, k, t), full[t]) && Dirties(StateAt(full, k, t), full[t]) == 1
       <==> MarksFreeFrame(full, k, t)
  {
    hide Step, FirstFree, StateAt, Belady.NextUse, Seen;
    RoomIff(full, k, t);
    if |Seen(Pages(full), t)| < k {
      SeenIff(full, k, t);
      ZeroStaysAsLoaded(full, k, t);
    }
  }

  /** Every modification of a resident page is written once or still pending, if and only if the
      trace does not write page 0, first read, while there is room. */
  lemma WritesAreConservedIff(full: seq<Access>, k: nat, t: nat)
    requires k > 0 && t <= |full|
    ensures Accounted(StateAt(full, k, t)) == Dirtied(full, k, t)
       <==> forall j :: 0 <= j < t ==> !MarksFreeFrame(full, k, j)
  {
    hide Accounted, StateAt, Misplaced, Dirties, MarksFreeFrame;
    ConservedIff(full, k, t);
    forall j | 0 <= j < t
      ensures Misplaced(StateAt(full, k, j), full[j]) && Dirties(StateAt(full, k, j), full[j]) == 1
         <==> MarksFreeFrame(full, k, j)
    {
      MisplacedIff(full, k, j);
    }
  }
}
