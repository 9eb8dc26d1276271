/** What runs of the Opt simulator promise: exact counters, Belady's optimum, conserved writes. */
module OptProps {
  import opened Options
  import opened Paging
  import opened Belady
  import opened OptSpec

  // ----- Runs -----

  function UsesOf(pages: seq<int>): map<int, seq<Option<nat>>> {
    map p | p in pages :: UseList(pages, p, 0)
  }

  /** The state after preprocessing, with `k` free frames. */
  function Start(full: seq<Access>, k: nat): (s: State)
    requires k > 0
    ensures Inv(s, full, k)
  {
    State(seq(k, _ => FREE_FRAME), map[], UsesOf(Pages(full)), full, 0, 0, 0)
  }

  /** The state just before access `t`. */
  function StateAt(full: seq<Access>, k: nat, t: nat): (s: State)
    requires k > 0 && t <= |full|
    ensures Inv(s, full, k) && s.total == t
  {
    if t == 0 then Start(full, k) else Step(StateAt(full, k, t - 1), full, k)
  }

  lemma StateAtSteps(full: seq<Access>, k: nat, t: nat)
    requires k > 0 && t <= |full|
    ensures if t == 0 then StateAt(full, k, 0) == Start(full, k)
            else StateAt(full, k, t) == Step(StateAt(full, k, t - 1), full, k)
    ensures t < |full| ==> StateAt(full, k, t + 1) == Step(StateAt(full, k, t), full, k)
  {
  }

  ghost function Resident(s: State): set<int> {
    s.fastIndex.Keys
  }

  /** What the simulator keeps in memory, access by access. */
  ghost function Caches(full: seq<Access>, k: nat): seq<set<int>>
    requires k > 0
  {
    seq(|full| + 1, t requires 0 <= t <= |full| => Resident(StateAt(full, k, t)))
  }

  /** Full means full: the resident pages are distinct, one to a frame in use. */
  lemma {:induction false} ResidentCount(s: State, n: nat)
    requires TableOk(s) && n <= |s.frames|
    requires forall i :: 0 <= i < |s.frames| ==> (s.frames[i].inUse <==> i < n)
    ensures |Resident(s)| == n
  {
    var below := PagesBelow(s, n);
    forall p
      ensures p in Resident(s) <==> p in below
    {
      if p in s.fastIndex {
        assert s.frames[s.fastIndex[p]].inUse;
      }
    }
    assert Resident(s) == below;
  }

  lemma {:induction false} PagesBelow(s: State, n: nat) returns (pages: set<int>)
    requires TableOk(s) && n <= |s.frames|
    requires forall i :: 0 <= i < n ==> s.frames[i].inUse
    ensures |pages| == n
    ensures forall p :: p in pages <==> p in s.fastIndex && s.fastIndex[p] < n
  {
    if n == 0 {
      pages := {};
    } else {
      var rest := PagesBelow(s, n - 1);
      var p := s.frames[n - 1].vpn.value;
      pages := rest + {p};
    }
  }

  lemma ResidentSize(s: State)
    requires TableOk(s)
    ensures |Resident(s)| == FirstFree(s.frames, 0) <= |s.frames|
  {
    ResidentCount(s, FirstFree(s.frames, 0));
  }

  // ----- Counters -----

  /** Frame `i` counts down to the next use of its page; -1 says it has just been used. */
  ghost predicate ExactAt(s: State, pages: seq<int>, i: nat)
    requires s.total <= |pages| && TableOk(s) && i < |s.frames| && s.frames[i].inUse
  {
    var p, c := s.frames[i].vpn.value, s.frames[i].untilUse.value;
    || c == NextUse(pages, p, s.total) - s.total
    || (c == -1 && s.total > 0 && pages[s.total - 1] == p)
  }

  ghost predicate Exact(s: State, pages: seq<int>)
    requires s.total <= |pages| && TableOk(s)
  {
    forall i :: 0 <= i < |s.frames| && s.frames[i].inUse ==> ExactAt(s, pages, i)
  }

  /** If frame `i` is about to restart its counter at this access, it holds the accessed page,
      or neither its page nor the accessed one is ever used again. */
  ghost predicate RestartIsSafeFor(s: State, pages: seq<int>, i: nat)
    requires s.total < |pages| && TableOk(s) && i < |s.frames| && s.frames[i].inUse
  {
    var p, a := s.frames[i].vpn.value, pages[s.total];
    s.frames[i].untilUse == Some(-1) ==>
      p == a || (p !in pages[s.total + 1..] && a !in pages[s.total + 1..])
  }

  ghost predicate RestartIsSafe(s: State, pages: seq<int>)
    requires s.total < |pages| && TableOk(s)
  {
    forall i :: 0 <= i < |s.frames| && s.frames[i].inUse ==> RestartIsSafeFor(s, pages, i)
  }

  lemma NeverAgain(pages: seq<int>, p: int, t: nat)
    requires t <= |pages|
    ensures NextUse(pages, p, t) == |pages| + 1 <==> p !in pages[t..]
    ensures NextUse(pages, p, t) < |pages| ==> pages[NextUse(pages, p, t)] == p
    ensures NextUse(pages, p, t) < |pages| || NextUse(pages, p, t) == |pages| + 1
  {
    NextUseIsFirst(pages, p, t);
    var u := NextUse(pages, p, t);
    if u < |pages| {
      assert pages[t..][u - t] == p;
    }
  }

  lemma TickExactIff(s: State, m: State, pages: seq<int>, i: nat)
    requires s.total < |pages| && m.total == s.total + 1
    requires TableOk(s) && TableOk(m)
    requires i < |s.frames| == |m.frames| && s.frames[i].inUse
    requires m.frames[i] == Tick(s.frames[i], NextUse(pages, pages[s.total], m.total) - m.total)
    requires ExactAt(s, pages, i)
    ensures ExactAt(m, pages, i) <==> RestartIsSafeFor(s, pages, i)
  {
    NeverAgain(pages, s.frames[i].vpn.value, m.total);
    NeverAgain(pages, pages[s.total], m.total);
  }

  /** Exactly when bringing the counters forward keeps them exact. */
  lemma AdvanceExactIff(s: State, full: seq<Access>, k: nat)
    requires Inv(s, full, k) && s.total < |full|
    requires Exact(s, Pages(full))
    ensures |s.trace| > 0 && Upcoming(s, s.trace[0].vpn) && TableOk(Advance(s))
    ensures Exact(Advance(s), Pages(full)) <==> RestartIsSafe(s, Pages(full))
  {
    hide Belady.NextUse, UseList;
    var pages := Pages(full);
    AdvanceKeepsUses(s, full, k);
    AdvanceKeepsTable(s);
    var m := Advance(s);
    assert s.trace[0].vpn == pages[s.total] && pages[s.total] in pages;
    forall i | 0 <= i < |s.frames|
      ensures m.frames[i] == Tick(s.frames[i], NextUse(pages, pages[s.total], m.total) - m.total)
      ensures m.frames[i].inUse == s.frames[i].inUse
      ensures s.frames[i].inUse ==> (ExactAt(m, pages, i) <==> RestartIsSafeFor(s, pages, i))
    {
      if s.frames[i].inUse {
        assert ExactAt(s, pages, i);
        TickExactIff(s, m, pages, i);
      }
    }
  }

  /** Serving the access, hit or fault, disturbs no counter but that of the page it loads. */
  lemma ServeKeepsExact(m: State, a: Access, pages: seq<int>)
    requires m.total <= |pages| && TableOk(m) && |m.frames| > 0 && Exact(m, pages)
    requires a.vpn in m.uses && |m.uses[a.vpn]| > 0
    requires TimeUntilNextAccess(m, a.vpn) == NextUse(pages, a.vpn, m.total) - m.total
    requires Ready(m, a) && TableOk(Serve(m, a))
    ensures Exact(Serve(m, a), pages)
  {
    hide Belady.NextUse, VictimScan, Fault, Evictable, Victim, TimeUntilNextAccess, FirstFree, LastMatch;
    if a.vpn !in m.fastIndex {
      FaultShape(m, a);
    }
    var s' := Serve(m, a);
    forall i | 0 <= i < |s'.frames| && s'.frames[i].inUse
      ensures ExactAt(s', pages, i)
    {
      assert m.frames[i].inUse ==> ExactAt(m, pages, i);
    }
  }

  lemma StepKeepsExact(s: State, full: seq<Access>, k: nat)
    requires Inv(s, full, k) && s.total < |full|
    requires |s.trace| > 0 && Upcoming(s, s.trace[0].vpn) && TableOk(Advance(s))
    requires Exact(Advance(s), Pages(full))
    ensures Exact(Step(s, full, k), Pages(full))
  {
    hide Belady.NextUse, VictimScan, UseList, Fault, Exact, FirstFree, LastMatch;
    AdvanceKeepsUses(s, full, k);
    var m, a := Advance(s), s.trace[0];
    assert a.vpn == Pages(full)[s.total] && a.vpn in Pages(full);
    TableIsReady(m, a);
    assert TableOk(Step(s, full, k));
    ServeKeepsExact(m, a, Pages(full));
  }

  /** At access `t`, after the counters are brought forward and before the page is looked up. */
  ghost predicate DecidesExactly(full: seq<Access>, k: nat, t: nat)
    requires k > 0 && t < |full|
  {
    var s := StateAt(full, k, t);
    AdvanceKeepsUses(s, full, k);
    AdvanceKeepsTable(s);
    Exact(Advance(s), Pages(full))
  }

  ghost predicate ExactBefore(full: seq<Access>, k: nat, t: nat)
    requires k > 0 && t <= |full|
  {
    Exact(StateAt(full, k, t), Pages(full))
  }

  ghost predicate SafeAt(full: seq<Access>, k: nat, t: nat)
    requires k > 0 && t < |full|
  {
    RestartIsSafe(StateAt(full, k, t), Pages(full))
  }

  /** No access before `n` takes the restarting branch unsafely. */
  ghost predicate RestartsSafely(full: seq<Access>, k: nat, n: nat)
    requires k > 0 && n <= |full|
  {
    n == 0 || (RestartsSafely(full, k, n - 1) && SafeAt(full, k, n - 1))
  }

  /** The counters are exact at each of the first `n` decisions. */
  ghost predicate AlwaysExact(full: seq<Access>, k: nat, n: nat)
    requires k > 0 && n <= |full|
  {
    n == 0 || (AlwaysExact(full, k, n - 1) && DecidesExactly(full, k, n - 1))
  }

  lemma {:induction false} AlwaysExactAt(full: seq<Access>, k: nat, n: nat, t: nat)
    requires k > 0 && t < n <= |full| && AlwaysExact(full, k, n)
    ensures DecidesExactly(full, k, t)
  {
    hide DecidesExactly;
    if t == n - 1 {
    } else {
      AlwaysExactAt(full, k, n - 1, t);
    }
  }

  lemma ExactStep(full: seq<Access>, k: nat, t: nat)
    requires k > 0 && t < |full| && ExactBefore(full, k, t)
    ensures DecidesExactly(full, k, t) <==> SafeAt(full, k, t)
    ensures DecidesExactly(full, k, t) ==> ExactBefore(full, k, t + 1)
  {
    var s := StateAt(full, k, t);
    AdvanceExactIff(s, full, k);
    if DecidesExactly(full, k, t) {
      StepKeepsExact(s, full, k);
    }
  }

  lemma NothingInUseAtStart(full: seq<Access>, k: nat)
    requires k > 0
    ensures ExactBefore(full, k, 0)
  {
  }

  /** The counters are exact at every decision of a run, exactly when no access of the run
      takes the restarting branch unsafely. */
  lemma {:induction false} RunExactIff(full: seq<Access>, k: nat, n: nat)
    requires k > 0 && n <= |full|
    ensures AlwaysExact(full, k, n) <==> RestartsSafely(full, k, n)
    ensures AlwaysExact(full, k, n) ==> ExactBefore(full, k, n)
  {
    hide DecidesExactly, SafeAt, ExactBefore;
    if n == 0 {
      NothingInUseAtStart(full, k);
    } else {
      RunExactIff(full, k, n - 1);
      if AlwaysExact(full, k, n - 1) {
        ExactStep(full, k, n - 1);
      }
    }
  }

  // ----- Belady -----

  /** How serving an access changes what is resident. */
  lemma ServeResident(m: State, a: Access)
    requires TableOk(m) && |m.frames| > 0 && a.vpn in m.uses && |m.uses[a.vpn]| > 0 && Ready(m, a)
    ensures
      if a.vpn in Resident(m) then Resident(Serve(m, a)) == Resident(m)
      else if |Resident(m)| < |m.frames| then
        FirstFree(m.frames, 0) < |m.frames| && Resident(Serve(m, a)) == Resident(m) + {a.vpn}
      else
        && FirstFree(m.frames, 0) == |m.frames| && Victim(m.frames) < |m.frames|
        && m.frames[Victim(m.frames)].vpn.Some?
        && Resident(Serve(m, a)) == Resident(m) - {m.frames[Victim(m.frames)].vpn.value} + {a.vpn}
  {
    ResidentSize(m);
    if a.vpn !in m.fastIndex {
      FaultShape(m, a);
    }
  }

  /** With exact counters, one access of the simulator is one access of Belady's policy. */
  lemma StepIsBelady(s: State, full: seq<Access>, k: nat)
    requires Inv(s, full, k) && s.total < |full|
    requires |s.trace| > 0 && Upcoming(s, s.trace[0].vpn) && TableOk(Advance(s))
    requires Exact(Advance(s), Pages(full))
    ensures BeladyStep(Pages(full), k, s.total, Resident(s), Resident(Step(s, full, k)))
  {
    hide Belady.NextUse, VictimScan, FirstFree, Exact;
    var pages, m, a := Pages(full), Advance(s), s.trace[0];
    assert a == full[s.total] && pages[s.total] == a.vpn && a.vpn in pages;
    TableIsReady(m, a);
    ServeResident(m, a);
    if a.vpn !in Resident(m) && |Resident(m)| >= |m.frames| {
      VictimIsFarthest(m, pages, s.total, a.vpn);
    }
  }

  /** The largest exact counter belongs to a page that is needed farthest in the future. */
  lemma VictimIsFarthest(m: State, pages: seq<int>, t: nat, p: int)
    requires t < |pages| && m.total == t + 1 && pages[t] == p
    requires TableOk(m) && Exact(m, pages) && p !in m.fastIndex
    requires FirstFree(m.frames, 0) == |m.frames| > 0
    ensures Victim(m.frames) < |m.frames| && m.frames[Victim(m.frames)].inUse
    ensures IsFarthest(pages, t, Resident(m), m.frames[Victim(m.frames)].vpn.value)
  {
    FullTableIsEvictable(m);
    var v := Victim(m.frames);
    var y := m.frames[v].vpn.value;
    forall q | q in Resident(m)
      ensures NextUse(pages, q, t) <= NextUse(pages, y, t)
    {
      var i := m.fastIndex[q];
      assert ExactAt(m, pages, i) && ExactAt(m, pages, v);
      assert NextUse(pages, q, t) == NextUse(pages, q, t + 1);
      assert NextUse(pages, y, t) == NextUse(pages, y, t + 1);
    }
  }

  lemma StepCountsFault(s: State, full: seq<Access>, k: nat)
    requires Inv(s, full, k) && s.total < |full|
    ensures Step(s, full, k).faults == s.faults + if Pages(full)[s.total] in Resident(s) then 0 else 1
  {
  }

  lemma {:induction false} FaultsAreCounted(full: seq<Access>, k: nat, t: nat)
    requires k > 0 && t <= |full|
    ensures StateAt(full, k, t).faults == Faults(Pages(full), Caches(full, k), t)
  {
    hide Step, Inv, Resident, StateAt;
    StateAtSteps(full, k, t);
    if t == 0 {
    } else {
      FaultsAreCounted(full, k, t - 1);
      StepCountsFault(StateAt(full, k, t - 1), full, k);
      assert Caches(full, k)[t - 1] == Resident(StateAt(full, k, t - 1));
    }
  }

  /** Whenever its counters stay exact, the simulator's fault count is the least that any
      replacement policy can reach on that trace with as many frames, at every moment. */
  lemma OptIsOptimal(full: seq<Access>, k: nat, other: seq<set<int>>, t: nat)
    requires k > 0 && t <= |full|
    requires RestartsSafely(full, k, |full|)
    requires IsPolicyRun(Pages(full), k, other)
    ensures IsPolicyRun(Pages(full), k, Caches(full, k))
    ensures StateAt(full, k, t).faults <= Faults(Pages(full), other, t)
  {
    var pages, caches := Pages(full), Caches(full, k);
    OptFollowsBelady(full, k);
    BeladyIsOptimal(pages, k, caches, other, t);
    FaultsAreCounted(full, k, t);
  }

  lemma OptFollowsBelady(full: seq<Access>, k: nat)
    requires k > 0 && RestartsSafely(full, k, |full|)
    ensures IsBeladyRun(Pages(full), k, Caches(full, k))
    ensures IsPolicyRun(Pages(full), k, Caches(full, k))
  {
    var pages, caches := Pages(full), Caches(full, k);
    RunExactIff(full, k, |full|);
    forall i | 0 <= i < |pages|
      ensures BeladyStep(pages, k, i, caches[i], caches[i + 1])
    {
      hide Belady.BeladyStep, RestartsSafely, AlwaysExact;
      AlwaysExactAt(full, k, |full|, i);
      AccessIsBelady(full, k, i);
    }
    hide Inv, StateAt, Belady.BeladyStep, Belady.PolicyStep, RestartsSafely, AlwaysExact;
    StartIsEmpty(full, k);
    forall i | 0 <= i < |pages|
      ensures PolicyStep(k, pages[i], caches[i], caches[i + 1])
    {
      BeladyIsAPolicy(pages, k, caches, i);
    }
  }

  lemma AccessIsBelady(full: seq<Access>, k: nat, t: nat)
    requires k > 0 && t < |full| && DecidesExactly(full, k, t)
    ensures BeladyStep(Pages(full), k, t, Resident(StateAt(full, k, t)), Resident(StateAt(full, k, t + 1)))
  {
    hide Belady.BeladyStep;
    var s := StateAt(full, k, t);
    AdvanceKeepsUses(s, full, k);
    AdvanceKeepsTable(s);
    StepIsBelady(s, full, k);
  }

  lemma StartIsEmpty(full: seq<Access>, k: nat)
    requires k > 0
    ensures Resident(StateAt(full, k, 0)) == {}
  {
  }
}
