/** Belady's replacement policy on an abstract page trace, and its optimality.

    A replacement policy is any sequence of resident sets that a demand-paged
    memory with `k` frames can go through: nothing is said about how the policy
    chooses, so it may look ahead, throw pages away early, or guess. */
module Belady {

  /** Index of the first access to `p` at or after `t`; `|trace| + 1` when there is none. */
  function NextUse(trace: seq<int>, p: int, t: nat): (u: nat)
    requires t <= |trace|
    ensures t <= u
    decreases |trace| - t
  {
    if t == |trace| then |trace| + 1
    else if trace[t] == p then t
    else NextUse(trace, p, t + 1)
  }

  lemma {:induction false} NextUseIsFirst(trace: seq<int>, p: int, t: nat)
    requires t <= |trace|
    ensures var u := NextUse(trace, p, t);
      || (u < |trace| && trace[u] == p && forall i :: t <= i < u ==> trace[i] != p)
      || (u == |trace| + 1 && forall i :: t <= i < |trace| ==> trace[i] != p)
    decreases |trace| - t
  {
    if t == |trace| || trace[t] == p {
    } else {
      NextUseIsFirst(trace, p, t + 1);
    }
  }

  /** One access of a demand-paged memory with `k` frames, under no particular policy. */
  ghost predicate PolicyStep(k: nat, p: int, before: set<int>, after: set<int>) {
    p in after && after <= before + {p} && |after| <= k
  }

  /** `caches[i]` is what the policy keeps resident just before access `i`. */
  ghost predicate IsPolicyRun(trace: seq<int>, k: nat, caches: seq<set<int>>) {
    && |caches| == |trace| + 1
    && caches[0] == {}
    && forall i :: 0 <= i < |trace| ==> PolicyStep(k, trace[i], caches[i], caches[i + 1])
  }

  /** Page faults among the first `t` accesses. */
  ghost function Faults(trace: seq<int>, caches: seq<set<int>>, t: nat): nat
    requires t <= |trace| <= |caches|
  {
    if t == 0 then 0
    else Faults(trace, caches, t - 1) + if trace[t - 1] in caches[t - 1] then 0 else 1
  }

  /** No page of `c` is needed later than `y`. */
  ghost predicate IsFarthest(trace: seq<int>, t: nat, c: set<int>, y: int)
    requires t <= |trace|
  {
    y in c && forall q :: q in c ==> NextUse(trace, q, t) <= NextUse(trace, y, t)
  }

  /** Belady's policy: keep everything on a hit, use a free frame if there is one,
      and otherwise replace a page that is needed farthest in the future. */
  ghost predicate BeladyStep(trace: seq<int>, k: nat, t: nat, before: set<int>, after: set<int>)
    requires t < |trace|
  {
    var p := trace[t];
    if p in before then after == before
    else if |before| < k then after == before + {p}
    else exists y :: IsFarthest(trace, t, before, y) && after == before - {y} + {p}
  }

  ghost predicate IsBeladyRun(trace: seq<int>, k: nat, caches: seq<set<int>>) {
    && |caches| == |trace| + 1
    && caches[0] == {}
    && forall i :: 0 <= i < |trace| ==> BeladyStep(trace, k, i, caches[i], caches[i + 1])
  }

  /** The pages of `c` that are needed again at or before time `h`. */
  ghost function Near(trace: seq<int>, c: set<int>, t: nat, h: int): set<int>
    requires t <= |trace|
  {
    set q | q in c && NextUse(trace, q, t) <= h
  }

  /** At horizon `h`, `a` holds at most `d` more soon-needed pages than `b`. */
  ghost predicate DominatesAt(trace: seq<int>, t: nat, b: set<int>, a: set<int>, d: int, h: int)
    requires t <= |trace|
  {
    |Near(trace, a, t, h)| <= |Near(trace, b, t, h)| + d
  }

  ghost predicate Dominates(trace: seq<int>, t: nat, b: set<int>, a: set<int>, d: int)
    requires t <= |trace|
  {
    forall h: int :: DominatesAt(trace, t, b, a, d, h)
  }

  lemma SubsetSize(a: set<int>, b: set<int>)
    requires a <= b
    ensures |a| <= |b|
  {
    assert b == a + (b - a);
  }

  lemma NearSplit(trace: seq<int>, c: set<int>, p: int, t: nat, h: int)
    requires t <= |trace|
    ensures |Near(trace, c, t, h)| == |Near(trace, c - {p}, t, h)|
                                    + if p in c && NextUse(trace, p, t) <= h then 1 else 0
  {
    var rest := Near(trace, c - {p}, t, h);
    if p in c && NextUse(trace, p, t) <= h {
      assert Near(trace, c, t, h) == rest + {p};
    } else {
      assert Near(trace, c, t, h) == rest;
    }
  }

  /** Serving access `t` changes the next use of the accessed page only. */
  lemma NearAcrossAccess(trace: seq<int>, c: set<int>, t: nat, h: int)
    requires t < |trace|
    ensures var p := trace[t]; var rest := |Near(trace, c - {p}, t, h)|;
      && |Near(trace, c, t, h)| == rest + (if p in c && t <= h then 1 else 0)
      && |Near(trace, c, t + 1, h)|
         == rest + (if p in c && NextUse(trace, p, t + 1) <= h then 1 else 0)
  {
    var p := trace[t];
    NearSplit(trace, c, p, t, h);
    NearSplit(trace, c, p, t + 1, h);
    forall q | q in c - {p}
      ensures NextUse(trace, q, t) == NextUse(trace, q, t + 1)
    {
    }
    assert Near(trace, c - {p}, t, h) == Near(trace, c - {p}, t + 1, h);
  }

  /** The exchange argument, as one forward step: whatever the other policy does, the
      faults it spends pay for any ground Belady's memory loses to it. */
  lemma DominanceStep(trace: seq<int>, k: nat, t: nat,
                      b: set<int>, b': set<int>, a: set<int>, a': set<int>, d: nat)
    requires t < |trace|
    requires BeladyStep(trace, k, t, b, b') && PolicyStep(k, trace[t], a, a')
    requires Dominates(trace, t, b, a, d)
    ensures var d' := d + (if trace[t] in a then 0 else 1) - (if trace[t] in b then 0 else 1);
      0 <= d' && Dominates(trace, t + 1, b', a', d')
  {
    hide NextUse, BeladyStep;
    var p := trace[t];
    var d' := d + (if p in a then 0 else 1) - (if p in b then 0 else 1);
    LeadIsPaid(trace, t, b, a, d);
    assert p in a' && p in b' by { AccessedIsKept(trace, k, t, b, b'); }
    var next := t + 1;
    forall h: int
      ensures DominatesAt(trace, next, b', a', d', h)
    {
      NearAcrossAccess(trace, a, t, h);
      NearAcrossAccess(trace, b, t, h);
      NearAcrossAccess(trace, a', t, h);
      NearAcrossAccess(trace, b', t, h);
      DominanceAtHorizon(trace, k, t, b, b', a, a', d, h);
    }
  }

  lemma AccessedIsKept(trace: seq<int>, k: nat, t: nat, b: set<int>, b': set<int>)
    requires t < |trace| && BeladyStep(trace, k, t, b, b')
    ensures trace[t] in b'
  {
  }

  /** Belady's memory faults where the other does not only while it has a lead in faults. */
  lemma LeadIsPaid(trace: seq<int>, t: nat, b: set<int>, a: set<int>, d: nat)
    requires t < |trace| && Dominates(trace, t, b, a, d)
    ensures 0 <= d + (if trace[t] in a then 0 else 1) - (if trace[t] in b then 0 else 1)
  {
    NearAcrossAccess(trace, a, t, t);
    NearAcrossAccess(trace, b, t, t);
    assert Near(trace, b - {trace[t]}, t, t) == {};
    assert DominatesAt(trace, t, b, a, d, t);
  }

  /** The same step at a single horizon, with the accessed page set aside. */
  lemma DominanceAtHorizon(trace: seq<int>, k: nat, t: nat,
                           b: set<int>, b': set<int>, a: set<int>, a': set<int>, d: nat, h: int)
    requires t < |trace|
    requires BeladyStep(trace, k, t, b, b') && PolicyStep(k, trace[t], a, a')
    requires Dominates(trace, t, b, a, d)
    requires 0 <= d + (if trace[t] in a then 0 else 1) - (if trace[t] in b then 0 else 1)
    ensures var p := trace[t];
      |Near(trace, a' - {p}, t, h)| <= |Near(trace, b' - {p}, t, h)|
        + d + (if p in a then 0 else 1) - (if p in b then 0 else 1)
  {
    hide NextUse, BeladyStep;
    var p := trace[t];
    var ra, ra' := Near(trace, a - {p}, t, h), Near(trace, a' - {p}, t, h);
    SubsetSize(ra', ra);
    if h < t {
      assert ra' == {};
    } else {
      assert DominatesAt(trace, t, b, a, d, h);
      NearAcrossAccess(trace, a, t, h);
      NearAcrossAccess(trace, b, t, h);
      BeladyKeepsNear(trace, k, t, b, b', h);
      SubsetSize(ra', a' - {p});
    }
  }

  /** Belady's memory loses no page that is needed by time `h`, or else it is full of such pages. */
  lemma BeladyKeepsNear(trace: seq<int>, k: nat, t: nat, b: set<int>, b': set<int>, h: int)
    requires t < |trace| && BeladyStep(trace, k, t, b, b')
    ensures var p := trace[t];
      || Near(trace, b' - {p}, t, h) == Near(trace, b - {p}, t, h)
      || (p !in b && |Near(trace, b' - {p}, t, h)| == |b| - 1 >= k - 1)
  {
    hide NextUse;
    var p := trace[t];
    if p in b || |b| < k {
      assert b' - {p} == b - {p};
    } else {
      var y :| IsFarthest(trace, t, b, y) && b' == b - {y} + {p};
      if h < NextUse(trace, y, t) {
        assert Near(trace, b' - {p}, t, h) == Near(trace, b - {p}, t, h);
      } else {
        assert Near(trace, b' - {p}, t, h) == b - {y};
      }
    }
  }

  /** Belady's policy is itself one that a memory with `k` frames can follow. */
  lemma {:induction false} BeladyIsAPolicy(trace: seq<int>, k: nat, caches: seq<set<int>>, t: nat)
    requires k > 0 && IsBeladyRun(trace, k, caches) && t <= |trace|
    ensures |caches[t]| <= k
    ensures t < |trace| ==> PolicyStep(k, trace[t], caches[t], caches[t + 1])
  {
    if t > 0 {
      BeladyIsAPolicy(trace, k, caches, t - 1);
    }
    if t < |trace| {
      assert BeladyStep(trace, k, t, caches[t], caches[t + 1]);
    }
  }

  lemma NothingToDominate(trace: seq<int>)
    ensures Dominates(trace, 0, {}, {}, 0)
  {
    forall h: int
      ensures DominatesAt(trace, 0, {}, {}, 0, h)
    {
    }
  }

  lemma {:induction false} DominanceAlongRuns(trace: seq<int>, k: nat,
                                              belady: seq<set<int>>, other: seq<set<int>>, t: nat)
    requires IsBeladyRun(trace, k, belady) && IsPolicyRun(trace, k, other)
    requires t <= |trace|
    ensures var d := Faults(trace, other, t) - Faults(trace, belady, t);
      0 <= d && Dominates(trace, t, belady[t], other[t], d)
  {
    hide BeladyStep, PolicyStep, Dominates;
    if t == 0 {
      NothingToDominate(trace);
    } else {
      var s := t - 1;
      var d := Faults(trace, other, s) - Faults(trace, belady, s);
      DominanceAlongRuns(trace, k, belady, other, s);
      assert BeladyStep(trace, k, s, belady[s], belady[s + 1]);
      assert PolicyStep(k, trace[s], other[s], other[s + 1]);
      DominanceStep(trace, k, s, belady[s], belady[t], other[s], other[t], d);
    }
  }

  /** Belady's policy faults no more often than any other policy, over every
      prefix of every trace and for every number of frames. */
  lemma BeladyIsOptimal(trace: seq<int>, k: nat, belady: seq<set<int>>, other: seq<set<int>>, t: nat)
    requires IsBeladyRun(trace, k, belady) && IsPolicyRun(trace, k, other)
    requires t <= |trace|
    ensures Faults(trace, belady, t) <= Faults(trace, other, t)
  {
    DominanceAlongRuns(trace, k, belady, other, t);
  }
}
