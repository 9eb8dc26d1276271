/** Belady's hits on a trace tell when the Opt simulator follows Belady's policy. */
module OptBelady {
  import opened Options
  import opened Paging
  import opened Belady
  import opened OptSpec
  import opened OptProps
  import opened OptTraces

  // ----- Belady's hits are determined by the trace -----

  /** The two memories are as full, and hold the same among the pages that are used again. */
  ghost predicate Agree(trace: seq<int>, t: nat, a: set<int>, b: set<int>)
    requires t <= |trace|
  {
    |a| == |b| && forall p :: NextUse(trace, p, t) < |trace| ==> (p in a <==> p in b)
  }

  lemma SameSize(a: set<int>, b: set<int>)
    requires a <= b && |a| == |b|
    ensures a == b
  {
    assert b == a + (b - a);
  }

  lemma NextUseAcross(trace: seq<int>, p: int, t: nat)
    requires t < |trace|
    ensures NextUse(trace, p, t) == if p == trace[t] then t else NextUse(trace, p, t + 1)
  {
  }

  /** If a page that is used again has to go, the memories are the same and so is the page. */
  lemma VictimsAgree(trace: seq<int>, t: nat, a: set<int>, b: set<int>, y: int, z: int)
    requires t <= |trace| && Agree(trace, t, a, b)
    requires IsFarthest(trace, t, a, y) && IsFarthest(trace, t, b, z)
    requires NextUse(trace, y, t) < |trace|
    ensures a == b && y == z
  {
    forall q | q in a
      ensures q in b
    {
      assert NextUse(trace, q, t) <= NextUse(trace, y, t);
    }
    SameSize(a, b);
    NextUseIsFirst(trace, y, t);
    NextUseIsFirst(trace, z, t);
  }

  lemma AgreeStep(trace: seq<int>, k: nat, t: nat, a: set<int>, a': set<int>, b: set<int>, b': set<int>)
    requires t < |trace| && Agree(trace, t, a, b)
    requires BeladyStep(trace, k, t, a, a') && BeladyStep(trace, k, t, b, b')
    ensures Agree(trace, t + 1, a', b')
  {
    hide NextUse, IsFarthest;
    var p := trace[t];
    NextUseAcross(trace, p, t);
    if p !in a && |a| >= k {
      var y :| IsFarthest(trace, t, a, y) && a' == a - {y} + {p};
      var z :| IsFarthest(trace, t, b, z) && b' == b - {z} + {p};
      AgreeAfterEvictions(trace, t, a, b, y, z);
      AgreeAfterAccess(trace, t, a - {y}, b - {z});
    } else {
      AgreeAfterAccess(trace, t, a, b);
    }
  }

  lemma AgreeAfterAccess(trace: seq<int>, t: nat, a: set<int>, b: set<int>)
    requires t < |trace| && Agree(trace, t, a, b)
    ensures Agree(trace, t + 1, a + {trace[t]}, b + {trace[t]})
  {
    hide NextUse;
    var p := trace[t];
    NextUseAcross(trace, p, t);
    forall q | q != p && NextUse(trace, q, t + 1) < |trace|
      ensures q in a <==> q in b
    {
      NextUseAcross(trace, q, t);
    }
    assert p in a ==> a + {p} == a;
    assert p in b ==> b + {p} == b;
  }

  lemma AgreeAfterEvictions(trace: seq<int>, t: nat, a: set<int>, b: set<int>, y: int, z: int)
    requires t <= |trace| && Agree(trace, t, a, b)
    requires IsFarthest(trace, t, a, y) && IsFarthest(trace, t, b, z)
    ensures Agree(trace, t, a - {y}, b - {z})
    ensures y in a && z in b
  {
    hide NextUse;
    if NextUse(trace, y, t) < |trace| {
      VictimsAgree(trace, t, a, b, y, z);
    } else if NextUse(trace, z, t) < |trace| {
      VictimsAgree(trace, t, b, a, z, y);
    }
  }

  /** As long as its restarts are safe, the simulator hits and misses where Belady's policy does. */
  lemma {:induction false} HitsAreBeladys(full: seq<Access>, k: nat, belady: seq<set<int>>, t: nat)
    requires k > 0 && t <= |full| && RestartsSafely(full, k, t)
    requires IsBeladyRun(Pages(full), k, belady)
    ensures Agree(Pages(full), t, Resident(StateAt(full, k, t)), belady[t])
  {
    hide Agree, StateAt, Inv, DecidesExactly, SafeAt, BeladyStep;
    if t == 0 {
      StartIsEmpty(full, k);
      AgreeAtStart(Pages(full));
    } else {
      HitsAreBeladys(full, k, belady, t - 1);
      RunExactIff(full, k, t);
      AccessIsBelady(full, k, t - 1);
      var a, a' := Resident(StateAt(full, k, t - 1)), Resident(StateAt(full, k, t));
      assert BeladyStep(Pages(full), k, t - 1, belady[t - 1], belady[t - 1 + 1]);
      AgreeStep(Pages(full), k, t - 1, a, a', belady[t - 1], belady[t]);
    }
  }

  lemma AgreeAtStart(trace: seq<int>)
    ensures Agree(trace, 0, {}, {})
  {
  }

  // ----- The exact condition -----

  /** `Spent`, told from Belady's hits. */
  ghost predicate SpentUnder(trace: seq<int>, belady: seq<set<int>>, t: nat)
    requires t <= |trace| < |belady|
  {
    t > 0 && trace[t - 1] in belady[t - 1]
    && !(t > 1 && trace[t - 2] == trace[t - 1] && SpentUnder(trace, belady, t - 1))
  }

  /** The page accessed last is spent, another one is accessed, and one of the two is used again. */
  ghost predicate GoesWrongUnder(trace: seq<int>, belady: seq<set<int>>, t: nat)
    requires t < |trace| < |belady|
  {
    SpentUnder(trace, belady, t) && trace[t] != trace[t - 1]
    && (trace[t - 1] in trace[t + 1..] || trace[t] in trace[t + 1..])
  }

  lemma {:induction false} SpentUnderIff(full: seq<Access>, k: nat, belady: seq<set<int>>, t: nat)
    requires k > 0 && t <= |full| && RestartsSafely(full, k, t)
    requires IsBeladyRun(Pages(full), k, belady)
    ensures Spent(full, k, t) <==> SpentUnder(Pages(full), belady, t)
  {
    hide StateAt, Inv, SafeAt, IsBeladyRun, NextUse;
    if t == 0 {
    } else {
      SpentUnderIff(full, k, belady, t - 1);
      HitsAreBeladys(full, k, belady, t - 1);
      NextUseAcross(Pages(full), Pages(full)[t - 1], t - 1);
    }
  }

  lemma GoesWrongUnderIff(full: seq<Access>, k: nat, belady: seq<set<int>>, t: nat)
    requires k > 0 && t < |full| && RestartsSafely(full, k, t)
    requires IsBeladyRun(Pages(full), k, belady)
    ensures GoesWrong(full, k, t) <==> GoesWrongUnder(Pages(full), belady, t)
  {
    hide StateAt, RestartsSafely, IsBeladyRun;
    SpentUnderIff(full, k, belady, t);
  }

  /** With any number of frames, the simulator's counters are exact at every decision, and its run
      is Belady's, exactly when Belady's hits on the trace never go wrong. */
  lemma {:induction false} RestartsSafelyIffOnTrace(full: seq<Access>, k: nat, belady: seq<set<int>>, n: nat)
    requires k > 0 && n <= |full| && IsBeladyRun(Pages(full), k, belady)
    ensures RestartsSafely(full, k, n) <==> forall t :: 0 <= t < n ==> !GoesWrongUnder(Pages(full), belady, t)
  {
    hide SafeAt, GoesWrong, GoesWrongUnder, BeladyStep;
    if n == 0 {
    } else {
      RestartsSafelyIffOnTrace(full, k, belady, n - 1);
      if RestartsSafely(full, k, n - 1) {
        SafeAtIff(full, k, n - 1);
        GoesWrongUnderIff(full, k, belady, n - 1);
      }
    }
  }

  // ----- Every trace has a run of Belady's policy -----

  lemma {:induction false} SomeFarthest(trace: seq<int>, t: nat, c: set<int>) returns (y: int)
    requires t <= |trace| && c != {}
    ensures IsFarthest(trace, t, c, y)
    decreases |c|
  {
    hide NextUse;
    SomeMember(c);
    var p :| p in c;
    if c == {p} {
      y := p;
    } else {
      y := SomeFarthest(trace, t, c - {p});
      if NextUse(trace, p, t) > NextUse(trace, y, t) {
        y := p;
      }
    }
  }

  lemma {:induction false} SomeBeladyRun(trace: seq<int>, k: nat, n: nat) returns (caches: seq<set<int>>)
    requires k > 0 && n <= |trace|
    ensures |caches| == n + 1 && caches[0] == {}
    ensures forall i :: 0 <= i < n ==> BeladyStep(trace, k, i, caches[i], caches[i + 1])
  {
    if n == 0 {
      caches := [{}];
    } else {
      var rest := SomeBeladyRun(trace, k, n - 1);
      var p, c := trace[n - 1], rest[n - 1];
      if p in c {
        caches := rest + [c];
      } else if |c| < k {
        caches := rest + [c + {p}];
      } else {
        var y := SomeFarthest(trace, n - 1, c);
        caches := rest + [c - {y} + {p}];
      }
    }
  }
}
