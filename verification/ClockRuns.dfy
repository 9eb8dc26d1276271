/** What an access does to the bits, the hand and the counters of the Clock simulator, told from the
    frames before it; and what its fault count counts. */
module ClockRuns {
  import opened ClockSpec
  import opened Options
  import opened Paging
  import opened SecondChance

  /** Every frame is in use, for another page. */
  predicate FullMiss(s: State, vpn: int) {
    forall i :: 0 <= i < |s.frames| ==> s.frames[i].inUse && s.frames[i].vpn != vpn
  }

  /** The first unreferenced frame is `d` frames after the hand; there is none if `d` is the number
      of frames. */
  predicate FirstUnreferenced(s: State, d: nat)
    requires s.pointer < |s.frames|
  {
    var n := |s.frames|;
    && d <= n && (forall e :: 0 <= e < d ==> s.frames[Around(s.pointer, e, n)].reference)
    && (d < n ==> !s.frames[Around(s.pointer, d, n)].reference)
  }

  /** Frame `i` is among the `d` frames from the hand on. */
  predicate Passed(s: State, d: nat, i: nat)
    requires s.pointer < |s.frames| && d <= |s.frames|
  {
    exists e :: 0 <= e < d && Around(s.pointer, e, |s.frames|) == i
  }

  /** The daemon runs if all frames are referenced or the first that is not is dirty; it writes the
      dirty frames that are unreferenced by then. */
  predicate IsWritten(s: State, d: nat, i: nat)
    requires s.pointer < |s.frames| && d <= |s.frames| && i < |s.frames|
  {
    && (d == |s.frames| || s.frames[Around(s.pointer, d, |s.frames|)].dirty)
    && s.frames[i].dirty && (!s.frames[i].reference || Passed(s, d, i))
  }

  function WrittenBits(s: State, d: nat): (r: seq<bool>)
    requires s.pointer < |s.frames| && d <= |s.frames|
    ensures |r| == |s.frames| && forall i :: 0 <= i < |r| ==> r[i] == IsWritten(s, d, i)
  {
    seq(|s.frames|, i requires 0 <= i < |s.frames| => IsWritten(s, d, i))
  }

  lemma {:induction false} FlushCountIs(frames: seq<Frame>, n: nat, bits: seq<bool>)
    requires |bits| == n <= |frames|
    requires forall i :: 0 <= i < n ==> bits[i] == (frames[i].dirty && !frames[i].reference)
    ensures FlushCount(frames, n) == CountTrue(bits)
  {
    if n == 0 {
    } else {
      FlushCountIs(frames, n - 1, bits[..n - 1]);
    }
  }

  /** The hand's trip over a full table. */
  lemma SweepFrom(s: State, d: nat)
    requires s.pointer < |s.frames| && FirstUnreferenced(s, d)
    ensures var (refs, v) := Sweep(Refs(s.frames), s.pointer);
      && v == Around(s.pointer, d, |s.frames|)
      && forall i :: 0 <= i < |s.frames| ==> refs[i] == (s.frames[i].reference && !Passed(s, d, i))
  {
    SweepStopsAtFirst(Refs(s.frames), s.pointer, d);
  }

  lemma NeedsFlushIff(s: State, d: nat)
    requires s.pointer < |s.frames| && FirstUnreferenced(s, d)
    ensures NeedsFlush(s) <==> d == |s.frames| || s.frames[Around(s.pointer, d, |s.frames|)].dirty
  {
    var n := |s.frames|;
    SweepFrom(s, d);
    CountTrueFull(Refs(s.frames));
    if d == n {
      forall i | 0 <= i < n
        ensures s.frames[i].reference
      {
        IsAround(s.pointer, i, n);
      }
    } else {
      assert !Refs(s.frames)[Around(s.pointer, d, n)];
    }
  }

  lemma IsAround(hand: nat, i: nat, n: nat)
    requires hand < n && i < n
    ensures exists e :: 0 <= e < n && Around(hand, e, n) == i
  {
    var e := if hand <= i then i - hand else i + n - hand;
    assert Around(hand, e, n) == i;
  }

  /** A miss in a full table: the page goes where the hand stops; the frames passed lose their
      reference; what is dirty and unreferenced by then is written, if the daemon runs. */
  lemma MissShape(s: State, a: Access, d: nat)
    requires Inv(s) && FullMiss(s, a.vpn) && FirstUnreferenced(s, d)
    ensures var n, s' := |s.frames|, ClockSpec.Serve(s, a);
      var v := Around(s.pointer, d, n);
      && |s'.frames| == n && s'.pointer == v && s'.faults == s.faults + 1
      && s'.frames[v] == Frame(a.vpn, true, a.write, !a.write, v)
      && (forall i :: 0 <= i < n && i != v ==>
            s'.frames[i] == s.frames[i].(reference := s.frames[i].reference && !Passed(s, d, i),
                                         dirty := s.frames[i].dirty && !IsWritten(s, d, i)))
      && s'.writes == s.writes + CountTrue(WrittenBits(s, d))
  {
    hide Sweep, CountTrue, NeedsFlush, Passed;
    var n := |s.frames|;
    assert FirstMatch(s.frames, a.vpn, 0) == n;
    SweepFrom(s, d);
    NeedsFlushIff(s, d);
    var (refs, v) := Sweep(Refs(s.frames), s.pointer);
    var swept := WithRefs(s.frames, refs);
    if NeedsFlush(s) {
      FlushCountIs(swept, n, WrittenBits(s, d));
    } else {
      CountTrueZero(WrittenBits(s, d));
    }
  }

  /** If every frame is referenced, all dirty pages are written. */
  lemma AllReferencedMeansAllWritten(s: State, a: Access)
    requires Inv(s) && FullMiss(s, a.vpn) && forall i :: 0 <= i < |s.frames| ==> s.frames[i].reference
    ensures var s' := ClockSpec.Serve(s, a);
      && s'.writes == s.writes + CountTrue(DirtyBits(s.frames))
      && (forall i :: 0 <= i < |s'.frames| && i != s'.pointer ==> !s'.frames[i].dirty)
  {
    hide CountTrue, ClockSpec.Serve;
    var n := |s.frames|;
    MissShape(s, a, n);
    forall i | 0 <= i < n
      ensures Passed(s, n, i)
    {
      IsAround(s.pointer, i, n);
    }
    assert WrittenBits(s, n) == DirtyBits(s.frames);
  }

  /** If the first unreferenced frame is clean, nothing is written. */
  lemma CleanVictimMeansNoWrite(s: State, a: Access, d: nat)
    requires Inv(s) && FullMiss(s, a.vpn) && FirstUnreferenced(s, d) && d < |s.frames|
    requires !s.frames[Around(s.pointer, d, |s.frames|)].dirty
    ensures var s' := ClockSpec.Serve(s, a);
      && s'.writes == s.writes
      && (forall i :: 0 <= i < |s.frames| && i != s'.pointer ==> s'.frames[i].dirty == s.frames[i].dirty)
  {
    hide CountTrue, ClockSpec.Serve;
    MissShape(s, a, d);
    CountTrueZero(WrittenBits(s, d));
  }

  /** A hit, or a page put into the first free frame: only that frame changes. */
  lemma HitShape(s: State, a: Access, i: nat)
    requires Inv(s) && i < |s.frames|
    requires if s.frames[i].inUse then s.frames[i].vpn == a.vpn
             else forall j :: 0 <= j < |s.frames| ==>
                    (s.frames[j].inUse ==> s.frames[j].vpn != a.vpn) && (j < i ==> s.frames[j].inUse)
    ensures var f := s.frames[i];
      var f' := Frame(a.vpn, true, f.dirty || a.write, f.reference || !a.write, i);
      ClockSpec.Serve(s, a) == s.(frames := s.frames[i := f'])
  {
    var k := FirstMatch(s.frames, a.vpn, 0);
    assert k == i;
  }

  // ----- Faults -----

  /** How many of the first `t` accesses plain second chance must evict for. */
  ghost function Evictions(trace: seq<Access>, n: nat, t: nat): nat
    requires n > 0 && t <= |trace|
  {
    if t == 0 then 0
    else
      var pages := MemoryAt(trace, n, t - 1).pages;
      Evictions(trace, n, t - 1)
      + if None in pages || Some(trace[t - 1].vpn) in pages then 0 else 1
  }

  lemma FaultIff(s: State, a: Access)
    requires Inv(s)
    ensures ClockSpec.Serve(s, a).faults
         == s.faults + if None in PagesOf(s.frames) || Some(a.vpn) in PagesOf(s.frames) then 0 else 1
  {
    hide Sweep, CountTrue;
    var i := FirstMatch(s.frames, a.vpn, 0);
    if i < |s.frames| {
      assert PagesOf(s.frames)[i] == if s.frames[i].inUse then Some(a.vpn) else None;
    } else {
      assert forall j :: 0 <= j < |s.frames| ==> PagesOf(s.frames)[j] == Some(s.frames[j].vpn) != Some(a.vpn);
    }
  }

  /** The fault count of a run is that of the accesses that evict: filling a free frame is no fault. */
  lemma {:induction false} FaultsAreEvictions(trace: seq<Access>, n: nat, t: nat)
    requires n > 0 && t <= |trace|
    ensures StateAt(trace, n, t).faults == Evictions(trace, n, t)
  {
    hide ClockSpec.Serve, SecondChance.Serve, Inv, PagesOf;
    if t == 0 {
    } else {
      FaultsAreEvictions(trace, n, t - 1);
      RunRefines(trace, n, t - 1);
      FaultIff(StateAt(trace, n, t - 1), trace[t - 1]);
    }
  }
}
