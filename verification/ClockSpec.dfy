/** The Clock simulator as a function from state to state, and the policy it refines. */
module ClockSpec {
  import opened Options
  import opened Paging
  import opened SecondChance

  datatype Frame = Frame(vpn: int, inUse: bool, dirty: bool, reference: bool, ppn: nat)

  datatype State = State(frames: seq<Frame>, pointer: nat, faults: nat, writes: nat)

  function Refs(frames: seq<Frame>): (r: seq<bool>)
    ensures |r| == |frames|
  {
    seq(|frames|, i requires 0 <= i < |frames| => frames[i].reference)
  }

  function DirtyBits(frames: seq<Frame>): (r: seq<bool>)
    ensures |r| == |frames|
  {
    seq(|frames|, i requires 0 <= i < |frames| => frames[i].dirty)
  }

  function WithRefs(frames: seq<Frame>, refs: seq<bool>): (r: seq<Frame>)
    requires |frames| == |refs|
    ensures |r| == |frames|
  {
    seq(|frames|, i requires 0 <= i < |frames| => frames[i].(reference := refs[i]))
  }

  /** Put `a`'s page in a frame, or note its use there. */
  function Touch(f: Frame, a: Access): Frame {
    var g := f.(inUse := true, vpn := a.vpn);
    if a.write then g.(dirty := true) else g.(reference := true)
  }

  function FirstMatch(frames: seq<Frame>, vpn: int, i: nat): (k: nat)
    requires i <= |frames|
    ensures i <= k <= |frames|
    ensures k < |frames| ==> !frames[k].inUse || frames[k].vpn == vpn
    ensures forall j :: i <= j < k ==> frames[j].inUse && frames[j].vpn != vpn
    decreases |frames| - i
  {
    if i == |frames| || !frames[i].inUse || frames[i].vpn == vpn then i else FirstMatch(frames, vpn, i + 1)
  }

  predicate DirtyUnreferenced(f: Frame) { f.dirty && !f.reference }

  function Clean(f: Frame): Frame {
    if DirtyUnreferenced(f) then f.(dirty := false) else f
  }

  /** The flush daemon: clean every dirty frame that is not referenced. */
  function Flush(frames: seq<Frame>): (r: seq<Frame>)
    ensures |r| == |frames|
  {
    seq(|frames|, i requires 0 <= i < |frames| => Clean(frames[i]))
  }

  /** How many frames the daemon cleans among the first `n`. */
  function FlushCount(frames: seq<Frame>, n: nat): nat
    requires n <= |frames|
  {
    if n == 0 then 0 else FlushCount(frames, n - 1) + if DirtyUnreferenced(frames[n - 1]) then 1 else 0
  }

  /** The first search for a victim fails on a dirty victim, and when every frame is referenced. */
  predicate NeedsFlush(s: State)
    requires s.pointer < |s.frames|
  {
    s.frames[Sweep(Refs(s.frames), s.pointer).1].dirty || CountTrue(Refs(s.frames)) == |s.frames|
  }

  /** A full table and a page that is not in it. */
  function Replace(s: State, a: Access): State
    requires s.pointer < |s.frames|
  {
    var (refs, v) := Sweep(Refs(s.frames), s.pointer);
    var swept := WithRefs(s.frames, refs);
    var cleaned := if NeedsFlush(s) then Flush(swept) else swept;
    var cost := if NeedsFlush(s) then FlushCount(swept, |swept|) else 0;
    var freed := cleaned[v].(inUse := false, dirty := false);
    State(cleaned[v := Touch(freed, a)], v, s.faults + 1, s.writes + cost)
  }

  function Serve(s: State, a: Access): State
    requires s.pointer < |s.frames|
  {
    var i := FirstMatch(s.frames, a.vpn, 0);
    if i < |s.frames| then s.(frames := s.frames[i := Touch(s.frames[i], a)]) else Replace(s, a)
  }

  // ----- The invariant -----

  ghost predicate Inv(s: State) {
    && s.pointer < |s.frames|
    && (forall i :: 0 <= i < |s.frames| ==> s.frames[i].ppn == i)
    && (forall i, j :: 0 <= i < j < |s.frames| && s.frames[j].inUse ==>
          s.frames[i].inUse && s.frames[i].vpn != s.frames[j].vpn)
    && (forall i :: 0 <= i < |s.frames| && !s.frames[i].inUse ==> !s.frames[i].dirty && !s.frames[i].reference)
  }

  function Start(n: nat): State {
    State(seq(n, (i: nat) => Frame(0, false, false, false, i)), 0, 0, 0)
  }

  /** The same access by access, for a whole trace. */
  function StateAt(trace: seq<Access>, n: nat, t: nat): (s: State)
    requires n > 0 && t <= |trace|
    ensures Inv(s) && |s.frames| == n
  {
    if t == 0 then Start(n)
    else
      ServeKeepsInv(StateAt(trace, n, t - 1), trace[t - 1]);
      Serve(StateAt(trace, n, t - 1), trace[t - 1])
  }

  /** Replacing touches the identity of the victim's frame only. */
  lemma ReplaceShape(s: State, a: Access)
    requires s.pointer < |s.frames|
    ensures var s', v := Replace(s, a), Sweep(Refs(s.frames), s.pointer).1;
      && |s'.frames| == |s.frames| && s'.pointer == v
      && s'.frames[v] == Frame(a.vpn, true, a.write, !a.write, s.frames[v].ppn)
      && (forall i :: 0 <= i < |s.frames| && i != v ==>
            && s'.frames[i].vpn == s.frames[i].vpn && s'.frames[i].inUse == s.frames[i].inUse
            && s'.frames[i].ppn == s.frames[i].ppn)
  {
    hide CountTrue;
  }

  lemma ServeKeepsInv(s: State, a: Access)
    requires Inv(s)
    ensures Inv(Serve(s, a)) && |Serve(s, a).frames| == |s.frames|
  {
    hide Replace;
    if FirstMatch(s.frames, a.vpn, 0) == |s.frames| {
      ReplaceShape(s, a);
    }
  }

  // ----- The policy -----

  /** What is left of a state when the dirty bits are forgotten. */
  function Abstract(s: State): Memory {
    Memory(PagesOf(s.frames), Refs(s.frames), s.pointer)
  }

  function PagesOf(frames: seq<Frame>): (r: seq<Option<int>>)
    ensures |r| == |frames|
  {
    seq(|frames|, i requires 0 <= i < |frames| => if frames[i].inUse then Some(frames[i].vpn) else None)
  }

  /** Where the policy finds the page, or room for it, the clock does. */
  lemma MatchIsHitOrFree(s: State, a: Access)
    requires Inv(s)
    ensures s.pointer < |s.frames|
    ensures var n, i := |s.frames|, FirstMatch(s.frames, a.vpn, 0);
      var hit, free := IndexOf(PagesOf(s.frames), Some(a.vpn), 0), IndexOf(PagesOf(s.frames), None, 0);
      if i == n then hit == n && free == n
      else if s.frames[i].inUse then hit == i
      else hit == n && free == i && !s.frames[i].reference
  {
    var n, pages, i := |s.frames|, PagesOf(s.frames), FirstMatch(s.frames, a.vpn, 0);
    if i < n && s.frames[i].inUse {
      assert pages[i] == Some(a.vpn);
    } else if i < n {
      assert pages[i] == None;
      assert forall j :: i <= j < n ==> !s.frames[j].inUse;
    } else {
      assert forall j :: 0 <= j < n ==> s.frames[j].inUse && s.frames[j].vpn != a.vpn;
    }
  }

  /** The clock, its dirty bits and its flush daemon, decides as plain second chance does. */
  lemma ServeRefines(s: State, a: Access)
    requires Inv(s)
    ensures Abstract(Serve(s, a)) == SecondChance.Serve(Abstract(s), a)
  {
    hide CountTrue, Sweep, FirstMatch, IndexOf, Inv;
    MatchIsHitOrFree(s, a);
    var s', m' := Serve(s, a), SecondChance.Serve(Abstract(s), a);
    assert Abstract(s').pages == m'.pages;
    assert Abstract(s').refs == m'.refs;
  }

  /** Plain second chance over a trace, from `n` free frames. */
  function MemoryAt(trace: seq<Access>, n: nat, t: nat): (m: Memory)
    requires n > 0 && t <= |trace|
    ensures |m.pages| == |m.refs| == n && m.hand < n
  {
    if t == 0 then Memory(seq(n, _ => None), seq(n, _ => false), 0)
    else SecondChance.Serve(MemoryAt(trace, n, t - 1), trace[t - 1])
  }

  /** Access by access the clock keeps the pages, references and hand of plain second chance. */
  lemma {:induction false} RunRefines(trace: seq<Access>, n: nat, t: nat)
    requires n > 0 && t <= |trace|
    ensures Abstract(StateAt(trace, n, t)) == MemoryAt(trace, n, t)
  {
    hide Serve, SecondChance.Serve, Inv;
    if t == 0 {
      assert Abstract(Start(n)).pages == MemoryAt(trace, n, 0).pages;
    } else {
      RunRefines(trace, n, t - 1);
      ServeRefines(StateAt(trace, n, t - 1), trace[t - 1]);
    }
  }

  // ----- Dirty pages and disk writes -----

  /** 1 if this access turns a resident page from clean to dirty. */
  function Dirties(s: State, a: Access): nat {
    var i := FirstMatch(s.frames, a.vpn, 0);
    if a.write && (i < |s.frames| ==> !s.frames[i].dirty) then 1 else 0
  }

  function Dirtied(trace: seq<Access>, n: nat, t: nat): nat
    requires n > 0 && t <= |trace|
  {
    if t == 0 then 0 else Dirtied(trace, n, t - 1) + Dirties(StateAt(trace, n, t - 1), trace[t - 1])
  }

  function Accounted(s: State): nat {
    s.writes + CountTrue(DirtyBits(s.frames))
  }

  lemma {:induction false} FlushCleans(frames: seq<Frame>, n: nat)
    requires n <= |frames|
    ensures CountTrue(DirtyBits(Flush(frames))[..n]) + FlushCount(frames, n)
         == CountTrue(DirtyBits(frames)[..n])
  {
    if n == 0 {
    } else {
      FlushCleans(frames, n - 1);
      var before, after := DirtyBits(frames), DirtyBits(Flush(frames));
      assert before[..n][..n - 1] == before[..n - 1] && after[..n][..n - 1] == after[..n - 1];
    }
  }

  lemma ServeConserves(s: State, a: Access)
    requires Inv(s)
    ensures Accounted(Serve(s, a)) == Accounted(s) + Dirties(s, a)
  {
    hide CountTrue, Sweep, FlushCount;
    var n := |s.frames|;
    var s' := Serve(s, a);
    var i := FirstMatch(s.frames, a.vpn, 0);
    var before := DirtyBits(s.frames);
    if i < n {
      assert DirtyBits(s'.frames) == before[i := before[i] || a.write];
      CountTrueUpdate(before, i, before[i] || a.write);
    } else {
      var (refs, v) := Sweep(Refs(s.frames), s.pointer);
      var swept := WithRefs(s.frames, refs);
      assert DirtyBits(swept) == before;
      var cleaned := if NeedsFlush(s) then Flush(swept) else swept;
      FlushCleans(swept, n);
      assert before[..n] == before && DirtyBits(Flush(swept))[..n] == DirtyBits(Flush(swept));
      assert !cleaned[v].dirty;
      assert DirtyBits(s'.frames) == DirtyBits(cleaned)[v := a.write];
      CountTrueUpdate(DirtyBits(cleaned), v, a.write);
    }
  }

  /** Over every run, each change of a resident page from clean to dirty is one disk write, or
      is still waiting in memory. */
  lemma {:induction false} WritesAreConserved(trace: seq<Access>, n: nat, t: nat)
    requires n > 0 && t <= |trace|
    ensures Accounted(StateAt(trace, n, t)) == Dirtied(trace, n, t)
  {
    hide Serve, Inv, Dirties;
    if t == 0 {
      CountTrueZero(DirtyBits(Start(n).frames));
    } else {
      WritesAreConserved(trace, n, t - 1);
      ServeConserves(StateAt(trace, n, t - 1), trace[t - 1]);
    }
  }
}
