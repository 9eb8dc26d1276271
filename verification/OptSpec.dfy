/** The Opt simulator as a function from state to state, and the invariant of its runs. */
module OptSpec {
  import opened Options
  import opened Paging
  import opened Belady

  datatype Frame = Frame(vpn: Option<int>, dirty: bool, inUse: bool, ppn: nat, untilUse: Option<int>)

  const FREE_FRAME := Frame(Some(0), false, false, 0, None)

  datatype State = State(
    frames: seq<Frame>,
    fastIndex: map<int, nat>,
    uses: map<int, seq<Option<nat>>>,
    trace: seq<Access>,
    total: nat,
    faults: nat,
    writes: nat)

  // ----- The steps of the simulator -----

  /** Accesses until `vpn` is needed again; `|trace| + 1`, "effectively never", at the end marker. */
  function TimeUntilNextAccess(s: State, vpn: int): int
    requires vpn in s.uses && |s.uses[vpn]| > 0
  {
    match s.uses[vpn][0]
    case None => |s.trace| + 1
    case Some(index) => index - s.total
  }

  /** A counter below -1 restarts from `refresh`, whichever page the frame holds. */
  function Tick(f: Frame, refresh: int): Frame {
    if f.inUse && f.untilUse.Some? then
      var c := f.untilUse.value - 1;
      f.(untilUse := Some(if c < -1 then refresh else c))
    else f
  }

  function TickAll(frames: seq<Frame>, refresh: int): (r: seq<Frame>)
    ensures |r| == |frames|
  {
    seq(|frames|, i requires 0 <= i < |frames| => Tick(frames[i], refresh))
  }

  predicate Upcoming(s: State, vpn: int) {
    vpn in s.uses && |s.uses[vpn]| >= 2
  }

  function UpdateCounters(s: State, vpn: int): State
    requires Upcoming(s, vpn)
  {
    var popped := s.(uses := s.uses[vpn := s.uses[vpn][1..]]);
    popped.(frames := TickAll(s.frames, TimeUntilNextAccess(popped, vpn)))
  }

  /** The scan for the victim over the first `n` frames: the PPN found so far, and its counter. */
  function VictimScan(frames: seq<Frame>, n: nat): (nat, int)
    requires n <= |frames|
  {
    if n == 0 then (0, 0)
    else
      var sofar := VictimScan(frames, n - 1);
      var f := frames[n - 1];
      if f.untilUse.Some? && f.untilUse.value > sofar.1 then (f.ppn, f.untilUse.value) else sofar
  }

  function Victim(frames: seq<Frame>): nat {
    VictimScan(frames, |frames|).0
  }

  predicate Evictable(s: State) {
    var v := Victim(s.frames);
    v < |s.frames| && s.frames[v].vpn.Some? && s.frames[v].vpn.value in s.fastIndex
  }

  function Evict(s: State): State
    requires Evictable(s)
  {
    var v := Victim(s.frames);
    var f := s.frames[v];
    s.(frames := s.frames[v := f.(inUse := false, vpn := None, untilUse := None)],
       fastIndex := s.fastIndex - {f.vpn.value},
       writes := s.writes + if f.dirty then 1 else 0)
  }

  /** Index of the first frame not in use among those from `i` on; `|frames|` when all are in use. */
  function FirstFree(frames: seq<Frame>, i: nat): (free: nat)
    requires i <= |frames|
    ensures i <= free <= |frames|
    ensures free < |frames| ==> !frames[free].inUse
    ensures forall j :: i <= j < free ==> frames[j].inUse
    decreases |frames| - i
  {
    if i == |frames| || !frames[i].inUse then i else FirstFree(frames, i + 1)
  }

  function Load(s: State, i: nat, a: Access): State
    requires i < |s.frames| && a.vpn in s.uses && |s.uses[a.vpn]| > 0
  {
    var f := Frame(Some(a.vpn), a.write, true, i, Some(TimeUntilNextAccess(s, a.vpn)));
    s.(frames := s.frames[i := f], fastIndex := s.fastIndex[a.vpn := i])
  }

  /** A page fault: load into the first free frame, or into the one the victim leaves. */
  function Fault(s: State, a: Access): State
    requires a.vpn in s.uses && |s.uses[a.vpn]| > 0
    requires FirstFree(s.frames, 0) == |s.frames| ==> Evictable(s)
  {
    var free := FirstFree(s.frames, 0);
    var counted := s.(faults := s.faults + 1);
    if free < |s.frames| then Load(counted, free, a)
    else Load(Evict(counted), Victim(s.frames), a)
  }

  /** Index of the last frame whose VPN field is `vpn`, in use or not. */
  function LastMatch(frames: seq<Frame>, vpn: int, n: nat): (r: Option<nat>)
    requires n <= |frames|
    ensures r.Some? ==> r.value < n && frames[r.value].vpn == Some(vpn)
    ensures r.Some? ==> forall j :: r.value < j < n ==> frames[j].vpn != Some(vpn)
    ensures r.None? ==> forall j :: 0 <= j < n ==> frames[j].vpn != Some(vpn)
  {
    if n == 0 then None
    else if frames[n - 1].vpn == Some(vpn) then Some(n - 1)
    else LastMatch(frames, vpn, n - 1)
  }

  function MarkDirty(s: State, i: nat): State
    requires i < |s.frames|
  {
    s.(frames := s.frames[i := s.frames[i].(dirty := true)])
  }

  /** On a hit, a write marks the frame that the linear scan finds. */
  function Hit(s: State, a: Access): State
    requires a.write ==> LastMatch(s.frames, a.vpn, |s.frames|).Some?
  {
    if a.write then MarkDirty(s, LastMatch(s.frames, a.vpn, |s.frames|).value) else s
  }

  predicate Ready(s: State, a: Access) {
    if a.vpn in s.fastIndex then a.write ==> LastMatch(s.frames, a.vpn, |s.frames|).Some?
    else && a.vpn in s.uses && |s.uses[a.vpn]| > 0
         && (FirstFree(s.frames, 0) == |s.frames| ==> Evictable(s))
  }

  function Serve(s: State, a: Access): State
    requires Ready(s, a)
  {
    if a.vpn in s.fastIndex then Hit(s, a) else Fault(s, a)
  }

  /** The state once the next access has been consumed and the counters brought forward. */
  function Advance(s: State): State
    requires |s.trace| > 0 && Upcoming(s, s.trace[0].vpn)
  {
    UpdateCounters(s.(trace := s.trace[1..], total := s.total + 1), s.trace[0].vpn)
  }

  // ----- The invariant of a run -----

  /** The remaining uses of `p` from `t` on, then the end marker. */
  function UseList(pages: seq<int>, p: int, t: nat): (r: seq<Option<nat>>)
    requires t <= |pages|
    ensures |r| > 0
    decreases |pages| - t
  {
    if t == |pages| then [None]
    else if pages[t] == p then [Some(t)] + UseList(pages, p, t + 1)
    else UseList(pages, p, t + 1)
  }

  /** `fastIndex` is the inverse of the frame table on the frames in use, and those come first. */
  ghost predicate TableOk(s: State) {
    && (forall i {:trigger s.frames[i]} :: 0 <= i < |s.frames| && s.frames[i].inUse ==>
          && s.frames[i].vpn.Some? && s.frames[i].untilUse.Some? && s.frames[i].ppn == i
          && s.frames[i].vpn.value in s.fastIndex && s.fastIndex[s.frames[i].vpn.value] == i)
    && (forall p :: p in s.fastIndex ==>
          && s.fastIndex[p] < |s.frames|
          && s.frames[s.fastIndex[p]].inUse && s.frames[s.fastIndex[p]].vpn == Some(p))
    && (forall i :: 0 <= i < |s.frames| && !s.frames[i].inUse ==> s.frames[i].vpn == Some(0))
    && (forall i, j :: 0 <= i < j < |s.frames| && s.frames[j].inUse ==> s.frames[i].inUse)
  }

  ghost predicate UsesOk(s: State, pages: seq<int>)
    requires s.total <= |pages|
  {
    && (forall p :: p in pages ==> p in s.uses)
    && (forall p :: p in s.uses ==> s.uses[p] == UseList(pages, p, s.total))
  }

  ghost predicate Inv(s: State, full: seq<Access>, k: nat) {
    && |s.frames| == k > 0
    && s.total <= |full| && s.trace == full[s.total..]
    && TableOk(s) && UsesOk(s, Pages(full))
  }

  lemma {:induction false} UseListHead(pages: seq<int>, p: int, t: nat)
    requires t <= |pages|
    ensures UseList(pages, p, t)[0]
         == if NextUse(pages, p, t) < |pages| then Some(NextUse(pages, p, t)) else None
    decreases |pages| - t
  {
    if t == |pages| || pages[t] == p {
    } else {
      UseListHead(pages, p, t + 1);
    }
  }

  /** `l` lists exactly the uses of `p` from `t` on, in increasing order, then the end marker. */
  ghost predicate ListsUses(l: seq<Option<nat>>, pages: seq<int>, p: int, t: nat) {
    && |l| > 0 && l[|l| - 1] == None
    && (forall i :: 0 <= i < |l| - 1 ==> l[i].Some? && t <= l[i].value < |pages| && pages[l[i].value] == p)
    && (forall i, j :: 0 <= i < j < |l| - 1 ==> l[i].value < l[j].value)
    && (forall u :: t <= u < |pages| && pages[u] == p ==> Some(u) in l)
  }

  lemma {:induction false} UseListIsTheUses(pages: seq<int>, p: int, t: nat)
    requires t <= |pages|
    ensures ListsUses(UseList(pages, p, t), pages, p, t)
    decreases |pages| - t
  {
    if t == |pages| {
    } else {
      UseListIsTheUses(pages, p, t + 1);
      if pages[t] == p {
        ListsOneMore(UseList(pages, p, t + 1), pages, p, t);
      }
    }
  }

  lemma ListsOneMore(tail: seq<Option<nat>>, pages: seq<int>, p: int, t: nat)
    requires t < |pages| && pages[t] == p && ListsUses(tail, pages, p, t + 1)
    ensures ListsUses([Some(t)] + tail, pages, p, t)
  {
  }

  /** Popping the head of the accessed page's list moves every list on by one access. */
  lemma AdvanceKeepsUses(s: State, full: seq<Access>, k: nat)
    requires Inv(s, full, k) && s.total < |full|
    ensures |s.trace| > 0 && Upcoming(s, s.trace[0].vpn)
    ensures var s' := Advance(s); UsesOk(s', Pages(full)) && s'.total == s.total + 1
    ensures forall p :: p in Pages(full) ==>
      TimeUntilNextAccess(Advance(s), p) == NextUse(Pages(full), p, s.total + 1) - (s.total + 1)
  {
    var pages, t := Pages(full), s.total;
    var vpn := s.trace[0].vpn;
    assert s.trace[0] == full[t] && pages[t] == vpn;
    assert vpn in pages;
    assert s.uses[vpn] == [Some(t)] + UseList(pages, vpn, t + 1);
    var s' := Advance(s);
    assert s'.uses[vpn] == UseList(pages, vpn, t + 1);
    assert UsesOk(s', pages);
    forall p | p in pages
      ensures TimeUntilNextAccess(s', p) == NextUse(pages, p, t + 1) - (t + 1)
    {
      UseListHead(pages, p, t + 1);
      NextUseIsFirst(pages, p, t + 1);
    }
  }

  lemma AdvanceKeepsTable(s: State)
    requires TableOk(s) && |s.trace| > 0 && Upcoming(s, s.trace[0].vpn)
    ensures TableOk(Advance(s))
  {
  }

  /** The victim is the first frame with the largest counter; frame 0 when none is positive. */
  lemma {:induction false} VictimScanIsMax(frames: seq<Frame>, n: nat)
    requires n <= |frames|
    requires forall i :: 0 <= i < n ==> frames[i].untilUse.Some? && frames[i].ppn == i
    ensures var (v, most) := VictimScan(frames, n);
      && most >= 0
      && (forall i :: 0 <= i < n ==> frames[i].untilUse.value <= most)
      && (if most > 0 then v < n && frames[v].untilUse.value == most
                         && forall i :: 0 <= i < v ==> frames[i].untilUse.value < most
          else v == 0)
  {
    if n == 0 {
    } else {
      VictimScanIsMax(frames, n - 1);
    }
  }

  lemma FullTableIsEvictable(s: State)
    requires TableOk(s) && |s.frames| > 0
    requires FirstFree(s.frames, 0) == |s.frames|
    ensures Evictable(s)
    ensures var v := Victim(s.frames); forall i :: 0 <= i < |s.frames| ==>
      s.frames[i].inUse && s.frames[i].untilUse.Some? &&
      (s.frames[i].untilUse.value <= s.frames[v].untilUse.value || s.frames[i].untilUse.value <= 0)
  {
    assert forall i :: 0 <= i < |s.frames| ==> s.frames[i].inUse;
    VictimScanIsMax(s.frames, |s.frames|);
  }

  lemma TableIsReady(s: State, a: Access)
    requires TableOk(s) && |s.frames| > 0 && a.vpn in s.uses && |s.uses[a.vpn]| > 0
    ensures Ready(s, a)
  {
    if a.vpn !in s.fastIndex && FirstFree(s.frames, 0) == |s.frames| {
      FullTableIsEvictable(s);
    }
  }

  /** A fault replaces one frame: the first free one or, only when none is free, the victim's. */
  lemma FaultShape(s: State, a: Access)
    requires TableOk(s) && |s.frames| > 0 && a.vpn in s.uses && |s.uses[a.vpn]| > 0
    ensures FirstFree(s.frames, 0) == |s.frames| ==> Evictable(s)
    ensures var free := FirstFree(s.frames, 0); var i := if free < |s.frames| then free else Victim(s.frames);
      && i < |s.frames|
      && (s.frames[i].inUse <==> free == |s.frames|)
      && (s.frames[i].inUse ==> s.frames[i].vpn.Some?)
      && Fault(s, a) == s.(
           frames := s.frames[i := Frame(Some(a.vpn), a.write, true, i, Some(TimeUntilNextAccess(s, a.vpn)))],
           fastIndex := (if s.frames[i].inUse then s.fastIndex - {s.frames[i].vpn.value} else s.fastIndex)[a.vpn := i],
           faults := s.faults + 1,
           writes := s.writes + if s.frames[i].inUse && s.frames[i].dirty then 1 else 0)
  {
    var free := FirstFree(s.frames, 0);
    if free == |s.frames| {
      FullTableIsEvictable(s);
      var v := Victim(s.frames);
      var f := s.frames[v];
      assert s.frames[v := f.(inUse := false, vpn := None, untilUse := None)]
                     [v := Frame(Some(a.vpn), a.write, true, v, Some(TimeUntilNextAccess(s, a.vpn)))]
          == s.frames[v := Frame(Some(a.vpn), a.write, true, v, Some(TimeUntilNextAccess(s, a.vpn)))];
    }
  }

  /** After an eviction the search for a free frame finds the one the victim held. */
  lemma EvictFrees(s: State)
    requires FirstFree(s.frames, 0) == |s.frames| && Evictable(s)
    ensures FirstFree(Evict(s).frames, 0) == Victim(s.frames)
  {
    var v, free := Victim(s.frames), FirstFree(Evict(s).frames, 0);
    assert forall i :: 0 <= i < |s.frames| ==> s.frames[i].inUse;
    assert !Evict(s).frames[v].inUse;
  }

  lemma FaultKeepsTable(s: State, a: Access)
    requires TableOk(s) && |s.frames| > 0 && a.vpn in s.uses && |s.uses[a.vpn]| > 0
    requires a.vpn !in s.fastIndex
    ensures Ready(s, a) && TableOk(Fault(s, a))
  {
    hide Fault, Evictable, Victim, TimeUntilNextAccess;
    FaultShape(s, a);
    var free := FirstFree(s.frames, 0);
    assert free < |s.frames| ==> forall j :: free <= j < |s.frames| ==> !s.frames[j].inUse;
  }

  lemma HitKeepsTable(s: State, a: Access)
    requires TableOk(s) && a.vpn in s.fastIndex
    ensures Ready(s, a) && TableOk(Hit(s, a))
  {
  }

  /** One access of the trace, with its invariant. */
  function Step(s: State, ghost full: seq<Access>, ghost k: nat): (s': State)
    requires Inv(s, full, k) && s.total < |full|
    ensures Inv(s', full, k) && s'.total == s.total + 1
  {
    AdvanceKeepsUses(s, full, k);
    AdvanceKeepsTable(s);
    var t := Advance(s);
    var a := s.trace[0];
    assert a.vpn == Pages(full)[s.total];
    TableIsReady(t, a);
    ghost var s' := Serve(t, a);
    assert TableOk(s') by {
      if a.vpn in t.fastIndex { HitKeepsTable(t, a); } else { FaultKeepsTable(t, a); }
    }
    Serve(t, a)
  }
}
