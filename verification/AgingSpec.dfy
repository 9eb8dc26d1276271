/** The Aging simulator as a function from state to state. */
module AgingSpec {
  import opened AgingHistory
  import opened Paging

  const MSB := 128

  datatype Frame = Frame(vpn: int, inUse: bool, dirty: bool, reference: bool, agingValue: nat, ppn: nat)

  /** `histories[i]` records, most recent first, whether slot `i` was referenced in each tick so far. */
  datatype State = State(frames: seq<Frame>, histories: seq<seq<bool>>, faults: nat, writes: nat)

  function Age(f: Frame): Frame {
    f.(agingValue := f.agingValue / 2 + if f.reference then MSB else 0)
  }

  /** The clock has passed a refresh interval: age every slot, then forget its reference. */
  function Tick(s: State): State
    requires |s.histories| == |s.frames|
  {
    s.(frames := seq(|s.frames|, i requires 0 <= i < |s.frames| => Age(s.frames[i]).(reference := false)),
       histories := seq(|s.frames|, i requires 0 <= i < |s.frames| => [s.frames[i].reference] + s.histories[i]))
  }

  /** Note the access in a slot: a write dirties it, a read references it. */
  function Mark(f: Frame, a: Access): Frame {
    if a.write then f.(dirty := true) else f.(reference := true)
  }

  /** First slot whose VPN field is `vpn`, in use or not; `|frames|` if none. */
  function FirstVpn(frames: seq<Frame>, vpn: int, i: nat): (k: nat)
    requires i <= |frames|
    ensures i <= k <= |frames| && (k < |frames| ==> frames[k].vpn == vpn)
    ensures forall j :: i <= j < k ==> frames[j].vpn != vpn
    decreases |frames| - i
  {
    if i == |frames| || frames[i].vpn == vpn then i else FirstVpn(frames, vpn, i + 1)
  }

  function FirstFree(frames: seq<Frame>, i: nat): (k: nat)
    requires i <= |frames|
    ensures i <= k <= |frames| && (k < |frames| ==> !frames[k].inUse)
    ensures forall j :: i <= j < k ==> frames[j].inUse
    decreases |frames| - i
  {
    if i == |frames| || !frames[i].inUse then i else FirstFree(frames, i + 1)
  }

  /** The scan for the lowest value over the first `n` slots: the PPN found, and its value. */
  function LowestScan(frames: seq<Frame>, n: nat): (nat, int)
    requires n <= |frames|
  {
    if n == 0 then (0, 257)
    else
      var sofar, f := LowestScan(frames, n - 1), frames[n - 1];
      if f.agingValue < sofar.1 then (f.ppn, f.agingValue) else sofar
  }

  function Lowest(frames: seq<Frame>): nat {
    LowestScan(frames, |frames|).0
  }

  function Load(s: State, i: nat, a: Access): State
    requires i < |s.frames|
  {
    s.(frames := s.frames[i := Mark(s.frames[i].(inUse := true, vpn := a.vpn), a)])
  }

  /** The victim's page number, reference and aging value stay behind in its slot. */
  function Evict(s: State, v: nat): State
    requires v < |s.frames|
  {
    s.(frames := s.frames[v := s.frames[v].(inUse := false, dirty := false)],
       writes := s.writes + if s.frames[v].dirty then 1 else 0)
  }

  /** Where an access goes: the slot with its VPN, else a free one, else the lowest. */
  function Slot(s: State, a: Access): nat {
    var hit, free := FirstVpn(s.frames, a.vpn, 0), FirstFree(s.frames, 0);
    if hit < |s.frames| then hit else if free < |s.frames| then free else Lowest(s.frames)
  }

  function Serve(s: State, a: Access): State
    requires Slot(s, a) < |s.frames|
  {
    var hit, free, i := FirstVpn(s.frames, a.vpn, 0), FirstFree(s.frames, 0), Slot(s, a);
    if hit < |s.frames| then s.(frames := s.frames[i := Mark(s.frames[i], a)])
    else
      var counted := s.(faults := s.faults + 1);
      if free < |s.frames| then Load(counted, i, a) else Load(Evict(counted, i), i, a)
  }

  // ----- The invariant -----

  ghost predicate Inv(s: State) {
    && |s.frames| == |s.histories| > 0
    && (forall i :: 0 <= i < |s.frames| ==>
          s.frames[i].ppn == i && s.frames[i].agingValue == ValueOf(s.histories[i], 8))
    && (forall i, j :: 0 <= i < j < |s.frames| && s.frames[j].inUse ==>
          s.frames[i].inUse && s.frames[i].vpn != s.frames[j].vpn)
    && (forall i :: 0 <= i < |s.frames| && !s.frames[i].inUse ==> s.frames[i].vpn == 0)
  }

  function Start(n: nat): State {
    State(seq(n, (i: nat) => Frame(0, false, false, false, 0, i)), seq(n, _ => []), 0, 0)
  }

  /** One access of a run: whether the refresh interval has passed, and the access. */
  datatype Round = Round(tick: bool, access: Access)

  function ServeRound(s: State, r: Round): (s': State)
    requires Inv(s)
    ensures Inv(s') && |s'.frames| == |s.frames|
  {
    RoundIsServed(s, r);
    Serve(AgeIf(s, r), r.access)
  }

  function StateAt(rounds: seq<Round>, n: nat, t: nat): (s: State)
    requires n > 0 && t <= |rounds|
    ensures Inv(s) && |s.frames| == |s.histories| == n
  {
    if t == 0 then StartHasInv(n); Start(n)
    else ServeRound(StateAt(rounds, n, t - 1), rounds[t - 1])
  }

  function AgeIf(s: State, r: Round): State
    requires |s.histories| == |s.frames|
  {
    if r.tick then Tick(s) else s
  }

  lemma StartHasInv(n: nat)
    requires n > 0
    ensures Inv(Start(n))
  {
  }

  lemma {:induction false} ZeroHistory(w: nat)
    ensures ValueOf([], w) == 0
  {
    if w == 0 {
    } else {
      ZeroHistory(w - 1);
    }
  }

  lemma Aged(s: State, r: Round)
    requires Inv(s)
    ensures Inv(AgeIf(s, r)) && |AgeIf(s, r).frames| == |s.frames|
  {
    hide ValueOf;
    assert Pow2(7) == MSB by { assert Pow2(3) == 8; assert Pow2(5) == 32; }
    forall i | 0 <= i < |s.frames|
      ensures Age(s.frames[i]).agingValue == ValueOf([s.frames[i].reference] + s.histories[i], 8)
    {
      TickIsShift(s.histories[i], 8, s.frames[i].reference);
    }
  }

  /** The scan finds the first slot with the lowest value. */
  lemma {:induction false} LowestScanIsFirst(s: State, n: nat)
    requires Inv(s) && n <= |s.frames|
    ensures var (v, low) := LowestScan(s.frames, n);
      && (n == 0 ==> low == 257)
      && (n > 0 ==> v < n && low == s.frames[v].agingValue)
      && (forall i :: 0 <= i < n ==> low <= s.frames[i].agingValue && (i < v ==> low < s.frames[i].agingValue))
  {
    hide ValueOf;
    if n == 0 {
    } else {
      LowestScanIsFirst(s, n - 1);
      assert Pow2(8) == 256 by { assert Pow2(3) == 8; assert Pow2(5) == 32; }
      assert s.frames[n - 1].agingValue == ValueOf(s.histories[n - 1], 8) < 256;
    }
  }

  lemma LowestIsSlot(s: State)
    requires Inv(s)
    ensures Lowest(s.frames) < |s.frames|
  {
    LowestScanIsFirst(s, |s.frames|);
  }

  lemma ServeKeepsInv(s: State, a: Access)
    requires Inv(s)
    ensures Slot(s, a) < |s.frames| && Inv(Serve(s, a)) && |Serve(s, a).frames| == |s.frames|
  {
    hide ValueOf, LowestScan, Slot, Serve;
    LowestIsSlot(s);
    SlotIsInside(s, a);
    ServeShape(s, a);
  }

  lemma SlotIsInside(s: State, a: Access)
    requires Lowest(s.frames) < |s.frames|
    ensures Slot(s, a) < |s.frames|
  {
  }

  /** An access changes one slot: it holds the page already, or is the first free one, or, only
      when none is free, the victim's. */
  lemma ServeShape(s: State, a: Access)
    requires Slot(s, a) < |s.frames|
    ensures var i, hit, f := Slot(s, a), FirstVpn(s.frames, a.vpn, 0), Serve(s, a).frames[Slot(s, a)];
      && Serve(s, a).frames == s.frames[i := f] && Serve(s, a).histories == s.histories
      && f.vpn == a.vpn && f.ppn == s.frames[i].ppn && f.agingValue == s.frames[i].agingValue
      && (f.inUse <==> s.frames[i].inUse || hit == |s.frames|)
      && (f.dirty <==> a.write || (s.frames[i].dirty && (hit < |s.frames| || !s.frames[i].inUse)))
      && (f.reference <==> !a.write || s.frames[i].reference)
      && i == (if hit < |s.frames| then hit
               else if FirstFree(s.frames, 0) < |s.frames| then FirstFree(s.frames, 0)
               else Lowest(s.frames))
  {
    hide LowestScan;
  }

  lemma RoundIsServed(s: State, r: Round)
    requires Inv(s)
    ensures |s.frames| == |s.histories| == |AgeIf(s, r).frames| && Slot(AgeIf(s, r), r.access) < |s.frames|
    ensures Inv(Serve(AgeIf(s, r), r.access)) && |Serve(AgeIf(s, r), r.access).frames| == |s.frames|
  {
    hide Serve, Slot, AgeIf;
    Aged(s, r);
    ServeKeepsInv(AgeIf(s, r), r.access);
  }

  // ----- What the values mean -----

  lemma ValueIsHistory(s: State, i: nat, j: nat)
    requires Inv(s) && i < |s.frames| && j < 8
    ensures Bit(s.frames[i].agingValue, 7 - j) == Referenced(s.histories[i], j)
  {
    hide Bit, ValueOf, Referenced;
    BitIsTick(s.histories[i], 8, j);
  }

  /** In every run, bit 7 - j of a slot's aging value is its reference bit at the (j+1)-th most
      recent tick. */
  lemma AgingValueIsHistory(rounds: seq<Round>, n: nat, t: nat, i: nat, j: nat)
    requires n > 0 && t <= |rounds| && i < n && j < 8
    ensures var s := StateAt(rounds, n, t);
      |s.histories| == n && Bit(s.frames[i].agingValue, 7 - j) == Referenced(s.histories[i], j)
  {
    hide Bit, Referenced, ServeRound, Inv;
    ValueIsHistory(StateAt(rounds, n, t), i, j);
  }

  /** The victim is the first of the slots whose last eight ticks, from the most recent back,
      show the least recent reference. */
  lemma VictimIsLeastRecent(s: State, i: nat)
    requires Inv(s) && i < |s.frames|
    ensures var v := Lowest(s.frames);
      && v < |s.frames|
      && !LessRecent(s.histories[i], s.histories[v], 8)
      && (i < v ==> LessRecent(s.histories[v], s.histories[i], 8))
  {
    LowestScanIsFirst(s, |s.frames|);
    var v := Lowest(s.frames);
    ValueOrdersHistories(s.histories[i], s.histories[v], 8);
    ValueOrdersHistories(s.histories[v], s.histories[i], 8);
  }

  /** A slot that matches by its VPN holds that page, except for page 0 when page 0 is not
      resident: then the first free slot matches. */
  lemma MatchIsResidentIff(s: State, vpn: int)
    requires Inv(s) && FirstVpn(s.frames, vpn, 0) < |s.frames|
    ensures s.frames[FirstVpn(s.frames, vpn, 0)].inUse
       <==> vpn != 0 || exists i :: 0 <= i < |s.frames| && s.frames[i].inUse && s.frames[i].vpn == 0
  {
    hide ValueOf, FirstVpn;
    var k := FirstVpn(s.frames, vpn, 0);
    if !s.frames[k].inUse {
      forall i | 0 <= i < |s.frames| && s.frames[i].inUse
        ensures s.frames[i].vpn != 0
      {
        assert i < k;
      }
    }
  }
}
