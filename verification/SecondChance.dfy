/** The plain second-chance policy: pages, reference bits and a hand, and nothing else. */
module SecondChance {
  import opened Options
  import opened Paging

  datatype Memory = Memory(pages: seq<Option<int>>, refs: seq<bool>, hand: nat)

  function Next(hand: nat, n: nat): (next: nat)
    requires hand < n
    ensures next < n
  {
    if hand + 1 == n then 0 else hand + 1
  }

  /** Move the hand past the referenced frames, taking their reference from them. */
  function Sweep(refs: seq<bool>, hand: nat): (r: (seq<bool>, nat))
    requires hand < |refs|
    ensures |r.0| == |refs| && r.1 < |refs| && !r.0[r.1]
    decreases CountTrue(refs)
  {
    if !refs[hand] then (refs, hand)
    else
      CountTrueUpdate(refs, hand, false);
      Sweep(refs[hand := false], Next(hand, |refs|))
  }

  /** Index of the first entry of `pages` equal to `what` at or after `i`; `|pages|` if none. */
  function IndexOf(pages: seq<Option<int>>, what: Option<int>, i: nat): (k: nat)
    requires i <= |pages|
    ensures i <= k <= |pages| && (k < |pages| ==> pages[k] == what)
    ensures forall j :: i <= j < k ==> pages[j] != what
    decreases |pages| - i
  {
    if i == |pages| || pages[i] == what then i else IndexOf(pages, what, i + 1)
  }

  /** Serve one access; only a read gives a page its reference. */
  function Serve(m: Memory, a: Access): Memory
    requires |m.pages| == |m.refs| && m.hand < |m.refs|
  {
    var n := |m.pages|;
    var hit := IndexOf(m.pages, Some(a.vpn), 0);
    var free := IndexOf(m.pages, None, 0);
    if hit < n then m.(refs := m.refs[hit := m.refs[hit] || !a.write])
    else if free < n then
      m.(pages := m.pages[free := Some(a.vpn)], refs := m.refs[free := !a.write])
    else
      var (refs, victim) := Sweep(m.refs, m.hand);
      Memory(m.pages[victim := Some(a.vpn)], refs[victim := !a.write], victim)
  }

  /** The position `d` frames after the hand, going round. */
  function Around(hand: nat, d: nat, n: nat): (i: nat)
    requires hand < n && d <= n
    ensures i < n
  {
    if hand + d < n then hand + d else hand + d - n
  }

  /** The sweep stops at the first unreferenced frame in circular order from the hand, or back
      at the hand when every frame is referenced. */
  lemma {:induction false} SweepStopsAtFirst(refs: seq<bool>, hand: nat, d: nat)
    requires hand < |refs| && d <= |refs|
    requires forall e :: 0 <= e < d ==> refs[Around(hand, e, |refs|)]
    requires d < |refs| ==> !refs[Around(hand, d, |refs|)]
    ensures Sweep(refs, hand).1 == Around(hand, d, |refs|)
    ensures forall i :: 0 <= i < |refs| ==>
      Sweep(refs, hand).0[i] == (refs[i] && forall e :: 0 <= e < d ==> Around(hand, e, |refs|) != i)
    decreases d
  {
    var n := |refs|;
    if d == 0 {
    } else {
      assert refs[Around(hand, 0, n)];
      var refs1, hand1 := refs[hand := false], Next(hand, n);
      forall e | 0 <= e < n
        ensures Around(hand1, e, n) == if e + 1 < n then Around(hand, e + 1, n) else hand
      {
      }
      SweepStopsAtFirst(refs1, hand1, d - 1);
      forall i | 0 <= i < n
        ensures Sweep(refs, hand).0[i] == (refs[i] && forall e :: 0 <= e < d ==> Around(hand, e, n) != i)
      {
        assert Around(hand, 0, n) == hand;
        if forall e :: 0 <= e < d - 1 ==> Around(hand1, e, n) != i {
          forall e | 0 < e < d
            ensures Around(hand, e, n) != i
          {
            assert Around(hand1, e - 1, n) != i;
          }
        } else {
          var e :| 0 <= e < d - 1 && Around(hand1, e, n) == i;
          assert Around(hand, e + 1, n) == i;
        }
      }
    }
  }
}
