/** What the three page-replacement simulators share. */
module Paging {
  /** One line of the trace: the page it touches, and whether it is a write ('W'). */
  datatype Access = Access(vpn: int, write: bool)

  function Pages(trace: seq<Access>): (pages: seq<int>) {
    seq(|trace|, i requires 0 <= i < |trace| => trace[i].vpn)
  }

  lemma SomeMember(s: set<int>)
    requires s != {}
    ensures exists x: int :: x in s
  {
    if !(exists x: int :: x in s) {
      assert false;
    }
  }

  /** How many of the bits are set. */
  function CountTrue(bits: seq<bool>): (n: nat)
    ensures n <= |bits|
  {
    if bits == [] then 0
    else
      var m := |bits| - 1;
      CountTrue(bits[..m]) + if bits[m] then 1 else 0
  }

  lemma {:induction false} CountTrueUpdate(bits: seq<bool>, i: nat, b: bool)
    requires i < |bits|
    ensures CountTrue(bits[i := b]) == CountTrue(bits) - (if bits[i] then 1 else 0) + (if b then 1 else 0)
  {
    var m := |bits| - 1;
    if i < m {
      CountTrueUpdate(bits[..m], i, b);
      assert bits[i := b][..m] == bits[..m][i := b];
    } else {
      assert bits[i := b][..m] == bits[..m];
    }
  }

  lemma {:induction false} CountTrueZero(bits: seq<bool>)
    ensures CountTrue(bits) == 0 <==> forall i :: 0 <= i < |bits| ==> !bits[i]
  {
    if bits == [] {
    } else {
      var m := |bits| - 1;
      CountTrueZero(bits[..m]);
      assert forall i :: 0 <= i < m ==> bits[..m][i] == bits[i];
    }
  }

  lemma {:induction false} CountTrueFull(bits: seq<bool>)
    ensures CountTrue(bits) == |bits| <==> forall i :: 0 <= i < |bits| ==> bits[i]
  {
    if bits == [] {
    } else {
      var m := |bits| - 1;
      CountTrueFull(bits[..m]);
      assert forall i :: 0 <= i < m ==> bits[..m][i] == bits[i];
    }
  }

  /** Which of the frames `holds` is true of. */
  function Bits<F>(frames: seq<F>, holds: F -> bool): (r: seq<bool>)
    ensures |r| == |frames| && forall i :: 0 <= i < |r| ==> r[i] == holds(frames[i])
  {
    seq(|frames|, i requires 0 <= i < |frames| => holds(frames[i]))
  }

  function CountIf<F>(frames: seq<F>, holds: F -> bool): nat {
    CountTrue(Bits(frames, holds))
  }

  lemma CountIfUpdate<F>(frames: seq<F>, i: nat, f: F, holds: F -> bool)
    requires i < |frames|
    ensures CountIf(frames[i := f], holds)
         == CountIf(frames, holds) - (if holds(frames[i]) then 1 else 0) + (if holds(f) then 1 else 0)
  {
    assert Bits(frames[i := f], holds) == Bits(frames, holds)[i := holds(f)];
    CountTrueUpdate(Bits(frames, holds), i, holds(f));
  }
}
