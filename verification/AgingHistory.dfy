/** An aging value is the reference history of its slot, most recent tick in the highest bit. */
module AgingHistory {

  function Pow2(w: nat): (p: nat)
    ensures p > 0
  {
    if w == 0 then 1 else 2 * Pow2(w - 1)
  }

  /** Whether the slot was referenced during the `j`-th most recent tick; not before the first. */
  predicate Referenced(history: seq<bool>, j: nat) {
    j < |history| && history[j]
  }

  function Older(history: seq<bool>): seq<bool> {
    if history == [] then [] else history[1..]
  }

  /** The last `w` ticks of a history as a number of `w` bits. */
  function ValueOf(history: seq<bool>, w: nat): (v: nat)
    ensures v < Pow2(w)
    decreases w
  {
    if w == 0 then 0
    else (if Referenced(history, 0) then Pow2(w - 1) else 0) + ValueOf(Older(history), w - 1)
  }

  /** Bit `k` of a number, counted from the low end. */
  predicate Bit(v: nat, k: nat) {
    if k == 0 then v % 2 == 1 else Bit(v / 2, k - 1)
  }

  /** Shifting right forgets the oldest tick. */
  lemma {:induction false} ShiftForgets(history: seq<bool>, w: nat)
    ensures ValueOf(history, w + 1) / 2 == ValueOf(history, w)
  {
    if w == 0 {
    } else {
      ShiftForgets(Older(history), w - 1);
      assert Pow2(w) == 2 * Pow2(w - 1);
    }
  }

  lemma {:induction false} LowBit(history: seq<bool>, w: nat)
    requires w > 0
    ensures Bit(ValueOf(history, w), 0) == Referenced(history, w - 1)
  {
    if w == 1 {
    } else {
      LowBit(Older(history), w - 1);
      assert Pow2(w - 1) == 2 * Pow2(w - 2);
    }
  }

  /** Bit `w - 1 - j` tells of the `j`-th most recent tick. */
  lemma {:induction false} BitIsTick(history: seq<bool>, w: nat, j: nat)
    requires j < w
    ensures Bit(ValueOf(history, w), w - 1 - j) == Referenced(history, j)
  {
    if j == w - 1 {
      LowBit(history, w);
    } else {
      ShiftForgets(history, w - 1);
      BitIsTick(history, w - 1, j);
    }
  }

  /** At the most recent of the last `w` ticks that tells them apart, `a` was not referenced
      and `b` was. */
  predicate LessRecent(a: seq<bool>, b: seq<bool>, w: nat)
    decreases w
  {
    w > 0 &&
    if Referenced(a, 0) == Referenced(b, 0) then LessRecent(Older(a), Older(b), w - 1)
    else Referenced(b, 0)
  }

  lemma {:induction false} ValueOrdersHistories(a: seq<bool>, b: seq<bool>, w: nat)
    ensures ValueOf(a, w) < ValueOf(b, w) <==> LessRecent(a, b, w)
    decreases w
  {
    if w == 0 {
    } else {
      ValueOrdersHistories(Older(a), Older(b), w - 1);
    }
  }

  /** One tick in a number of `w` bits: shift right, and set the highest bit if referenced. */
  lemma TickIsShift(history: seq<bool>, w: nat, reference: bool)
    requires w > 0
    ensures ValueOf([reference] + history, w)
         == ValueOf(history, w) / 2 + if reference then Pow2(w - 1) else 0
  {
    assert Older([reference] + history) == history;
    ShiftForgets(history, w - 1);
  }
}
