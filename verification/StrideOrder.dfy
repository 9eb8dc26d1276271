/** Orders at a stride, and why sorting at one stride keeps the order at every other.

    A chain is a run of positions `stride` apart.  Sorting at a stride permutes each chain
    in itself, so it keeps, for every value `v`, how many entries of the chain are at most `v`;
    and those counts are all that an order at another stride needs. */
module StrideOrder {

  ghost predicate Ordered(a: seq<int>, stride: nat) {
    forall i :: stride <= i < |a| ==> a[i - stride] <= a[i]
  }

  /** The order at `stride` among the first `n` entries. */
  ghost predicate PrefixOrdered(a: seq<int>, stride: nat, n: nat)
    requires n <= |a|
  {
    forall i :: stride <= i < n ==> a[i - stride] <= a[i]
  }

  /** Entries at most `v` among positions `p`, `p - stride`, `p - 2 * stride`, ... */
  ghost function Down(a: seq<int>, stride: nat, p: int, v: int): (c: nat)
    requires stride > 0 && p < |a|
    decreases p + stride
  {
    if p < 0 then 0 else (if a[p] <= v then 1 else 0) + Down(a, stride, p - stride, v)
  }

  /** Entries at most `v` among positions `p`, `p + stride`, `p + 2 * stride`, ... */
  ghost function Up(a: seq<int>, stride: nat, p: nat, v: int): (c: nat)
    requires stride > 0
    decreases |a| - p
  {
    if p >= |a| then 0 else (if a[p] <= v then 1 else 0) + Up(a, stride, p + stride, v)
  }

  /** Entries at most `v` in the whole chain through position `p`. */
  ghost function InChain(a: seq<int>, stride: nat, p: nat, v: int): nat
    requires stride > 0 && p < |a|
  {
    Down(a, stride, p, v) + Up(a, stride, p + stride, v)
  }

  /** How many positions `p`, `p - stride`, ... there are. */
  ghost function ChainLength(stride: nat, p: int): nat
    requires stride > 0
    decreases p + stride
  {
    if p < 0 then 0 else 1 + ChainLength(stride, p - stride)
  }

  /** `a` and `b` hold the same entries, chain by chain. */
  ghost predicate SameChains(a: seq<int>, b: seq<int>, stride: nat)
    requires stride > 0
  {
    && |a| == |b| && multiset(a) == multiset(b)
    && forall p: nat, v :: p < |a| ==> InChain(a, stride, p, v) == InChain(b, stride, p, v)
  }

  ghost function Exchanged(a: seq<int>, p: nat, q: nat): (b: seq<int>)
    requires p < q < |a|
    ensures |b| == |a| && multiset(b) == multiset(a)
  {
    var b := a[p := a[q]][q := a[p]];
    assert a == a[..p] + [a[p]] + a[p + 1..q] + [a[q]] + a[q + 1..];
    assert b == a[..p] + [a[q]] + a[p + 1..q] + [a[p]] + a[q + 1..];
    b
  }

  // ----- Exchanging two neighbours of a chain keeps its counts -----

  lemma {:induction false} DownAfterExchange(a: seq<int>, stride: nat, p: nat, x: int, v: int)
    requires stride > 0 && p + stride < |a| && x < |a|
    ensures Down(Exchanged(a, p, p + stride), stride, x, v) == Down(a, stride, x, v)
      + if x == p then (if a[p + stride] <= v then 1 else 0) - (if a[p] <= v then 1 else 0) else 0
    decreases x + stride
  {
    if x < 0 {
    } else {
      DownAfterExchange(a, stride, p, x - stride, v);
    }
  }

  lemma {:induction false} UpAfterExchange(a: seq<int>, stride: nat, p: nat, x: nat, v: int)
    requires stride > 0 && p + stride < |a|
    ensures Up(Exchanged(a, p, p + stride), stride, x, v) == Up(a, stride, x, v)
      + if x == p + stride then (if a[p] <= v then 1 else 0) - (if a[p + stride] <= v then 1 else 0) else 0
    decreases |a| - x
  {
    if x >= |a| {
    } else {
      UpAfterExchange(a, stride, p, x + stride, v);
    }
  }

  lemma ExchangeKeepsChains(a: seq<int>, stride: nat, p: nat)
    requires stride > 0 && p + stride < |a|
    ensures SameChains(a, Exchanged(a, p, p + stride), stride)
  {
    forall x: nat, v | x < |a|
      ensures InChain(a, stride, x, v) == InChain(Exchanged(a, p, p + stride), stride, x, v)
    {
      DownAfterExchange(a, stride, p, x, v);
      UpAfterExchange(a, stride, p, x + stride, v);
    }
  }

  // ----- Counts and order at the stride -----

  lemma {:induction false} DownAtMost(a: seq<int>, stride: nat, p: int, v: int)
    requires stride > 0 && p < |a|
    ensures Down(a, stride, p, v) <= ChainLength(stride, p)
    decreases p + stride
  {
    if p < 0 {
    } else {
      DownAtMost(a, stride, p - stride, v);
    }
  }

  /** In an ordered chain everything before a small entry is small. */
  lemma {:induction false} DownOfOrdered(a: seq<int>, stride: nat, p: nat, v: int)
    requires stride > 0 && p < |a| && Ordered(a, stride) && a[p] <= v
    ensures Down(a, stride, p, v) == ChainLength(stride, p)
  {
    if p < stride {
    } else {
      DownOfOrdered(a, stride, p - stride, v);
    }
  }

  /** In an ordered chain everything after a large entry is large. */
  lemma {:induction false} UpOfOrdered(a: seq<int>, stride: nat, p: nat, v: int)
    requires stride > 0 && p < |a| && Ordered(a, stride) && a[p] > v
    ensures Up(a, stride, p, v) == 0
    decreases |a| - p
  {
    if p + stride >= |a| {
    } else {
      UpOfOrdered(a, stride, p + stride, v);
    }
  }

  /** The entry of rank `j` in an ordered chain is at most `v` when `j` entries are. */
  lemma CountBoundsEntry(a: seq<int>, stride: nat, p: nat, v: int)
    requires stride > 0 && p < |a| && Ordered(a, stride)
    requires InChain(a, stride, p, v) >= ChainLength(stride, p)
    ensures a[p] <= v
  {
    if a[p] > v {
      UpOfOrdered(a, stride, p, v);
      DownAtMost(a, stride, p - stride, v);
      assert false;
    }
  }

  // ----- Order at another stride compares the counts of two chains -----

  lemma {:induction false} UpShift(a: seq<int>, stride: nat, r: nat, p: nat, v: int)
    requires stride > 0 && Ordered(a, r)
    ensures Up(a, stride, p + r, v) <= Up(a, stride, p, v)
    decreases |a| - p
  {
    if p + r >= |a| {
    } else {
      UpShift(a, stride, r, p + stride, v);
    }
  }

  lemma {:induction false} DownShift(a: seq<int>, stride: nat, r: nat, p: int, v: int)
    requires stride > 0 && p + r < |a| && Ordered(a, r)
    ensures Down(a, stride, p + r, v) + ChainLength(stride, p)
         <= Down(a, stride, p, v) + ChainLength(stride, p + r)
    decreases p + stride
  {
    if p < 0 {
      DownAtMost(a, stride, p + r, v);
    } else {
      DownShift(a, stride, r, p - stride, v);
    }
  }

  /** Sorting at one stride keeps whatever order the entries had at any other. */
  lemma OrderSurvives(a: seq<int>, b: seq<int>, stride: nat, r: nat)
    requires stride > 0 && SameChains(a, b, stride)
    requires Ordered(a, r) && Ordered(b, stride)
    ensures Ordered(b, r)
  {
    forall i | r <= i < |b|
      ensures b[i - r] <= b[i]
    {
      var v := b[i];
      DownOfOrdered(b, stride, i, v);
      assert InChain(a, stride, i, v) == InChain(b, stride, i, v);
      DownShift(a, stride, r, i - r, v);
      UpShift(a, stride, r, i - r + stride, v);
      assert InChain(a, stride, i - r, v) == InChain(b, stride, i - r, v);
      CountBoundsEntry(b, stride, i - r, v);
    }
  }

  lemma {:induction false} OrderedAtOne(a: seq<int>, i: nat, j: nat)
    requires Ordered(a, 1) && i <= j < |a|
    ensures a[i] <= a[j]
  {
    if i == j {
    } else {
      OrderedAtOne(a, i, j - 1);
    }
  }

  lemma SameChainsTransitive(a: seq<int>, b: seq<int>, c: seq<int>, stride: nat)
    requires stride > 0 && SameChains(a, b, stride) && SameChains(b, c, stride)
    ensures SameChains(a, c, stride)
  {
    forall p: nat, v | p < |a|
      ensures InChain(a, stride, p, v) == InChain(c, stride, p, v)
    {
      assert InChain(a, stride, p, v) == InChain(b, stride, p, v);
    }
  }

  // ----- The strides of the sort -----

  /** 0, 1, 4, 13, 40, ... */
  function Stride(k: nat): nat {
    if k == 0 then 0 else 3 * Stride(k - 1) + 1
  }

  function Power3(k: nat): nat {
    if k == 0 then 1 else 3 * Power3(k - 1)
  }

  /** The strides are the numbers (3^k - 1) / 2, so that dividing by 3 steps down through them. */
  lemma {:induction false} StrideForm(k: nat)
    ensures Stride(k) == (Power3(k) - 1) / 2 && 2 * Stride(k) + 1 == Power3(k)
    ensures Stride(k) >= k && (k == 0 ==> Stride(k) == 0)
    ensures k > 0 ==> Stride(k) == 3 * Stride(k - 1) + 1 && Stride(k) / 3 == Stride(k - 1)
  {
    if k == 0 {
    } else {
      StrideForm(k - 1);
    }
  }
}
