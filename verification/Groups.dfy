/** Setting, sorting, searching and returning a process's supplementary groups. */
module Groups {
  import opened Arithmetic
  import opened StrideOrder
  import opened GroupInfo

  datatype Errno = EPERM | EINVAL | ENOMEM | EFAULT | SecurityDenied(code: int)

  datatype Result = Ok(value: nat) | Err(errno: Errno)

  /** The kernel's configuration: ids to a page, ids stored inline, ids to a process. */
  datatype Limits = Limits(perBlock: nat, small: nat, max: nat) {
    predicate Sound() { 0 < perBlock && small <= perBlock }
  }

  /** What the allocator and the security module answer. */
  datatype Answers = Answers(capable: bool, kmalloc: bool, freePages: nat, security: int)

  // ----- Storage and copying -----

  function BlockCount(n: nat, perBlock: nat): nat
    requires perBlock > 0
  {
    var nblocks := UnitsFor(n, perBlock);
    if nblocks == 0 then 1 else nblocks
  }

  predicate AllocSucceeds(n: nat, limits: Limits, answers: Answers)
    requires limits.Sound()
  {
    answers.kmalloc && (n <= limits.small || BlockCount(n, limits.perBlock) <= answers.freePages)
  }

  lemma OneBlockHoldsSmall(n: nat, perBlock: nat)
    requires perBlock > 0
    ensures n <= perBlock <==> BlockCount(n, perBlock) == 1
    ensures n <= BlockCount(n, perBlock) * perBlock
  {
    var b := UnitsFor(n, perBlock);
    if b >= 2 {
      MulMono(1, b - 1, perBlock);
    }
    assert 1 * perBlock == perBlock;
  }

  /** What an allocation needs: the header, and pages that hold all ids unless they fit inline. */
  lemma AllocSucceedsIff(n: nat, limits: Limits, answers: Answers)
    requires limits.Sound()
    ensures AllocSucceeds(n, limits, answers)
       <==> answers.kmalloc && (n <= limits.small || n <= answers.freePages * limits.perBlock)
  {
    var b := UnitsFor(n, limits.perBlock);
    if n > limits.small && b > 0 {
      if b <= answers.freePages {
        MulMono(b, answers.freePages, limits.perBlock);
      } else {
        MulMono(answers.freePages, b - 1, limits.perBlock);
      }
    }
  }

  method GroupsAlloc(gidsetsize: nat, limits: Limits, answers: Answers) returns (info: Info?)
    requires limits.Sound()
    ensures info != null <==> AllocSucceeds(gidsetsize, limits, answers)
    ensures info != null ==> fresh(info) && info.Valid() && fresh(info.Storage()) && info.ngroups == gidsetsize
    ensures info != null && gidsetsize <= limits.small ==>
      |info.blocks| == 1 && info.blocks[0].Length == limits.small
    ensures info != null && gidsetsize > limits.small ==>
      (|info.blocks| - 1) * limits.perBlock < gidsetsize <= |info.blocks| * limits.perBlock
  {
    var nblocks := (gidsetsize + limits.perBlock - 1) / limits.perBlock;
    nblocks := if nblocks == 0 then 1 else nblocks;
    OneBlockHoldsSmall(gidsetsize, limits.perBlock);
    if !answers.kmalloc {
      return null;
    }
    if gidsetsize <= limits.small {
      var smallBlock := new Gid[limits.small];
      info := new Info(limits.perBlock, gidsetsize, [smallBlock]);
    } else {
      var blocks: seq<array<Gid>> := [];
      for i := 0 to nblocks
        invariant |blocks| == i <= answers.freePages
        invariant forall b :: 0 <= b < i ==> fresh(blocks[b]) && blocks[b].Length == limits.perBlock
        invariant forall b, c :: 0 <= b < c < i ==> blocks[b] != blocks[c]
      {
        if i >= answers.freePages {
          return null;
        }
        var page := new Gid[limits.perBlock];
        blocks := blocks + [page];
      }
      info := new Info(limits.perBlock, gidsetsize, blocks);
    }
  }

  /** Entries copied once the first `i` blocks are. */
  function Copied(info: Info, i: nat): nat {
    Min(i * info.perBlock, info.ngroups)
  }

  lemma BlockRange(info: Info, i: nat)
    requires info.Valid() && i < |info.blocks|
    ensures Copied(info, i + 1) - Copied(info, i) == Min(info.perBlock, info.ngroups - Copied(info, i))
                                                  <= info.blocks[i].Length
    ensures Copied(info, i) < info.ngroups ==> Copied(info, i) == i * info.perBlock
    ensures forall j :: Copied(info, i) <= j < Copied(info, i + 1) ==>
      j / info.perBlock == i && j % info.perBlock == j - i * info.perBlock
    ensures forall j :: 0 <= j < Copied(info, i) ==> j / info.perBlock < i
  {
    assert (i + 1) * info.perBlock == i * info.perBlock + info.perBlock;
    forall j | Copied(info, i) <= j < Copied(info, i + 1)
      ensures j / info.perBlock == i && j % info.perBlock == j - i * info.perBlock
    {
      QuotientRemainder(i, j - i * info.perBlock, info.perBlock);
    }
    forall j | 0 <= j < Copied(info, i)
      ensures j / info.perBlock < i
    {
      BlockOf(j, info.perBlock, i);
    }
  }

  /** One memcpy into block `i`, from the same place in `list`. */
  method CopyInBlock(info: Info, list: seq<Gid>, i: nat, off: nat, cpCount: nat)
    requires info.Valid() && i < |info.blocks|
    requires off == i * info.perBlock && cpCount == Copied(info, i + 1) - Copied(info, i)
    requires cpCount > 0 ==> off + cpCount <= |list|
    modifies info.Storage()
    ensures forall j :: 0 <= j < Copied(info, i) ==> info.At(j) == old(info.At(j))
    ensures forall j :: Copied(info, i) <= j < Copied(info, i + 1) ==> info.At(j) == list[j]
  {
    BlockRange(info, i);
    var block := info.blocks[i];
    forall o | 0 <= o < cpCount {
      block[o] := list[off + o];
    }
    forall j | 0 <= j < Copied(info, i + 1)
      ensures info.At(j) == if j < Copied(info, i) then old(info.At(j)) else list[j]
    {
      info.SlotExists(j);
      assert j < Copied(info, i) ==> info.blocks[j / info.perBlock] != block;
    }
  }

  /** `list` is the readable memory at the caller's pointer; reading past it is a fault. */
  method GroupsFromUser(info: Info, list: seq<Gid>) returns (fault: bool)
    requires info.Valid()
    modifies info.Storage()
    ensures fault <==> |list| < info.ngroups
    ensures !fault ==> info.Contents() == list[..info.ngroups]
  {
    var count := info.ngroups;
    for i := 0 to |info.blocks|
      invariant count == info.ngroups - Copied(info, i)
      invariant Copied(info, i) <= |list|
      invariant forall j :: 0 <= j < Copied(info, i) ==> info.At(j) == list[j]
    {
      BlockRange(info, i);
      var cpCount := Min(info.perBlock, count);
      var off := i * info.perBlock;
      if cpCount > 0 && off + cpCount > |list| {
        return true;
      }
      CopyInBlock(info, list, i, off, cpCount);
      count := count - cpCount;
    }
    assert Copied(info, |info.blocks|) == info.ngroups;
    return false;
  }

  /** One memcpy out of block `i`, to the same place in `grouplist`. */
  method CopyOutBlock(grouplist: array<Gid>, info: Info, i: nat, off: nat, cpCount: nat)
    requires info.Valid() && i < |info.blocks| && grouplist !in info.Storage()
    requires off == i * info.perBlock && cpCount == Copied(info, i + 1) - Copied(info, i)
    requires cpCount > 0 ==> off + cpCount <= grouplist.Length
    modifies grouplist
    ensures forall j :: Copied(info, i) <= j < Copied(info, i + 1) ==> grouplist[j] == info.At(j)
    ensures forall j :: 0 <= j < grouplist.Length && !(Copied(info, i) <= j < Copied(info, i + 1)) ==>
      grouplist[j] == old(grouplist[j])
  {
    BlockRange(info, i);
    var block := info.blocks[i];
    forall o | 0 <= o < cpCount {
      grouplist[off + o] := block[o];
    }
    forall j | Copied(info, i) <= j < Copied(info, i + 1)
      ensures grouplist[j] == info.At(j)
    {
      info.SlotExists(j);
      assert grouplist[off + (j - off)] == block[j - off];
    }
  }

  /** `grouplist` is the writable memory at the caller's pointer; writing past it is a fault. */
  method GroupsToUser(grouplist: array<Gid>, info: Info) returns (fault: bool)
    requires info.Valid() && grouplist !in info.Storage()
    modifies grouplist
    ensures fault <==> grouplist.Length < info.ngroups
    ensures !fault ==> grouplist[..info.ngroups] == info.Contents()
    ensures forall j :: info.ngroups <= j < grouplist.Length ==> grouplist[j] == old(grouplist[j])
  {
    var count := info.ngroups;
    for i := 0 to |info.blocks|
      invariant count == info.ngroups - Copied(info, i)
      invariant Copied(info, i) <= grouplist.Length
      invariant forall j :: 0 <= j < Copied(info, i) ==> grouplist[j] == info.At(j)
      invariant forall j :: Copied(info, i) <= j < grouplist.Length ==> grouplist[j] == old(grouplist[j])
    {
      BlockRange(info, i);
      var cpCount := Min(info.perBlock, count);
      var off := i * info.perBlock;
      if cpCount > 0 && off + cpCount > grouplist.Length {
        return true;
      }
      CopyOutBlock(grouplist, info, i, off, cpCount);
      count := count - cpCount;
    }
    assert Copied(info, |info.blocks|) == info.ngroups;
    return false;
  }

  // ----- Sorting -----

  ghost predicate KeepsOrders(a: seq<int>, b: seq<int>) {
    forall r: nat :: Ordered(a, r) ==> Ordered(b, r)
  }

  /** One pass of the Shell sort: `stride` chains, each sorted by insertion.  Whatever order
      the ids had at any other stride, they keep. */
  method SortPass(info: Info, stride: nat)
    requires info.Valid() && 0 < stride <= info.ngroups
    modifies info.Storage()
    ensures Ordered(info.Contents(), stride)
    ensures SameChains(old(info.Contents()), info.Contents(), stride)
    ensures KeepsOrders(old(info.Contents()), info.Contents())
  {
    ghost var was: seq<int> := info.Contents();
    var max := info.ngroups - stride;
    var base := 0;
    while base < max
      invariant base <= max
      invariant PrefixOrdered(info.Contents(), stride, base + stride)
      invariant SameChains(was, info.Contents(), stride)
    {
      ghost var before: seq<int> := info.Contents();
      InsertAt(info, base, stride);
      SameChainsTransitive(was, before, info.Contents(), stride);
      base := base + 1;
    }
    forall r: nat | Ordered(was, r)
      ensures Ordered(info.Contents(), r)
    {
      OrderSurvives(was, info.Contents(), stride, r);
    }
  }

  /** The ids as they will be when `tmp`, which has left a gap at `right`, is put there,
      with every neighbouring pair in order except the one that ends at `right`. */
  ghost predicate Gap(w: seq<int>, stride: nat, right: nat, n: nat) {
    && right < n <= |w|
    && (forall i :: stride <= i < n && i != right ==> w[i - stride] <= w[i])
    && (stride <= right < n - stride ==> w[right - stride] <= w[right + stride])
  }

  lemma GapMoves(w: seq<int>, stride: nat, right: nat, n: nat)
    requires stride > 0 && stride <= right < |w| && Gap(w, stride, right, n)
    requires w[right - stride] > w[right]
    ensures Exchanged(w, right - stride, right) == w[right - stride := w[right]][right := w[right - stride]]
    ensures Gap(Exchanged(w, right - stride, right), stride, right - stride, n)
  {
  }

  lemma GapOpens(a: seq<int>, stride: nat, base: nat)
    requires stride > 0 && base + stride < |a| && PrefixOrdered(a, stride, base + stride)
    ensures Gap(a, stride, base + stride, base + stride + 1) && SameChains(a, a, stride)
  {
  }

  lemma GapCloses(w: seq<int>, stride: nat, right: nat, n: nat)
    requires Gap(w, stride, right, n)
    requires stride <= right ==> w[right - stride] <= w[right]
    ensures PrefixOrdered(w, stride, n)
  {
  }

  /** Copying `left` over the gap at `right` moves the gap, which is an exchange of what the
      ids will be. */
  lemma ShiftIsExchange(c: seq<int>, w: seq<int>, left: nat, right: nat)
    requires left < right < |c| == |w| && w == c[right := w[right]]
    ensures c[right := c[left]][left := w[right]] == w[left := w[right]][right := w[left]]
  {
  }

  /** Walk the entry at `base + stride` down its chain to where it belongs. */
  method InsertAt(info: Info, base: nat, stride: nat)
    requires info.Valid() && 0 < stride && base + stride < info.ngroups
    requires PrefixOrdered(info.Contents(), stride, base + stride)
    modifies info.Storage()
    ensures PrefixOrdered(info.Contents(), stride, base + stride + 1)
    ensures SameChains(old(info.Contents()), info.Contents(), stride)
  {
    hide *;
    ghost var was: seq<int> := info.Contents();
    ghost var n := base + stride + 1;
    GapOpens(was, stride, base);
    var left: int := base;
    var right := left + stride;
    var tmp := info.At(right);
    assert was[right := tmp] == was;
    while left >= 0 && info.At(left) > tmp
      invariant left == right - stride && right < n
      invariant Gap(info.Contents()[right := tmp], stride, right, n)
      invariant SameChains(was, info.Contents()[right := tmp], stride)
      decreases left
    {
      ghost var w: seq<int> := info.Contents()[right := tmp];
      GapMoves(w, stride, right, n);
      ExchangeKeepsChains(w, stride, left);
      ShiftIsExchange(info.Contents(), w, left, right);
      info.Set(right, info.At(left));
      SameChainsTransitive(was, w, info.Contents()[left := tmp], stride);
      right := left;
      left := left - stride;
    }
    GapCloses(info.Contents()[right := tmp], stride, right, n);
    info.Set(right, tmp);
  }

  /** `b` is `a` rearranged, in order at every stride that `a` was and at the strides
      between the `k`-th and the `top`-th. */
  ghost predicate SortedDownTo(a: seq<int>, b: seq<int>, k: nat, top: nat) {
    && |a| == |b| && multiset(a) == multiset(b) && KeepsOrders(a, b)
    && forall j: nat :: k < j < top ==> Ordered(b, Stride(j))
  }

  lemma PassDone(was: seq<int>, a: seq<int>, b: seq<int>, k: nat, top: nat)
    requires 0 < k < top && Stride(k) > 0 && SortedDownTo(was, a, k, top)
    requires Ordered(b, Stride(k)) && SameChains(a, b, Stride(k)) && KeepsOrders(a, b)
    ensures SortedDownTo(was, b, k - 1, top)
  {
  }

  lemma {:induction false} StrideGrows(j: nat, k: nat)
    requires j <= k
    ensures Stride(j) <= Stride(k)
    ensures j < k ==> Stride(j) < Stride(k)
  {
    if j == k {
    } else {
      StrideGrows(j, k - 1);
    }
  }

  lemma SortedWhenDone(was: seq<int>, a: seq<int>, top: nat)
    requires 0 < top && |a| <= Stride(top) && SortedDownTo(was, a, 0, top)
    ensures Ordered(a, 1) && multiset(a) == multiset(was) && KeepsOrders(was, a)
    ensures forall j: nat :: 0 < Stride(j) < |a| ==> Ordered(a, Stride(j))
  {
    if top > 1 {
      assert Ordered(a, Stride(1));
    }
    forall j: nat | 0 < Stride(j) < |a|
      ensures Ordered(a, Stride(j))
    {
      if j >= top {
        StrideGrows(top, j);
      }
    }
  }

  lemma SortStarts(a: seq<int>, top: nat)
    requires top > 0
    ensures SortedDownTo(a, a, top - 1, top)
  {
  }

  /** The Shell sort: strides ..., 13, 4, 1, each pass keeping the orders of those before it. */
  method GroupsSort(info: Info)
    requires info.Valid()
    modifies info.Storage()
    ensures Ordered(info.Contents(), 1)
    ensures multiset(info.Contents()) == multiset(old(info.Contents()))
    ensures KeepsOrders(old(info.Contents()), info.Contents())
    ensures forall k: nat :: 0 < Stride(k) < info.ngroups ==> Ordered(info.Contents(), Stride(k))
  {
    hide *;
    ghost var was: seq<int> := info.Contents();
    StrideForm(0);
    StrideForm(1);
    var stride := 1;
    ghost var k: nat := 1;
    while stride < info.ngroups
      invariant k > 0 && stride == Stride(k)
      invariant Stride(k - 1) == 0 || Stride(k - 1) < info.ngroups
      invariant info.Contents() == was
      decreases info.ngroups - stride
    {
      StrideForm(k + 1);
      stride := 3 * stride + 1;
      k := k + 1;
    }
    StrideForm(k);
    ghost var top := k;
    SortStarts(was, top);
    stride := stride / 3;
    k := k - 1;
    while stride != 0
      invariant k < top && stride == Stride(k) && (stride == 0 || stride < info.ngroups)
      invariant SortedDownTo(was, info.Contents(), k, top)
      decreases k
    {
      StrideForm(0);
      StrideForm(k);
      ghost var before: seq<int> := info.Contents();
      SortPass(info, stride);
      PassDone(was, before, info.Contents(), k, top);
      stride := stride / 3;
      k := k - 1;
    }
    StrideForm(k);
    SortedWhenDone(was, info.Contents(), top);
  }
}
