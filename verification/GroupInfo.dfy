/** A process's supplementary groups, held in blocks of at most `perBlock` group ids. */
module GroupInfo {
  import opened Arithmetic
  import opened Constants

  /** gid_t: an unsigned 32-bit integer. */
  type Gid = x: int | 0 <= x < WORD

  predicate Gids(x: seq<int>) {
    forall i :: 0 <= i < |x| ==> 0 <= x[i] < WORD
  }

  /** Block and offset of entry `i`. */
  lemma BlockOf(i: nat, perBlock: nat, nblocks: nat)
    requires perBlock > 0 && i < nblocks * perBlock
    ensures 0 <= i / perBlock < nblocks && 0 <= i % perBlock < perBlock
    ensures i == (i / perBlock) * perBlock + i % perBlock
  {
    if i / perBlock >= nblocks {
      assert (i / perBlock) * perBlock >= nblocks * perBlock by { MulMono(nblocks, i / perBlock, perBlock); }
      assert false;
    }
  }

  class Info {
    const perBlock: nat
    const ngroups: nat
    const blocks: seq<array<Gid>>

    /** Every entry has a slot, and no two blocks share storage. */
    ghost predicate Valid() {
      && perBlock > 0 && |blocks| > 0
      && ngroups <= |blocks| * perBlock
      && (forall b, c :: 0 <= b < c < |blocks| ==> blocks[b] != blocks[c])
      && (|blocks| == 1 ==> ngroups <= blocks[0].Length <= perBlock)
      && (|blocks| > 1 ==> forall b :: 0 <= b < |blocks| ==> blocks[b].Length == perBlock)
    }

    ghost function Storage(): set<object> {
      set b | b in blocks
    }

    lemma SlotExists(i: nat)
      requires Valid() && i < ngroups
      ensures i / perBlock < |blocks| && i % perBlock < blocks[i / perBlock].Length
    {
      BlockOf(i, perBlock, |blocks|);
      if |blocks| == 1 {
        assert i / perBlock == 0 && i == i % perBlock;
      }
    }

    /** GROUP_AT as a value. */
    function At(i: nat): Gid
      requires Valid() && i < ngroups
      reads Storage()
    {
      SlotExists(i);
      blocks[i / perBlock][i % perBlock]
    }

    ghost function FirstGroups(n: nat): (s: seq<int>)
      requires Valid() && n <= ngroups
      reads Storage()
      ensures |s| == n && forall i :: 0 <= i < n ==> s[i] == At(i)
    {
      if n == 0 then [] else FirstGroups(n - 1) + [At(n - 1)]
    }

    ghost function Contents(): (s: seq<int>)
      requires Valid()
      reads Storage()
      ensures |s| == ngroups && Gids(s) && forall i :: 0 <= i < ngroups ==> s[i] == At(i)
    {
      FirstGroups(ngroups)
    }

    /** The groups change only with the storage. */
    twostate lemma SameStorage()
      requires Valid() && unchanged(Storage())
      ensures Contents() == old(Contents())
    {
    }

    constructor (perBlock: nat, ngroups: nat, blocks: seq<array<Gid>>)
      ensures this.perBlock == perBlock && this.ngroups == ngroups && this.blocks == blocks
    {
      this.perBlock, this.ngroups, this.blocks := perBlock, ngroups, blocks;
    }

    /** GROUP_AT as a place to assign to. */
    method Set(i: nat, g: Gid)
      requires Valid() && i < ngroups
      modifies Storage()
      ensures Contents() == old(Contents())[i := g]
    {
      SlotExists(i);
      var block := blocks[i / perBlock];
      block[i % perBlock] := g;
      forall j | 0 <= j < ngroups
        ensures At(j) == if j == i then g else old(At(j))
      {
        SlotExists(j);
        BlockOf(i, perBlock, |blocks|);
        BlockOf(j, perBlock, |blocks|);
      }
    }
  }
}
