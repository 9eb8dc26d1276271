/** Scrambling lock-owner ids with XTEA (Needham and Wheeler, "Tea extensions", 1997). */
module LockOwner {
  import opened Constants

  /** u32 and u64: sums wrap around. */
  type U32 = x: int | 0 <= x < WORD
  type U64 = x: int | 0 <= x < WORD * WORD

  function Plus(a: U32, b: U32): U32 { (a + b) % WORD }
  function Minus(a: U32, b: U32): U32 { (a - b) % WORD }

  const DELTA: U32 := 0x9E3779B9
  const ROUNDS: nat := 32

  datatype Key = Key(k0: U32, k1: U32, k2: U32, k3: U32) {
    /** The word that the low two bits of `i` select. */
    function Word(i: nat): U32 {
      if i % 4 == 0 then k0 else if i % 4 == 1 then k1 else if i % 4 == 2 then k2 else k3
    }
  }

  /** The two halves of the block, and the running sum. */
  datatype Block = Block(v0: U32, v1: U32, sum: U32)

  function Bits(v: U32): bv32 { v as bv32 }
  function Number(b: bv32): U32 { b as int }

  function MixBits(v: bv32, w: bv32): bv32 {
    (((v << 4) ^ (v >> 5)) + v) ^ w
  }

  function Mix(v: U32, w: U32): U32 {
    Number(MixBits(Bits(v), Bits(w)))
  }

  function Round(b: Block, k: Key): Block {
    var v0 := Plus(b.v0, Mix(b.v1, Plus(b.sum, k.Word(b.sum))));
    var sum := Plus(b.sum, DELTA);
    Block(v0, Plus(b.v1, Mix(v0, Plus(sum, k.Word(sum / 2048)))), sum)
  }

  function Unround(b: Block, k: Key): Block {
    var v1 := Minus(b.v1, Mix(b.v0, Plus(b.sum, k.Word(b.sum / 2048))));
    var sum := Minus(b.sum, DELTA);
    Block(Minus(b.v0, Mix(v1, Plus(sum, k.Word(sum)))), v1, sum)
  }

  lemma PlusMinus(a: U32, b: U32)
    ensures Minus(Plus(a, b), b) == a && Plus(Minus(a, b), b) == a
  {
  }

  /** Each half is changed by an amount that the other half determines. */
  lemma RoundInverse(b: Block, k: Key)
    ensures Unround(Round(b, k), k) == b && Round(Unround(b, k), k) == b
  {
    hide Mix, Key.Word, Plus, Minus;
    var r := Round(b, k);
    PlusMinus(b.sum, DELTA);
    PlusMinus(b.v1, Mix(r.v0, Plus(r.sum, k.Word(r.sum / 2048))));
    PlusMinus(b.v0, Mix(b.v1, Plus(b.sum, k.Word(b.sum))));
    var u := Unround(b, k);
    PlusMinus(b.v1, Mix(b.v0, Plus(b.sum, k.Word(b.sum / 2048))));
    PlusMinus(b.v0, Mix(u.v1, Plus(u.sum, k.Word(u.sum))));
  }

  function Rounds(b: Block, k: Key, n: nat): Block {
    if n == 0 then b else Round(Rounds(b, k, n - 1), k)
  }

  function Unrounds(b: Block, k: Key, n: nat): Block
    decreases n
  {
    if n == 0 then b else Unrounds(Unround(b, k), k, n - 1)
  }

  lemma {:induction false} RoundsInverse(b: Block, k: Key, n: nat)
    ensures Unrounds(Rounds(b, k, n), k, n) == b
    ensures Rounds(Unrounds(b, k, n), k, n) == b
    decreases n
  {
    hide Round, Unround;
    if n == 0 {
    } else {
      RoundInverse(Rounds(b, k, n - 1), k);
      RoundsInverse(b, k, n - 1);
      RoundsInverse(Unround(b, k), k, n - 1);
      RoundInverse(b, k);
    }
  }

  /** The sum after `n` rounds, whatever the key and the block. */
  function SumAfter(sum: U32, n: nat): U32 {
    if n == 0 then sum else Plus(SumAfter(sum, n - 1), DELTA)
  }

  lemma {:induction false} SumOfRounds(b: Block, k: Key, n: nat)
    ensures Rounds(b, k, n).sum == SumAfter(b.sum, n)
  {
    hide Mix, Key.Word, Plus;
    if n == 0 {
    } else {
      SumOfRounds(b, k, n - 1);
    }
  }

  lemma {:induction false} SumIsInjective(a: U32, b: U32, n: nat)
    requires SumAfter(a, n) == SumAfter(b, n)
    ensures a == b
  {
    if n == 0 {
    } else {
      PlusMinus(SumAfter(a, n - 1), DELTA);
      PlusMinus(SumAfter(b, n - 1), DELTA);
      SumIsInjective(a, b, n - 1);
    }
  }

  // ----- Ids -----

  function Low(id: U64): U32 { id % WORD }
  function High(id: U64): U32 { id / WORD }
  function Join(v0: U32, v1: U32): U64 { v0 + v1 * WORD }

  lemma JoinSplit(id: U64)
    ensures Join(Low(id), High(id)) == id
  {
  }

  lemma SplitJoin(v0: U32, v1: U32)
    ensures Low(Join(v0, v1)) == v0 && High(Join(v0, v1)) == v1
  {
  }

  function OwnerId(k: Key, id: U64): U64 {
    var b := Rounds(Block(Low(id), High(id), 0), k, ROUNDS);
    Join(b.v0, b.v1)
  }

  /** The owner that an id came from. */
  function OwnerOf(k: Key, id: U64): U64 {
    var b := Unrounds(Block(Low(id), High(id), SumAfter(0, ROUNDS)), k, ROUNDS);
    Join(b.v0, b.v1)
  }

  lemma SumUndone(b: Block, k: Key)
    requires b.sum == SumAfter(0, ROUNDS)
    ensures Unrounds(b, k, ROUNDS).sum == 0
  {
    hide Rounds, Unrounds, SumAfter;
    var u := Unrounds(b, k, ROUNDS);
    RoundsInverse(b, k, ROUNDS);
    SumOfRounds(u, k, ROUNDS);
    SumIsInjective(u.sum, 0, ROUNDS);
  }

  /** For every key the scrambling is a bijection on 64-bit ids, undone by `OwnerOf`. */
  lemma OwnerIdIsBijective(k: Key, id: U64)
    ensures OwnerOf(k, OwnerId(k, id)) == id
    ensures OwnerId(k, OwnerOf(k, id)) == id
  {
    hide Rounds, Unrounds, SumAfter, Low, High, Join;
    var start := Block(Low(id), High(id), 0);
    var b := Rounds(start, k, ROUNDS);
    SumOfRounds(start, k, ROUNDS);
    RoundsInverse(start, k, ROUNDS);
    SplitJoin(b.v0, b.v1);
    JoinSplit(id);
    var end := Block(Low(id), High(id), SumAfter(0, ROUNDS));
    var u := Unrounds(end, k, ROUNDS);
    SumUndone(end, k);
    RoundsInverse(end, k, ROUNDS);
    SplitJoin(u.v0, u.v1);
  }

  /** Distinct owners get distinct ids. */
  lemma DistinctOwnersDistinctIds(k: Key, id: U64, other: U64)
    requires id != other
    ensures OwnerId(k, id) != OwnerId(k, other)
  {
    hide OwnerId, OwnerOf;
    OwnerIdIsBijective(k, id);
    OwnerIdIsBijective(k, other);
  }

  method LockOwnerId(scrambleKey: Key, id: U64) returns (r: U64)
    ensures r == OwnerId(scrambleKey, id)
    ensures OwnerOf(scrambleKey, r) == id
  {
    hide Mix, Key.Word, Low, High, Join, Plus;
    var v0, v1 := Low(id), High(id);
    var sum: U32 := 0;
    for i := 0 to ROUNDS
      invariant Block(v0, v1, sum) == Rounds(Block(Low(id), High(id), 0), scrambleKey, i)
    {
      v0 := Plus(v0, Mix(v1, Plus(sum, scrambleKey.Word(sum))));
      sum := Plus(sum, DELTA);
      v1 := Plus(v1, Mix(v0, Plus(sum, scrambleKey.Word(sum / 2048))));
    }
    r := Join(v0, v1);
    OwnerIdIsBijective(scrambleKey, id);
  }
}
