/** The lock-owner scrambling is XTEA: its mixing bit by bit, and its key schedule. */
module LockOwnerXtea {
  import opened Constants
  import opened LockOwner

  // ----- Mixing -----

  predicate Bit(v: bv32, i: bv6)
    requires i < 32
  {
    (v >> i) & 1 == 1
  }

  /** Bit `i` of `x` is bit i - 4 of `v` exclusive-or bit i + 5, with zeros from outside. */
  ghost predicate Spreads(x: bv32, v: bv32) {
    forall i: bv6 :: i < 32 ==> SpreadsTo(x, v, i)
  }

  predicate SpreadsTo(x: bv32, v: bv32, i: bv6)
    requires i < 32
  {
    Bit(x, i) == ((4 <= i && Bit(v, i - 4)) != (i <= 26 && Bit(v, i + 5)))
  }

  lemma ShiftSpreads(v: bv32, i: bv6)
    requires i < 32
    ensures SpreadsTo((v << 4) ^ (v >> 5), v, i)
  {
  }

  /** `h` is what half of the block changes by: the other half `v` spread, added to itself,
      exclusive-or `w`. */
  ghost predicate IsChange(h: U32, v: U32, w: U32) {
    ChangesBy(h as bv32, v as bv32, w as bv32)
  }

  ghost predicate ChangesBy(h: bv32, v: bv32, w: bv32) {
    exists x :: Spreads(x, v) && h == (x + v) ^ w
  }

  lemma MixIsChange(v: U32, w: U32)
    ensures IsChange(Mix(v, w), v, w)
  {
    hide ChangesBy, MixBits;
    MixBitsChange(v as bv32, w as bv32);
    BackAndForth(MixBits(v as bv32, w as bv32));
  }

  lemma BackAndForth(b: bv32)
    ensures (b as int) as bv32 == b
  {
  }

  lemma MixBitsChange(v: bv32, w: bv32)
    ensures ChangesBy(MixBits(v, w), v, w)
  {
    hide Spreads;
    ShiftsSpread(v);
  }

  lemma ShiftsSpread(v: bv32)
    ensures Spreads((v << 4) ^ (v >> 5), v)
  {
    hide SpreadsTo;
    var x := (v << 4) ^ (v >> 5);
    forall i: bv6 | i < 32
      ensures SpreadsTo(x, v, i)
    {
      ShiftSpreads(v, i);
    }
  }

  // ----- Key schedule -----

  /** The sum before round `n`. */
  function Sum(n: nat): U32 { n * 0x9E3779B9 % WORD }

  lemma {:induction false} SumIs(n: nat)
    ensures SumAfter(0, n) == Sum(n)
  {
    if n == 0 {
    } else {
      SumIs(n - 1);
      Wraps((n - 1) * 0x9E3779B9, 0x9E3779B9);
    }
  }

  lemma Wraps(a: nat, b: nat)
    ensures (a % WORD + b) % WORD == (a + b) % WORD
  {
  }

  /** The key word that the second half of round `n` uses; the first half uses them in turn. */
  function Second(n: nat): (w: nat)
    requires n < 32
    ensures w < 4
  {
    if n in {3, 4, 8, 9, 14, 19, 24, 29} then 0
    else if n in {2, 7, 12, 13, 17, 18, 22, 23, 28} then 1
    else if n in {1, 6, 11, 16, 21, 26, 27, 31} then 2
    else 3
  }

  /** The bits of the sum that choose the word. */
  function Chosen(n: nat): nat { Sum(n) / 2048 % 4 }

  lemma ChosenIn0To7()
    ensures Chosen(1) == 3 && Chosen(2) == 2 && Chosen(3) == 1 && Chosen(4) == 0
    ensures Chosen(5) == 0 && Chosen(6) == 3 && Chosen(7) == 2 && Chosen(8) == 1
  {
  }

  lemma ChosenIn8To15()
    ensures Chosen(9) == 0 && Chosen(10) == 0 && Chosen(11) == 3 && Chosen(12) == 2
    ensures Chosen(13) == 1 && Chosen(14) == 1 && Chosen(15) == 0 && Chosen(16) == 3
  {
  }

  lemma ChosenIn16To23()
    ensures Chosen(17) == 2 && Chosen(18) == 1 && Chosen(19) == 1 && Chosen(20) == 0
    ensures Chosen(21) == 3 && Chosen(22) == 2 && Chosen(23) == 1 && Chosen(24) == 1
  {
  }

  lemma ChosenIn24To31()
    ensures Chosen(25) == 0 && Chosen(26) == 3 && Chosen(27) == 2 && Chosen(28) == 2
    ensures Chosen(29) == 1 && Chosen(30) == 0 && Chosen(31) == 3 && Chosen(32) == 2
  {
  }

  lemma Schedule(n: nat)
    requires n < 32
    ensures Sum(n) % 4 == n % 4 && Chosen(n + 1) == Second(n)
  {
    ChosenIn0To7();
    ChosenIn8To15();
    ChosenIn16To23();
    ChosenIn24To31();
    hide Chosen;
  }

  function Words(k: Key): (w: seq<U32>)
    ensures |w| == 4
  {
    [k.k0, k.k1, k.k2, k.k3]
  }

  lemma Difference(a: U32, h: U32)
    ensures (Plus(a, h) - a) % WORD == h
  {
  }

  lemma RoundChanges(b: Block, k: Key, w0: U32, w1: U32)
    requires w0 == Plus(b.sum, k.Word(b.sum))
    requires w1 == Plus(Plus(b.sum, DELTA), k.Word(Plus(b.sum, DELTA) / 2048))
    ensures var b' := Round(b, k);
      && IsChange((b'.v0 - b.v0) % WORD, b.v1, w0) && IsChange((b'.v1 - b.v1) % WORD, b'.v0, w1)
  {
    hide IsChange, Mix, Plus, Key.Word;
    var b' := Round(b, k);
    MixIsChange(b.v1, w0);
    MixIsChange(b'.v0, w1);
    Difference(b.v0, Mix(b.v1, w0));
    Difference(b.v1, Mix(b'.v0, w1));
  }

  lemma WordIs(k: Key, sum: U32, i: nat, j: nat)
    requires i == sum % 4 && j == sum / 2048 % 4
    ensures Plus(sum, k.Word(sum)) == (sum + Words(k)[i]) % WORD
    ensures Plus(sum, k.Word(sum / 2048)) == (sum + Words(k)[j]) % WORD
  {
  }

  /** In every round the first half of the block changes by the other half, mixed with the sum and
      one word of the key, and then the other half by the first. */
  lemma RoundIsXtea(k: Key, v0: U32, v1: U32, n: nat)
    requires n < ROUNDS
    ensures var start := Block(v0, v1, 0);
      var b, b' := Rounds(start, k, n), Rounds(start, k, n + 1);
      && b.sum == Sum(n)
      && IsChange((b'.v0 - b.v0) % WORD, b.v1, (Sum(n) + Words(k)[n % 4]) % WORD)
      && IsChange((b'.v1 - b.v1) % WORD, b'.v0, (Sum(n + 1) + Words(k)[Second(n)]) % WORD)
  {
    hide IsChange, Round, Plus, Sum, Second, Key.Word;
    var start := Block(v0, v1, 0);
    var b := Rounds(start, k, n);
    SumOfRounds(start, k, n);
    SumIs(n);
    SumIs(n + 1);
    Schedule(n);
    assert Sum(n + 1) == Plus(Sum(n), DELTA);
    WordIs(k, Sum(n), n % 4, Sum(n) / 2048 % 4);
    WordIs(k, Sum(n + 1), Sum(n + 1) % 4, Second(n));
    RoundChanges(b, k, (Sum(n) + Words(k)[n % 4]) % WORD, (Sum(n + 1) + Words(k)[Second(n)]) % WORD);
  }

  /** The scrambling is 32 such rounds on the halves of the id, from a sum of zero. */
  lemma OwnerIdIsRounds(k: Key, id: U64)
    ensures var b := Rounds(Block(id % WORD, id / WORD, 0), k, 32);
      OwnerId(k, id) == b.v0 + b.v1 * WORD
  {
    hide Rounds;
  }
}
