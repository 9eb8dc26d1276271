/** How long a direct I/O call can go on. */
module DirectIOProgress {
  import opened Arithmetic
  import opened Constants
  import opened DirectIOLimits
  import opened DirectIORounds

  /** Round `j` pins nothing at a page boundary. */
  predicate Idle(call: Call, answers: seq<Answer>, j: nat)
    requires call.c.Sound() && j < |answers|
  {
    answers[j].pinned == 0 && (call.addr + MovedBefore(answers, j)) % call.c.page == 0
  }

  /** How many of the first `r` rounds are not idle. */
  function Busy(call: Call, answers: seq<Answer>, r: nat): nat
    requires call.c.Sound() && r <= |answers|
  {
    if r == 0 then 0 else Busy(call, answers, r - 1) + if Idle(call, answers, r - 1) then 0 else 1
  }

  lemma AskedIsNothingIff(call: Call, answers: seq<Answer>, r: nat)
    requires call.c.Sound() && Sends(call, answers, r)
    ensures Asked(call, answers, r) == 0 <==> Idle(call, answers, r)
  {
    hide PagesWanted, RoundSize;
    var moved := MovedBefore(answers, r);
    var left, offset := call.requested - moved, (call.addr + moved) % call.c.page;
    var wanted := PagesWanted(Min(left, call.Limit()), offset, call.c.page);
    LimitFitsIff(call.c, Min(left, call.Limit()), offset);
    RoundIsIdleIff(call.c, left, Min(answers[r].pinned, wanted), offset);
  }

  /** Every round of a call that still runs is idle, except for at most as many as it has moved bytes. */
  lemma {:induction false} BusyRoundsMove(call: Call, answers: seq<Answer>, r: nat)
    requires call.c.Sound() && r <= |answers| && Reaches(call, answers, r)
    ensures Busy(call, answers, r) <= MovedBefore(answers, r) < call.requested
  {
    hide Asked, Idle;
    if r == 0 {
    } else {
      BusyRoundsMove(call, answers, r - 1);
      AskedIsNothingIff(call, answers, r - 1);
    }
  }

  lemma {:induction false} AllBusy(call: Call, answers: seq<Answer>, r: nat)
    requires call.c.Sound() && r <= |answers|
    requires forall i :: 0 <= i < r ==> answers[i].pinned != 0
    ensures Busy(call, answers, r) == r
  {
    if r == 0 {
    } else {
      AllBusy(call, answers, r - 1);
    }
  }

  const NOTHING := Answer(0, 0, 0, true)

  /** On a page boundary, rounds that pin nothing can follow for as long as one likes. */
  lemma {:induction false} IdleRoundsGoOn(call: Call, answers: seq<Answer>, from: nat, r: nat)
    requires call.c.Sound() && from <= r <= |answers| && Reaches(call, answers, from)
    requires (call.addr + MovedBefore(answers, from)) % call.c.page == 0
    requires forall j :: from <= j < r ==> answers[j] == NOTHING
    ensures Reaches(call, answers, r) && MovedBefore(answers, r) == MovedBefore(answers, from)
    decreases r - from
  {
    hide Asked;
    if r == from {
    } else {
      IdleRoundsGoOn(call, answers, from, r - 1);
      AskedIsNothingIff(call, answers, r - 1);
    }
  }

  /** The call can still be running after `m` rounds. */
  ghost predicate CanRunFor(call: Call, m: nat)
    requires call.c.Sound()
  {
    exists answers :: |answers| == m && Reaches(call, answers, |answers|)
  }

  /** A call can be kept running for ever exactly when it can come to a page boundary with something
      left to move. */
  lemma RunsForEverIff(call: Call)
    requires call.c.Sound()
    ensures (forall m: nat :: CanRunFor(call, m))
       <==> call.requested > if call.addr % call.c.page == 0 then 0 else call.c.page - call.addr % call.c.page
  {
    if forall m: nat :: CanRunFor(call, m) {
      assert CanRunFor(call, 1);
      var answers :| |answers| == 1 && Reaches(call, answers, |answers|);
      LaterRoundsAreAligned(call, answers, 1);
    }
    if call.requested > if call.addr % call.c.page == 0 then 0 else call.c.page - call.addr % call.c.page {
      forall m: nat
        ensures CanRunFor(call, m)
      {
        CanRun(call, m);
      }
    }
  }

  lemma CanRun(call: Call, m: nat)
    requires call.c.Sound()
    requires call.requested > if call.addr % call.c.page == 0 then 0 else call.c.page - call.addr % call.c.page
    ensures CanRunFor(call, m)
  {
    hide PagesWanted;
    var page, first := call.c.page, call.addr % call.c.page;
    if first == 0 {
      var answers := seq(m, _ => NOTHING);
      assert MovedBefore(answers, 0) == 0 && Reaches(call, answers, 0);
      IdleRoundsGoOn(call, answers, 0, m);
    } else if m == 0 {
      assert Reaches(call, [], 0);
    } else {
      var answers := [Answer(1, 0, page - first, true)] + seq(m - 1, _ => NOTHING);
      LimitFitsIff(call.c, Min(call.requested, call.Limit()), first);
      Held(call.c, 1, first);
      assert MovedBefore(answers, 1) == page - first;
      assert Reaches(call, answers, 0) && Asked(call, answers, 0) == page - first;
      RoundsUp(call.addr, page, page);
      IdleRoundsGoOn(call, answers, 1, m);
    }
  }
}
