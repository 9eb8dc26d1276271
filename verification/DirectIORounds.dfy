/** Direct I/O, round by round: what a call moves, how it ends and what its caller is told. */
module DirectIORounds {
  import opened Arithmetic
  import opened Constants

  const EIO := 5

  /** The page size, and the connection's limits on the bytes of one request. */
  datatype Conn = Conn(page: nat, maxRead: nat, maxWrite: nat) {
    ghost predicate Sound() { 0 < page && MAX_PAGES_PER_REQ * page < WORD && WORD % page == 0 }
  }

  /** What a round meets: how many pages can be pinned (or the error), the error of the
      request (0 if none), how many bytes it reports, and whether another request can be had. */
  datatype Answer = Answer(pinned: int, error: int, moved: nat, more: bool)

  datatype End =
    | Complete            // nothing left to move
    | Short               // a request moved less than it was asked to
    | NoRequest           // no further request could be allocated
    | PinFailed(error: int)
    | IoFailed(error: int)
    | Overlong            // a request claims to have moved more than it was asked to
    | Running             // the answers have run out

  // ----- One round -----

  function PagesWanted(nbytes: nat, offset: nat, page: nat): nat
    requires page > 0
  {
    Min(Max(UnitsFor(Min(nbytes, MAX_PAGES_PER_REQ * page) + offset, page), 1), MAX_PAGES_PER_REQ)
  }

  /** The pages to pin are the fewest that hold the bytes asked for, as far as one request goes. */
  lemma PagesWantedIsLeast(nbytes: nat, offset: nat, page: nat)
    requires offset < page && nbytes > 0
    ensures var w := PagesWanted(nbytes, offset, page);
      && 0 < w <= MAX_PAGES_PER_REQ
      && w * page - offset >= Min(nbytes, MAX_PAGES_PER_REQ * page - offset)
      && (w - 1) * page < nbytes + offset
  {
    var span := Min(nbytes, MAX_PAGES_PER_REQ * page) + offset;
    var q, w := UnitsFor(span, page), PagesWanted(nbytes, offset, page);
    assert 0 * page == 0;
    assert w == if q <= MAX_PAGES_PER_REQ then q else MAX_PAGES_PER_REQ;
    MulMono(w - 1, q - 1, page);
  }

  /** The bytes of a round: what is left, or what the pinned pages hold, in 32-bit arithmetic. */
  function RoundSize(c: Conn, count: nat, pages: nat, offset: nat): nat {
    Min(count, (pages * c.page - offset) % WORD)
  }

  /** A round that pins nothing at an aligned address asks for nothing, and leaves everything
      as it was; every other round asks for something. */
  lemma RoundIsIdleIff(c: Conn, count: nat, pages: nat, offset: nat)
    requires c.Sound() && count > 0 && pages <= MAX_PAGES_PER_REQ && offset < c.page
    ensures RoundSize(c, count, pages, offset) == 0 <==> pages == 0 && offset == 0
    ensures RoundSize(c, count, pages, offset) <= count
  {
    Held(c, pages, offset);
  }

  lemma Held(c: Conn, pages: nat, offset: nat)
    requires c.Sound() && pages <= MAX_PAGES_PER_REQ && offset < c.page
    ensures pages > 0 ==> (pages * c.page - offset) % WORD == pages * c.page - offset > 0
    ensures pages == 0 ==> (pages * c.page - offset) % WORD == if offset == 0 then 0 else WORD - offset
  {
    if pages > 0 {
      MulMono(1, pages, c.page);
      MulMono(pages, MAX_PAGES_PER_REQ, c.page);
    }
  }

  // ----- The rounds of a call -----

  /** What the caller asks for. */
  datatype Call = Call(c: Conn, addr: nat, requested: nat, write: bool) {
    function Limit(): nat { if write then c.maxWrite else c.maxRead }
  }

  /** The bytes that the first `r` answers report. */
  function MovedBefore(answers: seq<Answer>, r: nat): nat
    requires r <= |answers|
  {
    if r == 0 then 0 else MovedBefore(answers, r - 1) + answers[r - 1].moved
  }

  /** The size of the request in round `r`. */
  function Asked(call: Call, answers: seq<Answer>, r: nat): nat
    requires call.c.Sound() && r < |answers| && MovedBefore(answers, r) <= call.requested
    requires answers[r].pinned >= 0
  {
    var moved := MovedBefore(answers, r);
    var left, offset := call.requested - moved, (call.addr + moved) % call.c.page;
    var wanted := PagesWanted(Min(left, call.Limit()), offset, call.c.page);
    RoundSize(call.c, left, Min(answers[r].pinned, wanted), offset)
  }

  /** How round `r` ends the call, if it does. */
  function Ending(call: Call, answers: seq<Answer>, r: nat): End
    requires call.c.Sound() && r < |answers| && MovedBefore(answers, r) <= call.requested
  {
    var a := answers[r];
    if a.pinned < 0 then PinFailed(a.pinned)
    else if a.error != 0 then IoFailed(a.error)
    else if a.moved > Asked(call, answers, r) then Overlong
    else if a.moved < Asked(call, answers, r) then Short
    else if MovedBefore(answers, r + 1) == call.requested then Complete
    else if !a.more then NoRequest
    else Running
  }

  /** The call gets as far as round `r`: every round before moved all it was asked to. */
  ghost predicate Reaches(call: Call, answers: seq<Answer>, r: nat)
    requires call.c.Sound() && r <= |answers|
    ensures Reaches(call, answers, r) ==> MovedBefore(answers, r) < call.requested
  {
    if r == 0 then call.requested > 0
    else Reaches(call, answers, r - 1) && Ending(call, answers, r - 1) == Running
         && MovedBefore(answers, r) < call.requested
  }

  /** Round `r` is reached and sends a request. */
  ghost predicate Sends(call: Call, answers: seq<Answer>, r: nat)
    requires call.c.Sound()
  {
    r < |answers| && Reaches(call, answers, r) && answers[r].pinned >= 0
  }

  /** The call ends as `end` says, with `moved` bytes moved. */
  ghost predicate Ends(call: Call, answers: seq<Answer>, end: End, moved: nat)
    requires call.c.Sound()
  {
    || (call.requested == 0 && end == Complete && moved == 0)
    || (end == Running && Reaches(call, answers, |answers|) && moved == MovedBefore(answers, |answers|))
    || (end != Running && exists r :: EndsIn(call, answers, r, end, moved))
  }

  ghost predicate EndsIn(call: Call, answers: seq<Answer>, r: nat, end: End, moved: nat)
    requires call.c.Sound()
  {
    && r < |answers| && Reaches(call, answers, r) && Ending(call, answers, r) == end
    && moved == MovedBefore(answers, if end in {Complete, Short, NoRequest} then r + 1 else r)
  }

  /** Round `j` moves all it was asked to, with more to do and another request to be had. */
  ghost predicate MovesAll(call: Call, answers: seq<Answer>, j: nat)
    requires call.c.Sound() && j < |answers|
  {
    var a := answers[j];
    && MovedBefore(answers, j) < call.requested && a.pinned >= 0 && a.error == 0 && a.more
    && a.moved == Asked(call, answers, j) < call.requested - MovedBefore(answers, j)
  }

  lemma MovesAllIff(call: Call, answers: seq<Answer>, j: nat)
    requires call.c.Sound() && j < |answers| && MovedBefore(answers, j) < call.requested
    ensures MovesAll(call, answers, j)
       <==> Ending(call, answers, j) == Running && MovedBefore(answers, j + 1) < call.requested
  {
    hide Asked;
  }

  /** A round is reached if and only if every round before moves all it was asked to. */
  lemma {:induction false} ReachesIff(call: Call, answers: seq<Answer>, r: nat)
    requires call.c.Sound() && r <= |answers|
    ensures Reaches(call, answers, r)
       <==> call.requested > 0 && forall j :: 0 <= j < r ==> MovesAll(call, answers, j)
  {
    hide MovesAll, Ending;
    if r == 0 {
    } else {
      ReachesIff(call, answers, r - 1);
      if Reaches(call, answers, r - 1) {
        MovesAllIff(call, answers, r - 1);
      }
    }
  }

  lemma {:induction false} EarlierRounds(call: Call, answers: seq<Answer>, r: nat, j: nat)
    requires call.c.Sound() && j < r <= |answers| && Reaches(call, answers, r)
    ensures Reaches(call, answers, j) && Ending(call, answers, j) == Running
  {
    if j < r - 1 {
      EarlierRounds(call, answers, r - 1, j);
    } else {
    }
  }

  /** A call ends in one way only. */
  lemma EndIsUnique(call: Call, answers: seq<Answer>, r: nat, end: End, moved: nat)
    requires call.c.Sound() && Ends(call, answers, end, moved)
    requires r < |answers| && Reaches(call, answers, r) && Ending(call, answers, r) != Running
    ensures EndsIn(call, answers, r, end, moved)
  {
    hide Ending, Reaches, MovedBefore;
    if end == Running {
      EarlierRounds(call, answers, |answers|, r);
    } else {
      var q: nat :| EndsIn(call, answers, q, end, moved);
      if q < r {
        EarlierRounds(call, answers, r, q);
      } else if r < q {
        EarlierRounds(call, answers, q, r);
      }
    }
  }

  // ----- Progress that the caller is not told of -----

  /** What the caller is told, given how the loop ended and what it had moved. */
  function Result(end: End, moved: nat): int {
    match end
    case PinFailed(e) => e
    case Overlong => -EIO
    case IoFailed(e) => if moved == 0 then e else moved
    case _ => moved
  }

  /** The round that ends a call settles what the caller is told: the error of a pin, or of a first
      request; -5 (EIO) for an overlong reply; and otherwise the bytes moved so far. */
  lemma ReturnedBy(call: Call, answers: seq<Answer>, r: nat, end: End, moved: nat)
    requires call.c.Sound() && Ends(call, answers, end, moved)
    requires r < |answers| && Reaches(call, answers, r) && Ending(call, answers, r) != Running
    ensures var a, before := answers[r], MovedBefore(answers, r);
      Result(end, moved) ==
        if a.pinned < 0 then a.pinned
        else if a.error != 0 then if before == 0 then a.error else before
        else if a.moved > Asked(call, answers, r) then -5
        else before + a.moved
  {
    hide Asked, Reaches;
    EndIsUnique(call, answers, r, end, moved);
    assert MovedBefore(answers, r + 1) == MovedBefore(answers, r) + answers[r].moved;
  }

  /** After some progress, and rounds that each moved all they were asked to, round `r` cannot pin
      its pages, or its reply claims too much. */
  ghost predicate HidesProgress(call: Call, answers: seq<Answer>, r: nat)
    requires call.c.Sound()
  {
    && r < |answers| && Reaches(call, answers, r) && MovedBefore(answers, r) > 0
    && (answers[r].pinned < 0
        || (answers[r].error == 0 && answers[r].moved > Asked(call, answers, r)))
  }

  /** Bytes were moved and the caller is told of an error, exactly then. */
  lemma HiddenIff(call: Call, answers: seq<Answer>, end: End, moved: nat)
    requires call.c.Sound() && Ends(call, answers, end, moved)
    ensures moved > 0 && Result(end, moved) < 0 <==> exists r :: HidesProgress(call, answers, r)
  {
    if r :| HidesProgress(call, answers, r) {
      EndIsUnique(call, answers, r, end, moved);
    }
    if moved > 0 && Result(end, moved) < 0 {
      var r :| EndsIn(call, answers, r, end, moved);
      assert HidesProgress(call, answers, r);
    }
  }

  /** A page is read; the next one cannot be pinned.  The caller is told -14 and not 4096. */
  lemma ProgressCanBeHidden()
    ensures var call := Call(Conn(4096, 4096, 4096), 0, 8192, false);
      var answers := [Answer(1, 0, 4096, true), Answer(-14, 0, 0, true)];
      call.c.Sound() && HidesProgress(call, answers, 1) && Ends(call, answers, PinFailed(-14), 4096)
  {
    var call := Call(Conn(4096, 4096, 4096), 0, 8192, false);
    var answers := [Answer(1, 0, 4096, true), Answer(-14, 0, 0, true)];
    assert MovedBefore(answers, 1) == 4096;
    assert Reaches(call, answers, 0) && Asked(call, answers, 0) == 4096;
    assert EndsIn(call, answers, 1, PinFailed(-14), 4096);
  }
}
