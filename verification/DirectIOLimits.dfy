/** When the requests of a call stay within the connection's limit. */
module DirectIOLimits {
  import opened Arithmetic
  import opened Constants
  import opened DirectIORounds

  // ----- One request -----

  /** The pages that `limit` bytes at `offset` call for hold no more than `limit` bytes: those
      bytes end on a page boundary, or are more than one request carries. */
  predicate LimitFits(c: Conn, limit: nat, offset: nat)
    requires c.page > 0
  {
    limit + offset >= MAX_PAGES_PER_REQ * c.page || (limit + offset > 0 && (limit + offset) % c.page == 0)
  }

  lemma LimitFitsIff(c: Conn, limit: nat, offset: nat)
    requires c.page > 0 && offset < c.page
    ensures 0 < PagesWanted(limit, offset, c.page) <= MAX_PAGES_PER_REQ
    ensures PagesWanted(limit, offset, c.page) * c.page - offset <= limit <==> LimitFits(c, limit, offset)
  {
    var span := Min(limit, MAX_PAGES_PER_REQ * c.page) + offset;
    var q, w := UnitsFor(span, c.page), PagesWanted(limit, offset, c.page);
    assert 0 * c.page == 0;
    if limit + offset >= MAX_PAGES_PER_REQ * c.page {
      MulMono(w, MAX_PAGES_PER_REQ, c.page);
    } else if span > 0 {
      assert q > 0;
      if q > MAX_PAGES_PER_REQ {
        MulMono(MAX_PAGES_PER_REQ, q - 1, c.page);
        assert false;
      }
      assert w == q && span == limit + offset;
      WholeUnitsIff(span, q, c.page);
    }
  }

  /** The limit bounds the pages to pin, not the bytes they hold.  A round stays within it however
      many of those pages are pinned, if and only if what is left does or the limit fits. */
  lemma WithinLimitIff(c: Conn, count: nat, limit: nat, offset: nat)
    requires c.Sound() && offset < c.page
    ensures (forall pages :: 0 < pages <= PagesWanted(Min(count, limit), offset, c.page) ==>
               RoundSize(c, count, pages, offset) <= limit)
       <==> count <= limit || LimitFits(c, limit, offset)
  {
    hide PagesWanted, LimitFits;
    var w := PagesWanted(Min(count, limit), offset, c.page);
    LimitFitsIff(c, Min(count, limit), offset);
    Held(c, w, offset);
    forall pages | 0 < pages <= w
      ensures RoundSize(c, count, pages, offset) <= RoundSize(c, count, w, offset)
    {
      Held(c, pages, offset);
      MulMono(pages, w, c.page);
    }
  }

  /** With nothing pinned at an unaligned address, the room is taken for nearly 2^32 bytes. */
  lemma NothingPinnedIff(c: Conn, count: nat, limit: nat, offset: nat)
    requires c.Sound() && offset < c.page
    ensures RoundSize(c, count, 0, offset) <= limit
       <==> count <= limit || offset == 0 || WORD - offset <= limit
  {
    Held(c, 0, offset);
  }

  // ----- All requests of a call -----

  /** A round that does not finish what is left goes to a page boundary. */
  lemma RoundAligns(c: Conn, at: nat, left: nat, pages: nat)
    requires c.Sound() && pages <= MAX_PAGES_PER_REQ && RoundSize(c, left, pages, at % c.page) < left
    ensures var size, offset := RoundSize(c, left, pages, at % c.page), at % c.page;
      (at + size) % c.page == 0 && (offset > 0 ==> size >= c.page - offset)
  {
    Held(c, pages, at % c.page);
    if pages > 0 {
      WholeUnits(pages, c.page);
      RoundsUp(at, pages * c.page, c.page);
    } else if at % c.page > 0 {
      RoundsUp(at, WORD, c.page);
    }
  }

  /** After the first round the buffer is on a page boundary, and has been since the first one. */
  lemma {:induction false} LaterRoundsAreAligned(call: Call, answers: seq<Answer>, r: nat)
    requires call.c.Sound() && 0 < r <= |answers| && Reaches(call, answers, r)
    ensures var moved, first := MovedBefore(answers, r), call.addr % call.c.page;
      (call.addr + moved) % call.c.page == 0 && (first > 0 ==> moved >= call.c.page - first)
  {
    hide PagesWanted, RoundSize;
    var before := MovedBefore(answers, r - 1);
    var left, offset := call.requested - before, (call.addr + before) % call.c.page;
    var wanted := PagesWanted(Min(left, call.Limit()), offset, call.c.page);
    LimitFitsIff(call.c, Min(left, call.Limit()), offset);
    RoundAligns(call.c, call.addr + before, left, Min(answers[r - 1].pinned, wanted));
    if r == 1 {
    } else {
      LaterRoundsAreAligned(call, answers, r - 1);
    }
  }

  /** Round `r` asks for more than the limit. */
  ghost predicate AsksTooMuch(call: Call, answers: seq<Answer>, r: nat)
    requires call.c.Sound()
  {
    Sends(call, answers, r) && Asked(call, answers, r) > call.Limit()
  }

  /** It does, although pages were pinned. */
  ghost predicate PinsTooMuch(call: Call, answers: seq<Answer>, r: nat)
    requires call.c.Sound()
  {
    AsksTooMuch(call, answers, r) && answers[r].pinned > 0
  }

  /** Whether every request is within the limit can be told before the call.  It is, if all that is
      wanted is; or else if the buffer starts on a page boundary where the limit fits, or the limit
      is nearly 2^32. */
  predicate CallFits(call: Call)
    requires call.c.page > 0
  {
    var limit, offset := call.Limit(), call.addr % call.c.page;
    || call.requested <= limit
    || if offset == 0 then LimitFits(call.c, limit, 0) else WORD - offset <= limit
  }

  /** So can whether every request that has pages pinned is.  It is, if all that is wanted is; or
      else if the limit fits where the buffer starts, and fits on a page boundary as well unless the
      rest after the first page is within the limit. */
  predicate PinnedFits(call: Call)
    requires call.c.page > 0
  {
    var limit, offset := call.Limit(), call.addr % call.c.page;
    || call.requested <= limit
    || (LimitFits(call.c, limit, offset)
        && (LimitFits(call.c, limit, 0) || call.requested - (call.c.page - offset) <= limit))
  }

  lemma PinnedRequestFits(call: Call, answers: seq<Answer>, r: nat)
    requires call.c.Sound() && PinnedFits(call)
    ensures !PinsTooMuch(call, answers, r)
  {
    hide PagesWanted, LimitFits;
    if Sends(call, answers, r) && answers[r].pinned > 0 {
      var moved := MovedBefore(answers, r);
      var left, offset := call.requested - moved, (call.addr + moved) % call.c.page;
      if r > 0 {
        LaterRoundsAreAligned(call, answers, r);
      }
      WithinLimitIff(call.c, left, call.Limit(), offset);
      LimitFitsIff(call.c, Min(left, call.Limit()), offset);
    }
  }

  /** A limit of nearly 2^32 is more than a request carries. */
  lemma FitsWhenPinned(call: Call)
    requires call.c.Sound() && CallFits(call)
    ensures PinnedFits(call)
  {
    var page := call.c.page;
    if call.requested > call.Limit() && call.addr % page > 0 {
      WholePagesBelow(MAX_PAGES_PER_REQ, page);
    }
  }

  lemma WholePagesBelow(pages: nat, page: nat)
    requires page > 0 && WORD % page == 0 && pages * page < WORD
    ensures (pages + 1) * page <= WORD
  {
    var q := WORD / page;
    assert WORD == q * page;
    if q <= pages {
      MulMono(q, pages, page);
      assert false;
    }
    MulMono(pages + 1, q, page);
  }

  lemma RequestFits(call: Call, answers: seq<Answer>, r: nat)
    requires call.c.Sound() && CallFits(call)
    ensures !AsksTooMuch(call, answers, r)
  {
    hide PagesWanted, LimitFits;
    FitsWhenPinned(call);
    PinnedRequestFits(call, answers, r);
    if Sends(call, answers, r) && answers[r].pinned == 0 {
      var moved := MovedBefore(answers, r);
      if r > 0 {
        LaterRoundsAreAligned(call, answers, r);
      }
      NothingAsked(call, answers, r);
      NothingPinnedIff(call.c, call.requested - moved, call.Limit(), (call.addr + moved) % call.c.page);
    }
  }

  lemma NothingAsked(call: Call, answers: seq<Answer>, r: nat)
    requires call.c.Sound() && Sends(call, answers, r) && answers[r].pinned == 0
    ensures var moved := MovedBefore(answers, r);
      Asked(call, answers, r)
      == RoundSize(call.c, call.requested - moved, 0, (call.addr + moved) % call.c.page)
  {
    hide PagesWanted, RoundSize;
    var moved := MovedBefore(answers, r);
    LimitFitsIff(call.c, Min(call.requested - moved, call.Limit()), (call.addr + moved) % call.c.page);
  }

  /** The first request is too large when the limit does not fit where the buffer starts. */
  lemma FirstPinsTooMuch(call: Call)
    requires call.c.Sound() && call.requested > call.Limit()
    requires !LimitFits(call.c, call.Limit(), call.addr % call.c.page)
    ensures exists answers :: PinsTooMuch(call, answers, 0)
  {
    hide PagesWanted, LimitFits;
    var offset := call.addr % call.c.page;
    var w := PagesWanted(call.Limit(), offset, call.c.page);
    LimitFitsIff(call.c, call.Limit(), offset);
    Held(call.c, w, offset);
    assert PinsTooMuch(call, [Answer(w, 0, 0, true)], 0);
  }

  /** The second is, after a first of one page, when the limit does not fit on a page boundary. */
  lemma SecondPinsTooMuch(call: Call)
    requires call.c.Sound() && call.requested - (call.c.page - call.addr % call.c.page) > call.Limit()
    requires !LimitFits(call.c, call.Limit(), 0)
    ensures exists answers :: PinsTooMuch(call, answers, 1)
  {
    hide PagesWanted, LimitFits;
    var page, offset := call.c.page, call.addr % call.c.page;
    var w := PagesWanted(call.Limit(), 0, page);
    var answers := [Answer(1, 0, page - offset, true), Answer(w, 0, 0, true)];
    LimitFitsIff(call.c, call.Limit(), offset);
    LimitFitsIff(call.c, call.Limit(), 0);
    Held(call.c, 1, offset);
    Held(call.c, w, 0);
    assert MovedBefore(answers, 1) == page - offset;
    assert Reaches(call, answers, 0) && Asked(call, answers, 0) == page - offset;
    RoundsUp(call.addr, page, page);
    assert PinsTooMuch(call, answers, 1);
  }

  /** The first request is too large when nothing is pinned for it at an unaligned address. */
  lemma FirstAsksTooMuch(call: Call)
    requires call.c.Sound() && call.requested > call.Limit()
    requires call.addr % call.c.page > 0 && WORD - call.addr % call.c.page > call.Limit()
    ensures exists answers :: AsksTooMuch(call, answers, 0)
  {
    hide PagesWanted;
    var answers := [Answer(0, 0, 0, true)];
    assert Reaches(call, answers, 0);
    NothingAsked(call, answers, 0);
    NothingPinnedIff(call.c, call.requested, call.Limit(), call.addr % call.c.page);
    assert AsksTooMuch(call, answers, 0);
  }

  /** Requests stay within the limit, whatever the rounds of the call meet, exactly when the call
      fits. */
  lemma CallFitsIff(call: Call)
    requires call.c.Sound()
    ensures CallFits(call) <==> forall answers, r :: !AsksTooMuch(call, answers, r)
  {
    hide AsksTooMuch, LimitFits;
    if CallFits(call) {
      forall answers, r: nat
        ensures !AsksTooMuch(call, answers, r)
      {
        RequestFits(call, answers, r);
      }
    } else if call.addr % call.c.page == 0 {
      FirstPinsTooMuch(call);
      var answers :| PinsTooMuch(call, answers, 0);
      assert AsksTooMuch(call, answers, 0);
    } else {
      FirstAsksTooMuch(call);
    }
  }

  /** Requests with pages pinned stay within the limit exactly under the weaker condition. */
  lemma PinnedFitsIff(call: Call)
    requires call.c.Sound()
    ensures PinnedFits(call) <==> forall answers, r :: !PinsTooMuch(call, answers, r)
  {
    hide PinsTooMuch, LimitFits;
    if PinnedFits(call) {
      forall answers, r: nat
        ensures !PinsTooMuch(call, answers, r)
      {
        PinnedRequestFits(call, answers, r);
      }
    } else if !LimitFits(call.c, call.Limit(), call.addr % call.c.page) {
      FirstPinsTooMuch(call);
    } else {
      SecondPinsTooMuch(call);
    }
  }

  lemma WholePagesLimit(c: Conn, pages: nat, offset: nat)
    requires pages > 0 && offset < c.page
    ensures LimitFits(c, pages * c.page, offset) <==> offset == 0 || pages >= MAX_PAGES_PER_REQ
  {
    MulMono(1, pages, c.page);
    QuotientRemainder(pages, offset, c.page);
    if pages >= MAX_PAGES_PER_REQ {
      MulMono(MAX_PAGES_PER_REQ, pages, c.page);
    } else {
      MulMono(pages + 1, MAX_PAGES_PER_REQ, c.page);
    }
  }

  /** With a limit of whole pages, only the first request can be too large, and only if the buffer
      is unaligned; with pages pinned, only if the limit is also less than what a request carries. */
  lemma WholePagesFitIff(call: Call, pages: nat)
    requires call.c.Sound() && pages > 0 && call.Limit() == pages * call.c.page
    ensures var first := call.addr % call.c.page;
      && (CallFits(call) <==> call.requested <= call.Limit() || first == 0 || WORD - first <= call.Limit())
      && (PinnedFits(call) <==> call.requested <= call.Limit() || first == 0 || pages >= MAX_PAGES_PER_REQ)
    ensures forall answers, r :: r > 0 ==> !AsksTooMuch(call, answers, r)
  {
    hide AsksTooMuch, LimitFits;
    WholePagesLimit(call.c, pages, call.addr % call.c.page);
    WholePagesLimit(call.c, pages, 0);
    forall answers, r: nat | r > 0
      ensures !AsksTooMuch(call, answers, r)
    {
      LaterRequestFits(call, answers, r);
    }
  }

  lemma LaterRequestFits(call: Call, answers: seq<Answer>, r: nat)
    requires call.c.Sound() && LimitFits(call.c, call.Limit(), 0) && r > 0
    ensures !AsksTooMuch(call, answers, r)
  {
    hide PagesWanted, LimitFits;
    if Sends(call, answers, r) {
      var left := call.requested - MovedBefore(answers, r);
      LaterRoundsAreAligned(call, answers, r);
      if answers[r].pinned == 0 {
        NothingAsked(call, answers, r);
        NothingPinnedIff(call.c, left, call.Limit(), 0);
      } else {
        WithinLimitIff(call.c, left, call.Limit(), 0);
        LimitFitsIff(call.c, Min(left, call.Limit()), 0);
      }
    }
  }

  // ----- Reads and writes -----

  /** From a page boundary, a write keeps to the write limit and a read to the read limit, if those
      are whole pages. */
  lemma AlignedFits(call: Call, answers: seq<Answer>, r: nat)
    requires call.c.Sound() && call.addr % call.c.page == 0 && Sends(call, answers, r)
    ensures call.write && call.c.maxWrite > 0 && call.c.maxWrite % call.c.page == 0 ==>
      Asked(call, answers, r) <= call.c.maxWrite
    ensures !call.write && call.c.maxRead > 0 && call.c.maxRead % call.c.page == 0 ==>
      Asked(call, answers, r) <= call.c.maxRead
  {
    hide Asked, Reaches;
    if CallFits(call) {
      RequestFits(call, answers, r);
    }
  }

  /** The call on a connection whose other limit is `other`. */
  function WithOtherLimit(call: Call, other: nat): Call {
    call.(c := if call.write then call.c.(maxRead := other) else call.c.(maxWrite := other))
  }

  lemma AskedIsSame(call: Call, other: nat, answers: seq<Answer>, r: nat)
    requires call.c.Sound() && r < |answers| && MovedBefore(answers, r) <= call.requested
    ensures answers[r].pinned >= 0 ==> Asked(call, answers, r) == Asked(WithOtherLimit(call, other), answers, r)
  {
    hide PagesWanted;
  }

  lemma EndingIsSame(call: Call, other: nat, answers: seq<Answer>, r: nat)
    requires call.c.Sound() && r < |answers| && MovedBefore(answers, r) <= call.requested
    ensures Ending(call, answers, r) == Ending(WithOtherLimit(call, other), answers, r)
  {
    hide Asked, MovedBefore;
    AskedIsSame(call, other, answers, r);
  }

  /** The other of the two limits makes no difference: the same rounds are reached, with requests of
      the same sizes, and end in the same way. */
  lemma {:induction false} OtherLimitIsIdle(call: Call, other: nat, answers: seq<Answer>, r: nat)
    requires call.c.Sound() && r <= |answers|
    ensures var call' := WithOtherLimit(call, other);
      && (Reaches(call, answers, r) <==> Reaches(call', answers, r))
      && (r < |answers| && Reaches(call, answers, r) ==>
            && Ending(call, answers, r) == Ending(call', answers, r)
            && (answers[r].pinned >= 0 ==> Asked(call, answers, r) == Asked(call', answers, r)))
  {
    hide Asked, Ending, MovedBefore;
    if r < |answers| && Reaches(call, answers, r) {
      AskedIsSame(call, other, answers, r);
      EndingIsSame(call, other, answers, r);
    }
    if r == 0 {
    } else {
      OtherLimitIsIdle(call, other, answers, r - 1);
    }
  }

  /** A connection that reads 32 pages at a time and writes one. */
  lemma ReadsAndWritesDiffer()
    ensures var c, answers := Conn(4096, 131072, 4096), [Answer(2, 0, 0, true)];
      && c.Sound()
      && Sends(Call(c, 0, 8192, true), answers, 0) && Asked(Call(c, 0, 8192, true), answers, 0) == 4096
      && Sends(Call(c, 0, 8192, false), answers, 0) && Asked(Call(c, 0, 8192, false), answers, 0) == 8192
  {
    var c, answers := Conn(4096, 131072, 4096), [Answer(2, 0, 0, true)];
    assert Reaches(Call(c, 0, 8192, true), answers, 0) && Reaches(Call(c, 0, 8192, false), answers, 0);
  }

  /** With one page to a request, an unaligned buffer is still asked for nearly two. */
  lemma LimitCanBeExceeded()
    ensures var call := Call(Conn(4096, 4096, 4096), 1, 10000, true);
      var answers := [Answer(2, 0, 0, true)];
      && call.c.Sound() && PinsTooMuch(call, answers, 0)
      && Asked(call, answers, 0) == 8191
  {
    var call := Call(Conn(4096, 4096, 4096), 1, 10000, true);
    assert Reaches(call, [Answer(2, 0, 0, true)], 0);
  }

  /** A request carries 32 pages, if it may, and no more. */
  lemma RequestsCarry32Pages()
    ensures var call := Call(Conn(4096, 200704, 4096), 0, 200000, false);
      var answers := [Answer(49, 0, 0, true)];
      call.c.Sound() && Sends(call, answers, 0) && Asked(call, answers, 0) == 32 * 4096
  {
    var call := Call(Conn(4096, 200704, 4096), 0, 200000, false);
    assert Reaches(call, [Answer(49, 0, 0, true)], 0);
  }

  /** With as many pages as a request carries, and none of them pinned, everything is asked for. */
  lemma LimitIsLostWithoutPages()
    ensures var call := Call(Conn(4096, 131072, 131072), 1, 200000, false);
      var answers := [Answer(0, 0, 0, true)];
      && call.c.Sound() && PinnedFits(call) && AsksTooMuch(call, answers, 0)
      && Asked(call, answers, 0) == 200000
  {
    var call := Call(Conn(4096, 131072, 131072), 1, 200000, false);
    assert Reaches(call, [Answer(0, 0, 0, true)], 0);
  }
}
