/** Direct I/O: moving a user buffer in rounds of pinned pages, each of which may fall short. */
module DirectIO {
  import opened Arithmetic
  import opened Constants
  import opened DirectIOLimits
  import opened DirectIOProgress
  import opened DirectIORounds

  /** `tiles`, as pairs of position and length, cover the bytes from `from` to `to` in order,
      with no gap and no overlap. */
  ghost predicate Tile(tiles: seq<(nat, nat)>, from: nat, to: nat) {
    if tiles == [] then from == to
    else
      var last := tiles[|tiles| - 1];
      last.0 + last.1 == to && Tile(tiles[..|tiles| - 1], from, last.0)
  }

  lemma EmptyTile(at: nat)
    ensures Tile([], at, at)
  {
  }

  lemma TileMore(tiles: seq<(nat, nat)>, from: nat, to: nat, length: nat)
    requires Tile(tiles, from, to)
    ensures Tile(tiles + [(to, length)], from, to + length)
  {
  }

  /** The requests sent in the first `r` rounds, as pairs of position and size. */
  ghost predicate SentBefore(call: Call, answers: seq<Answer>, start: nat, r: nat, sent: seq<(nat, nat)>)
    requires call.c.Sound()
  {
    && |sent| == r <= |answers|
    && forall j :: 0 <= j < r ==>
         Sends(call, answers, j) && sent[j] == (start + MovedBefore(answers, j), Asked(call, answers, j))
  }

  lemma NothingYet(call: Call, answers: seq<Answer>, start: nat)
    requires call.c.Sound()
    ensures SentBefore(call, answers, start, 0, []) && Underway(call, answers, 0, call.requested, 0)
    ensures WithinOwnLimit(call, [])
  {
  }

  lemma SentMore(call: Call, answers: seq<Answer>, start: nat, r: nat, sent: seq<(nat, nat)>)
    requires call.c.Sound() && SentBefore(call, answers, start, r, sent) && Sends(call, answers, r)
    ensures SentBefore(call, answers, start, r + 1,
              sent + [(start + MovedBefore(answers, r), Asked(call, answers, r))])
  {
    hide Asked;
  }

  /** No request follows the round that ends the call, nor is one sent if its pages are not pinned. */
  lemma NothingSentAfter(call: Call, answers: seq<Answer>, r: nat, end: End, moved: nat, j: nat)
    requires call.c.Sound() && EndsIn(call, answers, r, end, moved) && end != Running && Sends(call, answers, j)
    ensures j <= r && (end.PinFailed? ==> j < r)
  {
    hide Reaches, MovedBefore, Asked;
    if j > r {
      EarlierRounds(call, answers, j, r);
    }
  }

  /** What is known once round `r` has ended the call. */
  lemma CallEnds(call: Call, answers: seq<Answer>, r: nat, end: End, moved: nat)
    requires call.c.Sound() && EndsIn(call, answers, r, end, moved) && end != Running
    ensures Ends(call, answers, end, moved)
    ensures forall j: nat :: Sends(call, answers, j) ==> j < if end.PinFailed? then r else r + 1
  {
    hide EndsIn, Sends, Reaches, MovedBefore;
    forall j: nat | Sends(call, answers, j)
      ensures j < if end.PinFailed? then r else r + 1
    {
      NothingSentAfter(call, answers, r, end, moved, j);
    }
  }

  lemma NothingToDo(call: Call, answers: seq<Answer>)
    requires call.c.Sound() && call.requested == 0
    ensures Ends(call, answers, Complete, 0)
    ensures forall j: nat :: !Sends(call, answers, j)
  {
    hide Asked;
    forall j: nat
      ensures !Sends(call, answers, j)
    {
    }
  }

  /** The answers run out before anything ends the call. */
  lemma CallStillRuns(call: Call, answers: seq<Answer>)
    requires call.c.Sound() && Reaches(call, answers, |answers|)
    ensures Ends(call, answers, Running, MovedBefore(answers, |answers|))
    ensures forall j: nat :: Sends(call, answers, j) ==> j < |answers|
  {
  }

  /** Before round `r`, with `count` bytes left and `moved` bytes moved. */
  ghost predicate Underway(call: Call, answers: seq<Answer>, r: nat, count: nat, moved: nat)
    requires call.c.Sound() && r <= |answers|
  {
    && count + moved == call.requested
    && if count > 0 then moved == MovedBefore(answers, r) && Reaches(call, answers, r)
       else call.requested == 0 || (r > 0 && EndsIn(call, answers, r - 1, Complete, moved))
  }

  lemma ReachedRoundGoes(call: Call, answers: seq<Answer>, r: nat)
    requires call.c.Sound() && r < |answers| && Reaches(call, answers, r)
    ensures var a, moved := answers[r], MovedBefore(answers, r);
      if a.pinned < 0 then EndsIn(call, answers, r, PinFailed(a.pinned), moved)
      else
        var asked, moved' := Asked(call, answers, r), moved + a.moved;
        && Sends(call, answers, r) && asked <= call.requested - moved
        && if a.error != 0 then EndsIn(call, answers, r, IoFailed(a.error), moved)
           else if a.moved > asked then EndsIn(call, answers, r, Overlong, moved)
           else if a.moved < asked then EndsIn(call, answers, r, Short, moved')
           else if moved' == call.requested then EndsIn(call, answers, r, Complete, moved')
           else if !a.more then EndsIn(call, answers, r, NoRequest, moved')
           else MovedBefore(answers, r + 1) == moved' && Reaches(call, answers, r + 1)
  {
    hide PagesWanted;
    assert MovedBefore(answers, r + 1) == MovedBefore(answers, r) + answers[r].moved;
  }

  /** How round `r` goes. */
  lemma RoundGoes(call: Call, answers: seq<Answer>, r: nat, count: nat, moved: nat)
    requires call.c.Sound() && r < |answers| && count > 0 && Underway(call, answers, r, count, moved)
    ensures moved == MovedBefore(answers, r) && count + moved == call.requested
    ensures var a := answers[r];
      if a.pinned < 0 then EndsIn(call, answers, r, PinFailed(a.pinned), moved)
      else
        var asked, moved' := Asked(call, answers, r), moved + a.moved;
        && Sends(call, answers, r) && asked <= count
        && if a.error != 0 then EndsIn(call, answers, r, IoFailed(a.error), moved)
           else if a.moved > asked then EndsIn(call, answers, r, Overlong, moved)
           else if a.moved < asked then EndsIn(call, answers, r, Short, moved')
           else if moved' < call.requested && !a.more then EndsIn(call, answers, r, NoRequest, moved')
           else Underway(call, answers, r + 1, count - a.moved, moved')
  {
    hide EndsIn, Ending, Reaches, Sends, MovedBefore, Asked;
    ReachedRoundGoes(call, answers, r);
  }

  lemma AskedIs(call: Call, answers: seq<Answer>, r: nat, count: nat, pages: nat)
    requires call.c.Sound() && r < |answers| && answers[r].pinned >= 0
    requires count + MovedBefore(answers, r) == call.requested
    requires var offset := (call.addr + MovedBefore(answers, r)) % call.c.page;
      pages == Min(answers[r].pinned, PagesWanted(Min(count, call.Limit()), offset, call.c.page))
    ensures Asked(call, answers, r)
         == RoundSize(call.c, count, pages, (call.addr + MovedBefore(answers, r)) % call.c.page)
  {
    hide PagesWanted, RoundSize, MovedBefore;
  }

  /** From a page boundary, and with limits of whole pages, no write is larger than the write limit
      and no read than the read limit. */
  ghost predicate WithinOwnLimit(call: Call, sent: seq<(nat, nat)>)
    requires call.c.Sound()
  {
    var limit := if call.write then call.c.maxWrite else call.c.maxRead;
    call.addr % call.c.page == 0 && limit > 0 && limit % call.c.page == 0 ==>
      forall j :: 0 <= j < |sent| ==> sent[j].1 <= limit
  }

  lemma SentFit(call: Call, answers: seq<Answer>, start: nat, sent: seq<(nat, nat)>)
    requires call.c.Sound() && SentBefore(call, answers, start, |sent|, sent)
    ensures |sent| <= |answers|
    ensures CallFits(call) ==> forall j :: 0 <= j < |sent| ==> sent[j].1 <= call.Limit()
    ensures PinnedFits(call) ==> forall j :: 0 <= j < |sent| && answers[j].pinned > 0 ==> sent[j].1 <= call.Limit()
  {
    hide CallFits, PinnedFits, Asked, Reaches, MovedBefore;
    forall j: nat | j < |sent|
      ensures CallFits(call) ==> sent[j].1 <= call.Limit()
      ensures PinnedFits(call) && answers[j].pinned > 0 ==> sent[j].1 <= call.Limit()
    {
      if CallFits(call) {
        RequestFits(call, answers, j);
      }
      if PinnedFits(call) {
        PinnedRequestFits(call, answers, j);
      }
    }
  }

  lemma SentWithinOwnLimit(call: Call, answers: seq<Answer>, start: nat, sent: seq<(nat, nat)>)
    requires call.c.Sound() && SentBefore(call, answers, start, |sent|, sent)
    ensures WithinOwnLimit(call, sent)
  {
    hide Sends, Asked, MovedBefore;
    var limit := if call.write then call.c.maxWrite else call.c.maxRead;
    if call.addr % call.c.page == 0 && limit > 0 && limit % call.c.page == 0 {
      forall j: nat | j < |sent|
        ensures sent[j].1 <= limit
      {
        AlignedFits(call, answers, j);
      }
    }
  }

  lemma EndTellsMoved(call: Call, answers: seq<Answer>, end: End, moved: nat)
    requires call.c.Sound() && Ends(call, answers, end, moved)
    ensures end == Complete ==> moved == call.requested
    ensures end.Running? || end.PinFailed? || end.NoRequest? ==> moved < call.requested
  {
    hide PagesWanted;
    if end != Running && call.requested > 0 {
      var r: nat :| EndsIn(call, answers, r, end, moved);
      assert end.NoRequest? ==> Asked(call, answers, r) <= call.requested - MovedBefore(answers, r);
    }
  }

  /** What an ended call says about progress and about sizes. */
  lemma CallIsOver(call: Call, answers: seq<Answer>, start: nat, end: End, moved: nat, sent: seq<(nat, nat)>)
    requires call.c.Sound() && Ends(call, answers, end, moved)
    requires SentBefore(call, answers, start, |sent|, sent)
    ensures moved > 0 && Result(end, moved) < 0 <==> exists r :: HidesProgress(call, answers, r)
    ensures |sent| <= |answers|
    ensures end == Complete ==> moved == call.requested
    ensures end.Running? || end.PinFailed? || end.NoRequest? ==> moved < call.requested
    ensures CallFits(call) ==> forall j :: 0 <= j < |sent| ==> sent[j].1 <= call.Limit()
    ensures PinnedFits(call) ==> forall j :: 0 <= j < |sent| && answers[j].pinned > 0 ==> sent[j].1 <= call.Limit()
    ensures WithinOwnLimit(call, sent)
    ensures end.Running? ==> Busy(call, answers, |answers|) <= moved
    ensures |answers| >= call.requested && (forall i :: 0 <= i < |answers| ==> answers[i].pinned != 0) ==> !end.Running?
  {
    hide CallFits, PinnedFits, WithinOwnLimit, HidesProgress, Reaches, EndsIn, MovedBefore, Asked, Sends;
    EndTellsMoved(call, answers, end, moved);
    HiddenIff(call, answers, end, moved);
    SentFit(call, answers, start, sent);
    SentWithinOwnLimit(call, answers, start, sent);
    if end == Running {
      BusyRoundsMove(call, answers, |answers|);
      if forall i :: 0 <= i < |answers| ==> answers[i].pinned != 0 {
        AllBusy(call, answers, |answers|);
      }
    }
  }

  /** The loop has been left before round `r`, or in it with `end` saying why. */
  lemma CallStops(call: Call, answers: seq<Answer>, start: nat, r: nat, count: nat, moved: nat, end: End,
                  sent: seq<(nat, nat)>)
    requires call.c.Sound() && r <= |answers| && SentBefore(call, answers, start, |sent|, sent)
    requires |sent| == if end == Running || end.PinFailed? then r else r + 1
    requires if end == Running then Underway(call, answers, r, count, moved) && (count == 0 || r == |answers|)
             else EndsIn(call, answers, r, end, moved)
    ensures var end' := if end == Running && count == 0 then Complete else end;
      && Ends(call, answers, end', moved)
      && (forall j: nat :: Sends(call, answers, j) ==> j < |sent|)
  {
    hide EndsIn, Ends, Sends, Reaches, MovedBefore, SentBefore;
    if end != Running {
      CallEnds(call, answers, r, end, moved);
    } else if call.requested == 0 {
      NothingToDo(call, answers);
    } else if count == 0 {
      CallEnds(call, answers, r - 1, Complete, moved);
    } else {
      CallStillRuns(call, answers);
    }
  }

  class File {
    var pos: nat
    var size: nat

    method GetUserPages(c: Conn, addr: nat, nbytes: nat, pinned: int) returns (err: int, pages: nat, offset: nat)
      requires c.Sound()
      ensures offset == addr % c.page
      ensures if pinned < 0 then err == pinned && pages == 0
              else err == 0 && pages == Min(pinned, PagesWanted(nbytes, offset, c.page))
    {
      offset := addr % c.page;
      err, pages := 0, 0;
      var wanted := Min(nbytes, MAX_PAGES_PER_REQ * c.page);
      var npages := (wanted + offset + c.page - 1) / c.page;
      npages := Max(npages, 1);
      npages := Min(npages, MAX_PAGES_PER_REQ);
      if pinned < 0 {
        return pinned, 0, offset;
      }
      pages := Min(pinned, npages);
    }

    /** Bytes moved are contiguous from the old position; a positive result is exactly their
        number and advances the position by it; otherwise the position stays where it was.
        `sent` records the position and size of every request. */
    method DirectIO(call: Call, badInode: bool, firstReq: int, answers: seq<Answer>)
      returns (res: int, end: End, moved: nat, tiles: seq<(nat, nat)>, sent: seq<(nat, nat)>)
      requires call.c.Sound() && firstReq <= 0
      requires forall i :: 0 <= i < |answers| ==> answers[i].error <= 0
      modifies this
      ensures badInode || firstReq < 0 ==>
        res == (if badInode then -EIO else firstReq) && moved == 0 && sent == []
      ensures !badInode && firstReq == 0 ==>
        && res == Result(end, moved) && Ends(call, answers, end, moved)
        && (res < 0 && moved > 0 <==> exists r :: HidesProgress(call, answers, r))
        && (forall r: nat :: Sends(call, answers, r) ==> r < |sent|)
      ensures SentBefore(call, answers, old(pos), |sent|, sent)
      ensures |sent| <= |answers|
      ensures CallFits(call) ==> forall j :: 0 <= j < |sent| ==> sent[j].1 <= call.Limit()
      ensures PinnedFits(call) ==>
        forall j :: 0 <= j < |sent| && answers[j].pinned > 0 ==> sent[j].1 <= call.Limit()
      ensures WithinOwnLimit(call, sent)
      ensures end == Complete ==> moved == call.requested
      ensures end.Running? || end.PinFailed? || end.NoRequest? ==> moved < call.requested || firstReq < 0
      ensures moved <= call.requested && Tile(tiles, old(pos), old(pos) + moved)
      ensures res > 0 && !end.Running? ==> res == moved && pos == old(pos) + res
      ensures res > 0 && !end.Running? ==> size == if call.write then Max(old(size), pos) else old(size)
      ensures res <= 0 || end.Running? ==> pos == old(pos) && size == old(size)
      ensures !badInode && firstReq == 0 && end.Running? ==> Busy(call, answers, |answers|) <= moved
      ensures |answers| >= call.requested && (forall i :: 0 <= i < |answers| ==> answers[i].pinned != 0) ==>
        !end.Running?
    {
      hide PagesWanted, RoundSize, Tile, Ends, EndsIn, Sends, Underway, SentBefore, CallFits, HidesProgress;
      hide Reaches, MovedBefore, Asked, Ending, LimitFits, PinnedFits, WithinOwnLimit, Busy;
      EmptyTile(pos);
      NothingYet(call, answers, pos);
      end, moved, tiles, sent := Running, 0, [], [];
      if badInode {
        return -EIO, Short, 0, [], [];
      }
      if firstReq < 0 {
        return firstReq, NoRequest, 0, [], [];
      }
      var c, count: nat, buf: nat, at: nat, round: nat := call.c, call.requested, call.addr, pos, 0;
      res := 0;
      while count > 0 && round < |answers|
        invariant end == Running && res == moved
        invariant at == pos + moved && buf == call.addr + moved && Tile(tiles, pos, at)
        invariant pos == old(pos) && size == old(size)
        invariant |sent| == round <= |answers| && SentBefore(call, answers, pos, round, sent)
        invariant count + moved == call.requested && Underway(call, answers, round, count, moved)
        decreases |answers| - round
      {
        RoundGoes(call, answers, round, count, moved);
        var answer := answers[round];
        var nmax := if call.write then c.maxWrite else c.maxRead;
        var nbytes := Min(count, nmax);
        var err, pages, offset := GetUserPages(c, buf, nbytes, answer.pinned);
        if err != 0 {
          res, end := err, PinFailed(err);
          break;
        }
        nbytes := RoundSize(c, count, pages, offset);
        AskedIs(call, answers, round, count, pages);
        SentMore(call, answers, pos, round, sent);
        sent := sent + [(at, nbytes)];
        if answer.error != 0 {
          res := if res == 0 then answer.error else res;
          end := IoFailed(answer.error);
          break;
        } else if answer.moved > nbytes {
          res, end := -EIO, Overlong;
          break;
        }
        var nres := answer.moved;
        TileMore(tiles, pos, at, nres);
        tiles := tiles + [(at, nres)];
        count, res, at, buf := count - nres, res + nres, at + nres, buf + nres;
        moved := moved + nres;
        if nres != nbytes {
          end := Short;
          break;
        }
        if count > 0 && !answer.more {
          end := NoRequest;
          break;
        }
        round := round + 1;
      }
      CallStops(call, answers, pos, round, count, moved, end, sent);
      if count == 0 && end == Running {
        end := Complete;
      }
      CallIsOver(call, answers, pos, end, moved, sent);
      if res > 0 && !end.Running? {
        if call.write && at > size {
          size := at;
        }
        pos := at;
      }
    }
  }
}
