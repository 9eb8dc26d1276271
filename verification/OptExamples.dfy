/** Where the Opt simulator falls short of its intent, on concrete traces. */
module OptExamples {
  import opened Options
  import opened Paging
  import opened Belady
  import opened OptSpec
  import opened OptProps
  import opened OptRuns
  import opened OptTraces

  function Reads(pages: seq<int>): seq<Access> {
    seq(|pages|, i requires 0 <= i < |pages| => Access(pages[i], false))
  }

  function InFrame(i: nat, vpn: int, untilUse: int): Frame {
    Frame(Some(vpn), false, true, i, Some(untilUse))
  }

  ghost predicate Looks(s: State, frames: seq<Frame>, resident: set<int>, faults: nat) {
    s.frames == frames && Resident(s) == resident && s.faults == faults
  }

  /** What a read does to the frames, the resident pages and the fault count, when `ticked` are
      the frames after the countdown and `next` is how far ahead the page is used again. */
  ghost predicate ReadLooks(s': State, vpn: int, resident: set<int>, faults: nat,
                            ticked: seq<Frame>, next: int)
  {
    if vpn in resident then Looks(s', ticked, resident, faults)
    else
      var free := FirstFree(ticked, 0);
      if free < |ticked| then
        Looks(s', ticked[free := InFrame(free, vpn, next)], resident + {vpn}, faults + 1)
      else
        var v := Victim(ticked);
        v < |ticked| && ticked[v].vpn.Some? &&
        Looks(s', ticked[v := InFrame(v, vpn, next)], resident - {ticked[v].vpn.value} + {vpn}, faults + 1)
  }

  lemma ReadServes(m: State, vpn: int, resident: set<int>, next: int)
    requires TableOk(m) && |m.frames| > 0 && Ready(m, Access(vpn, false))
    requires vpn in m.uses && |m.uses[vpn]| > 0 && TimeUntilNextAccess(m, vpn) == next
    requires Resident(m) == resident
    ensures ReadLooks(Serve(m, Access(vpn, false)), vpn, resident, m.faults, m.frames, next)
  {
  }

  lemma ReadStep(s: State, full: seq<Access>, k: nat, vpn: int, frames: seq<Frame>,
                 resident: set<int>, faults: nat, next: int)
    requires Inv(s, full, k) && s.total < |full| && full[s.total] == Access(vpn, false)
    requires Looks(s, frames, resident, faults)
    requires next == NextUse(Pages(full), vpn, s.total + 1) - (s.total + 1)
    ensures ReadLooks(Step(s, full, k), vpn, resident, faults, TickAll(frames, next), next)
  {
    hide Belady.NextUse, VictimScan, ReadLooks, FirstFree;
    assert s.trace[0] == full[s.total] && Pages(full)[s.total] == vpn && vpn in Pages(full);
    AdvanceKeepsUses(s, full, k);
    AdvanceKeepsTable(s);
    TableIsReady(Advance(s), s.trace[0]);
    ReadServes(Advance(s), vpn, resident, next);
  }

  lemma ReadAt(full: seq<Access>, k: nat, t: nat, vpn: int, frames: seq<Frame>,
               resident: set<int>, faults: nat, next: int)
    requires k > 0 && t < |full| && full[t] == Access(vpn, false)
    requires Looks(StateAt(full, k, t), frames, resident, faults)
    requires next == NextUse(Pages(full), vpn, t + 1) - (t + 1)
    ensures ReadLooks(StateAt(full, k, t + 1), vpn, resident, faults, TickAll(frames, next), next)
  {
    hide Looks, ReadLooks, Inv, Step, TickAll, Belady.NextUse;
    ReadStep(StateAt(full, k, t), full, k, vpn, frames, resident, faults, next);
  }

  /** Page 1 is used twice in a row, so its counter restarts at the access to page 2, from the
      next use of page 2: never.  The simulator then evicts page 1 just before it is needed. */
  lemma RestartCanCostAFault()
    ensures var full, k, other := Reads([1, 1, 2, 3, 1]), 2, [{}, {1}, {1}, {1, 2}, {1, 3}, {1, 3}];
      && IsPolicyRun(Pages(full), k, other)
      && Faults(Pages(full), other, 5) == 3
      && StateAt(full, k, 5).faults == 4
      && !RestartsSafely(full, k, 5)
  {
    var full, k := Reads([1, 1, 2, 3, 1]), 2;
    var other: seq<set<int>> := [{}, {1}, {1}, {1, 2}, {1, 3}, {1, 3}];
    assert Pages(full) == [1, 1, 2, 3, 1];
    PolicyOfThreeFaults(Pages(full), other);
    FourFaults(full);
    if RestartsSafely(full, k, 5) {
      OptIsOptimal(full, k, other, 5);
    }
  }

  ghost predicate Reading(full: seq<Access>, t: nat, vpn: int, next: int) {
    t < |full| && full[t] == Access(vpn, false)
    && next == NextUse(Pages(full), vpn, t + 1) - (t + 1)
  }

  lemma FourFaults(full: seq<Access>)
    requires full == Reads([1, 1, 2, 3, 1])
    ensures StateAt(full, 2, 5).faults == 4
  {
    assert Pages(full) == [1, 1, 2, 3, 1];
    NextUses();
    assert Reading(full, 0, 1, 0) && Reading(full, 1, 1, 2) && Reading(full, 2, 2, 3)
        && Reading(full, 3, 3, 2) && Reading(full, 4, 1, 1);
    StartLooks(full);
    FourFaultsFrom(full);
  }

  lemma FourFaultsFrom(full: seq<Access>)
    requires |full| == 5 && Looks(StateAt(full, 2, 0), [FREE_FRAME, FREE_FRAME], {}, 0)
    requires Reading(full, 0, 1, 0) && Reading(full, 1, 1, 2) && Reading(full, 2, 2, 3)
    requires Reading(full, 3, 3, 2) && Reading(full, 4, 1, 1)
    ensures StateAt(full, 2, 5).faults == 4
  {
    hide Belady.NextUse, StateAt, Inv, Step, Resident;
    var f0 := [FREE_FRAME, FREE_FRAME];
    var f1 := [InFrame(0, 1, 0), FREE_FRAME];
    assert Looks(StateAt(full, 2, 1), f1, {1}, 1) by {
      ReadAt(full, 2, 0, 1, f0, {}, 0, 0);
      assert TickAll(f0, 0) == f0 && f0[0 := InFrame(0, 1, 0)] == f1;
    }
    var f2 := [InFrame(0, 1, -1), FREE_FRAME];
    assert Looks(StateAt(full, 2, 2), f2, {1}, 1) by {
      ReadAt(full, 2, 1, 1, f1, {1}, 1, 2);
      assert TickAll(f1, 2) == f2;
    }
    var f3 := [InFrame(0, 1, 3), InFrame(1, 2, 3)];
    assert Looks(StateAt(full, 2, 3), f3, {1, 2}, 2) by {
      ReadAt(full, 2, 2, 2, f2, {1}, 1, 3);
      assert TickAll(f2, 3) == [InFrame(0, 1, 3), FREE_FRAME];
    }
    var f4 := [InFrame(0, 3, 2), InFrame(1, 2, 2)];
    assert Looks(StateAt(full, 2, 4), f4, {2, 3}, 3) by {
      ReadAt(full, 2, 3, 3, f3, {1, 2}, 2, 2);
      var ticked := [InFrame(0, 1, 2), InFrame(1, 2, 2)];
      assert TickAll(f3, 2) == ticked && VictimScan(ticked, 1) == (0, 2);
    }
    ReadAt(full, 2, 4, 1, f4, {2, 3}, 3, 1);
    assert TickAll(f4, 1) == [InFrame(0, 3, 1), InFrame(1, 2, 1)];
  }

  lemma StartLooks(full: seq<Access>)
    ensures Looks(StateAt(full, 2, 0), [FREE_FRAME, FREE_FRAME], {}, 0)
  {
  }

  lemma PolicyOfThreeFaults(pages: seq<int>, other: seq<set<int>>)
    requires pages == [1, 1, 2, 3, 1]
    requires other == [{}, {1}, {1}, {1, 2}, {1, 3}, {1, 3}]
    ensures IsPolicyRun(pages, 2, other) && Faults(pages, other, 5) == 3
  {
    assert Faults(pages, other, 1) == 1;
    assert Faults(pages, other, 3) == 2;
  }

  lemma NextUses()
    ensures var pages := [1, 1, 2, 3, 1];
      && NextUse(pages, 1, 1) == 1 && NextUse(pages, 1, 2) == 4 && NextUse(pages, 2, 3) == 6
      && NextUse(pages, 3, 4) == 6 && NextUse(pages, 1, 5) == 6
  {
  }

  lemma ReadOfPageZero(full: seq<Access>)
    requires full == [Access(0, false), Access(0, true)]
    ensures var s := StateAt(full, 2, 1);
      s.frames == [InFrame(0, 0, 0), FREE_FRAME] && 0 in s.fastIndex && s.fastIndex[0] == 0
  {
    hide Step;
    assert Pages(full) == [0, 0];
    StartLooks(full);
    ReadAt(full, 2, 0, 0, [FREE_FRAME, FREE_FRAME], {}, 0, 0);
    assert TickAll([FREE_FRAME, FREE_FRAME], 0) == [FREE_FRAME, FREE_FRAME];
  }

  /** Page 0 is read and then written, with two frames.  The scan for page 0 stops at the free
      frame, which is marked in place of the page's own: the modification is never written. */
  lemma WriteToPageZeroIsLost()
    ensures var full := [Access(0, false), Access(0, true)];
      var s := StateAt(full, 2, 1);
      && LastMatch(s.frames, 0, 2) == Some(1) && 0 in s.fastIndex && s.fastIndex[0] == 0
      && MarksFreeFrame(full, 2, 1)
      && Dirtied(full, 2, 2) == 1 && Accounted(StateAt(full, 2, 2)) == 0
  {
    hide Inv, Step, StateAt;
    var full := [Access(0, false), Access(0, true)];
    ReadOfPageZero(full);
    MisplacedIff(full, 2, 1);
    WritesAreConserved(full, 2, 2);
  }

  /** A third access in a row restarts the counter as it should be: this trace is not quiet, and
      no run with room for its pages goes wrong. */
  lemma ThreeInARowAreHarmless(full: seq<Access>, k: nat)
    requires Pages(full) == [1, 1, 1, 2, 3, 1] && k >= 3
    ensures !Quiet(Pages(full)) && RestartsSafely(full, k, 6)
  {
    hide RestartsSafely, Seen;
    var pages := Pages(full);
    assert pages[..2] == [1, 1] && pages[4..] == [3, 1] && pages[2] in pages[..2] && pages[2] in pages[4..];
    assert !SpentOnTrace(pages, 1) && SpentOnTrace(pages, 2) && !SpentOnTrace(pages, 3);
    assert !SpentOnTrace(pages, 4) && !SpentOnTrace(pages, 5);
    ThreePages(pages);
    RoomyRunIsSafeIff(full, k);
  }

  lemma ThreePages(pages: seq<int>)
    requires pages == [1, 1, 1, 2, 3, 1]
    ensures |Seen(pages, 6)| == 3
  {
    hide Seen;
    assert pages[..6] == pages;
    forall p
      ensures p in Seen(pages, 6) <==> p in {1, 2, 3}
    {
      SeenIsPrefix(pages, 6, p);
    }
    assert Seen(pages, 6) == {1, 2, 3};
  }
}
