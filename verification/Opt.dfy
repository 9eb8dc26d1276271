/** The Opt simulator as it runs: frames, index, use lists and counters updated in place. */
module Opt {
  import opened Options
  import opened Paging
  import opened Belady
  import opened OptSpec
  import opened OptProps

  /** The lists after the first `i` accesses of the preprocessing pass. */
  ghost predicate Collected(m: map<int, seq<Option<nat>>>, pages: seq<int>, i: nat)
    requires i <= |pages|
  {
    && (forall p :: p in m ==> p in pages)
    && (forall j :: 0 <= j < i ==> pages[j] in m)
    && (forall p :: p in m ==> m[p] + UseList(pages, p, i) == UseList(pages, p, 0))
    && (forall p :: p !in m ==> UseList(pages, p, i) == UseList(pages, p, 0))
  }

  lemma NothingCollected(pages: seq<int>)
    ensures Collected(map[], pages, 0)
  {
  }

  lemma CollectOne(m: map<int, seq<Option<nat>>>, pages: seq<int>, i: nat)
    requires i < |pages| && Collected(m, pages, i)
    ensures var p := pages[i];
      Collected(m[p := if p in m then m[p] + [Some(i)] else [Some(i)]], pages, i + 1)
  {
    var p := pages[i];
    var m' := m[p := if p in m then m[p] + [Some(i)] else [Some(i)]];
    assert UseList(pages, p, i) == [Some(i)] + UseList(pages, p, i + 1);
    if p in m {
      assert m[p] + ([Some(i)] + UseList(pages, p, i + 1)) == m'[p] + UseList(pages, p, i + 1);
    }
  }

  lemma CollectedAll(m: map<int, seq<Option<nat>>>, pages: seq<int>)
    requires Collected(m, pages, |pages|)
    ensures m.Keys == UsesOf(pages).Keys
    ensures forall p :: p in m ==> UsesOf(pages)[p] == m[p] + [None]
  {
    forall p
      ensures p in m.Keys <==> p in UsesOf(pages).Keys
    {
      if p in pages {
        var j :| 0 <= j < |pages| && pages[j] == p;
      }
    }
  }

  lemma SameLists(a: map<int, seq<Option<nat>>>, b: map<int, seq<Option<nat>>>, m: map<int, seq<Option<nat>>>)
    requires a.Keys == b.Keys == m.Keys
    requires forall p :: p in m ==> a[p] == m[p] + [None] && b[p] == m[p] + [None]
    ensures a == b
  {
    forall p
      ensures (p in a <==> p in b) && (p in a ==> a[p] == b[p])
    {
      assert p in a.Keys <==> p in b.Keys;
      assert p in a.Keys <==> p in m.Keys;
    }
  }

  class Simulator {
    var frameTable: array<Frame>
    var fastIndex: map<int, nat>
    var timeUntilUse: map<int, seq<Option<nat>>>
    var trace: seq<Access>
    var totalAccesses: nat
    var pageFaults: nat
    var writesToDisk: nat

    ghost function St(): State
      reads this, frameTable
    {
      State(frameTable[..], fastIndex, timeUntilUse, trace, totalAccesses, pageFaults, writesToDisk)
    }

    constructor (numFrames: nat, addresses: seq<Access>)
      ensures fresh(frameTable)
      ensures St() == State(seq(numFrames, _ => FREE_FRAME), map[], map[], addresses, 0, 0, 0)
    {
      frameTable := new Frame[numFrames](_ => FREE_FRAME);
      fastIndex, timeUntilUse, trace := map[], map[], addresses;
      totalAccesses, pageFaults, writesToDisk := 0, 0, 0;
    }

    /** One pass over the trace collects each page's uses; a second ends each list with None. */
    method PreprocessTrace()
      requires timeUntilUse == map[]
      modifies this`timeUntilUse
      ensures timeUntilUse == UsesOf(Pages(trace))
    {
      hide UsesOf, Collected;
      ghost var pages := Pages(trace);
      NothingCollected(pages);
      for i := 0 to |trace|
        invariant Collected(timeUntilUse, pages, i)
        modifies this`timeUntilUse
      {
        CollectOne(timeUntilUse, pages, i);
        var vpn := trace[i].vpn;
        if vpn in timeUntilUse {
          timeUntilUse := timeUntilUse[vpn := timeUntilUse[vpn] + [Some(i)]];
        } else {
          timeUntilUse := timeUntilUse[vpn := [Some(i)]];
        }
      }
      ghost var collected := timeUntilUse;
      CollectedAll(collected, pages);
      EndLists();
      SameLists(timeUntilUse, UsesOf(pages), collected);
    }

    method EndLists()
      modifies this`timeUntilUse
      ensures timeUntilUse.Keys == old(timeUntilUse).Keys
      ensures forall p :: p in timeUntilUse ==> timeUntilUse[p] == old(timeUntilUse)[p] + [None]
    {
      ghost var was := timeUntilUse;
      var todo: set<int> := timeUntilUse.Keys;
      while todo != {}
        invariant todo <= timeUntilUse.Keys == was.Keys
        invariant forall p :: p in todo ==> timeUntilUse[p] == was[p]
        invariant forall p :: p in was && p !in todo ==> timeUntilUse[p] == was[p] + [None]
        decreases |todo|
      {
        SomeMember(todo);
        var key :| key in todo;
        timeUntilUse := timeUntilUse[key := timeUntilUse[key] + [None]];
        todo := todo - {key};
      }
    }

    method FindTimeUntilNextAccess(vpn: int) returns (time: int)
      requires vpn in timeUntilUse && |timeUntilUse[vpn]| > 0
      ensures time == TimeUntilNextAccess(St(), vpn)
    {
      match timeUntilUse[vpn][0]
      case None => time := |trace| + 1;
      case Some(index) => time := index - totalAccesses;
    }

    method UpdateCounters(vpn: int)
      requires Upcoming(St(), vpn)
      modifies this, frameTable
      ensures frameTable == old(frameTable)
      ensures St() == OptSpec.UpdateCounters(old(St()), vpn)
    {
      timeUntilUse := timeUntilUse[vpn := timeUntilUse[vpn][1..]];
      ghost var refresh := TimeUntilNextAccess(St(), vpn);
      ghost var was := frameTable[..];
      for i := 0 to frameTable.Length
        invariant forall j :: 0 <= j < i ==> frameTable[j] == Tick(was[j], refresh)
        invariant forall j :: i <= j < frameTable.Length ==> frameTable[j] == was[j]
        modifies frameTable
      {
        if frameTable[i].inUse && frameTable[i].untilUse.Some? {
          var counter := frameTable[i].untilUse.value - 1;
          frameTable[i] := frameTable[i].(untilUse := Some(counter));
          if counter < -1 {
            var time := FindTimeUntilNextAccess(vpn);
            frameTable[i] := frameTable[i].(untilUse := Some(time));
          }
        }
      }
      assert frameTable[..] == TickAll(was, refresh);
    }

    method FindVpnInPageTable(vpn: int) returns (pageIndex: Option<nat>)
      ensures pageIndex == LastMatch(frameTable[..], vpn, frameTable.Length)
    {
      pageIndex := None;
      for index := 0 to frameTable.Length
        invariant pageIndex == LastMatch(frameTable[..], vpn, index)
      {
        if frameTable[index].vpn == Some(vpn) {
          pageIndex := Some(index);
        }
      }
    }

    method EvictVpnFromPageTable()
      requires Evictable(St())
      modifies this, frameTable
      ensures frameTable == old(frameTable)
      ensures St() == Evict(old(St()))
    {
      var leastNeeded, mostInstructions := 0, 0;
      for i := 0 to frameTable.Length
        invariant (leastNeeded, mostInstructions) == VictimScan(frameTable[..], i)
      {
        var f := frameTable[i];
        if f.untilUse.Some? && f.untilUse.value > mostInstructions {
          leastNeeded, mostInstructions := f.ppn, f.untilUse.value;
        }
      }
      var removal := frameTable[leastNeeded];
      fastIndex := fastIndex - {removal.vpn.value};
      frameTable[leastNeeded] := removal.(inUse := false, vpn := None, untilUse := None);
      if removal.dirty {
        writesToDisk := writesToDisk + 1;
      }
    }

    method LoadFrame(index: nat, a: Access)
      requires index < frameTable.Length && a.vpn in timeUntilUse && |timeUntilUse[a.vpn]| > 0
      modifies this`fastIndex, frameTable
      ensures St() == Load(old(St()), index, a)
    {
      var time := FindTimeUntilNextAccess(a.vpn);
      frameTable[index] := Frame(Some(a.vpn), false, true, index, Some(time));
      fastIndex := fastIndex[a.vpn := index];
      if a.write {
        frameTable[index] := frameTable[index].(dirty := true);
      }
    }

    /** The recursive retry after an eviction finds the frame just freed and stops. */
    method AddVpnToPageTable(a: Access)
      requires a.vpn in timeUntilUse && |timeUntilUse[a.vpn]| > 0
      requires FirstFree(frameTable[..], 0) == frameTable.Length ==> Evictable(St())
      requires a.vpn in fastIndex ==> fastIndex[a.vpn] < frameTable.Length
      modifies this, frameTable
      ensures frameTable == old(frameTable)
      ensures old(a.vpn in fastIndex) ==> St() == old(Load(St(), fastIndex[a.vpn], a))
      ensures old(a.vpn !in fastIndex) ==>
        St().(faults := pageFaults + 1) == old(OptSpec.Fault(St(), a))
      decreases if FirstFree(frameTable[..], 0) < frameTable.Length then 0 else 1
    {
      if a.vpn in fastIndex {
        LoadFrame(fastIndex[a.vpn], a);
        return;
      }
      ghost var free := FirstFree(frameTable[..], 0);
      var index := 0;
      while index < frameTable.Length && frameTable[index].inUse
        invariant index <= free
      {
        index := index + 1;
      }
      if index < frameTable.Length {
        LoadFrame(index, a);
      } else {
        EvictFrees(St());
        EvictVpnFromPageTable();
        AddVpnToPageTable(a);
      }
    }

    method CheckForPageFault(vpn: int) returns (fault: bool)
      modifies this`pageFaults
      ensures fault <==> vpn !in fastIndex
      ensures pageFaults == old(pageFaults) + if fault then 1 else 0
    {
      fault := vpn !in fastIndex;
      if fault {
        pageFaults := pageFaults + 1;
      }
    }

    method ServeAccess(a: Access)
      requires Ready(St(), a)
      modifies this, frameTable
      ensures frameTable == old(frameTable)
      ensures St() == Serve(old(St()), a)
    {
      var fault := CheckForPageFault(a.vpn);
      if !fault {
        if a.write {
          var pageIndex := FindVpnInPageTable(a.vpn);
          frameTable[pageIndex.value] := frameTable[pageIndex.value].(dirty := true);
        }
      } else {
        AddVpnToPageTable(a);
      }
    }

    method GetNextAddress() returns (a: Access)
      requires |trace| > 0
      modifies this`totalAccesses, this`trace
      ensures a == old(trace)[0] && trace == old(trace)[1..] && totalAccesses == old(totalAccesses) + 1
    {
      totalAccesses := totalAccesses + 1;
      a := trace[0];
      trace := trace[1..];
    }

    /** One round of the main loop. */
    method RunOneAccess(ghost full: seq<Access>, ghost k: nat)
      requires Inv(St(), full, k) && totalAccesses < |full|
      modifies this, frameTable
      ensures frameTable == old(frameTable)
      ensures St() == Step(old(St()), full, k)
      ensures totalAccesses == old(totalAccesses) + 1 && trace == full[totalAccesses..]
    {
      hide Belady.NextUse, UseList, VictimScan, FirstFree, LastMatch, TickAll, Fault, Hit;
      ghost var s := St();
      AdvanceKeepsUses(s, full, k);
      AdvanceKeepsTable(s);
      var next := GetNextAddress();
      assert next.vpn == Pages(full)[s.total] && next.vpn in Pages(full);
      UpdateCounters(next.vpn);
      assert St() == Advance(s);
      TableIsReady(Advance(s), next);
      ServeAccess(next);
    }

    /** The whole run ends in the state that the step function reaches, access by access. */
    method RunAlgorithm()
      requires frameTable.Length > 0
      requires St() == State(seq(frameTable.Length, _ => FREE_FRAME), map[], map[], trace, 0, 0, 0)
      modifies this, frameTable
      ensures St() == old(StateAt(trace, frameTable.Length, |trace|))
    {
      hide UsesOf, Pages, Inv, Step, StateAt;
      ghost var full, k := trace, frameTable.Length;
      StateAtSteps(full, k, 0);
      PreprocessTrace();
      assert St() == Start(full, k);
      while |trace| > 0
        invariant frameTable.Length == k && frameTable == old(frameTable)
        invariant totalAccesses <= |full| && trace == full[totalAccesses..]
        invariant St() == StateAt(full, k, totalAccesses)
        decreases |full| - totalAccesses
      {
        StateAtSteps(full, k, totalAccesses);
        RunOneAccess(full, k);
      }
    }
  }
}
