/** Disk writes of the Aging simulator.  Every page that is modified is written once, and nothing
    else is, except where page 0 meets a free slot: a write to page 0 then only marks the slot and
    is lost, and the page that a read brings into a marked slot is taken for dirty. */
module AgingWrites {
  import opened AgingHistory
  import opened AgingSpec
  import opened Arithmetic
  import opened Paging

  /** A slot that holds a dirty page owes the disk a write. */
  predicate OwesWrite(f: Frame) { f.inUse && f.dirty }

  /** Disk writes so far, and those still owed by dirty resident pages. */
  function Accounted(s: State): nat {
    s.writes + CountIf(s.frames, OwesWrite)
  }

  predicate Misses(s: State, a: Access) {
    FirstVpn(s.frames, a.vpn, 0) == |s.frames|
  }

  /** 1 if this access modifies a resident page that was clean, or a page that it loads. */
  function Dirties(s: State, a: Access): nat
    requires Slot(s, a) < |s.frames|
  {
    var f := s.frames[Slot(s, a)];
    if a.write && (Misses(s, a) || (f.inUse && !f.dirty)) then 1 else 0
  }

  /** A read loads its page into a free slot that is marked dirty already. */
  predicate Phantom(s: State, a: Access)
    requires Slot(s, a) < |s.frames|
  {
    var f := s.frames[Slot(s, a)];
    !a.write && Misses(s, a) && !f.inUse && f.dirty
  }

  /** A write marks a slot that no page is in: it is lost. */
  predicate Loses(s: State, a: Access)
    requires Slot(s, a) < |s.frames|
  {
    a.write && !Misses(s, a) && !s.frames[Slot(s, a)].inUse
  }

  ghost predicate DirtyResident(s: State, p: int) {
    exists i :: 0 <= i < |s.frames| && s.frames[i].inUse && s.frames[i].vpn == p && s.frames[i].dirty
  }

  /** The access modifies a page that is not in memory with an unwritten modification already. */
  ghost predicate Modifies(s: State, a: Access) {
    a.write && !DirtyResident(s, a.vpn)
  }

  /** Such a modification either makes a resident page dirty or is lost. */
  lemma ModifiesIff(s: State, a: Access)
    requires Inv(s) && Slot(s, a) < |s.frames|
    ensures Modifies(s, a) <==> Dirties(s, a) == 1 || Loses(s, a)
    ensures !(Dirties(s, a) == 1 && Loses(s, a))
  {
    hide ValueOf, LowestScan;
    var k := FirstVpn(s.frames, a.vpn, 0);
    if k < |s.frames| {
      assert forall i :: 0 <= i < |s.frames| && s.frames[i].inUse && s.frames[i].vpn == a.vpn ==> i == k;
    }
  }

  lemma ServeConserves(s: State, a: Access)
    requires Slot(s, a) < |s.frames|
    ensures Accounted(Serve(s, a)) == Accounted(s) + Dirties(s, a) + if Phantom(s, a) then 1 else 0
  {
    hide CountIf, LowestScan;
    var i, frames' := Slot(s, a), Serve(s, a).frames;
    assert frames' == s.frames[i := frames'[i]];
    CountIfUpdate(s.frames, i, frames'[i], OwesWrite);
  }

  lemma AgeConserves(s: State, r: Round)
    requires |s.histories| == |s.frames|
    ensures Accounted(AgeIf(s, r)) == Accounted(s)
  {
    assert Bits(AgeIf(s, r).frames, OwesWrite) == Bits(s.frames, OwesWrite);
  }

  lemma RoundConserves(s: State, r: Round)
    requires Inv(s)
    ensures |s.histories| == |s.frames| && Slot(AgeIf(s, r), r.access) < |AgeIf(s, r).frames|
    ensures var m := AgeIf(s, r);
      Accounted(Serve(m, r.access)) == Accounted(s) + Dirties(m, r.access) + if Phantom(m, r.access) then 1 else 0
  {
    hide Serve, Dirties, Phantom, Accounted, LowestScan;
    RoundIsServed(s, r);
    AgeConserves(s, r);
    ServeConserves(AgeIf(s, r), r.access);
  }

  // ----- Whole runs -----

  /** The state in which the access of round `t` is looked up. */
  function LookedUpIn(rounds: seq<Round>, n: nat, t: nat): (m: State)
    requires n > 0 && t < |rounds|
    ensures Slot(m, rounds[t].access) < |m.frames|
  {
    RoundIsServed(StateAt(rounds, n, t), rounds[t]);
    AgeIf(StateAt(rounds, n, t), rounds[t])
  }

  /** How often a resident page was modified while clean, or loaded modified. */
  function Dirtied(rounds: seq<Round>, n: nat, t: nat): nat
    requires n > 0 && t <= |rounds|
  {
    if t == 0 then 0
    else Dirtied(rounds, n, t - 1) + Dirties(LookedUpIn(rounds, n, t - 1), rounds[t - 1].access)
  }

  predicate PhantomAt(rounds: seq<Round>, n: nat, t: nat)
    requires n > 0 && t < |rounds|
  {
    Phantom(LookedUpIn(rounds, n, t), rounds[t].access)
  }

  function Phantoms(rounds: seq<Round>, n: nat, t: nat): nat
    requires n > 0 && t <= |rounds|
  {
    if t == 0 then 0 else Phantoms(rounds, n, t - 1) + if PhantomAt(rounds, n, t - 1) then 1 else 0
  }

  predicate LosesAt(rounds: seq<Round>, n: nat, t: nat)
    requires n > 0 && t < |rounds|
  {
    Loses(LookedUpIn(rounds, n, t), rounds[t].access)
  }

  function Lost(rounds: seq<Round>, n: nat, t: nat): nat
    requires n > 0 && t <= |rounds|
  {
    if t == 0 then 0 else Lost(rounds, n, t - 1) + if LosesAt(rounds, n, t - 1) then 1 else 0
  }

  /** How often a page was modified without being in memory with a modification already. */
  ghost function Modified(rounds: seq<Round>, n: nat, t: nat): nat
    requires n > 0 && t <= |rounds|
  {
    if t == 0 then 0
    else
      Modified(rounds, n, t - 1)
      + if Modifies(LookedUpIn(rounds, n, t - 1), rounds[t - 1].access) then 1 else 0
  }

  lemma {:induction false} ModifiedIsDirtiedOrLost(rounds: seq<Round>, n: nat, t: nat)
    requires n > 0 && t <= |rounds|
    ensures Modified(rounds, n, t) == Dirtied(rounds, n, t) + Lost(rounds, n, t)
  {
    hide Inv, StateAt, AgeIf, Modifies, Loses, Slot;
    if t == 0 {
    } else {
      ModifiedIsDirtiedOrLost(rounds, n, t - 1);
      Aged(StateAt(rounds, n, t - 1), rounds[t - 1]);
      ModifiesIff(LookedUpIn(rounds, n, t - 1), rounds[t - 1].access);
    }
  }

  lemma {:induction false} LostIff(rounds: seq<Round>, n: nat, t: nat)
    requires n > 0 && t <= |rounds|
    ensures Lost(rounds, n, t) == 0 <==> forall j :: 0 <= j < t ==> !LosesAt(rounds, n, j)
  {
    hide LosesAt;
    if t == 0 {
    } else {
      LostIff(rounds, n, t - 1);
    }
  }

  lemma NothingDirtyAtStart(n: nat)
    ensures Accounted(Start(n)) == 0
  {
    CountTrueZero(Bits(Start(n).frames, OwesWrite));
  }

  /** Over every run, disk writes and dirty resident pages add up to the changes of pages from
      clean to dirty, and the clean pages taken for dirty. */
  lemma {:induction false} WritesAreAccounted(rounds: seq<Round>, n: nat, t: nat)
    requires n > 0 && t <= |rounds|
    ensures Accounted(StateAt(rounds, n, t)) == Dirtied(rounds, n, t) + Phantoms(rounds, n, t)
  {
    hide Inv, Serve, AgeIf, Dirties, Phantom, Slot, Accounted;
    if t == 0 {
      NothingDirtyAtStart(n);
    } else {
      WritesAreAccounted(rounds, n, t - 1);
      RoundConserves(StateAt(rounds, n, t - 1), rounds[t - 1]);
    }
  }

  lemma {:induction false} PhantomsIff(rounds: seq<Round>, n: nat, t: nat)
    requires n > 0 && t <= |rounds|
    ensures Phantoms(rounds, n, t) == 0 <==> forall j :: 0 <= j < t ==> !PhantomAt(rounds, n, j)
  {
    hide PhantomAt;
    if t == 0 {
    } else {
      PhantomsIff(rounds, n, t - 1);
    }
  }

  // ----- Which traces have phantoms -----

  /** The pages other than 0 accessed so far, one access later. */
  function SeenAfter(seen: set<int>, a: Access): set<int> {
    if a.vpn == 0 then seen else seen + {a.vpn}
  }

  /** Whether page 0 has been written since another page was last accessed for the first time. */
  predicate ZeroWrittenAfter(seen: set<int>, zeroWritten: bool, a: Access) {
    if a.vpn == 0 then a.write || zeroWritten else a.vpn in seen && zeroWritten
  }

  /** The pages other than 0 among the first `t` accesses. */
  ghost function Seen(rounds: seq<Round>, t: nat): set<int>
    requires t <= |rounds|
  {
    if t == 0 then {} else SeenAfter(Seen(rounds, t - 1), rounds[t - 1].access)
  }

  /** Page 0 has been written since the last time another page was accessed for the first time. */
  ghost predicate ZeroWritten(rounds: seq<Round>, t: nat)
    requires t <= |rounds|
  {
    t > 0 && ZeroWrittenAfter(Seen(rounds, t - 1), ZeroWritten(rounds, t - 1), rounds[t - 1].access)
  }

  /** While fewer other pages have been accessed than there are slots, the slots in use hold just
      those, and of the free ones only the first can be marked. */
  ghost predicate Filling(frames: seq<Frame>, seen: set<int>, zeroWritten: bool) {
    var free := FirstFree(frames, 0);
    && free == Min(|seen|, |frames|)
    && (free < |frames| ==>
          && (forall p :: p != 0 ==> (p in seen <==> FirstVpn(frames, p, 0) < |frames|))
          && 0 !in seen && (forall i :: 0 <= i < free ==> frames[i].vpn != 0)
          && (frames[free].dirty <==> zeroWritten)
          && (forall i :: free < i < |frames| ==> !frames[i].inUse && !frames[i].dirty))
  }

  lemma AgeKeepsFilling(s: State, r: Round, seen: set<int>, zeroWritten: bool)
    requires |s.histories| == |s.frames| && Filling(s.frames, seen, zeroWritten)
    ensures Filling(AgeIf(s, r).frames, seen, zeroWritten)
  {
    hide FirstVpn, FirstFree;
    var m := AgeIf(s, r);
    assert forall i :: 0 <= i < |s.frames| ==>
      m.frames[i] == s.frames[i].(reference := m.frames[i].reference, agingValue := m.frames[i].agingValue);
    assert FirstFree(m.frames, 0) == FirstFree(s.frames, 0);
    forall p
      ensures FirstVpn(m.frames, p, 0) == FirstVpn(s.frames, p, 0)
    {
    }
  }

  lemma VpnsAfter(frames: seq<Frame>, i: nat, f: Frame, p: int)
    requires i < |frames| && p != 0 && (frames[i].vpn == f.vpn || frames[i].vpn == 0)
    ensures FirstVpn(frames[i := f], p, 0) < |frames| <==> FirstVpn(frames, p, 0) < |frames| || p == f.vpn
  {
    var k, k' := FirstVpn(frames, p, 0), FirstVpn(frames[i := f], p, 0);
    assert k < |frames| && k != i ==> frames[i := f][k].vpn == p;
    assert k' < |frames| && k' != i ==> frames[k'].vpn == p;
    assert frames[i := f][i].vpn == f.vpn;
  }

  lemma FreeAfter(frames: seq<Frame>, i: nat, f: Frame)
    requires i <= FirstFree(frames, 0) < |frames|
    requires forall j :: FirstFree(frames, 0) < j < |frames| ==> !frames[j].inUse
    requires i < FirstFree(frames, 0) ==> f.inUse
    ensures FirstFree(frames[i := f], 0) == FirstFree(frames, 0) + if i == FirstFree(frames, 0) && f.inUse then 1 else 0
  {
    var free, frames' := FirstFree(frames, 0), frames[i := f];
    var free' := if i == free && f.inUse then free + 1 else free;
    assert forall j :: 0 <= j < free' ==> frames'[j].inUse;
    assert free' < |frames'| ==> !frames'[free'].inUse;
  }

  /** An access to page 0 or to a page seen before leaves the number of free slots as it is. */
  lemma SameSlotsKeepFilling(frames: seq<Frame>, i: nat, f: Frame, a: Access, seen: set<int>, zeroWritten: bool)
    requires Filling(frames, seen, zeroWritten) && FirstFree(frames, 0) < |frames| && i < |frames|
    requires f.vpn == a.vpn == frames[i].vpn && f.inUse == frames[i].inUse
    requires if a.vpn == 0 then i == FirstFree(frames, 0) else a.vpn in seen && i < FirstFree(frames, 0)
    requires a.vpn == 0 ==> (f.dirty <==> a.write || frames[i].dirty)
    ensures Filling(frames[i := f], SeenAfter(seen, a), ZeroWrittenAfter(seen, zeroWritten, a))
  {
    hide FirstVpn, FirstFree;
    FreeAfter(frames, i, f);
    assert a.vpn in seen ==> SeenAfter(seen, a) == seen;
    forall p | p != 0
      ensures FirstVpn(frames[i := f], p, 0) < |frames| <==> FirstVpn(frames, p, 0) < |frames|
    {
      VpnsAfter(frames, i, f, p);
    }
  }

  /** A new page fills the first free slot. */
  lemma NewPageKeepsFilling(frames: seq<Frame>, i: nat, f: Frame, a: Access, seen: set<int>, zeroWritten: bool)
    requires Filling(frames, seen, zeroWritten) && i == FirstFree(frames, 0) < |frames|
    requires f.vpn == a.vpn != 0 && a.vpn !in seen && frames[i].vpn == 0 && f.inUse
    ensures Filling(frames[i := f], SeenAfter(seen, a), ZeroWrittenAfter(seen, zeroWritten, a))
  {
    hide FirstVpn, FirstFree;
    FreeAfter(frames, i, f);
    var frames', seen' := frames[i := f], seen + {a.vpn};
    assert forall j :: 0 <= j < |frames| && j != i ==> frames'[j] == frames[j];
    assert forall p :: p != 0 ==> (p in seen' <==> FirstVpn(frames', p, 0) < |frames|) by {
      forall p | p != 0
        ensures p in seen' <==> FirstVpn(frames', p, 0) < |frames|
      {
        VpnsAfter(frames, i, f, p);
      }
    }
  }

  lemma ServeKeepsFilling(s: State, a: Access, seen: set<int>, zeroWritten: bool)
    requires Inv(s) && Slot(s, a) < |s.frames| && Filling(s.frames, seen, zeroWritten)
    ensures Filling(Serve(s, a).frames, SeenAfter(seen, a), ZeroWrittenAfter(seen, zeroWritten, a))
  {
    hide Serve, Slot, LowestScan, ValueOf;
    ServeShape(s, a);
    var frames', i := Serve(s, a).frames, Slot(s, a);
    if FirstFree(s.frames, 0) < |s.frames| {
      assert a.vpn == 0 ==> s.frames[FirstFree(s.frames, 0)].vpn == 0;
      if a.vpn == 0 || a.vpn in seen {
        SameSlotsKeepFilling(s.frames, i, frames'[i], a, seen, zeroWritten);
      } else {
        NewPageKeepsFilling(s.frames, i, frames'[i], a, seen, zeroWritten);
      }
    } else {
      assert FirstFree(frames', 0) == |frames'|;
      assert SeenAfter(seen, a) >= seen;
      SeenGrows(seen, a);
    }
  }

  lemma SeenGrows(seen: set<int>, a: Access)
    ensures |SeenAfter(seen, a)| >= |seen|
  {
    assert SeenAfter(seen, a) == seen + (SeenAfter(seen, a) - seen);
  }

  lemma {:induction false} RunIsFilling(rounds: seq<Round>, n: nat, t: nat)
    requires n > 0 && t <= |rounds|
    ensures Filling(StateAt(rounds, n, t).frames, Seen(rounds, t), ZeroWritten(rounds, t))
  {
    hide Inv, Filling, Serve, Slot, AgeIf;
    if t == 0 {
      StartIsFilling(n);
    } else {
      RunIsFilling(rounds, n, t - 1);
      var s, r := StateAt(rounds, n, t - 1), rounds[t - 1];
      RoundIsServed(s, r);
      Aged(s, r);
      AgeKeepsFilling(s, r, Seen(rounds, t - 1), ZeroWritten(rounds, t - 1));
      ServeKeepsFilling(AgeIf(s, r), r.access, Seen(rounds, t - 1), ZeroWritten(rounds, t - 1));
    }
  }

  lemma StartIsFilling(n: nat)
    requires n > 0
    ensures Filling(Start(n).frames, {}, false)
  {
    assert FirstFree(Start(n).frames, 0) == 0;
  }

  /** A page other than 0 is read for the first time while there is room, after page 0 was
      written since the page before it came in. */
  ghost predicate ComesInDirty(rounds: seq<Round>, n: nat, t: nat)
    requires t < |rounds|
  {
    var a := rounds[t].access;
    && !a.write && a.vpn != 0 && a.vpn !in Seen(rounds, t)
    && |Seen(rounds, t)| < n && ZeroWritten(rounds, t)
  }

  /** Which accesses take a clean page for dirty can be told from the trace. */
  lemma PhantomAtIff(rounds: seq<Round>, n: nat, t: nat)
    requires n > 0 && t < |rounds|
    ensures PhantomAt(rounds, n, t) <==> ComesInDirty(rounds, n, t)
  {
    hide ZeroWritten, Seen, ValueOf, LowestScan, StateAt;
    var s, r := StateAt(rounds, n, t), rounds[t];
    RunIsFilling(rounds, n, t);
    Aged(s, r);
    AgeKeepsFilling(s, r, Seen(rounds, t), ZeroWritten(rounds, t));
  }

  /** Page 0 is written while there is room. */
  ghost predicate MarksFreeSlot(rounds: seq<Round>, n: nat, t: nat)
    requires t < |rounds|
  {
    rounds[t].access == Access(0, true) && |Seen(rounds, t)| < n
  }

  /** So can which writes are lost. */
  lemma LosesAtIff(rounds: seq<Round>, n: nat, t: nat)
    requires n > 0 && t < |rounds|
    ensures LosesAt(rounds, n, t) <==> MarksFreeSlot(rounds, n, t)
  {
    hide ZeroWritten, Seen, ValueOf, LowestScan, StateAt;
    var s, r := StateAt(rounds, n, t), rounds[t];
    RunIsFilling(rounds, n, t);
    Aged(s, r);
    AgeKeepsFilling(s, r, Seen(rounds, t), ZeroWritten(rounds, t));
  }

  /** Every change of a resident page from clean to dirty is written once or still pending, if and
      only if on the trace no page other than 0 is first read, while there is room, after a write to
      page 0. */
  lemma ResidentWritesAreConservedIff(rounds: seq<Round>, n: nat, t: nat)
    requires n > 0 && t <= |rounds|
    ensures Accounted(StateAt(rounds, n, t)) == Dirtied(rounds, n, t)
       <==> forall j :: 0 <= j < t ==> !ComesInDirty(rounds, n, j)
  {
    hide StateAt, Accounted, PhantomAt, ComesInDirty;
    WritesAreAccounted(rounds, n, t);
    NoPhantomsIff(rounds, n, t);
  }

  lemma NoPhantomsIff(rounds: seq<Round>, n: nat, t: nat)
    requires n > 0 && t <= |rounds|
    ensures Phantoms(rounds, n, t) == 0 <==> forall j :: 0 <= j < t ==> !ComesInDirty(rounds, n, j)
  {
    hide PhantomAt, ComesInDirty;
    PhantomsIff(rounds, n, t);
    forall j | 0 <= j < t
      ensures PhantomAt(rounds, n, j) <==> ComesInDirty(rounds, n, j)
    {
      PhantomAtIff(rounds, n, j);
    }
  }

  lemma NothingLostIff(rounds: seq<Round>, n: nat, t: nat)
    requires n > 0 && t <= |rounds|
    ensures Lost(rounds, n, t) == 0 <==> forall j :: 0 <= j < t ==> !MarksFreeSlot(rounds, n, j)
  {
    hide LosesAt, MarksFreeSlot;
    LostIff(rounds, n, t);
    forall j | 0 <= j < t
      ensures LosesAt(rounds, n, j) <==> MarksFreeSlot(rounds, n, j)
    {
      LosesAtIff(rounds, n, j);
    }
  }

  /** Nothing comes in dirty but after such a write. */
  lemma {:induction false} ZeroWasWritten(rounds: seq<Round>, n: nat, t: nat)
    requires t <= |rounds| && ZeroWritten(rounds, t) && |Seen(rounds, t)| < n
    ensures exists j :: 0 <= j < t && MarksFreeSlot(rounds, n, j)
  {
    var a := rounds[t - 1].access;
    SeenGrows(Seen(rounds, t - 1), a);
    if a == Access(0, true) {
      assert MarksFreeSlot(rounds, n, t - 1);
    } else {
      ZeroWasWritten(rounds, n, t - 1);
    }
  }

  /** Modifications are written once or still pending, or lost; what is written or pending besides
      is a clean page taken for dirty.  There is neither the one nor the other, if and only if the
      trace does not write page 0 while there is room. */
  lemma WritesAreConservedIff(rounds: seq<Round>, n: nat, t: nat)
    requires n > 0 && t <= |rounds|
    ensures Accounted(StateAt(rounds, n, t)) + Lost(rounds, n, t) == Modified(rounds, n, t) + Phantoms(rounds, n, t)
    ensures Lost(rounds, n, t) == 0 && Phantoms(rounds, n, t) == 0
       <==> forall j :: 0 <= j < t ==> !MarksFreeSlot(rounds, n, j)
  {
    hide StateAt, Accounted, MarksFreeSlot, ZeroWritten, Seen;
    WritesAreAccounted(rounds, n, t);
    ModifiedIsDirtiedOrLost(rounds, n, t);
    NothingLostIff(rounds, n, t);
    NoPhantomsIff(rounds, n, t);
    forall j | 0 <= j < t && ComesInDirty(rounds, n, j)
      ensures exists i :: 0 <= i < j && MarksFreeSlot(rounds, n, i)
    {
      ZeroWasWritten(rounds, n, j);
    }
  }

  /** One slot and a write to page 0: nothing is ever dirty, and the modification is gone. */
  lemma WriteToPageZeroIsLost()
    ensures var rounds := [Round(false, Access(0, true))];
      && !StateAt(rounds, 1, 1).frames[0].inUse
      && Modified(rounds, 1, 1) == 1 && Accounted(StateAt(rounds, 1, 1)) == 0
  {
    var rounds := [Round(false, Access(0, true))];
    WritesAreAccounted(rounds, 1, 1);
  }

  /** One slot, page 0 written and page 7 read: page 7 is resident and dirty, though nothing ever
      wrote to it. */
  lemma CleanPageTakenForDirty()
    ensures var rounds := [Round(false, Access(0, true)), Round(false, Access(7, false))];
      var f := StateAt(rounds, 1, 2).frames[0];
      && f.vpn == 7 && f.inUse && f.dirty
      && Dirtied(rounds, 1, 2) == 0 && Accounted(StateAt(rounds, 1, 2)) == 1
  {
    var rounds := [Round(false, Access(0, true)), Round(false, Access(7, false))];
    WritesAreAccounted(rounds, 1, 2);
  }
}
