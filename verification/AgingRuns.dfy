/** Reference bits and aging values in whole runs of the Aging simulator, told from the reads and
    the ticks. */
module AgingRuns {
  import opened AgingHistory
  import opened AgingSpec
  import opened Arithmetic
  import opened Paging

  /** Round `u` is a read, and slot `i` is where its page is found afterwards. */
  ghost predicate ReadIn(rounds: seq<Round>, n: nat, u: nat, i: nat)
    requires n > 0 && u < |rounds|
  {
    !rounds[u].access.write && FirstVpn(StateAt(rounds, n, u + 1).frames, rounds[u].access.vpn, 0) == i
  }

  /** No round after `u` and before `t` has a tick. */
  predicate Quiet(rounds: seq<Round>, u: nat, t: nat)
    requires t <= |rounds|
  {
    forall w :: u < w < t ==> !rounds[w].tick
  }

  /** The slot that serves an access is the first with its page number afterwards. */
  lemma ServedSlot(s: State, a: Access)
    requires Slot(s, a) < |s.frames|
    ensures FirstVpn(Serve(s, a).frames, a.vpn, 0) == Slot(s, a)
  {
    hide Serve, LowestScan;
    ServeShape(s, a);
    var frames', i := Serve(s, a).frames, Slot(s, a);
    assert forall j :: 0 <= j < |s.frames| && j != i ==> frames'[j] == s.frames[j];
  }

  lemma StateAtIsServed(rounds: seq<Round>, n: nat, t: nat)
    requires n > 0 && t < |rounds|
    ensures var s, r := StateAt(rounds, n, t), rounds[t];
      && |s.histories| == |s.frames| == |AgeIf(s, r).frames| == n && Slot(AgeIf(s, r), r.access) < n
      && StateAt(rounds, n, t + 1) == Serve(AgeIf(s, r), r.access)
  {
    hide Slot, Serve, AgeIf, Inv;
    RoundIsServed(StateAt(rounds, n, t), rounds[t]);
  }

  /** What a round does to the reference bit and the history of slot `i`. */
  lemma RoundReferences(rounds: seq<Round>, n: nat, t: nat, i: nat)
    requires n > 0 && t < |rounds| && i < n
    ensures var s, s', r := StateAt(rounds, n, t), StateAt(rounds, n, t + 1), rounds[t];
      && |s.frames| == |s'.frames| == |s.histories| == |s'.histories| == n
      && (s'.frames[i].reference <==> ReadIn(rounds, n, t, i) || (!r.tick && s.frames[i].reference))
      && s'.histories[i] == (if r.tick then [s.frames[i].reference] else []) + s.histories[i]
  {
    hide StateAt, Serve, Slot, LowestScan, Inv;
    var s, r := StateAt(rounds, n, t), rounds[t];
    StateAtIsServed(rounds, n, t);
    ServeShape(AgeIf(s, r), r.access);
    ServedSlot(AgeIf(s, r), r.access);
  }

  lemma StartIsClear(rounds: seq<Round>, n: nat, i: nat)
    requires n > 0 && i < n
    ensures var s := StateAt(rounds, n, 0); !s.frames[i].reference && s.histories[i] == []
  {
  }

  /** In every run, a slot is referenced exactly if a read was served in it since the last tick. */
  lemma {:induction false} ReferencedIff(rounds: seq<Round>, n: nat, t: nat, i: nat)
    requires n > 0 && t <= |rounds| && i < n
    ensures |StateAt(rounds, n, t).frames| == n
    ensures StateAt(rounds, n, t).frames[i].reference
       <==> exists u :: 0 <= u < t && ReadIn(rounds, n, u, i) && Quiet(rounds, u, t)
  {
    hide StateAt, Inv, ReadIn;
    if t == 0 {
      StartIsClear(rounds, n, i);
    } else {
      ReferencedIff(rounds, n, t - 1, i);
      RoundReferences(rounds, n, t - 1, i);
    }
  }

  /** The round of the (j+1)-th most recent tick before round `t`; -1 if there were not so many. */
  function TickRound(rounds: seq<Round>, t: nat, j: nat): (w: int)
    requires t <= |rounds|
    ensures -1 <= w < t && (w >= 0 ==> rounds[w].tick)
  {
    if t == 0 then -1
    else if !rounds[t - 1].tick then TickRound(rounds, t - 1, j)
    else if j == 0 then t - 1
    else TickRound(rounds, t - 1, j - 1)
  }

  /** A read was served in slot `i` in some round from `from` to before `to`. */
  ghost predicate ReadBetween(rounds: seq<Round>, n: nat, i: nat, from: int, to: int)
    requires n > 0 && to <= |rounds|
  {
    exists u :: 0 <= u < to && from <= u && ReadIn(rounds, n, u, i)
  }

  lemma {:induction false} QuietIff(rounds: seq<Round>, u: nat, t: nat)
    requires u < t <= |rounds|
    ensures Quiet(rounds, u, t) <==> TickRound(rounds, t, 0) <= u
  {
    if t == u + 1 {
    } else {
      QuietIff(rounds, u, t - 1);
      assert rounds[t - 1].tick ==> !Quiet(rounds, u, t);
    }
  }

  lemma ReferencedSinceTick(rounds: seq<Round>, n: nat, t: nat, i: nat)
    requires n > 0 && t <= |rounds| && i < n
    ensures |StateAt(rounds, n, t).frames| == n
    ensures StateAt(rounds, n, t).frames[i].reference <==> ReadBetween(rounds, n, i, TickRound(rounds, t, 0), t)
  {
    hide StateAt, Inv, ReadIn, Quiet, TickRound;
    ReferencedIff(rounds, n, t, i);
    forall u: nat | u < t
      ensures Quiet(rounds, u, t) <==> TickRound(rounds, t, 0) <= u
    {
      QuietIff(rounds, u, t);
    }
  }

  /** Entry `j` of a history tells of the reads between the (j+2)-th and the (j+1)-th most recent
      tick. */
  lemma {:induction false} HistoryIff(rounds: seq<Round>, n: nat, t: nat, i: nat, j: nat)
    requires n > 0 && t <= |rounds| && i < n
    ensures |StateAt(rounds, n, t).histories| == n
    ensures Referenced(StateAt(rounds, n, t).histories[i], j)
       <==> ReadBetween(rounds, n, i, TickRound(rounds, t, j + 1), TickRound(rounds, t, j))
  {
    hide StateAt, Inv, ReadBetween;
    if t == 0 {
      StartIsClear(rounds, n, i);
      NothingRead(rounds, n, i);
    } else {
      RoundReferences(rounds, n, t - 1, i);
      if rounds[t - 1].tick && j == 0 {
        ReferencedSinceTick(rounds, n, t - 1, i);
      } else if rounds[t - 1].tick {
        HistoryIff(rounds, n, t - 1, i, j - 1);
      } else {
        HistoryIff(rounds, n, t - 1, i, j);
      }
    }
  }

  lemma NothingRead(rounds: seq<Round>, n: nat, i: nat)
    requires n > 0
    ensures !ReadBetween(rounds, n, i, -1, -1)
  {
  }

  /** In every run, bit 7 - j of a slot's aging value is set exactly if a read was served in the slot
      between the (j+2)-th and the (j+1)-th most recent tick. */
  lemma AgingBitIff(rounds: seq<Round>, n: nat, t: nat, i: nat, j: nat)
    requires n > 0 && t <= |rounds| && i < n && j < 8
    ensures |StateAt(rounds, n, t).frames| == n
    ensures Bit(StateAt(rounds, n, t).frames[i].agingValue, 7 - j)
       <==> ReadBetween(rounds, n, i, TickRound(rounds, t, j + 1), TickRound(rounds, t, j))
  {
    hide StateAt, Bit, Referenced, Inv, ReadBetween;
    AgingValueIsHistory(rounds, n, t, i, j);
    HistoryIff(rounds, n, t, i, j);
  }

  // ----- Faults -----

  /** The accesses that find no slot with their page number before, counted over a run. */
  ghost function Misses(rounds: seq<Round>, n: nat, t: nat): nat
    requires n > 0 && t <= |rounds|
  {
    if t == 0 then 0
    else
      var frames, vpn := StateAt(rounds, n, t - 1).frames, rounds[t - 1].access.vpn;
      Misses(rounds, n, t - 1)
      + if exists i :: 0 <= i < |frames| && frames[i].vpn == vpn then 0 else 1
  }

  lemma {:induction false} FaultsAreMisses(rounds: seq<Round>, n: nat, t: nat)
    requires n > 0 && t <= |rounds|
    ensures StateAt(rounds, n, t).faults == Misses(rounds, n, t)
  {
    hide StateAt, Inv, Slot, AgeIf, Serve;
    if t == 0 {
      StartHasNoFaults(rounds, n);
    } else {
      FaultsAreMisses(rounds, n, t - 1);
      StateAtIsServed(rounds, n, t - 1);
      FaultIsMiss(StateAt(rounds, n, t - 1), rounds[t - 1]);
    }
  }

  lemma StartHasNoFaults(rounds: seq<Round>, n: nat)
    requires n > 0
    ensures StateAt(rounds, n, 0).faults == 0
  {
  }

  lemma FaultIsMiss(s: State, r: Round)
    requires |s.histories| == |s.frames| && Slot(AgeIf(s, r), r.access) < |AgeIf(s, r).frames|
    ensures Serve(AgeIf(s, r), r.access).faults
         == s.faults + if exists i :: 0 <= i < |s.frames| && s.frames[i].vpn == r.access.vpn then 0 else 1
  {
    hide LowestScan, FirstFree;
    var m := AgeIf(s, r);
    assert forall i :: 0 <= i < |s.frames| ==> m.frames[i].vpn == s.frames[i].vpn;
  }
}
