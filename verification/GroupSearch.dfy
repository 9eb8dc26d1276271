/** Membership by binary search, and the group system calls end to end. */
module GroupSearch {
  import opened Constants
  import opened StrideOrder
  import opened GroupInfo
  import opened Groups

  const HALF := 0x8000_0000

  /** A difference of unsigned 32-bit integers, read as a signed one. */
  function SignedDifference(a: int, b: int): (d: int) {
    var u := (a - b) % WORD;
    if u < HALF then u else u - WORD
  }

  /** Its sign tells which of two ids is the larger, exactly when they are less than 2^31
      apart, or exactly 2^31 with the first the smaller. */
  lemma SignIsRightIff(a: Gid, b: Gid)
    ensures SignedDifference(a, b) == 0 <==> a == b
    ensures a > b ==> (SignedDifference(a, b) > 0 <==> a - b < HALF)
    ensures a < b ==> (SignedDifference(a, b) < 0 <==> b - a <= HALF)
  {
  }

  /** What the search answers for the range from `left` to `right`. */
  function Search(x: seq<int>, g: int, left: nat, right: nat): bool
    requires left <= right <= |x|
    decreases right - left
  {
    if left == right then false
    else
      var mid := (left + right) / 2;
      var cmp := SignedDifference(g, x[mid]);
      if cmp > 0 then Search(x, g, mid + 1, right)
      else if cmp < 0 then Search(x, g, left, mid)
      else true
  }

  /** The search claims no membership that is not there, whatever the ids and their order. */
  lemma {:induction false} SearchIsSound(x: seq<int>, g: Gid, left: nat, right: nat)
    requires left <= right <= |x| && Gids(x)
    requires Search(x, g, left, right)
    ensures exists i :: left <= i < right && x[i] == g
    decreases right - left
  {
    var mid := (left + right) / 2;
    SignIsRightIff(g, x[mid]);
    var cmp := SignedDifference(g, x[mid]);
    if cmp > 0 {
      SearchIsSound(x, g, mid + 1, right);
    } else if cmp < 0 {
      SearchIsSound(x, g, left, mid);
    }
  }

  /** The search finds an id that is no more than 2^31 below, and less than 2^31 above,
      every id in the range. */
  lemma {:induction false} SearchFinds(x: seq<int>, g: Gid, left: nat, right: nat, at: nat)
    requires left <= at < right <= |x| && Gids(x) && Ordered(x, 1) && x[at] == g
    requires forall i :: left <= i < right ==> -HALF <= g - x[i] < HALF
    ensures Search(x, g, left, right)
    decreases right - left
  {
    var mid := (left + right) / 2;
    SignIsRightIff(g, x[mid]);
    if g > x[mid] {
      if at <= mid {
        OrderedAtOne(x, at, mid);
      }
      SearchFinds(x, g, mid + 1, right, at);
    } else if g < x[mid] {
      if at >= mid {
        OrderedAtOne(x, mid, at);
      }
      SearchFinds(x, g, left, mid, at);
    }
  }

  /** The first and last ids are near enough to the middle one, where every search starts. */
  predicate NearMiddle(x: seq<int>) {
    var n := |x|;
    n == 0 || (x[n / 2] - x[0] <= HALF && x[n - 1] - x[n / 2] < HALF)
  }

  ghost predicate SearchIsExact(x: seq<int>) {
    forall g: Gid :: Search(x, g, 0, |x|) <==> g in x
  }

  lemma NearMiddleFinds(x: seq<int>, g: Gid, at: nat)
    requires Gids(x) && Ordered(x, 1) && NearMiddle(x) && at < |x| && x[at] == g
    ensures Search(x, g, 0, |x|)
  {
    hide SignedDifference;
    var n, mid := |x|, |x| / 2;
    SignIsRightIff(g, x[mid]);
    if g > x[mid] {
      FindsAbove(x, g, at);
    } else if g < x[mid] {
      FindsBelow(x, g, at);
    }
  }

  lemma FindsAbove(x: seq<int>, g: Gid, at: nat)
    requires Gids(x) && Ordered(x, 1) && NearMiddle(x) && at < |x| && x[at] == g > x[|x| / 2]
    ensures g - x[|x| / 2] < HALF && Search(x, g, |x| / 2 + 1, |x|)
  {
    hide Search;
    var n, mid := |x|, |x| / 2;
    if at <= mid {
      OrderedAtOne(x, at, mid);
    }
    OrderedAtOne(x, at, n - 1);
    forall i | mid + 1 <= i < n
      ensures -HALF <= g - x[i] < HALF
    {
      OrderedAtOne(x, mid, i);
      OrderedAtOne(x, i, n - 1);
    }
    SearchFinds(x, g, mid + 1, n, at);
  }

  lemma FindsBelow(x: seq<int>, g: Gid, at: nat)
    requires Gids(x) && Ordered(x, 1) && NearMiddle(x) && at < |x| && x[at] == g < x[|x| / 2]
    ensures x[|x| / 2] - g <= HALF && Search(x, g, 0, |x| / 2)
  {
    hide Search;
    var n, mid := |x|, |x| / 2;
    if at >= mid {
      OrderedAtOne(x, mid, at);
    }
    OrderedAtOne(x, 0, at);
    forall i | 0 <= i < mid
      ensures -HALF <= g - x[i] < HALF
    {
      OrderedAtOne(x, 0, i);
      OrderedAtOne(x, i, mid);
    }
    SearchFinds(x, g, 0, mid, at);
  }

  /** Too far from the middle, the smallest or the largest id is looked for on the wrong side. */
  lemma FarFromMiddleMisses(x: seq<int>)
    requires Gids(x) && Ordered(x, 1) && !NearMiddle(x)
    ensures !Search(x, x[0], 0, |x|) || !Search(x, x[|x| - 1], 0, |x|)
  {
    var n, mid := |x|, |x| / 2;
    SignIsRightIff(x[0], x[mid]);
    SignIsRightIff(x[n - 1], x[mid]);
    if x[mid] - x[0] > HALF {
      if Search(x, x[0], mid + 1, n) {
        SearchIsSound(x, x[0], mid + 1, n);
        var i :| mid + 1 <= i < n && x[i] == x[0];
        OrderedAtOne(x, mid, i);
        assert false;
      }
    } else {
      if Search(x, x[n - 1], 0, mid) {
        SearchIsSound(x, x[n - 1], 0, mid);
        var i :| 0 <= i < mid && x[i] == x[n - 1];
        OrderedAtOne(x, i, mid);
        assert false;
      }
    }
  }

  /** Exactly which sorted group lists the search answers membership for. */
  lemma SearchIsExactIff(x: seq<int>)
    requires Gids(x) && Ordered(x, 1)
    ensures SearchIsExact(x) <==> NearMiddle(x)
  {
    if NearMiddle(x) {
      forall g: Gid
        ensures Search(x, g, 0, |x|) <==> g in x
      {
        if g in x {
          var at :| 0 <= at < |x| && x[at] == g;
          NearMiddleFinds(x, g, at);
        }
        if Search(x, g, 0, |x|) {
          SearchIsSound(x, g, 0, |x|);
        }
      }
    } else {
      FarFromMiddleMisses(x);
      assert x[0] in x && x[|x| - 1] in x;
    }
  }

  lemma SameMembers(list: seq<int>, x: seq<int>, g: int)
    requires multiset(list) == multiset(x)
    ensures g in list <==> g in x
    ensures |list| == |x|
  {
    assert g in list <==> g in multiset(list);
    assert g in x <==> g in multiset(x);
    assert |multiset(list)| == |list| && |multiset(x)| == |x|;
  }

  /** Ids all less than 2^31 apart, as the callers of setgroups in practice pass, are near enough. */
  lemma CloseIdsAreNear(list: seq<int>, x: seq<int>)
    requires multiset(list) == multiset(x)
    requires forall a, b :: a in list && b in list ==> a - b < HALF
    ensures NearMiddle(x)
  {
    if |x| > 0 {
      SameMembers(list, x, x[0]);
      SameMembers(list, x, x[|x| / 2]);
      SameMembers(list, x, x[|x| - 1]);
    }
  }

  lemma SearchAnswers(x: seq<int>, g: Gid)
    requires Gids(x) && Ordered(x, 1)
    ensures Search(x, g, 0, |x|) ==> g in x
    ensures NearMiddle(x) ==> (Search(x, g, 0, |x|) <==> g in x)
  {
    if Search(x, g, 0, |x|) {
      SearchIsSound(x, g, 0, |x|);
    }
    SearchIsExactIff(x);
  }

  /** Two ids 2^31 + 1 apart: the larger is in the middle, and the smaller is reported missing. */
  lemma DistantIdIsMissed()
    ensures var x := [0, 0x8000_0001]; Ordered(x, 1) && 0 in x && !Search(x, 0, 0, 2)
  {
  }

  // ----- The search and the system calls -----

  /** One probe of the search. */
  lemma SearchStep(x: seq<int>, g: int, left: nat, right: nat)
    requires left <= right <= |x|
    ensures left == right ==> !Search(x, g, left, right)
    ensures left < right ==>
      var mid := (left + right) / 2;
      var cmp := SignedDifference(g, x[mid]);
      Search(x, g, left, right) == if cmp > 0 then Search(x, g, mid + 1, right)
                                   else if cmp < 0 then Search(x, g, left, mid) else true
  {
  }

  method GroupsSearch(info: Info?, grp: Gid) returns (found: bool)
    requires info != null ==> info.Valid()
    ensures found <==> info != null && Search(info.Contents(), grp, 0, info.ngroups)
  {
    hide *;
    if info == null {
      return false;
    }
    ghost var x := info.Contents();
    var left, right := 0, info.ngroups;
    while left < right
      invariant 0 <= left <= right <= info.ngroups && x == info.Contents()
      invariant Search(x, grp, left, right) == Search(x, grp, 0, info.ngroups)
      decreases right - left
    {
      SearchStep(x, grp, left, right);
      var mid := (left + right) / 2;
      var cmp := SignedDifference(grp, info.At(mid));
      if cmp > 0 {
        left := mid + 1;
      } else if cmp < 0 {
        right := mid;
      } else {
        return true;
      }
    }
    SearchStep(x, grp, left, right);
    return false;
  }

  class Task {
    var fsgid: Gid
    var groups: Info

    ghost predicate Valid()
      reads this, groups.Storage()
    {
      groups.Valid() && Ordered(groups.Contents(), 1)
    }

    lemma ValidMeans()
      ensures Valid() <==> groups.Valid() && Ordered(groups.Contents(), 1)
    {
    }

    constructor (fsgid: Gid, groups: Info)
      ensures this.fsgid == fsgid && this.groups == groups
    {
      this.fsgid, this.groups := fsgid, groups;
    }

    method InGroup(grp: Gid) returns (member: bool)
      requires Valid()
      ensures member ==> grp == fsgid || grp in groups.Contents()
      ensures NearMiddle(groups.Contents()) ==> (member <==> grp == fsgid || grp in groups.Contents())
    {
      hide Search, NearMiddle, GroupInfo.Gids, StrideOrder.Ordered, Info.FirstGroups;
      member := true;
      if grp != fsgid {
        ghost var x := groups.Contents();
        member := GroupsSearch(groups, grp);
        assert groups.Contents() == x;
        SearchAnswers(x, grp);
      }
    }

    method SetCurrentGroups(info: Info, security: int) returns (r: Result)
      requires info.Valid()
      modifies this, info.Storage()
      ensures fsgid == old(fsgid)
      ensures security != 0 ==> r == Err(SecurityDenied(security)) && groups == old(groups)
      ensures security == 0 ==> r == Ok(0) && groups == info
      ensures security == 0 ==> Ordered(info.Contents(), 1)
      ensures security == 0 ==> multiset(info.Contents()) == multiset(old(info.Contents()))
    {
      if security != 0 {
        return Err(SecurityDenied(security));
      }
      GroupsSort(info);
      groups := info;
      return Ok(0);
    }

    /** The caller's list, or an error that changes nothing. */
    method SetGroups(gidsetsize: int, list: seq<Gid>, limits: Limits, answers: Answers) returns (r: Result)
      requires Valid() && limits.Sound()
      modifies this
      ensures Valid() && fsgid == old(fsgid)
      ensures r == if !answers.capable then Err(EPERM)
                   else if gidsetsize < 0 || gidsetsize > limits.max then Err(EINVAL)
                   else if !AllocSucceeds(gidsetsize, limits, answers) then Err(ENOMEM)
                   else if |list| < gidsetsize then Err(EFAULT)
                   else if answers.security != 0 then Err(SecurityDenied(answers.security))
                   else Ok(0)
      ensures r.Ok? ==> multiset(groups.Contents()) == multiset(list[..gidsetsize])
      ensures r.Ok? ==> fresh(groups.Storage())
      ensures r.Err? ==> groups == old(groups) && groups.Contents() == old(groups.Contents())
    {
      hide GroupInfo.Gids, StrideOrder.Ordered, Info.Valid, Info.Contents, Info.FirstGroups, Info.At;
      hide Valid, AllocSucceeds, Limits.Sound;
      ValidMeans();
      if !answers.capable {
        return Err(EPERM);
      }
      if gidsetsize < 0 || gidsetsize > limits.max {
        return Err(EINVAL);
      }
      var info := GroupsAlloc(gidsetsize, limits, answers);
      groups.SameStorage();
      ValidMeans();
      if info == null {
        return Err(ENOMEM);
      }
      var fault := GroupsFromUser(info, list);
      groups.SameStorage();
      ValidMeans();
      if fault {
        return Err(EFAULT);
      }
      ghost var was := groups;
      r := SetCurrentGroups(info, answers.security);
      was.SameStorage();
      ValidMeans();
    }

    /** How many groups there are and, when the caller gives a size, the groups themselves. */
    method GetGroups(gidsetsize: int, grouplist: array<Gid>) returns (r: Result)
      requires Valid() && grouplist !in groups.Storage()
      modifies grouplist
      ensures r == if gidsetsize < 0 || (gidsetsize > 0 && groups.ngroups > gidsetsize) then Err(EINVAL)
                   else if gidsetsize > 0 && grouplist.Length < groups.ngroups then Err(EFAULT)
                   else Ok(groups.ngroups)
      ensures r.Ok? && gidsetsize > 0 ==> grouplist[..groups.ngroups] == groups.Contents()
      ensures gidsetsize == 0 || r == Err(EINVAL) ==> grouplist[..] == old(grouplist[..])
      ensures forall j :: groups.ngroups <= j < grouplist.Length ==> grouplist[j] == old(grouplist[j])
    {
      if gidsetsize < 0 {
        return Err(EINVAL);
      }
      if gidsetsize > 0 {
        if groups.ngroups > gidsetsize {
          return Err(EINVAL);
        }
        var fault := GroupsToUser(grouplist, groups);
        if fault {
          return Err(EFAULT);
        }
      }
      return Ok(groups.ngroups);
    }

    /** Setting, asking and getting, one after the other: membership is exactly that of the list,
        and the list comes back as a sorted permutation. */
    method SetAskGet(list: seq<Gid>, grp: Gid, back: array<Gid>, limits: Limits, answers: Answers)
      returns (set_: Result, member: bool, got: Result)
      requires Valid() && limits.Sound()
      requires forall a, b :: a in list && b in list ==> a - b < HALF
      requires back !in groups.Storage() && back.Length >= |list|
      modifies this, back
      ensures set_.Ok? ==> (member <==> grp == fsgid || grp in list)
      ensures set_.Ok? ==> got == Ok(|list|)
      ensures set_.Ok? ==> Ordered(back[..|list|], 1) && multiset(back[..|list|]) == multiset(list)
    {
      hide NearMiddle, GroupInfo.Gids, StrideOrder.Ordered, Info.FirstGroups, Info.At, AllocSucceeds, Limits.Sound;
      set_ := SetGroups(|list|, list, limits, answers);
      assert list[..|list|] == list;
      member := InGroup(grp);
      if set_.Ok? {
        CloseIdsAreNear(list, groups.Contents());
        SameMembers(list, groups.Contents(), grp);
      }
      got := GetGroups(|list|, back);
    }
  }
}
