/** Readahead: cutting a run of pages into read requests, greedily and with the fewest requests. */
module ReadPages {
  import opened Constants

  /** The connection's limit on the bytes of one read, and the page size. */
  datatype Conn = Conn(maxRead: nat, pageSize: nat)

  // ----- Admissible requests -----

  predicate Contiguous(pages: seq<nat>) {
    forall i :: 0 < i < |pages| ==> pages[i] == pages[i - 1] + 1
  }

  /** One page is always allowed; more must be contiguous and within both limits. */
  predicate Admissible(c: Conn, pages: seq<nat>) {
    && 0 < |pages| <= MAX_PAGES_PER_REQ && Contiguous(pages)
    && (|pages| > 1 ==> |pages| * c.pageSize <= c.maxRead)
  }

  function Flat(batches: seq<seq<nat>>): seq<nat> {
    if batches == [] then [] else batches[0] + Flat(batches[1..])
  }

  /** `batches` cuts `pages`, in order and without loss, into admissible requests. */
  ghost predicate IsSplit(c: Conn, batches: seq<seq<nat>>, pages: seq<nat>) {
    Flat(batches) == pages && forall i :: 0 <= i < |batches| ==> Admissible(c, batches[i])
  }

  /** No request could have taken the first page of the next one. */
  ghost predicate Maximal(c: Conn, batches: seq<seq<nat>>) {
    forall i :: 0 <= i < |batches| - 1 && batches[i + 1] != [] ==>
      !Admissible(c, batches[i] + [batches[i + 1][0]])
  }

  lemma {:induction false} FlatAppend(batches: seq<seq<nat>>, last: seq<nat>)
    ensures Flat(batches + [last]) == Flat(batches) + last
  {
    if batches == [] {
      assert [last][1..] == [];
      assert Flat([last]) == last + Flat([]);
    } else {
      FlatAppend(batches[1..], last);
      assert (batches + [last])[1..] == batches[1..] + [last];
    }
  }

  /** Part of an admissible request is admissible. */
  lemma PartIsAdmissible(c: Conn, whole: seq<nat>, from: nat, to: nat)
    requires Admissible(c, whole) && from < to <= |whole|
    ensures Admissible(c, whole[from..to])
  {
    var part := whole[from..to];
    assert |part| <= |whole|;
    assert |part| * c.pageSize <= |whole| * c.pageSize;
  }

  lemma SplitAt(a: seq<nat>, b: seq<nat>, o: seq<nat>, rest: seq<nat>)
    requires a + b == o + rest
    ensures |o| <= |a| ==> o == a[..|o|] && rest == a[|o|..] + b
    ensures |o| > |a| ==> rest == b[|o| - |a|..] && o[|a|..] == b[..|o| - |a|]
  {
    var whole := a + b;
    assert o == whole[..|o|] && rest == whole[|o|..];
  }

  lemma TailIsMaximal(c: Conn, batches: seq<seq<nat>>, pages: seq<nat>)
    requires batches != [] && IsSplit(c, batches, pages) && Maximal(c, batches)
    ensures IsSplit(c, batches[1..], Flat(batches[1..])) && Maximal(c, batches[1..])
  {
  }

  /** A split in which no request could have been longer is at least as short as any split,
      even of the same pages with others before them. */
  lemma {:induction false} MaximalIsFewest(c: Conn, batches: seq<seq<nat>>, pages: seq<nat>,
                                           other: seq<seq<nat>>, before: seq<nat>)
    requires IsSplit(c, batches, pages) && Maximal(c, batches)
    requires IsSplit(c, other, before + pages)
    ensures |batches| <= |other|
    decreases |other|
  {
    hide Admissible, Contiguous, Maximal;
    if batches == [] {
    } else {
      NonEmptySplit(c, batches, pages);
      assert other != [];
      var o, rest := other[0], other[1..];
      SplitAt(before, pages, o, Flat(rest));
      if |o| <= |before| {
        MaximalIsFewest(c, batches, pages, rest, before[|o|..]);
      } else {
        var y := |o| - |before|;
        LongestFits(c, batches, pages, o[|before|..], o, |before|);
        TailIsMaximal(c, batches, pages);
        assert pages[y..] == batches[0][y..] + Flat(batches[1..]);
        MaximalIsFewest(c, batches[1..], Flat(batches[1..]), rest, batches[0][y..]);
      }
    }
  }

  /** The pages up to `n` can be cut into no more requests than all of them. */
  lemma {:induction false} PrefixSplit(c: Conn, other: seq<seq<nat>>, pages: seq<nat>, n: nat)
    returns (prefix: seq<seq<nat>>)
    requires IsSplit(c, other, pages) && n <= |pages|
    ensures IsSplit(c, prefix, pages[..n]) && |prefix| <= |other|
    decreases |other|
  {
    if n == 0 {
      prefix := [];
    } else {
      NonEmptySplit(c, other, pages);
      var o, rest := other[0], other[1..];
      if n <= |o| {
        prefix := [o[..n]];
        PartIsAdmissible(c, o, 0, n);
        FlatAppend([], o[..n]);
        assert [] + [o[..n]] == prefix && pages[..n] == o[..n] == o[0..n];
      } else {
        var tail := PrefixSplit(c, rest, Flat(rest), n - |o|);
        prefix := [o] + tail;
        assert prefix[1..] == tail && pages[..n] == o + Flat(rest)[..n - |o|];
      }
    }
  }

  /** A maximal split of the first pages already needs as many requests as any split of all. */
  lemma NoneIsShorter(c: Conn, batches: seq<seq<nat>>, pages: seq<nat>, n: nat)
    requires n <= |pages| && IsSplit(c, batches, pages[..n]) && Maximal(c, batches)
    ensures forall other :: IsSplit(c, other, pages) ==> |batches| <= |other|
  {
    hide IsSplit, Maximal;
    forall other | IsSplit(c, other, pages)
      ensures |batches| <= |other|
    {
      var prefix := PrefixSplit(c, other, pages, n);
      assert [] + pages[..n] == pages[..n];
      MaximalIsFewest(c, batches, pages[..n], prefix, []);
    }
  }

  lemma NonEmptySplit(c: Conn, batches: seq<seq<nat>>, pages: seq<nat>)
    requires batches != [] && IsSplit(c, batches, pages)
    ensures |batches[0]| > 0 && pages == batches[0] + Flat(batches[1..]) && pages != []
  {
  }

  /** The part of a request that falls on the pages of a maximal one, from their first on, is
      no longer than it. */
  lemma LongestFits(c: Conn, batches: seq<seq<nat>>, pages: seq<nat>, part: seq<nat>, o: seq<nat>, from: nat)
    requires batches != [] && IsSplit(c, batches, pages) && Maximal(c, batches)
    requires Admissible(c, o) && from < |o| && part == o[from..] && part <= pages
    ensures |part| <= |batches[0]|
  {
    if |part| > |batches[0]| {
      OneMoreFits(c, batches, pages, part, o, from);
      assert false;
    }
  }

  lemma OneMoreFits(c: Conn, batches: seq<seq<nat>>, pages: seq<nat>, part: seq<nat>, o: seq<nat>, from: nat)
    requires batches != [] && IsSplit(c, batches, pages)
    requires Admissible(c, o) && from < |o| && part == o[from..] && part <= pages
    requires |part| > |batches[0]|
    ensures |batches| > 1 && batches[0 + 1] != [] && Admissible(c, batches[0] + [batches[0 + 1][0]])
  {
    var b, tail := batches[0], batches[1..];
    NonEmptySplit(c, batches, pages);
    assert tail != [];
    NonEmptySplit(c, tail, Flat(tail));
    assert pages[|b|] == tail[0][0];
    PartIsAdmissible(c, o, from, from + |b| + 1);
    assert o[from..from + |b| + 1] == part[..|b| + 1] == pages[..|b| + 1] == b + [tail[0][0]];
  }

  // ----- The code -----

  datatype Errno = EIO | ENOMEM

  /** One request being filled: a page array of fixed size and how much of it is in use. */
  class Request {
    const pages: array<nat>
    var numPages: nat

    ghost predicate Valid()
      reads this
    {
      pages.Length == MAX_PAGES_PER_REQ && numPages <= MAX_PAGES_PER_REQ
    }

    ghost function Contents(): seq<nat>
      requires Valid()
      reads this, pages
    {
      pages[..numPages]
    }

    constructor ()
      ensures Valid() && numPages == 0 && fresh(pages)
    {
      pages := new nat[MAX_PAGES_PER_REQ];
      numPages := 0;
    }

    method Append(page: nat)
      requires Valid() && numPages < MAX_PAGES_PER_REQ
      modifies this, pages
      ensures Valid() && Contents() == old(Contents()) + [page]
    {
      pages[numPages] := page;
      numPages := numPages + 1;
    }
  }

  /** A read as it goes out: where in the file, how many bytes, and which pages they fill. */
  datatype ReadRequest = ReadRequest(pos: nat, count: nat, pages: seq<nat>)

  ghost function SentPages(sent: seq<ReadRequest>): (b: seq<seq<nat>>)
    ensures |b| == |sent|
  {
    seq(|sent|, i requires 0 <= i < |sent| => sent[i].pages)
  }

  /** The bytes asked for are exactly those of the request's pages, page after page. */
  predicate Covers(c: Conn, r: ReadRequest) {
    && r.count == |r.pages| * c.pageSize
    && forall i :: 0 <= i < |r.pages| ==> r.pages[i] * c.pageSize == r.pos + i * c.pageSize
  }

  /** At most 32 pages, one after the other; and if more than one, no more bytes than the limit. */
  predicate KeepsLimits(c: Conn, r: ReadRequest) {
    && 1 <= |r.pages| <= 32 && (|r.pages| > 1 ==> r.count <= c.maxRead)
    && forall i :: 0 < i < |r.pages| ==> r.pages[i] == r.pages[i - 1] + 1
  }

  /** The first page of the later request did not fit the earlier one: that was full, or would have
      been too long, or the page is not the next. */
  predicate HadToBeCut(c: Conn, earlier: seq<nat>, later: seq<nat>) {
    && earlier != [] && later != []
    && (|earlier| == 32 || (|earlier| + 1) * c.pageSize > c.maxRead || later[0] != earlier[|earlier| - 1] + 1)
  }

  /** Admissible requests keep the limits, and maximal ones had to be cut. */
  lemma SplitKeepsLimits(c: Conn, sent: seq<ReadRequest>, pages: seq<nat>)
    requires IsSplit(c, SentPages(sent), pages) && Maximal(c, SentPages(sent))
    requires forall i :: 0 <= i < |sent| ==> Covers(c, sent[i])
    ensures forall i :: 0 <= i < |sent| ==> KeepsLimits(c, sent[i])
    ensures forall i :: 0 < i < |sent| ==> HadToBeCut(c, sent[i - 1].pages, sent[i].pages)
  {
    var batches := SentPages(sent);
    forall i | 0 <= i < |sent|
      ensures KeepsLimits(c, sent[i])
    {
      assert Admissible(c, batches[i]);
    }
    forall i | 0 < i < |sent|
      ensures HadToBeCut(c, sent[i - 1].pages, sent[i].pages)
    {
      assert Admissible(c, batches[i - 1]) && Admissible(c, batches[i]);
      assert batches[i - 1 + 1] != [];
      CanGrow(c, batches[i - 1], batches[i][0]);
    }
  }

  class Readahead {
    const conn: Conn
    const badInode: bool
    var req: Request?
    var freeReqs: nat
    var sent: seq<ReadRequest>

    /** `freeReqs`: how many more requests the connection will allocate. */
    constructor (conn: Conn, badInode: bool, freeReqs: nat)
      ensures this.conn == conn && this.badInode == badInode && this.freeReqs == freeReqs
      ensures req == null && sent == []
    {
      this.conn, this.badInode, this.freeReqs := conn, badInode, freeReqs;
      req, sent := null, [];
    }

    /** The request being filled, if any, is admissible and holds a page. */
    ghost predicate Valid()
      reads this, req, if req == null then {} else {req.pages}
    {
      && (req != null ==> req.Valid() && Admissible(conn, req.Contents()))
      && forall i :: 0 <= i < |sent| ==> Covers(conn, sent[i])
    }

    /** Every request so far, the one being filled included. */
    ghost function Batches(): seq<seq<nat>>
      requires Valid()
      reads this, req, if req == null then {} else {req.pages}
    {
      SentPages(sent) + if req == null then [] else [req.Contents()]
    }

    method SendReadpages()
      requires Valid() && req != null
      modifies this`req, this`sent
      ensures Valid() && req == null && Batches() == old(Batches())
    {
      var pages := req.pages[..req.numPages];
      var r := ReadRequest(pages[0] * conn.pageSize, req.numPages * conn.pageSize, pages);
      ContiguousCovers(conn, r);
      sent := sent + [r];
      req := null;
    }

    /** Take one page: into the request being filled if it fits, or into a new one. */
    method Fill(page: nat) returns (err: seq<Errno>)
      requires Valid()
      modifies this, req, if req == null then {} else {req.pages}
      ensures Valid() && (req != null && req != old(req) ==> fresh(req) && fresh(req.pages))
      ensures err == if old(Fits(page)) then [] else if badInode then [EIO]
                     else if old(freeReqs) == 0 then [ENOMEM] else []
      ensures freeReqs == old(freeReqs) - if err == [] && !old(Fits(page)) then 1 else 0
      ensures if err == [] then req != null else req == null && Batches() == old(Batches())
      ensures err == [] && old(Fits(page)) ==> Batches() == SentPages(old(sent)) + [old(req.Contents()) + [page]]
      ensures err == [] && !old(Fits(page)) ==> Batches() == old(Batches()) + [[page]]
    {
      hide Admissible, Covers;
      SinglePage(conn, page);
      if req != null {
        CanGrow(conn, req.Contents(), page);
      }
      if req != null && req.numPages > 0 &&
         (req.numPages == MAX_PAGES_PER_REQ
          || (req.numPages + 1) * conn.pageSize > conn.maxRead
          || req.pages[req.numPages - 1] + 1 != page) {
        SendReadpages();
      }
      if req == null {
        if badInode {
          return [EIO];
        }
        if freeReqs == 0 {
          return [ENOMEM];
        }
        freeReqs := freeReqs - 1;
        req := new Request();
        assert req.Contents() + [page] == [page];
      }
      req.Append(page);
      return [];
    }

    /** Read the pages, which read_cache_pages hands over one by one until one is refused. */
    method Readpages(pages: seq<nat>) returns (err: seq<Errno>)
      requires req == null && sent == []
      modifies this
      ensures forall i :: 0 <= i < |sent| ==> Covers(conn, sent[i])
      ensures forall i :: 0 <= i < |sent| ==> KeepsLimits(conn, sent[i])
      ensures forall i :: 0 < i < |sent| ==> HadToBeCut(conn, sent[i - 1].pages, sent[i].pages)
      ensures err == [] ==> IsSplit(conn, SentPages(sent), pages)
      ensures err == [] ==> forall other :: IsSplit(conn, other, pages) ==> |sent| <= |other|
      ensures err != [] ==> exists i :: 0 <= i < |pages| && IsSplit(conn, SentPages(sent), pages[..i])
      ensures err == [] || err == [EIO] || err == [ENOMEM]
      ensures err == [EIO] <==> badInode && pages != []
      ensures err == [EIO] ==> sent == []
      ensures err == [] ==> |sent| <= old(freeReqs)
      ensures err == [ENOMEM] ==> forall other :: IsSplit(conn, other, pages) ==> |other| > old(freeReqs)
    {
      hide Admissible, IsSplit, Maximal, Covers, KeepsLimits, HadToBeCut;
      err := [];
      EmptySplit(conn);
      assert Batches() == [] && pages[..0] == [];
      for i := 0 to |pages|
        invariant Valid() && (req != null ==> fresh(req) && fresh(req.pages))
        invariant IsSplit(conn, Batches(), pages[..i]) && Maximal(conn, Batches())
        invariant err == [] && freeReqs + |Batches()| == old(freeReqs)
        invariant req == null ==> sent == []
        invariant badInode || i == 0 ==> i == 0 && req == null
      {
        ghost var fits, done, batches := Fits(pages[i]), SentPages(sent), Batches();
        ghost var last := if req == null then [] else req.Contents();
        NonEmptyLast(conn, last);
        assert pages[..i + 1] == pages[..i] + [pages[i]];
        err := Fill(pages[i]);
        if err != [] {
          assert Batches() == SentPages(sent);
          SplitKeepsLimits(conn, sent, pages[..i]);
          if err == [ENOMEM] {
            AddSplit(conn, batches, pages[..i], pages[i]);
            NoneIsShorter(conn, batches + [[pages[i]]], pages, i + 1);
          }
          return;
        }
        if fits {
          GrowSplit(conn, done, last, pages[..i], pages[i]);
        } else {
          AddSplit(conn, batches, pages[..i], pages[i]);
        }
      }
      assert pages[..|pages|] == pages;
      ghost var batches := Batches();
      if req != null {
        SendReadpages();
      }
      assert SentPages(sent) == batches;
      SplitKeepsLimits(conn, sent, pages);
      NoneIsShorter(conn, batches, pages, |pages|);
    }

    ghost predicate Fits(page: nat)
      requires Valid()
      reads this, req, if req == null then {} else {req.pages}
    {
      req != null && Admissible(conn, req.Contents() + [page])
    }
  }

  lemma NonEmptyLast(c: Conn, pages: seq<nat>)
    ensures Admissible(c, pages) ==> pages != []
  {
  }

  lemma EmptySplit(c: Conn)
    ensures IsSplit(c, [], []) && Maximal(c, [])
  {
  }

  lemma GrowSplit(c: Conn, done: seq<seq<nat>>, last: seq<nat>, pages: seq<nat>, page: nat)
    requires last != [] && IsSplit(c, done + [last], pages) && Maximal(c, done + [last])
    requires Admissible(c, last + [page])
    ensures IsSplit(c, done + [last + [page]], pages + [page]) && Maximal(c, done + [last + [page]])
  {
    var before, after := done + [last], done + [last + [page]];
    FlatAppend(done, last);
    FlatAppend(done, last + [page]);
    forall i | 0 <= i < |after|
      ensures Admissible(c, after[i])
    {
      assert i < |done| ==> after[i] == before[i];
    }
    forall i | 0 <= i < |after| - 1 && after[i + 1] != []
      ensures !Admissible(c, after[i] + [after[i + 1][0]])
    {
      assert after[i] == before[i] && after[i + 1][0] == before[i + 1][0];
    }
  }

  lemma AddSplit(c: Conn, batches: seq<seq<nat>>, pages: seq<nat>, page: nat)
    requires IsSplit(c, batches, pages) && Maximal(c, batches)
    requires batches != [] ==> !Admissible(c, batches[|batches| - 1] + [page])
    ensures IsSplit(c, batches + [[page]], pages + [page]) && Maximal(c, batches + [[page]])
  {
    FlatAppend(batches, [page]);
    assert Admissible(c, [page]);
    var after := batches + [[page]];
    forall i | 0 <= i < |after| - 1 && after[i + 1] != []
      ensures !Admissible(c, after[i] + [after[i + 1][0]])
    {
      assert i + 1 < |batches| ==> after[i + 1] == batches[i + 1];
    }
  }

  lemma CanGrow(c: Conn, cur: seq<nat>, page: nat)
    requires Admissible(c, cur)
    ensures Admissible(c, cur + [page]) <==>
      |cur| < MAX_PAGES_PER_REQ && (|cur| + 1) * c.pageSize <= c.maxRead && cur[|cur| - 1] + 1 == page
    ensures cur != []
  {
    var longer := cur + [page];
    if cur[|cur| - 1] + 1 == page {
      assert forall i :: 0 < i < |longer| ==> longer[i] == longer[i - 1] + 1;
    } else {
      assert longer[|cur|] != longer[|cur| - 1] + 1;
    }
  }

  lemma SinglePage(c: Conn, page: nat)
    ensures Admissible(c, [page])
  {
  }

  lemma ContiguousCovers(c: Conn, r: ReadRequest)
    requires r.pages != [] && Contiguous(r.pages)
    requires r.pos == r.pages[0] * c.pageSize && r.count == |r.pages| * c.pageSize
    ensures Covers(c, r)
  {
    forall i | 0 <= i < |r.pages|
      ensures r.pages[i] * c.pageSize == r.pos + i * c.pageSize
    {
      FromFirst(r.pages, i);
      assert (r.pages[0] + i) * c.pageSize == r.pages[0] * c.pageSize + i * c.pageSize;
    }
  }

  lemma {:induction false} FromFirst(pages: seq<nat>, i: nat)
    requires Contiguous(pages) && i < |pages|
    ensures pages[i] == pages[0] + i
  {
    if i == 0 {
    } else {
      FromFirst(pages, i - 1);
    }
  }
}
