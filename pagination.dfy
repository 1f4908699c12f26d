/** The paging loop of `Main`: request the search page at `startAt`, take its
    `total`, append its issues and advance `startAt` by the number of issues
    the page actually held, until `startAt >= total`.

    The HTTP request for a page is modelled as a function from the offset to
    the page it returns (the query and `maxResults`, 1000, are fixed for the
    run, and a server may return fewer issues than asked for). */
module Pagination {
  import opened Jira
  import opened Sequences

  type Search = nat -> SearchResult

  /** What the loop needs of the server to stop: a page that holds no issues
      reports a total no larger than its offset, and the running offset never
      passes the largest `int`. The code itself has no guard against an empty
      page while `startAt < total`. */
  predicate Progresses(search: Search) {
    forall s: nat :: s <= Int32Max ==>
      (search(s).issues == [] ==> search(s).total as int <= s) &&
      s + |search(s).issues| <= Int32Max
  }

  /** The issues collected from offset `startAt` on: this page's issues,
      followed by the rest if the page ended before the total it reports. */
  function Collected(search: Search, startAt: nat): seq<Issue>
    requires Progresses(search) && startAt <= Int32Max
    decreases Int32Max - startAt
  {
    var page := search(startAt);
    var next := startAt + |page.issues|;
    if next < page.total as int then page.issues + Collected(search, next) else page.issues
  }

  /** The offset of the last page requested from `startAt` on. */
  function LastOffset(search: Search, startAt: nat): (r: nat)
    requires Progresses(search) && startAt <= Int32Max
    ensures startAt <= r <= Int32Max
    ensures r + |search(r).issues| >= search(r).total as int
    decreases Int32Max - startAt
  {
    var page := search(startAt);
    var next := startAt + |page.issues|;
    if next < page.total as int then LastOffset(search, next) else startAt
  }

  /** The issues collected from `startAt` start with that page's issues and
      end where the last page requested ends. */
  lemma {:induction false} CollectedSpans(search: Search, startAt: nat)
    requires Progresses(search) && startAt <= Int32Max
    ensures search(startAt).issues <= Collected(search, startAt)
    ensures var last := LastOffset(search, startAt);
      startAt + |Collected(search, startAt)| == last + |search(last).issues|
    decreases Int32Max - startAt
  {
    var page := search(startAt);
    var next := startAt + |page.issues|;
    if next < page.total as int {
      CollectedSpans(search, next);
    }
  }

  method FetchAll(search: Search) returns (alleTickets: seq<Issue>, startAt: int32, total: int32)
    requires Progresses(search)
    ensures alleTickets == Collected(search, 0)
    ensures startAt as int == |alleTickets|
    ensures startAt >= total
    ensures total == search(LastOffset(search, 0)).total
    ensures startAt as int == OffsetAfter(search, 0, Int32Max + 1)
  {
    alleTickets := [];
    startAt, total := 0, 0x7FFF_FFFF;
    while startAt < total
      invariant 0 <= startAt
      invariant startAt as int == |alleTickets|
      invariant startAt < total ==>
        alleTickets + Collected(search, startAt as nat) == Collected(search, 0) &&
        LastOffset(search, startAt as nat) == LastOffset(search, 0)
      invariant startAt >= total ==>
        alleTickets == Collected(search, 0) && total == search(LastOffset(search, 0)).total
      decreases Int32Max - startAt as int, if startAt < total then 1 else 0
    {
      var seite := search(startAt as nat);
      ghost var s := startAt as nat;
      ghost var before := alleTickets;
      CollectedStep(search, s);
      total := seite.total;
      alleTickets := alleTickets + seite.issues;
      startAt := startAt + |seite.issues| as int32;
      if startAt < total {
        Assoc(before, seite.issues, Collected(search, startAt as nat));
      }
    }
    OffsetAfterEnds(search, 0, Int32Max + 1);
  }

  /** One pass of the loop body from offset `startAt`: the next offset and the
      total the page reported. */
  function Step(search: Search, startAt: nat): (r: (nat, int32))
    ensures r.0 >= startAt && r.1 == search(startAt).total
    ensures r.0 == startAt <==> search(startAt).issues == []
  {
    var page := search(startAt);
    (startAt + |page.issues|, page.total)
  }

  /** One pass of the loop, as `Step` takes it: the issues collected from `s`
      are this page's, then those from the next offset if it is still below
      the page's total. */
  lemma CollectedStep(search: Search, s: nat)
    requires Progresses(search) && s <= Int32Max
    ensures var (next, total) := Step(search, s);
      if next < total as int then
        Collected(search, s) == search(s).issues + Collected(search, next) &&
        LastOffset(search, s) == LastOffset(search, next)
      else
        Collected(search, s) == search(s).issues && LastOffset(search, s) == s
  {
  }

  /** The offset after `n` passes of the loop from `startAt`, stopping once
      the offset reaches the reported total. */
  function OffsetAfter(search: Search, startAt: nat, n: nat): (r: nat)
    ensures r >= startAt
    decreases n
  {
    if n == 0 then startAt
    else
      var (next, total) := Step(search, startAt);
      if next < total as int then OffsetAfter(search, next, n - 1) else next
  }

  /** With progress, enough passes of `Step` end where `FetchAll` ends: at the
      offset just past the issues collected. */
  lemma {:induction false} OffsetAfterEnds(search: Search, s: nat, n: nat)
    requires Progresses(search) && s <= Int32Max && n > Int32Max - s
    ensures OffsetAfter(search, s, n) == s + |Collected(search, s)|
    decreases n
  {
    var page := search(s);
    var next := s + |page.issues|;
    if next < page.total as int {
      assert next > s;
      OffsetAfterEnds(search, next, n - 1);
    }
  }

  /** Without the guard the code lacks, an empty page at an offset below its
      total is requested again and again: however many passes the loop makes,
      it stays at that offset and the loop condition still holds. */
  lemma {:induction false} EmptyPageStalls(search: Search, startAt: nat, n: nat)
    requires search(startAt).issues == [] && startAt < search(startAt).total as int
    ensures OffsetAfter(search, startAt, n) == startAt
  {
    if n > 0 {
      EmptyPageStalls(search, startAt, n - 1);
    }
  }

  /** A server that serves the issues of one fixed list in order, a
      non-empty slice starting at each offset inside the list (at most 1000
      of them, or fewer), nothing beyond its end, and the list's length as
      the total. */
  predicate ServesList(search: Search, all: seq<Issue>) {
    |all| <= Int32Max &&
    forall s: nat :: s <= Int32Max ==>
      var page := search(s);
      page.total as int == |all| &&
      (s < |all| ==> page.issues != [] && s + |page.issues| <= |all| &&
                     page.issues == all[s..s + |page.issues|]) &&
      (s >= |all| ==> page.issues == [])
  }

  /** Such a server makes progress. */
  lemma ServesListProgresses(search: Search, all: seq<Issue>)
    requires ServesList(search, all)
    ensures Progresses(search)
  {
  }

  /** The page such a server returns at offset `s`. */
  lemma ServedPage(search: Search, all: seq<Issue>, s: nat)
    requires ServesList(search, all) && s <= Int32Max
    ensures search(s).total as int == |all|
    ensures s < |all| ==> search(s).issues != [] && s + |search(s).issues| <= |all| &&
                          search(s).issues == all[s..s + |search(s).issues|]
    ensures s >= |all| ==> search(s).issues == []
  {
  }

  /** From any offset inside the list, the issues collected are the rest of
      the list. */
  lemma {:induction false} CollectedSuffix(search: Search, all: seq<Issue>, s: nat)
    requires ServesList(search, all) && Progresses(search)
    requires s < |all| || s == 0
    ensures Collected(search, s) == all[s..]
    decreases |all| - s
  {
    var page := search(s);
    var next := s + |page.issues|;
    ServedPage(search, all, s);
    if next < |all| {
      CollectedSuffix(search, all, next);
      calc {
        Collected(search, s);
        page.issues + Collected(search, next);
        page.issues + all[next..];
        { assert all[s..] == all[s..next] + all[next..]; }
        all[s..];
      }
    } else if s < |all| {
      calc {
        Collected(search, s);
        page.issues;
        { assert next == |all|; }
        all[s..];
      }
    } else {
      assert Collected(search, s) == [];
    }
  }

  /** Against a well-behaved server the loop collects every issue exactly
      once and in order: as many as the total, the pages one after the other. */
  lemma CollectsWholeList(search: Search, all: seq<Issue>)
    requires ServesList(search, all)
    ensures Progresses(search)
    ensures Collected(search, 0) == all
  {
    ServesListProgresses(search, all);
    CollectedSuffix(search, all, 0);
  }
}
