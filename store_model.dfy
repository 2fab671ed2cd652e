/** An ASSUMED model of the store's `findMany` as `list` calls it: the table
    is a sequence already ordered by `createdAt` descending, a cursor makes the
    answer start at the record with that id (inclusive, no records skipped),
    an unknown cursor gives no records, and `take` bounds the count.  None of
    this is the router's code; on top of it the model proves that following
    `nextCursor` from page to page returns every record exactly once. */
module StoreModel {
  import opened TodoModel
  import opened TodoRouter

  /** Position of the first record with the given id, or `|table|`. */
  function IndexOfId(table: seq<Todo>, id: string): (i: nat)
    ensures i <= |table|
    ensures i < |table| ==> table[i].id == id
  {
    if |table| == 0 then 0
    else if table[0].id == id then 0
    else 1 + IndexOfId(table[1..], id)
  }

  /** No record before the found position carries the id: it is the first. */
  lemma {:induction false} IndexOfIdIsFirst(table: seq<Todo>, id: string, k: nat)
    requires k < IndexOfId(table, id)
    ensures table[k].id != id
  {
    if k > 0 {
      IndexOfIdIsFirst(table[1..], id, k - 1);
      assert table[1..][k - 1] == table[k];
    }
  }

  /** Where the answer starts: the newest record, or the cursor record. */
  function StartOf(table: seq<Todo>, anchor: Option<string>): (s: nat)
    ensures s <= |table|
  {
    match anchor
    case None => 0
    case Some(id) => IndexOfId(table, id)
  }

  /** No record's id occurs again further down the table: the recursive form
      of `DistinctIds` that the cursor lookup proofs need, equivalent to it
      (`DistinctIdsAreUnique`, `UniqueIdsAreDistinct`). */
  predicate UniqueIds(table: seq<Todo>)
    decreases |table|
  {
    |table| == 0 || (IndexOfId(table[1..], table[0].id) == |table| - 1 && UniqueIds(table[1..]))
  }

  lemma {:induction false} DistinctIdsAreUnique(table: seq<Todo>)
    requires DistinctIds(table)
    ensures UniqueIds(table)
  {
    if |table| > 0 {
      var tail := table[1..];
      assert forall j :: 0 <= j < |tail| ==> tail[j].id != table[0].id by {
        forall j | 0 <= j < |tail|
          ensures tail[j].id != table[0].id
        {
          assert tail[j] == table[j + 1];
        }
      }
      assert DistinctIds(tail) by {
        forall i, j | 0 <= i < j < |tail|
          ensures tail[i].id != tail[j].id
        {
          assert tail[i] == table[i + 1] && tail[j] == table[j + 1];
        }
      }
      DistinctIdsAreUnique(tail);
    }
  }

  lemma {:induction false} UniqueIdsAreDistinct(table: seq<Todo>)
    requires UniqueIds(table)
    ensures DistinctIds(table)
  {
    if |table| > 0 {
      var tail := table[1..];
      UniqueIdsAreDistinct(tail);
      forall i, j | 0 <= i < j < |table|
        ensures table[i].id != table[j].id
      {
        assert table[j] == tail[j - 1];
        if i > 0 {
          assert table[i] == tail[i - 1];
        } else {
          IndexOfIdIsFirst(tail, table[0].id, j - 1);
        }
      }
    }
  }

  /** With unique ids, the cursor lookup finds each record by its own id. */
  lemma {:induction false} UniqueIdsLocateRecords(table: seq<Todo>, k: nat)
    requires UniqueIds(table) && k < |table|
    ensures IndexOfId(table, table[k].id) == k
  {
    if k > 0 {
      var tail := table[1..];
      UniqueIdsLocateRecords(tail, k - 1);
      assert tail[k - 1] == table[k];
      IndexOfIdIsFirst(tail, table[0].id, k - 1);
    }
  }

  /** The records the store returns for a `findMany` call. */
  function StoreFetch(table: seq<Todo>, q: FindMany): (r: seq<Todo>)
    requires 0 <= q.take
    ensures |r| == Min(q.take, |table| - StartOf(table, q.cursorId))
    ensures forall k :: 0 <= k < |r| ==> r[k] == table[StartOf(table, q.cursorId) + k]
  {
    var s := StartOf(table, q.cursorId);
    table[s..Min(s + q.take, |table|)]
  }

  /** Under the assumption, what the store hands `list` is a well-formed window. */
  lemma FetchIsWellFormed(table: seq<Todo>, input: ListInput)
    requires ValidListInput(input)
    requires NewestFirst(table) && DistinctIds(table)
    ensures WellFormedWindow(StoreFetch(table, Query(input)), PageSize(input))
  {
    var s := StartOf(table, Query(input).cursorId);
    var w := StoreFetch(table, Query(input));
    forall i, j | 0 <= i < j < |w|
      ensures w[j].createdAt <= w[i].createdAt && w[i].id != w[j].id
    {
      assert s + i < s + j < |table|;
    }
  }

  /** The page `list` returns for a given cursor. */
  function ListPage(table: seq<Todo>, limit: int, cursor: Option<string>): Page
    requires ValidLimit(limit)
  {
    var input := ListInput(Some(limit), cursor);
    Window(StoreFetch(table, Query(input)), limit)
  }

  /** The page that starts at table position `s`. */
  function PageAt(table: seq<Todo>, limit: int, s: nat): Page
    requires ValidLimit(limit) && s <= |table|
  {
    Window(table[s..Min(s + limit + 1, |table|)], limit)
  }

  /** The page for a cursor is the page at the position the cursor anchors. */
  lemma ListPageAtAnchor(table: seq<Todo>, limit: int, cursor: Option<string>)
    requires ValidLimit(limit)
    ensures ListPage(table, limit, cursor) == PageAt(table, limit, StartOf(table, CursorAnchor(cursor)))
  {
    var q := Query(ListInput(Some(limit), cursor));
    assert q.cursorId == CursorAnchor(cursor) && q.take == limit + 1;
  }

  /** A page with records after it holds the next `limit` records, last
      first, and hands out the id of the record right after them. */
  lemma PageAtInMiddle(table: seq<Todo>, limit: int, s: nat)
    requires ValidLimit(limit) && s + limit < |table|
    ensures PageAt(table, limit, s) == Page(Reverse(table[s..s + limit]), Some(table[s + limit].id))
  {
    var w := table[s..s + limit + 1];
    assert w[..|w| - 1] == table[s..s + limit];
  }

  /** The last page holds the rest of the table, last first, and no cursor. */
  lemma PageAtEnd(table: seq<Todo>, limit: int, s: nat)
    requires ValidLimit(limit) && s <= |table| <= s + limit
    ensures PageAt(table, limit, s) == Page(Reverse(table[s..]), None)
  {
    assert table[s..Min(s + limit + 1, |table|)] == table[s..];
  }

  /** With unique, non-empty ids, a record's id as a cursor anchors that record. */
  lemma CursorAnchorsRecord(table: seq<Todo>, k: nat)
    requires UniqueIds(table) && NonEmptyIds(table) && k < |table|
    ensures StartOf(table, CursorAnchor(Some(table[k].id))) == k
  {
    UniqueIdsLocateRecords(table, k);
  }

  /** A next cursor is handed out exactly when records remain past the page,
      and it names the record that starts the next page. */
  lemma {:induction false} NextCursorAdvances(table: seq<Todo>, limit: int, cursor: Option<string>)
    requires ValidLimit(limit) && UniqueIds(table) && NonEmptyIds(table)
    ensures var s := StartOf(table, CursorAnchor(cursor));
      var p := ListPage(table, limit, cursor);
      && (p.nextCursor.Some? <==> |table| - s > limit)
      && (p.nextCursor.Some? ==> StartOf(table, CursorAnchor(p.nextCursor)) == s + limit)
  {
    var s := StartOf(table, CursorAnchor(cursor));
    ListPageAtAnchor(table, limit, cursor);
    if s + limit < |table| {
      PageAtInMiddle(table, limit, s);
      CursorAnchorsRecord(table, s + limit);
    } else {
      PageAtEnd(table, limit, s);
    }
  }

  /** What a client collects by starting at `cursor` and requesting the next
      page with each `nextCursor` until none is handed out.  Each request
      gets the page at the position the cursor anchors, which is what `list`
      returns (`CrawlFollowsList`).  Should a cursor fail to move forward, the
      walk stops there instead of looping; with unique, non-empty ids that
      never happens (`NextCursorAdvances`). */
  function Crawl(table: seq<Todo>, limit: int, cursor: Option<string>): seq<Todo>
    requires ValidLimit(limit)
    decreases |table| - StartOf(table, CursorAnchor(cursor))
  {
    var s := StartOf(table, CursorAnchor(cursor));
    var p := PageAt(table, limit, s);
    if p.nextCursor.Some? && s < StartOf(table, CursorAnchor(p.nextCursor))
    then p.items + Crawl(table, limit, p.nextCursor)
    else p.items
  }

  /** Every step of the walk takes the page `list` returns for the cursor. */
  lemma CrawlFollowsList(table: seq<Todo>, limit: int, cursor: Option<string>)
    requires ValidLimit(limit)
    ensures var p := ListPage(table, limit, cursor);
      Crawl(table, limit, cursor) ==
        if p.nextCursor.Some? && StartOf(table, CursorAnchor(cursor)) < StartOf(table, CursorAnchor(p.nextCursor))
        then p.items + Crawl(table, limit, p.nextCursor)
        else p.items
  {
    ListPageAtAnchor(table, limit, cursor);
  }

  /** Past a page with records after it, the walk goes on from the record
      right after that page. */
  lemma CrawlOnward(table: seq<Todo>, limit: int, cursor: Option<string>)
    requires ValidLimit(limit) && UniqueIds(table) && NonEmptyIds(table)
    requires StartOf(table, CursorAnchor(cursor)) + limit < |table|
    ensures var s := StartOf(table, CursorAnchor(cursor));
      var next := Some(table[s + limit].id);
      && StartOf(table, CursorAnchor(next)) == s + limit
      && Crawl(table, limit, cursor) == Reverse(table[s..s + limit]) + Crawl(table, limit, next)
  {
    var s := StartOf(table, CursorAnchor(cursor));
    PageAtInMiddle(table, limit, s);
    CursorAnchorsRecord(table, s + limit);
  }

  /** At the last page the walk ends with that page. */
  lemma CrawlStops(table: seq<Todo>, limit: int, cursor: Option<string>)
    requires ValidLimit(limit)
    requires |table| <= StartOf(table, CursorAnchor(cursor)) + limit
    ensures Crawl(table, limit, cursor) == Reverse(table[StartOf(table, CursorAnchor(cursor))..])
  {
    PageAtEnd(table, limit, StartOf(table, CursorAnchor(cursor)));
  }

  /** `t` from position `i` on, cut into runs of `k` elements (the last one
      possibly shorter), each run read back to front. */
  function ReversedRuns<T>(t: seq<T>, i: nat, k: nat): seq<T>
    requires k > 0 && i <= |t|
    decreases |t| - i
  {
    if i + k < |t| then Reverse(t[i..i + k]) + ReversedRuns(t, i + k, k) else Reverse(t[i..])
  }

  /** Two sequences built from parts with the same elements have the same elements. */
  lemma MultisetJoin<T>(x: seq<T>, a: seq<T>, b: seq<T>, y: seq<T>, c: seq<T>, d: seq<T>)
    requires x == a + b && y == c + d
    requires multiset(a) == multiset(c) && multiset(b) == multiset(d)
    ensures multiset(x) == multiset(y)
  {
  }

  /** A suffix is its first part followed by the rest. */
  lemma SuffixSplit<T>(t: seq<T>, i: nat, j: nat)
    requires i <= j <= |t|
    ensures t[i..] == t[i..j] + t[j..]
  {
  }

  /** Unfolding one run. */
  lemma ReversedRunsStep<T>(t: seq<T>, i: nat, k: nat)
    requires k > 0 && i + k < |t|
    ensures ReversedRuns(t, i, k) == Reverse(t[i..i + k]) + ReversedRuns(t, i + k, k)
  {
  }

  /** One run in front of runs with the right elements keeps the elements right. */
  lemma ReversedRunsMultisetStep(t: seq<Todo>, i: nat, k: nat)
    requires k > 0 && i + k < |t|
    requires multiset(ReversedRuns(t, i + k, k)) == multiset(t[i + k..])
    ensures multiset(ReversedRuns(t, i, k)) == multiset(t[i..])
  {
    ReverseMultiset(t[i..i + k]);
    ReversedRunsStep(t, i, k);
    SuffixSplit(t, i, i + k);
    MultisetJoin(ReversedRuns(t, i, k), Reverse(t[i..i + k]), ReversedRuns(t, i + k, k),
      t[i..], t[i..i + k], t[i + k..]);
  }

  /** The last run alone has the elements of the rest of the sequence. */
  lemma ReversedRunsMultisetLast(t: seq<Todo>, i: nat, k: nat)
    requires k > 0 && i <= |t| <= i + k
    ensures multiset(ReversedRuns(t, i, k)) == multiset(t[i..])
  {
    ReverseMultiset(t[i..]);
  }

  /** Cutting into runs and reversing each neither adds nor drops elements. */
  lemma {:induction false} ReversedRunsMultiset(t: seq<Todo>, i: nat, k: nat)
    requires k > 0 && i <= |t|
    ensures multiset(ReversedRuns(t, i, k)) == multiset(t[i..])
    decreases |t| - i
  {
    if i + k < |t| {
      ReversedRunsMultiset(t, i + k, k);
      ReversedRunsMultisetStep(t, i, k);
    } else {
      ReversedRunsMultisetLast(t, i, k);
    }
  }

  /** A page with records after it in front of a walk that follows the runs
      from the next record on gives a walk that follows the runs from the page on. */
  lemma CrawlPositionsStep(table: seq<Todo>, limit: int, cursor: Option<string>)
    requires ValidLimit(limit) && UniqueIds(table) && NonEmptyIds(table)
    requires StartOf(table, CursorAnchor(cursor)) + limit < |table|
    requires var s := StartOf(table, CursorAnchor(cursor));
      Crawl(table, limit, Some(table[s + limit].id)) == ReversedRuns(table, s + limit, limit)
    ensures Crawl(table, limit, cursor) == ReversedRuns(table, StartOf(table, CursorAnchor(cursor)), limit)
  {
    var s := StartOf(table, CursorAnchor(cursor));
    CrawlOnward(table, limit, cursor);
    ReversedRunsStep(table, s, limit);
  }

  /** The last page is the last run. */
  lemma CrawlPositionsLast(table: seq<Todo>, limit: int, cursor: Option<string>)
    requires ValidLimit(limit)
    requires |table| <= StartOf(table, CursorAnchor(cursor)) + limit
    ensures Crawl(table, limit, cursor) == ReversedRuns(table, StartOf(table, CursorAnchor(cursor)), limit)
  {
    CrawlStops(table, limit, cursor);
  }

  /** Following the cursors from an anchor collects, page by page, the table
      from the anchor on in runs of `limit` records, each run oldest first. */
  lemma {:induction false} CrawlFollowsPositions(table: seq<Todo>, limit: int, cursor: Option<string>)
    requires ValidLimit(limit) && UniqueIds(table) && NonEmptyIds(table)
    ensures Crawl(table, limit, cursor) == ReversedRuns(table, StartOf(table, CursorAnchor(cursor)), limit)
    decreases |table| - StartOf(table, CursorAnchor(cursor))
  {
    var s := StartOf(table, CursorAnchor(cursor));
    if s + limit < |table| {
      CursorAnchorsRecord(table, s + limit);
      CrawlFollowsPositions(table, limit, Some(table[s + limit].id));
      CrawlPositionsStep(table, limit, cursor);
    } else {
      CrawlPositionsLast(table, limit, cursor);
    }
  }

  /** Paging from the start with the returned cursors visits every record of
      the table exactly once: no gaps and no duplicates. */
  lemma CrawlVisitsEveryRecordOnce(table: seq<Todo>, limit: int)
    requires ValidLimit(limit) && UniqueIds(table) && NonEmptyIds(table)
    ensures multiset(Crawl(table, limit, None)) == multiset(table)
    ensures |Crawl(table, limit, None)| == |table|
  {
    CrawlFollowsPositions(table, limit, None);
    ReversedRunsMultiset(table, 0, limit);
    assert table[0..] == table;
    assert |multiset(Crawl(table, limit, None))| == |multiset(table)|;
  }

  /** A record whose id is the empty string cannot serve as a cursor: the
      router treats the falsy cursor as absent and starts over at the newest
      record. */
  lemma EmptyIdCursorRestarts(table: seq<Todo>, limit: int)
    requires ValidLimit(limit) && |table| > limit
    requires table[limit].id == ""
    ensures var p := ListPage(table, limit, None);
      p.nextCursor == Some("") && ListPage(table, limit, p.nextCursor) == p
  {
    var w := StoreFetch(table, Query(ListInput(Some(limit), None)));
    assert |w| == limit + 1 && w[limit] == table[limit];
  }

  /** Three records A, B, C created in that order and a limit of 2: the first
      page holds B then C (oldest first), A's id is the next cursor, and the
      second page, which starts at A, holds A alone. */
  lemma ThreeRecordScenario(a: Todo, b: Todo, c: Todo)
    requires a.createdAt < b.createdAt < c.createdAt
    requires DistinctIds([c, b, a]) && |a.id| > 0
    ensures var table := [c, b, a];
      && ListPage(table, 2, None) == Page([b, c], Some(a.id))
      && ListPage(table, 2, Some(a.id)) == Page([a], None)
  {
    var table := [c, b, a];
    var first := StoreFetch(table, Query(ListInput(Some(2), None)));
    assert first == table;
    assert first[..2] == [c, b];
    assert Reverse([c, b]) == [b, c] by {
      assert [c, b][1..] == [b];
      assert Reverse([b]) == [b];
    }
    DistinctIdsAreUnique(table);
    UniqueIdsLocateRecords(table, 2);
    var second := StoreFetch(table, Query(ListInput(Some(2), Some(a.id))));
    assert second == [a];
    assert Reverse([a]) == [a];
  }
}
