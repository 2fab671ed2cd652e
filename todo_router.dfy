/** The five procedures of the todo router (src/server/routers/todo.ts):
    the cursor-pagination windowing of `list`, and `byId`, `add`, `toggle`
    and `delete` over an abstract store that maps ids to records. */
module TodoRouter {
  import opened TodoModel

  // =====================================================================
  // list

  const DefaultLimit := 50

  /** The page size: the supplied limit, or 50 when it is null or undefined. */
  function PageSize(input: ListInput): (limit: int)
    ensures input.limit.None? ==> limit == DefaultLimit
    ensures input.limit.Some? ==> limit == input.limit.value
    ensures ValidListInput(input) ==> ValidLimit(limit)
  {
    input.limit.GetOr(DefaultLimit)
  }

  datatype SortOrder = Ascending | Descending

  /** The arguments handed to the store's `findMany`. */
  datatype FindMany = FindMany(take: int, cursorId: Option<string>, orderByCreatedAt: SortOrder)

  /** The cursor is passed on only when it is truthy: an absent cursor and the
      empty string (the one falsy string) both mean "start at the newest record". */
  function CursorAnchor(cursor: Option<string>): (anchor: Option<string>)
    ensures anchor.Some? <==> cursor.Some? && |cursor.value| > 0
    ensures anchor.Some? ==> anchor == cursor
  {
    if cursor.Some? && |cursor.value| > 0 then cursor else None
  }

  /** The store is asked for one record more than a page holds, newest first,
      anchored at the cursor record when a cursor is given. */
  function Query(input: ListInput): (q: FindMany)
    ensures q.take == PageSize(input) + 1
    ensures ValidListInput(input) ==> MinLimit + 1 <= q.take <= MaxLimit + 1
    ensures q.cursorId == CursorAnchor(input.cursor)
    ensures q.orderByCreatedAt == Descending
  {
    FindMany(PageSize(input) + 1, CursorAnchor(input.cursor), Descending)
  }

  /** What the store must hand back for the windowing properties below:
      at most one record more than a page, newest first, ids distinct. */
  predicate WellFormedWindow(fetched: seq<Todo>, limit: int) {
    |fetched| <= limit + 1 && NewestFirst(fetched) && DistinctIds(fetched)
  }

  /** The sequence read back to front. */
  function Reverse<T>(s: seq<T>): (r: seq<T>)
    ensures |r| == |s|
    ensures forall k :: 0 <= k < |s| ==> r[k] == s[|s| - 1 - k]
  {
    seq(|s|, k requires 0 <= k < |s| => s[|s| - 1 - k])
  }

  lemma {:induction false} ReverseMultiset<T>(s: seq<T>)
    ensures multiset(Reverse(s)) == multiset(s)
  {
    if |s| > 0 {
      ReverseMultiset(s[1..]);
      assert Reverse(s) == Reverse(s[1..]) + [s[0]];
      assert s == [s[0]] + s[1..];
    }
  }

  /** The result of `list`. */
  datatype Page = Page(items: seq<Todo>, nextCursor: Option<string>)

  /** The windowing `list` applies to the fetched records: when more than
      `limit` came back, the last one is withheld and its id becomes the
      next cursor; what remains is returned in reverse order. */
  function Window(fetched: seq<Todo>, limit: int): (p: Page)
    requires 0 <= limit
    ensures p.nextCursor.Some? <==> |fetched| > limit
    ensures p.nextCursor.Some? ==> p.nextCursor.value == fetched[|fetched| - 1].id
    ensures |p.items| == if p.nextCursor.Some? then |fetched| - 1 else |fetched|
  {
    if |fetched| > limit then
      Page(Reverse(fetched[..|fetched| - 1]), Some(fetched[|fetched| - 1].id))
    else
      Page(Reverse(fetched), None)
  }

  /** A fetched window of at most `limit + 1` records yields a page of
      `min(n, limit)` records: the first `min(n, limit)` fetched, last first. */
  lemma WindowTakesFirstReversed(fetched: seq<Todo>, limit: int)
    requires 0 <= limit && |fetched| <= limit + 1
    ensures var p := Window(fetched, limit);
      && |p.items| == Min(|fetched|, limit)
      && p.items == Reverse(fetched[..Min(|fetched|, limit)])
      && forall k :: 0 <= k < |p.items| ==> p.items[k] == fetched[|p.items| - 1 - k]
  {
    var p := Window(fetched, limit);
    var m := Min(|fetched|, limit);
    assert fetched[..m] == if |fetched| > limit then fetched[..|fetched| - 1] else fetched;
  }

  /** The page holds the same records as the first `min(n, limit)` fetched. */
  lemma WindowKeepsFirstRecords(fetched: seq<Todo>, limit: int)
    requires 0 <= limit && |fetched| <= limit + 1
    ensures multiset(Window(fetched, limit).items) == multiset(fetched[..Min(|fetched|, limit)])
  {
    WindowTakesFirstReversed(fetched, limit);
    ReverseMultiset(fetched[..Min(|fetched|, limit)]);
  }

  /** Exactly the withheld record is missing from the page, nothing else. */
  lemma WindowWithholdsOnlyCursor(fetched: seq<Todo>, limit: int)
    requires 0 <= limit
    ensures var p := Window(fetched, limit);
      && (|fetched| > limit ==> multiset(p.items) + multiset{fetched[|fetched| - 1]} == multiset(fetched))
      && (|fetched| <= limit ==> multiset(p.items) == multiset(fetched))
  {
    if |fetched| > limit {
      var kept := fetched[..|fetched| - 1];
      ReverseMultiset(kept);
      assert fetched == kept + [fetched[|fetched| - 1]];
      assert multiset(fetched) == multiset(kept) + multiset{fetched[|fetched| - 1]};
    } else {
      ReverseMultiset(fetched);
    }
  }

  /** A newest-first window becomes an oldest-first page. */
  lemma WindowOldestFirst(fetched: seq<Todo>, limit: int)
    requires 0 <= limit && NewestFirst(fetched)
    ensures OldestFirst(Window(fetched, limit).items)
  {
    var items := Window(fetched, limit).items;
    var kept := if |fetched| > limit then fetched[..|fetched| - 1] else fetched;
    assert items == Reverse(kept);
  }

  /** With distinct ids the next-cursor record is not on the page, and it is
      not newer than any record of the page (strictly older when no two
      records share a `createdAt`). */
  lemma WindowCursorOutsidePage(fetched: seq<Todo>, limit: int)
    requires 0 <= limit < |fetched|
    requires NewestFirst(fetched) && DistinctIds(fetched)
    ensures var p := Window(fetched, limit);
      var last := fetched[|fetched| - 1];
      && p.nextCursor == Some(last.id)
      && (forall t :: t in p.items ==> t.id != last.id && last.createdAt <= t.createdAt)
      && (StrictlyNewestFirst(fetched) ==> forall t :: t in p.items ==> last.createdAt < t.createdAt)
  {
    var p := Window(fetched, limit);
    var kept := fetched[..|fetched| - 1];
    ReverseMultiset(kept);
    forall t | t in p.items
      ensures t in kept
    {
      assert t in multiset(p.items);
    }
  }

  /** `Array.prototype.reverse` on the first `n` elements of `a`: swaps the
      lower and upper element pairs, moving inward. */
  method ReverseInPlace<T>(a: array<T>, n: nat)
    requires n <= a.Length
    modifies a
    ensures a[..n] == Reverse(old(a[..n]))
    ensures a[n..] == old(a[n..])
  {
    var lower := 0;
    while lower < n / 2
      invariant 0 <= lower <= n / 2
      invariant forall k :: 0 <= k < lower ==> a[k] == old(a[n - 1 - k]) && a[n - 1 - k] == old(a[k])
      invariant forall k :: lower <= k < n - lower ==> a[k] == old(a[k])
      invariant forall k :: n <= k < a.Length ==> a[k] == old(a[k])
    {
      var upper := n - 1 - lower;
      a[lower], a[upper] := a[upper], a[lower];
      lower := lower + 1;
    }
  }

  /** The body of `list` after the fetch: `items` holds what the store
      returned for `Query(input)`.  The page is `items[..length]`, reversed
      in place after the last element was popped if there were too many. */
  method List(input: ListInput, items: array<Todo>) returns (length: nat, nextCursor: Option<string>)
    requires ValidListInput(input)
    modifies items
    ensures length <= items.Length
    ensures Page(items[..length], nextCursor) == Window(old(items[..]), PageSize(input))
  {
    var limit := PageSize(input);
    ghost var fetched := items[..];
    length := items.Length;
    nextCursor := None;
    if length > limit {
      var nextItem := items[length - 1];
      length := length - 1;
      nextCursor := Some(nextItem.id);
    }
    assert items[..length] == fetched[..length];
    ReverseInPlace(items, length);
    assert fetched[..length] == if |fetched| > limit then fetched[..|fetched| - 1] else fetched;
  }

  // =====================================================================
  // byId, add, toggle, delete over an abstract store

  type Store = map<string, Todo>

  /** Every record is stored under its own id and has a valid title. */
  predicate StoreInvariant(store: Store) {
    forall id :: id in store ==> store[id].id == id && ValidTitle(store[id].title)
  }

  const NotFoundPrefix := "No todo with id '"

  function NotFoundMessage(id: string): string {
    NotFoundPrefix + id + "'"
  }

  /** The not-found message names the requested id, and nothing but it. */
  lemma NotFoundMessageNamesId(id: string)
    ensures var m := NotFoundMessage(id);
      |m| == |NotFoundPrefix| + |id| + 1 && m[|NotFoundPrefix|..|m| - 1] == id
  {
    var m := NotFoundMessage(id);
    assert m == NotFoundPrefix + (id + "'");
    assert m[|NotFoundPrefix|..] == id + "'";
    assert m[|NotFoundPrefix|..|m| - 1] == m[|NotFoundPrefix|..][..|id|];
  }

  lemma NotFoundMessageInjective(a: string, b: string)
    requires NotFoundMessage(a) == NotFoundMessage(b)
    ensures a == b
  {
    NotFoundMessageNamesId(a);
    NotFoundMessageNamesId(b);
  }

  /** `byId`: the stored record, or a NOT_FOUND error naming the id. */
  function ById(store: Store, id: string): (r: Result<Todo>)
    ensures r.Ok? <==> id in store
    ensures r.Ok? ==> r.value == store[id]
    ensures r.Err? ==> r.error == RouterError(NOT_FOUND, NotFoundMessage(id))
    ensures StoreInvariant(store) && r.Ok? ==> r.value.id == id
  {
    if id in store then Ok(store[id])
    else Err(RouterError(NOT_FOUND, NotFoundMessage(id)))
  }

  /** `add`: `generatedId` is the id the store assigns when none is supplied,
      `now` the creation time it stamps; `completed` defaults to false.  A
      store that already holds the id refuses the record. */
  function Add(store: Store, input: AddInput, generatedId: string, now: int): (r: Result<(Store, Todo)>)
    requires ValidAddInput(input)
    ensures r.Ok? <==> input.id.GetOr(generatedId) !in store
  {
    var id := input.id.GetOr(generatedId);
    if id in store then Err(StoreError(UniqueViolation))
    else
      var todo := Todo(id, input.title, input.completed.GetOr(false), now);
      Ok((store[id := todo], todo))
  }

  /** A created record carries the input's fields, is the only new entry, and
      the store keeps its invariant. */
  lemma AddCreatesOneRecord(store: Store, input: AddInput, generatedId: string, now: int)
    requires ValidAddInput(input) && StoreInvariant(store)
    requires Add(store, input, generatedId, now).Ok?
    ensures var (store', todo) := Add(store, input, generatedId, now).value;
      && todo.id == input.id.GetOr(generatedId)
      && todo.title == input.title
      && todo.completed == input.completed.GetOr(false)
      && todo.createdAt == now
      && store'.Keys == store.Keys + {todo.id}
      && |store'| == |store| + 1
      && (forall id :: id in store ==> store'[id] == store[id])
      && ById(store', todo.id) == Ok(todo)
      && StoreInvariant(store')
  {
    var (store', todo) := Add(store, input, generatedId, now).value;
    assert store'.Keys == store.Keys + {todo.id};
  }

  /** A created record's id is the supplied, UUID-shaped one or else the
      store-generated one, so it is empty only if the store generates "". */
  lemma AddedIdIsNonEmpty(store: Store, input: AddInput, generatedId: string, now: int)
    requires ValidAddInput(input) && Add(store, input, generatedId, now).Ok?
    ensures var todo := Add(store, input, generatedId, now).value.1;
      && (input.id.Some? ==> IsUuid(todo.id) && |todo.id| == 36)
      && (input.id.None? ==> todo.id == generatedId)
      && (|todo.id| > 0 <==> input.id.Some? || |generatedId| > 0)
  {
  }

  /** `toggle`: sets `completed` of the addressed record; a missing record is
      the store's not-found failure. */
  function Toggle(store: Store, id: string, completed: bool): (r: Result<Store>)
    ensures r.Ok? <==> id in store
  {
    if id !in store then Err(StoreError(RecordNotFound))
    else Ok(store[id := store[id].(completed := completed)])
  }

  /** `toggle` changes the `completed` field of one record and nothing else. */
  lemma ToggleChangesOnlyCompleted(store: Store, id: string, completed: bool)
    requires id in store
    ensures var store' := Toggle(store, id, completed).value;
      && store'.Keys == store.Keys
      && store'[id].completed == completed
      && store'[id].id == store[id].id
      && store'[id].title == store[id].title
      && store'[id].createdAt == store[id].createdAt
      && (forall other :: other in store && other != id ==> store'[other] == store[other])
      && (StoreInvariant(store) ==> StoreInvariant(store'))
  {
  }

  /** Toggling to the same value twice is the same as toggling once. */
  lemma ToggleIdempotent(store: Store, id: string, completed: bool)
    requires id in store
    ensures Toggle(Toggle(store, id, completed).value, id, completed) == Toggle(store, id, completed)
  {
    var once := Toggle(store, id, completed).value;
    assert once[id := once[id].(completed := completed)] == once;
  }

  /** `delete`: removes the record; a missing record is the store's not-found
      failure. */
  function Delete(store: Store, id: string): (r: Result<Store>)
    ensures r.Ok? <==> id in store
  {
    if id !in store then Err(StoreError(RecordNotFound))
    else Ok(store - {id})
  }

  /** After `delete`, `byId` on that id fails with NOT_FOUND; every other
      record is untouched and the invariant is kept. */
  lemma DeleteThenByIdNotFound(store: Store, id: string)
    requires id in store
    ensures var store' := Delete(store, id).value;
      && ById(store', id) == Err(RouterError(NOT_FOUND, NotFoundMessage(id)))
      && store'.Keys == store.Keys - {id}
      && |store'| == |store| - 1
      && (forall other :: other in store' ==> store'[other] == store[other])
      && (StoreInvariant(store) ==> StoreInvariant(store'))
  {
    var store' := Delete(store, id).value;
    assert store'.Keys == store.Keys - {id};
  }
}
