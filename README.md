# Todo router: a Dafny model of cursor pagination and the CRUD procedures

This project models the todo router of a tRPC and Prisma example application
(`src/server/routers/todo.ts`). The router exposes five procedures over one
`Todo` table: `list`, `byId`, `add`, `delete` and `toggle`.

- `list` does the only real computation: cursor pagination. The page size is
  the supplied `limit`, or 50 when none is given. The store is asked for
  `limit + 1` records, newest `createdAt` first, starting at the cursor record
  when a cursor is given. If more than `limit` records come back, the last one
  is popped off the array and its id becomes `nextCursor`. The array is then
  reversed in place and returned. The model is the method `TodoRouter.List`
  over an `array<Todo>`. The pop is a decrement of the array's live length.
  The reverse is an in-place swap loop, following `Array.prototype.reverse`
  in section 23.1.3.26 of ECMA-262. The method's postcondition ties the
  result to the pure function `TodoRouter.Window`, and the lemmas about
  `Window` state the paging properties.
- `byId`, `add`, `toggle` and `delete` are pure functions over an abstract
  store, a `map<string, Todo>` from id to record. `byId` does its own existence
  check and fails with `NOT_FOUND` and the message `No todo with id '<id>'`.
  The other three pass their failures through from the store. The model
  states those failures as an explicit assumption about the store (a unique
  violation on `add`, a missing record on `toggle` and `delete`); it does not
  verify them.
- The zod input schemas are predicates in `TodoModel`. `limit` must lie in
  1..100 and both `limit` and `cursor` may be null or undefined. `title` must
  have length 1..32. `id` is optional and must look like a UUID, and
  `completed` is optional. Each procedure is modelled as what runs after
  validation, so it `requires` the validated shape.
- `StoreModel` is a separately labelled assumption about Prisma's `findMany`.
  The table is a newest-first sequence. A cursor makes the answer start at
  the record with that id, inclusive. An unknown cursor gives no records, and
  `take` bounds the count. With this assumption, the model proves that
  following `nextCursor` from page to page returns every record exactly once.
  The client's walk is the function `StoreModel.Crawl`. Each step takes the
  page that `list` returns for the current cursor (`CrawlFollowsList`). The
  walk stops at a cursor that would not move it forward, so it is defined for
  every table. With unique, non-empty ids, every handed-out cursor moves the
  walk forward by exactly `limit` records (`NextCursorAdvances`).

The code passes no `skip` to `findMany`, so a page for a cursor starts at the
cursor record itself. That record is the one the previous page held back as
`nextCursor`, so no record is skipped or repeated. For three records A, B
and C created in that order, `list({limit: 2})` returns the items `[B, C]`
with `nextCursor` set to A's id, and the next request returns `[A]` with no
cursor, as `StoreModel.ThreeRecordScenario` shows.

One edge case follows from the code. The cursor is passed on only when it is
truthy (`cursor ? { id: cursor } : undefined`), so an empty-string cursor means
"start from the newest record". If a record had the empty string as its id
and ended up as `nextCursor`, the next request would return the first page
again (`StoreModel.EmptyIdCursorRestarts`). The crawl theorem therefore
assumes non-empty ids. A supplied id must be UUID-shaped, so a record `add`
creates with a supplied id has a 36-character id. When no id is supplied,
the record gets the store-generated id, which the model leaves
unconstrained; it is non-empty only when the store generates a non-empty one
(`TodoRouter.AddedIdIsNonEmpty`).

## Model

| member | source | states |
|---|---|---|
| `TodoModel.ValidLimit` | src/server/routers/todo.ts:28 | a limit is accepted when it lies in 1..100 |
| `TodoModel.ValidListInput` | src/server/routers/todo.ts:27-30 | `list` input is accepted when the limit is absent (null or undefined) or lies in 1..100; the cursor may be any string or absent |
| `TodoModel.ValidTitle` | src/server/routers/todo.ts:93 | a title is accepted when its length lies in 1..32 |
| `TodoModel.IsUuid` | src/server/routers/todo.ts:92 | a string has the UUID layout: 36 characters, hyphens at positions 8, 13, 18 and 23, hexadecimal digits elsewhere |
| `TodoModel.ValidAddInput` | src/server/routers/todo.ts:91-95 | `add` input is accepted when a supplied id is UUID-shaped and the title is valid; `completed` is optional |
| `TodoRouter.PageSize` | src/server/routers/todo.ts:28-39 | the page size is the supplied limit, or 50 when it is null or undefined; for validated input it lies in 1..100 |
| `TodoRouter.CursorAnchor` | src/server/routers/todo.ts:47-51 | the store gets a cursor exactly when the input's cursor is present and non-empty, and then it is that cursor |
| `TodoRouter.Query` | src/server/routers/todo.ts:42-55 | the store is asked for exactly one record more than the page size (2..101 for validated input), ordered by `createdAt` descending, anchored at the truthy cursor only |
| `TodoRouter.Window` | src/server/routers/todo.ts:56-65 | `nextCursor` is defined if and only if more than `limit` records were fetched, and then it is the last fetched record's id; the page loses exactly one record in that case and none otherwise |
| `TodoRouter.WindowTakesFirstReversed` | src/server/routers/todo.ts:57-65 | for `n <= limit + 1` fetched records the page has `min(n, limit)` records, and they are the first `min(n, limit)` fetched in reverse order |
| `TodoRouter.WindowKeepsFirstRecords` | src/server/routers/todo.ts:57-65 | the page holds exactly the records of the first `min(n, limit)` fetched, as a multiset |
| `TodoRouter.WindowWithholdsOnlyCursor` | src/server/routers/todo.ts:56-62 | when more than `limit` came back, the page holds all fetched records except the last one; otherwise it holds all of them |
| `TodoRouter.WindowOldestFirst` | src/server/routers/todo.ts:52-65 | a newest-first fetch yields a page ordered oldest `createdAt` first |
| `TodoRouter.WindowCursorOutsidePage` | src/server/routers/todo.ts:53-65 | with distinct ids the `nextCursor` record is not on the page and is no newer than any page record; it is strictly older when `createdAt` values are distinct |
| `TodoRouter.Reverse` | src/server/routers/todo.ts:65 | reversing keeps the length, and element `k` of the reversed sequence is element `n - 1 - k` of the original |
| `TodoRouter.ReverseMultiset` | src/server/routers/todo.ts:65 | reversing neither adds nor drops records |
| `TodoRouter.ReverseInPlace` | src/server/routers/todo.ts:65 | the in-place reverse leaves the first `n` elements reversed and the rest untouched |
| `TodoRouter.List` | src/server/routers/todo.ts:39-67 | after popping and reversing in place, the live part of the fetched array and the returned cursor are exactly `Window` of the fetched records at the page size |
| `TodoRouter.NotFoundMessage` | src/server/routers/todo.ts:84 | the not-found message is `No todo with id '`, the id, and a closing quote |
| `TodoRouter.NotFoundMessageNamesId` | src/server/routers/todo.ts:84 | the not-found message is the fixed prefix, the requested id and a closing quote, so the id can be read back from it |
| `TodoRouter.NotFoundMessageInjective` | src/server/routers/todo.ts:84 | different ids give different not-found messages |
| `TodoRouter.ById` | src/server/routers/todo.ts:76-87 | succeeds if and only if the id is stored, and then returns the stored record, whose id is the requested one; otherwise fails with `NOT_FOUND` and the message naming the id |
| `TodoRouter.Add` | src/server/routers/todo.ts:89-107 | creating succeeds if and only if the supplied (or store-generated) id is not yet stored |
| `TodoRouter.AddCreatesOneRecord` | src/server/routers/todo.ts:92-106 | a created record carries the input's id, title and `completed` (default false) and is the only new entry; `byId` then returns it, and the store invariant is kept |
| `TodoRouter.AddedIdIsNonEmpty` | src/server/routers/todo.ts:92-104 | a created record's id is the supplied id, which is UUID-shaped and so 36 characters long, or else the store-generated id; it is non-empty exactly when an id was supplied or the generated one is non-empty |
| `TodoRouter.Toggle` | src/server/routers/todo.ts:126-127 | toggling succeeds if and only if the record exists |
| `TodoRouter.ToggleChangesOnlyCompleted` | src/server/routers/todo.ts:127 | toggling sets `completed` of the addressed record, leaves its id, title and `createdAt` and every other record as they were, and keeps the invariant |
| `TodoRouter.ToggleIdempotent` | src/server/routers/todo.ts:127 | toggling twice to the same value is the same as toggling once |
| `TodoRouter.Delete` | src/server/routers/todo.ts:115-116 | deleting succeeds if and only if the record exists |
| `TodoRouter.DeleteThenByIdNotFound` | src/server/routers/todo.ts:108-117 | after a delete, `byId` on that id fails with `NOT_FOUND`; exactly that key is gone, every other record is unchanged, and the invariant is kept |
| `StoreModel.IndexOfId` | src/server/routers/todo.ts:47-51 | the assumed cursor position lies within the table, and a position before the end holds a record with that id; the end of the table means the id is absent |
| `StoreModel.IndexOfIdIsFirst` | src/server/routers/todo.ts:47-51 | no record before the found cursor position carries the id, so the position is the first record with it |
| `StoreModel.StartOf` | src/server/routers/todo.ts:47-51 | the assumed start of the answer: the newest record without a cursor, else the cursor record's position, never past the end of the table |
| `StoreModel.DistinctIdsAreUnique` | src/server/routers/todo.ts:47-51 | a table with pairwise distinct ids has no id occurring again further down |
| `StoreModel.UniqueIdsAreDistinct` | src/server/routers/todo.ts:47-51 | the recursive uniqueness predicate implies pairwise distinct ids, so the two forms are equivalent |
| `StoreModel.UniqueIdsLocateRecords` | src/server/routers/todo.ts:47-51 | with unique ids, looking a record's id up finds that very record |
| `StoreModel.StoreFetch` | src/server/routers/todo.ts:42-55 | the assumed `findMany` answer is the run of `min(take, remaining)` consecutive table records starting at the cursor record |
| `StoreModel.FetchIsWellFormed` | src/server/routers/todo.ts:42-55 | on a newest-first table with distinct ids, what `list` receives has at most `limit + 1` records, is newest first and has distinct ids |
| `StoreModel.ListPage` | src/server/routers/todo.ts:39-67 | the page `list` returns for a cursor at a given limit: `Window` of the assumed fetch of `limit + 1` records from the cursor record on |
| `StoreModel.ListPageAtAnchor` | src/server/routers/todo.ts:39-67 | the page `list` returns for a cursor is the page of the table position that cursor anchors |
| `StoreModel.PageAtInMiddle` | src/server/routers/todo.ts:56-67 | when records remain past the page, it holds the next `limit` records last first and hands out the id of the record right after them |
| `StoreModel.PageAtEnd` | src/server/routers/todo.ts:56-67 | when no records remain past the page, it holds the rest of the table last first and no cursor |
| `StoreModel.CursorAnchorsRecord` | src/server/routers/todo.ts:47-51 | with unique, non-empty ids, a record's id given as cursor anchors the page at that record |
| `StoreModel.NextCursorAdvances` | src/server/routers/todo.ts:56-62 | a next cursor is handed out exactly when more than `limit` records remain from the anchor on, and the next page starts `limit` records further on |
| `StoreModel.CrawlFollowsList` | src/server/routers/todo.ts:39-67 | each step of the client's walk takes the page `list` returns for the current cursor and goes on with its `nextCursor` |
| `StoreModel.CrawlOnward` | src/server/routers/todo.ts:56-67 | past a page with records after it, the walk collects that page's `limit` records, oldest first, and goes on from the record right after them |
| `StoreModel.CrawlStops` | src/server/routers/todo.ts:56-67 | at the last page the walk ends with the rest of the table, oldest first |
| `StoreModel.ReversedRunsMultiset` | src/server/routers/todo.ts:65 | cutting a sequence into runs and reversing each run keeps exactly its elements |
| `StoreModel.ReversedRunsMultisetStep` | src/server/routers/todo.ts:65 | one reversed run in front of runs that keep their elements keeps the elements of the whole suffix |
| `StoreModel.ReversedRunsMultisetLast` | src/server/routers/todo.ts:65 | the last reversed run keeps the elements of the rest of the sequence |
| `StoreModel.CrawlPositionsStep` | src/server/routers/todo.ts:56-67 | a middle page in front of a walk that follows the runs from the next record on gives a walk that follows the runs from the page's anchor on |
| `StoreModel.CrawlPositionsLast` | src/server/routers/todo.ts:56-67 | at the last page the walk is the last run: the rest of the table, oldest first |
| `StoreModel.CrawlFollowsPositions` | src/server/routers/todo.ts:42-67 | following the returned cursors from any anchor collects the table from the anchor on, in consecutive runs of `limit` records, each run oldest first |
| `StoreModel.CrawlVisitsEveryRecordOnce` | src/server/routers/todo.ts:42-67 | paging from the start visits every record of the table exactly once, with no gaps and no duplicates |
| `StoreModel.EmptyIdCursorRestarts` | src/server/routers/todo.ts:47-61 | a record with the empty string as id, handed out as `nextCursor`, makes the next request return the first page again |
| `StoreModel.ThreeRecordScenario` | src/server/routers/todo.ts:42-67 | with records A, B, C created in that order and limit 2, the first page is `[B, C]` with A's id as cursor, and the second page is `[A]` with no cursor |

## Left out

- Prisma (`findMany`, `findUnique`, `create`, `update`, `delete`) is a foreign library. Its behaviour is not verified. The sort order and cursor semantics of `findMany` appear only as the stated assumption in `StoreModel`. The unique-violation and record-not-found failures appear only as `StoreError` values of the abstract map.
- `Todo.createdAt` is an opaque integer key. `add` takes the creation time as a parameter, `now`. `updatedAt` is not modelled at all, so neither is `toggle` refreshing it.
- `Add` takes the store-generated id as a parameter, `generatedId`, and does not constrain it; a generated id is not assumed to be non-empty or UUID-shaped. The default `completed = false` is the database schema's default, which is not part of this model; the model assumes it.
- tRPC plumbing (`router`, `publicProcedure`, `.query`/`.mutation`, the `TRPCError` envelope), async/await and concurrency are left out. The model is sequential, and an error is a `Result` value.
- zod's validation itself is left out, including the error it raises for a bad input. The procedures `require` the validated shape, in the form of the predicates `ValidListInput` and `ValidAddInput`.
- `IsUuid` checks only the 8-4-4-4-12 hexadecimal layout. zod's own UUID pattern is not part of this model and may be stricter.
- `ValidTitle` counts Dafny characters. JavaScript counts UTF-16 code units, so a title with characters outside the Basic Multilingual Plane is measured differently.
- `TodoRouter.List`: `limit` is modelled as an integer. zod's `number()` also accepts fractions such as 2.5, and the store's handling of those is not visible.
- `TodoRouter.List`: `pop` shortens the array's live length and leaves the popped element in storage after the live part. JavaScript drops it. The handler returns only the live part, so the difference cannot be observed.
- `defaultTodoSelect` is not modelled separately. A `Todo` value holds exactly the selected fields except `updatedAt`.
