/** The todo entity, the error values the router can produce, and the input
    shapes that the router's schemas accept (src/server/routers/todo.ts). */
module TodoModel {

  datatype Option<+T> = None | Some(value: T) {
    function GetOr(default: T): T {
      match this
      case Some(v) => v
      case None => default
    }
  }

  /** One row of the todo table as the router selects it.  `createdAt` is an
      opaque ordered key assigned by the database; `updatedAt` is not modelled. */
  datatype Todo = Todo(id: string, title: string, completed: bool, createdAt: int)

  /** Codes of the structured errors the router raises itself. */
  datatype ErrorCode = NOT_FOUND

  /** Failures of the persistence layer that the router lets through unchanged
      (assumed behaviour of the store, not of the router). */
  datatype StoreFailure = UniqueViolation | RecordNotFound

  datatype TodoError =
    | RouterError(code: ErrorCode, message: string)
    | StoreError(failure: StoreFailure)

  datatype Result<+T> = Ok(value: T) | Err(error: TodoError)

  // ---------------------------------------------------------------------
  // Input schemas

  const MinLimit := 1
  const MaxLimit := 100
  const MinTitleLength := 1
  const MaxTitleLength := 32

  /** Input of `list`: both fields are nullish; `None` stands for null and undefined alike. */
  datatype ListInput = ListInput(limit: Option<int>, cursor: Option<string>)

  /** Input of `add`. */
  datatype AddInput = AddInput(id: Option<string>, title: string, completed: Option<bool>)

  predicate ValidLimit(limit: int) {
    MinLimit <= limit <= MaxLimit
  }

  predicate ValidListInput(input: ListInput) {
    input.limit.Some? ==> ValidLimit(input.limit.value)
  }

  predicate ValidTitle(title: string) {
    MinTitleLength <= |title| <= MaxTitleLength
  }

  predicate IsHexDigit(c: char) {
    '0' <= c <= '9' || 'a' <= c <= 'f' || 'A' <= c <= 'F'
  }

  /** Hyphen positions of the 8-4-4-4-12 layout. */
  predicate IsUuidHyphenPosition(i: int) {
    i == 8 || i == 13 || i == 18 || i == 23
  }

  /** The textual shape of a UUID: 36 characters, hex digits in groups of
      8-4-4-4-12 separated by hyphens. */
  predicate IsUuid(s: string) {
    |s| == 36 &&
    forall i :: 0 <= i < |s| ==> if IsUuidHyphenPosition(i) then s[i] == '-' else IsHexDigit(s[i])
  }

  predicate ValidAddInput(input: AddInput) {
    (input.id.Some? ==> IsUuid(input.id.value)) && ValidTitle(input.title)
  }

  // ---------------------------------------------------------------------
  // Predicates on windows of records

  /** Newest `createdAt` first (ties in any order). */
  predicate NewestFirst(w: seq<Todo>) {
    forall i, j :: 0 <= i < j < |w| ==> w[j].createdAt <= w[i].createdAt
  }

  /** Strictly newest first: no two records share a `createdAt`. */
  predicate StrictlyNewestFirst(w: seq<Todo>) {
    forall i, j :: 0 <= i < j < |w| ==> w[j].createdAt < w[i].createdAt
  }

  /** Oldest `createdAt` first. */
  predicate OldestFirst(w: seq<Todo>) {
    forall i, j :: 0 <= i < j < |w| ==> w[i].createdAt <= w[j].createdAt
  }

  predicate DistinctIds(w: seq<Todo>) {
    forall i, j :: 0 <= i < j < |w| ==> w[i].id != w[j].id
  }

  predicate NonEmptyIds(w: seq<Todo>) {
    forall i :: 0 <= i < |w| ==> |w[i].id| > 0
  }

  function Min(a: int, b: int): (m: int)
    ensures m <= a && m <= b && (m == a || m == b)
  {
    if a <= b then a else b
  }
}
