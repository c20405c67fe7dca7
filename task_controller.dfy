/**
 * The task handlers over an in-memory task table. Every handler receives the
 * authenticated owner's id (bound by the bearer-token gate) and only ever
 * reads or writes rows whose owner is that id.
 */
module TaskController {
  import opened Wrappers
  import opened GoStrings
  import opened GoStrconv
  import opened TaskConstants

  const DefaultPage := 1
  const DefaultPageSize := 20
  const MaxPageSize := 100

  const PriorityDetails := "priority must be low|medium|high"
  const StatusDetails := "status must be pending|completed"
  const InvalidIdDetails := "invalid task id"

  /** A task row; the creation and update timestamps are not part of this model. */
  datatype Task = Task(
    id: int,
    userId: int,
    title: string,
    description: string,
    priority: string,
    status: string)

  /** The handlers' failures. All are reported as 400 except NotFound (404). */
  datatype TaskError =
    | BindError                 // "Validation error" with the JSON binder's message
    | Invalid(details: string)  // "Validation error" with a fixed message
    | NotFound                  // "task not found": absent, or owned by someone else

  /** A JSON request body: the decoded structure, or a body the binder refused. */
  datatype Body<T> = Bound(input: T) | Unbindable

  /** The body of a create request; a missing field decodes as "". */
  datatype CreateInput = CreateInput(title: string, description: string, priority: string)

  /** The body of an update request: each field may be absent (a nil pointer). */
  datatype UpdateInput = UpdateInput(
    title: Option<string>,
    description: Option<string>,
    status: Option<string>,
    priority: Option<string>)

  datatype Pagination = Pagination(page: int, pageSize: int, total: nat, totalPages: int)

  datatype TaskPage = TaskPage(tasks: seq<Task>, pagination: Pagination)

  // ---------------------------------------------------------------------------
  // The table and the queries over it
  // ---------------------------------------------------------------------------

  /** Every row is stored under its own id. */
  ghost predicate KeyedById(tasks: map<int, Task>) {
    forall id :: id in tasks ==> tasks[id].id == id
  }

  /** Every row is stored under its own id, ids lie in [1, nextId), and its enum fields are valid. */
  ghost predicate WellFormed(tasks: map<int, Task>, nextId: int) {
    && nextId >= 1
    && KeyedById(tasks)
    && forall id :: id in tasks ==>
         && 1 <= id < nextId
         && IsValidStatus(tasks[id].status)
         && IsValidPriority(tasks[id].priority)
  }

  /** The row `id` exists and belongs to `uid`: the scope `id = ? AND user_id = ?`. */
  predicate Owns(tasks: map<int, Task>, uid: int, id: int) {
    id in tasks && tasks[id].userId == uid
  }

  /** The listing's WHERE clause; an empty filter string means no filter. */
  predicate Matches(t: Task, uid: int, status: string, priority: string) {
    && t.userId == uid
    && (status == "" || t.status == status)
    && (priority == "" || t.priority == priority)
  }

  /** The ids of the rows below `below` that the listing's WHERE clause selects. */
  ghost function MatchingIds(tasks: map<int, Task>, uid: int, status: string, priority: string, below: int): set<int> {
    set id | id in tasks && 1 <= id < below && Matches(tasks[id], uid, status, priority)
  }

  /**
   * The matching rows with ids in [1, below), in descending id order: the
   * query `WHERE user_id = uid [AND status = ..] [AND priority = ..] ORDER BY id DESC`.
   */
  function Select(tasks: map<int, Task>, uid: int, status: string, priority: string, below: int): seq<Task>
    decreases below
  {
    if below <= 1 then []
    else
      var id := below - 1;
      var rest := Select(tasks, uid, status, priority, id);
      if id in tasks && Matches(tasks[id], uid, status, priority) then [tasks[id]] + rest else rest
  }

  /** Every selected row is a stored row that matches the query, below the bound. */
  lemma {:induction false} SelectSound(tasks: map<int, Task>, uid: int, status: string, priority: string, below: int)
    requires KeyedById(tasks)
    ensures forall t :: t in Select(tasks, uid, status, priority, below) ==>
      t.id in tasks && tasks[t.id] == t && 1 <= t.id < below && Matches(t, uid, status, priority)
    decreases below
  {
    if below > 1 {
      SelectSound(tasks, uid, status, priority, below - 1);
    }
  }

  /** Every stored row below the bound that matches the query is selected. */
  lemma {:induction false} SelectComplete(tasks: map<int, Task>, uid: int, status: string, priority: string, below: int)
    ensures forall id :: id in tasks && 1 <= id < below && Matches(tasks[id], uid, status, priority) ==>
      tasks[id] in Select(tasks, uid, status, priority, below)
    decreases below
  {
    if below > 1 {
      SelectComplete(tasks, uid, status, priority, below - 1);
    }
  }

  /** Ids strictly decrease along `rows`. */
  predicate DescendingIds(rows: seq<Task>) {
    forall i, j :: 0 <= i < j < |rows| ==> rows[i].id > rows[j].id
  }

  /** The selected rows come in strictly descending id order. */
  lemma {:induction false} SelectDescending(tasks: map<int, Task>, uid: int, status: string, priority: string, below: int)
    requires KeyedById(tasks)
    ensures DescendingIds(Select(tasks, uid, status, priority, below))
    decreases below
  {
    if below > 1 {
      var id := below - 1;
      SelectDescending(tasks, uid, status, priority, id);
      SelectSound(tasks, uid, status, priority, id);
      var rest := Select(tasks, uid, status, priority, id);
      if id in tasks && Matches(tasks[id], uid, status, priority) {
        var r := [tasks[id]] + rest;
        assert r == Select(tasks, uid, status, priority, below);
        assert r[0].id == id;
        forall i, j | 0 <= i < j < |r| ensures r[i].id > r[j].id {
          assert r[j] == rest[j - 1] && r[j] in rest;
          assert r[j].id < id;
          if i > 0 {
            assert r[i] == rest[i - 1] && rest[i - 1].id > rest[j - 1].id;
          }
        }
      }
    }
  }

  /** The number of selected rows is the number of matching rows (`total`). */
  lemma {:induction false} SelectCount(tasks: map<int, Task>, uid: int, status: string, priority: string, below: int)
    ensures |Select(tasks, uid, status, priority, below)| == |MatchingIds(tasks, uid, status, priority, below)|
    decreases below
  {
    if below <= 1 {
      assert MatchingIds(tasks, uid, status, priority, below) == {};
    } else {
      var id := below - 1;
      SelectCount(tasks, uid, status, priority, id);
      var lower := MatchingIds(tasks, uid, status, priority, id);
      var all := MatchingIds(tasks, uid, status, priority, below);
      if id in tasks && Matches(tasks[id], uid, status, priority) {
        assert all == lower + {id};
        assert id !in lower;
      } else {
        assert all == lower;
      }
    }
  }

  /** Rows not owned by `uid` are the same before and after. */
  ghost predicate OthersUnaffected(before: map<int, Task>, after: map<int, Task>, uid: int) {
    forall id ::
      ((id in before && before[id].userId != uid) || (id in after && after[id].userId != uid)) ==>
        id in before && id in after && before[id] == after[id]
  }

  lemma {:induction false} SelectSameRows(before: map<int, Task>, after: map<int, Task>, uid: int, other: int,
                                          status: string, priority: string, below: int)
    requires OthersUnaffected(before, after, uid) && other != uid
    ensures Select(before, other, status, priority, below) == Select(after, other, status, priority, below)
    decreases below
  {
    if below > 1 {
      SelectSameRows(before, after, uid, other, status, priority, below - 1);
    }
  }

  lemma {:induction false} SelectIgnoresUnmatchedTop(tasks: map<int, Task>, uid: int, status: string, priority: string,
                                                     low: int, high: int)
    requires low <= high
    requires forall id :: id in tasks && low <= id < high ==> !Matches(tasks[id], uid, status, priority)
    ensures Select(tasks, uid, status, priority, high) == Select(tasks, uid, status, priority, low)
    decreases high - low
  {
    if low < high {
      SelectIgnoresUnmatchedTop(tasks, uid, status, priority, low, high - 1);
    }
  }

  /**
   * Owner isolation: when only `uid`'s rows change (and new rows go to `uid`),
   * every other owner's listing, under any filters, is exactly what it was.
   */
  lemma {:induction false} OtherOwnersListingUnchanged(before: map<int, Task>, nextBefore: int,
                                                       after: map<int, Task>, nextAfter: int,
                                                       uid: int, other: int, status: string, priority: string)
    requires OthersUnaffected(before, after, uid) && other != uid
    requires nextBefore <= nextAfter
    requires forall id :: id in before ==> id < nextBefore
    ensures Select(before, other, status, priority, nextBefore) == Select(after, other, status, priority, nextAfter)
  {
    SelectIgnoresUnmatchedTop(after, other, status, priority, nextBefore, nextAfter);
    SelectSameRows(before, after, uid, other, status, priority, nextBefore);
  }

  // ---------------------------------------------------------------------------
  // Pagination
  // ---------------------------------------------------------------------------

  function Min(a: int, b: int): int {
    if a <= b then a else b
  }

  /** The rows of one page: at most `limit` of them, starting at `offset`. */
  function Window(rows: seq<Task>, offset: nat, limit: nat): (r: seq<Task>)
    ensures |r| == if offset >= |rows| then 0 else Min(limit, |rows| - offset)
    ensures forall i :: 0 <= i < |r| ==> r[i] == rows[offset + i]
    ensures forall t :: t in r ==> t in rows
  {
    if offset >= |rows| then [] else rows[offset..Min(offset + limit, |rows|)]
  }

  /** The number of rows skipped before page `page`: `(page - 1) * pageSize`. */
  function Offset(page: int, pageSize: int): (n: nat)
    requires page >= 1 && pageSize >= 1
    ensures page == 1 <==> n == 0
  {
    (page - 1) * pageSize
  }

  /** A page of rows in descending id order is itself in descending id order. */
  lemma WindowKeepsOrder(rows: seq<Task>, offset: nat, limit: nat)
    requires DescendingIds(rows)
    ensures DescendingIds(Window(rows, offset, limit))
  {
    var w := Window(rows, offset, limit);
    forall i, j | 0 <= i < j < |w| ensures w[i].id > w[j].id {
      assert w[i] == rows[offset + i] && w[j] == rows[offset + j];
    }
  }

  /** `(total + pageSize - 1) / pageSize`, the `total_pages` of a listing. */
  function TotalPages(total: nat, pageSize: int): nat
    requires pageSize >= 1
  {
    (total + pageSize - 1) / pageSize
  }

  /** TotalPages is the least number of pages of `pageSize` rows that hold `total` rows. */
  lemma TotalPagesIsCeiling(total: nat, pageSize: int)
    requires pageSize >= 1
    ensures TotalPages(total, pageSize) * pageSize >= total
    ensures TotalPages(total, pageSize) == 0 || (TotalPages(total, pageSize) - 1) * pageSize < total
  {
    var pages := TotalPages(total, pageSize);
    assert pages * pageSize + (total + pageSize - 1) % pageSize == total + pageSize - 1;
    assert (pages - 1) * pageSize == pages * pageSize - pageSize;
  }

  /** 25 matching tasks with pages of 20: two pages, and the second holds 5 tasks. */
  lemma PaginationExample(rows: seq<Task>)
    requires |rows| == 25
    ensures TotalPages(|rows|, 20) == 2
    ensures |Window(rows, Offset(2, 20), 20)| == 5 && |Window(rows, Offset(1, 20), 20)| == 20
    ensures Window(rows, Offset(3, 20), 20) == []
  {
  }

  // ---------------------------------------------------------------------------
  // Field normalisation
  // ---------------------------------------------------------------------------

  /**
   * The priority a new task gets: trimmed and lower-cased, "medium" when that
   * leaves nothing, and None when it is not one of the priorities.
   */
  function CreatePriority(raw: string): (p: Option<string>)
    ensures p.Some? ==> IsValidPriority(p.value)
    ensures TrimSpace(raw) == "" ==> p == Some(TaskPriorityMedium)
    ensures p == None <==> TrimSpace(raw) != "" && !IsValidPriority(ToLower(TrimSpace(raw)))
    ensures TrimSpace(raw) != "" && p.Some? ==> p.value == ToLower(TrimSpace(raw))
  {
    var q := ToLower(TrimSpace(raw));
    if q == "" then Some(TaskPriorityMedium)
    else if IsValidPriority(q) then Some(q)
    else None
  }

  /** Case and surrounding white space make no difference to a new task's priority. */
  lemma {:induction false} CreatePriorityNormalises(w1: string, raw: string, w2: string)
    requires AllSpace(w1) && AllSpace(w2)
    ensures CreatePriority(w1 + raw + w2) == CreatePriority(raw)
    ensures CreatePriority(ToLower(raw)) == CreatePriority(raw)
  {
    TrimSpaceAbsorbsPadding(w1, raw, w2);
    ToLowerTrimSpaceCommute(raw);
    ToLowerIdempotent(TrimSpace(raw));
  }

  /** An upper-case priority is accepted in lower case. */
  lemma UpperCasePriorityAccepted(upper: string)
    requires upper == "HIGH"
    ensures CreatePriority(upper) == Some(TaskPriorityHigh)
  {
    assert [] + upper + [] == upper;
    TrimSpaceOfPadded([], upper, []);
    assert ToLower(upper) == TaskPriorityHigh;
  }

  /** A padded, capitalised priority is accepted trimmed and in lower case. */
  lemma PaddedPriorityAccepted(name: string, padded: string)
    requires name == "Low" && padded == " " + name + "\n"
    ensures CreatePriority(padded) == Some(TaskPriorityLow)
  {
    TrimSpaceOfPadded(" ", name, "\n");
    assert ToLower(name) == TaskPriorityLow;
  }

  /** An unknown priority is refused, and no priority at all means "medium". */
  lemma UnknownPriorityRefused(urgent: string)
    requires urgent == "URGENT"
    ensures CreatePriority(urgent) == None
    ensures CreatePriority("") == Some(TaskPriorityMedium)
  {
    assert [] + urgent + [] == urgent;
    TrimSpaceOfPadded([], urgent, []);
    assert ToLower(urgent)[0] == 'u';
  }

  /** Every status and priority is already in lower case, so lower-casing a valid filter keeps it. */
  lemma ValidEnumsAreLowerCase(s: string)
    requires IsValidStatus(s) || IsValidPriority(s)
    ensures ToLower(s) == s
  {
    assert LowerLetters(s) by {
      if s == TaskStatusPending {
      } else if s == TaskStatusCompleted {
      } else if s == TaskPriorityLow {
      } else if s == TaskPriorityMedium {
      } else {
      }
    }
    LowerLettersFixed(s);
  }

  /** The trimmed, lower-cased value of an update's status or priority field. */
  function NormalizeEnum(raw: string): string {
    ToLower(TrimSpace(raw))
  }

  /** The title and description steps of an update: a supplied field is trimmed and stored. */
  function TextEdits(t: Task, input: UpdateInput): Task {
    var t1 := if input.title.Some? then t.(title := TrimSpace(input.title.value)) else t;
    if input.description.Some? then t1.(description := TrimSpace(input.description.value)) else t1
  }

  /** The status step of an update, once the supplied status is known to be valid. */
  function StatusEdit(t: Task, input: UpdateInput): Task {
    if input.status.Some? then t.(status := NormalizeEnum(input.status.value)) else t
  }

  /**
   * The partial update applied to a loaded row, field by field in the order
   * title, description, status, priority: supplied text fields are trimmed,
   * supplied enum fields are trimmed, lower-cased and validated.
   */
  function ApplyUpdate(t: Task, input: UpdateInput): (r: Result<Task, TaskError>)
    ensures r.Ok? ==> r.value.id == t.id && r.value.userId == t.userId
    ensures r.Ok? ==> r.value.title == (if input.title.Some? then TrimSpace(input.title.value) else t.title)
    ensures r.Ok? ==>
      r.value.description == (if input.description.Some? then TrimSpace(input.description.value) else t.description)
    ensures r.Ok? ==> r.value.status == (if input.status.Some? then NormalizeEnum(input.status.value) else t.status)
    ensures r.Ok? ==> r.value.priority == (if input.priority.Some? then NormalizeEnum(input.priority.value) else t.priority)
    ensures input.status.Some? && !IsValidStatus(NormalizeEnum(input.status.value)) ==> r == Err(Invalid(StatusDetails))
    ensures ((input.status.None? || IsValidStatus(NormalizeEnum(input.status.value)))
             && input.priority.Some? && !IsValidPriority(NormalizeEnum(input.priority.value))) ==>
            r == Err(Invalid(PriorityDetails))
    ensures r.Err? ==>
      (input.status.Some? && !IsValidStatus(NormalizeEnum(input.status.value)))
      || (input.priority.Some? && !IsValidPriority(NormalizeEnum(input.priority.value)))
  {
    var t2 := TextEdits(t, input);
    if input.status.Some? && !IsValidStatus(NormalizeEnum(input.status.value)) then Err(Invalid(StatusDetails))
    else
      var t3 := StatusEdit(t2, input);
      if input.priority.Some? && !IsValidPriority(NormalizeEnum(input.priority.value)) then Err(Invalid(PriorityDetails))
      else if input.priority.Some? then Ok(t3.(priority := NormalizeEnum(input.priority.value)))
      else Ok(t3)
  }

  /** An update keeps a row's enum fields valid, and an update with no fields changes nothing. */
  lemma ApplyUpdateKeepsRowValid(t: Task, input: UpdateInput)
    requires IsValidStatus(t.status) && IsValidPriority(t.priority)
    ensures ApplyUpdate(t, input).Ok? ==>
      IsValidStatus(ApplyUpdate(t, input).value.status) && IsValidPriority(ApplyUpdate(t, input).value.priority)
    ensures ApplyUpdate(t, UpdateInput(None, None, None, None)) == Ok(t)
  {
  }

  /** "Completed" in any case, with blanks around it, marks a task completed. */
  lemma UpdateStatusExample(t: Task, name: string, raw: string)
    requires name == "Completed" && raw == " " + name + " "
    ensures ApplyUpdate(t, UpdateInput(None, None, Some(raw), None)) == Ok(t.(status := TaskStatusCompleted))
  {
    PaddedCompletedNormalises(name, raw);
  }

  lemma PaddedCompletedNormalises(name: string, raw: string)
    requires name == "Completed" && raw == " " + name + " "
    ensures NormalizeEnum(raw) == TaskStatusCompleted
  {
    TrimSpaceOfPadded(" ", name, " ");
    CompletedLowered(name);
  }

  lemma CompletedLowered(name: string)
    requires name == "Completed"
    ensures ToLower(name) == TaskStatusCompleted
  {
    assert name != [] && LowerLetters(name[1..]);
    CapitalisedLowered(name);
    assert [LowerRune(name[0])] + name[1..] == TaskStatusCompleted by {
      assert LowerRune(name[0]) == 'c';
    }
  }

  /** An update may set the title to the empty string: only supplied text is trimmed, nothing is required. */
  lemma UpdateCanBlankTitle(t: Task, blank: string)
    requires AllSpace(blank)
    ensures ApplyUpdate(t, UpdateInput(Some(blank), None, None, None)) == Ok(t.(title := ""))
  {
    assert blank + [] + [] == blank;
    TrimSpaceOfPadded(blank, [], []);
  }

  // ---------------------------------------------------------------------------
  // The handlers
  // ---------------------------------------------------------------------------

  /** Overwriting one of `uid`'s rows with a valid row of the same id and owner keeps the table well formed. */
  lemma StoreOwnedRow(tasks: map<int, Task>, nextId: int, uid: int, task: Task)
    requires WellFormed(tasks, nextId) && Owns(tasks, uid, task.id) && task.userId == uid
    requires IsValidStatus(task.status) && IsValidPriority(task.priority)
    ensures WellFormed(tasks[task.id := task], nextId)
    ensures OthersUnaffected(tasks, tasks[task.id := task], uid)
  {
  }

  /** The task table with its id counter. */
  class TaskStore {
    var tasks: map<int, Task>
    var nextId: int

    ghost predicate Valid()
      reads this
    {
      WellFormed(tasks, nextId)
    }

    constructor ()
      ensures Valid()
      ensures tasks == map[] && nextId == 1
    {
      tasks := map[];
      nextId := 1;
    }

    /**
     * `CreateTask`: the title is required; the priority is trimmed,
     * lower-cased and defaulted to "medium"; a new row owned by `uid` gets
     * the next id, the trimmed title and description, and status "pending".
     */
    method CreateTask(uid: int, body: Body<CreateInput>) returns (r: Result<Task, TaskError>)
      requires Valid()
      modifies this
      ensures Valid()
      ensures body.Unbindable? || body.input.title == "" ==> r == Err(BindError)
      ensures body.Bound? && body.input.title != "" ==>
        match CreatePriority(body.input.priority)
        case None => r == Err(Invalid(PriorityDetails))
        case Some(p) =>
          r == Ok(Task(old(nextId), uid, TrimSpace(body.input.title), TrimSpace(body.input.description),
                       p, TaskStatusPending))
      ensures r.Ok? ==>
        old(nextId) !in old(tasks) && tasks == old(tasks)[old(nextId) := r.value] && nextId == old(nextId) + 1
      ensures r.Err? ==> tasks == old(tasks) && nextId == old(nextId)
      ensures OthersUnaffected(old(tasks), tasks, uid)
    {
      if body.Unbindable? || body.input.title == "" {
        return Err(BindError);
      }
      var input := body.input;
      var p := ToLower(TrimSpace(input.priority));
      if p == "" {
        p := TaskPriorityMedium;
      }
      if !IsValidPriority(p) {
        return Err(Invalid(PriorityDetails));
      }
      var task := Task(nextId, uid, TrimSpace(input.title), TrimSpace(input.description), p, TaskStatusPending);
      tasks := tasks[task.id := task];
      nextId := nextId + 1;
      return Ok(task);
    }

    /**
     * `GetTasks`: clamps the page and page size, validates the lower-cased
     * filters, and returns one page of the owner's matching rows in
     * descending id order, with the total count and the number of pages.
     */
    method GetTasks(uid: int, page: int, pageSize: int, status: string, priority: string)
      returns (r: Result<TaskPage, TaskError>)
      requires Valid()
      ensures status != "" && !IsValidStatus(ToLower(status)) ==> r == Err(Invalid(StatusDetails))
      ensures (status == "" || IsValidStatus(ToLower(status))) && priority != "" && !IsValidPriority(ToLower(priority)) ==>
        r == Err(Invalid(PriorityDetails))
      ensures r.Err? ==> (status != "" && !IsValidStatus(ToLower(status))) || (priority != "" && !IsValidPriority(ToLower(priority)))
      ensures r.Ok? ==>
        var pg := r.value.pagination;
        && pg.page == (if page < 1 then DefaultPage else page)
        && pg.pageSize == (if pageSize < 1 || pageSize > MaxPageSize then DefaultPageSize else pageSize)
        && pg.total == |Select(tasks, uid, ToLower(status), ToLower(priority), nextId)|
        && pg.totalPages == TotalPages(pg.total, pg.pageSize)
        && r.value.tasks == Window(Select(tasks, uid, ToLower(status), ToLower(priority), nextId),
                                   Offset(pg.page, pg.pageSize), pg.pageSize)
      ensures r.Ok? ==>
        var rows := r.value.tasks;
        && |rows| <= r.value.pagination.pageSize <= MaxPageSize
        && (forall t :: t in rows ==> t.id in tasks && tasks[t.id] == t && Matches(t, uid, ToLower(status), ToLower(priority)))
        && DescendingIds(rows)
    {
      var pg := page;
      var size := pageSize;
      if pg < 1 {
        pg := DefaultPage;
      }
      if size < 1 || size > MaxPageSize {
        size := DefaultPageSize;
      }
      var offset := Offset(pg, size);

      var s := status;
      if s != "" {
        s := ToLower(s);
        if !IsValidStatus(s) {
          return Err(Invalid(StatusDetails));
        }
      }
      var p := priority;
      if p != "" {
        p := ToLower(p);
        if !IsValidPriority(p) {
          return Err(Invalid(PriorityDetails));
        }
      }

      assert s == ToLower(status) && p == ToLower(priority);
      var matching := Select(tasks, uid, s, p, nextId);
      SelectSound(tasks, uid, s, p, nextId);
      SelectDescending(tasks, uid, s, p, nextId);
      var total := |matching|;
      var rows := Window(matching, offset, size);
      WindowKeepsOrder(matching, offset, size);
      r := Ok(TaskPage(rows, Pagination(pg, size, total, TotalPages(total, size))));
    }

    /**
     * `UpdateTask`: loads the row scoped by id and owner (NotFound otherwise),
     * applies the supplied fields one by one, and saves the whole row. A
     * rejected field leaves the stored row as it was.
     */
    method UpdateTask(uid: int, idParam: string, body: Body<UpdateInput>) returns (r: Result<Task, TaskError>)
      requires Valid()
      modifies this
      ensures Valid() && nextId == old(nextId)
      ensures ParseInt64(idParam).None? ==> r == Err(Invalid(InvalidIdDetails))
      ensures ParseInt64(idParam).Some? ==>
        var id := ParseInt64(idParam).value;
        if !Owns(old(tasks), uid, id) then r == Err(NotFound)
        else if body.Unbindable? then r == Err(BindError)
        else r == ApplyUpdate(old(tasks)[id], body.input)
      ensures r.Ok? ==> Owns(old(tasks), uid, r.value.id) && tasks == old(tasks)[r.value.id := r.value]
      ensures r.Err? ==> tasks == old(tasks)
      ensures OthersUnaffected(old(tasks), tasks, uid)
    {
      var parsed := ParseInt64(idParam);
      if parsed.None? {
        return Err(Invalid(InvalidIdDetails));
      }
      var id := parsed.value;
      if !Owns(tasks, uid, id) {
        return Err(NotFound);
      }
      var task := tasks[id];
      if body.Unbindable? {
        return Err(BindError);
      }
      var updated := ApplyUpdate(task, body.input);
      if updated.Err? {
        return updated;
      }
      task := updated.value;
      StoreOwnedRow(tasks, nextId, uid, task);
      tasks := tasks[id := task];
      return Ok(task);
    }

    /** `DeleteTask`: removes the row with this id and owner, or reports NotFound. */
    method DeleteTask(uid: int, idParam: string) returns (r: Result<int, TaskError>)
      requires Valid()
      modifies this
      ensures Valid() && nextId == old(nextId)
      ensures ParseInt64(idParam).None? ==> r == Err(Invalid(InvalidIdDetails)) && tasks == old(tasks)
      ensures ParseInt64(idParam).Some? ==>
        var id := ParseInt64(idParam).value;
        if Owns(old(tasks), uid, id) then r == Ok(id) && tasks == old(tasks) - {id}
        else r == Err(NotFound) && tasks == old(tasks)
      ensures OthersUnaffected(old(tasks), tasks, uid)
    {
      var parsed := ParseInt64(idParam);
      if parsed.None? {
        return Err(Invalid(InvalidIdDetails));
      }
      var id := parsed.value;
      if !Owns(tasks, uid, id) {
        return Err(NotFound);
      }
      tasks := tasks - {id};
      return Ok(id);
    }
  }

  /**
   * Owner A creates a task with only a title; it is pending with priority
   * medium, and A's listing filtered by "Medium" shows exactly that task.
   */
  method CreateThenListScenario(alice: int, title: string, filter: string)
    returns (created: Result<Task, TaskError>, listed: Result<TaskPage, TaskError>)
    requires title != "" && filter == "Medium"
    ensures created.Ok? && created.value.status == TaskStatusPending && created.value.priority == TaskPriorityMedium
    ensures created.value.title == TrimSpace(title) && created.value.userId == alice
    ensures listed.Ok? && listed.value.tasks == [created.value] && listed.value.pagination.total == 1
  {
    var store := new TaskStore();
    created := store.CreateTask(alice, Bound(CreateInput(title, "", "")));
    var t := created.value;
    MediumFilterLowerCased(filter);
    SingleRowListing(store.tasks, t, alice, TaskPriorityMedium);
    var noFilter := "";
    listed := store.GetTasks(alice, 1, 20, noFilter, filter);
  }

  /**
   * The create-then-list round of the handler test: "Belajar Go" with priority
   * "high", then the owner's listing filtered by "high" holds exactly that task
   * on one page.
   */
  method CreateHighThenListScenario(alice: int, title: string, priority: string)
    returns (created: Result<Task, TaskError>, listed: Result<TaskPage, TaskError>)
    requires title == "Belajar Go" && priority == "high"
    ensures created == Ok(Task(1, alice, title, "", TaskPriorityHigh, TaskStatusPending))
    ensures listed.Ok? && listed.value.tasks == [created.value]
    ensures listed.value.pagination == Pagination(DefaultPage, DefaultPageSize, 1, 1)
  {
    var store := new TaskStore();
    HighPriorityKept(priority);
    TitleAlreadyTrimmed(title);
    created := store.CreateTask(alice, Bound(CreateInput(title, "", priority)));
    var t := created.value;
    SingleRowListing(store.tasks, t, alice, TaskPriorityHigh);
    ValidEnumsAreLowerCase(priority);
    var noFilter := "";
    listed := store.GetTasks(alice, DefaultPage, DefaultPageSize, noFilter, priority);
  }

  lemma HighPriorityKept(priority: string)
    requires priority == "high"
    ensures CreatePriority(priority) == Some(TaskPriorityHigh)
  {
    assert [] + priority + [] == priority;
    TrimSpaceOfPadded([], priority, []);
    ValidEnumsAreLowerCase(priority);
  }

  lemma TitleAlreadyTrimmed(title: string)
    requires title == "Belajar Go"
    ensures TrimSpace(title) == title
  {
    assert [] + title + [] == title;
    TrimSpaceOfPadded([], title, []);
  }

  lemma MediumFilterLowerCased(filter: string)
    requires filter == "Medium"
    ensures ToLower(filter) == TaskPriorityMedium
  {
  }

  lemma SingleRowListing(tasks: map<int, Task>, t: Task, uid: int, priority: string)
    requires tasks == map[1 := t] && t.userId == uid && t.priority == priority
    ensures Select(tasks, uid, "", priority, 2) == [t]
    ensures Window([t], Offset(1, 20), 20) == [t]
  {
  }

  /** A title of blanks passes the binder's non-empty check and is stored trimmed, as "". */
  method BlankTitleScenario(alice: int, title: string) returns (created: Result<Task, TaskError>)
    requires title != "" && AllSpace(title)
    ensures created.Ok? && created.value.title == ""
  {
    var store := new TaskStore();
    assert title + [] + [] == title;
    TrimSpaceOfPadded(title, [], []);
    created := store.CreateTask(alice, Bound(CreateInput(title, "", "")));
  }

  /** Owner B can neither update nor delete a task that owner A created. */
  method CrossOwnerScenario(alice: int, bob: int, title: string)
    returns (bobUpdate: Result<Task, TaskError>, bobDelete: Result<int, TaskError>)
    requires alice != bob && title != ""
    ensures bobUpdate == Err(NotFound) && bobDelete == Err(NotFound)
  {
    var store := new TaskStore();
    var created := store.CreateTask(alice, Bound(CreateInput(title, "", "")));
    var idParam := FormatInt(created.value.id);
    ParseFormatRoundTrip(created.value.id);
    bobUpdate := store.UpdateTask(bob, idParam, Bound(UpdateInput(Some(title), None, None, None)));
    bobDelete := store.DeleteTask(bob, idParam);
  }
}
