/** The task workflow: create, read, list, update, delete, delegate and complete,
    over a task store and the user directory. Every mutation runs the same guards in
    the same order (the task exists, the requester owns it, and for delegation the
    target user exists) before it changes one task and emits its events. A failing
    call returns only its error; the caller's state stands and nothing is emitted.
 */
module TaskService {
  import opened Wrappers
  import opened JavaLang
  import opened TaskDomain
  import Identity

  /** `TaskDto`: the task as callers see it; `assignedToUserId` is the owner. */
  datatype TaskDto = TaskDto(
    id: Option<Long>,
    title: Option<string>,
    description: Option<string>,
    status: Option<string>,
    priority: Int32,
    dueDate: Option<Instant>,
    assignedToUserId: Option<Long>)

  datatype CreateTaskRequest = CreateTaskRequest(
    title: string,
    priority: Int32,
    dueDate: Option<Instant>,
    creatorUserId: Long)

  /** The three application events the workflow publishes. */
  datatype Event =
    | TaskCreated(taskId: Long)
    | TaskDelegated(taskId: Long, previousOwnerId: Long, newOwnerId: Long)
    | TaskCompleted(taskId: Long)

  /** `TaskNotFoundException`, the permission `SecurityException` (whose message
      names the requester and the task) and `UserNotFoundException`. */
  datatype Error =
    | TaskNotFound(taskId: Long)
    | Forbidden(requesterId: Long, taskId: Long)
    | UserNotFound(userId: Long)

  /** The tasks table keyed by id, a scan order over its ids, and the user directory.
      The repository's owner query has no ORDER BY; the model fixes one possible
      order, the order in which the rows were inserted. */
  datatype State = State(tasks: map<Long, Task>, order: seq<Long>, users: Identity.Directory)

  /** What a successful operation commits: the new state, the events it publishes
      (after the write), and its return value. */
  datatype Committed<T> = Committed(state: State, events: seq<Event>, reply: T)

  predicate Distinct(ids: seq<Long>) {
    forall i, j :: 0 <= i < j < |ids| ==> ids[i] != ids[j]
  }

  /** The store invariant: each row sits under its own id and has an owner (the
      column is NOT NULL), the scan order lists every row once, and the directory is
      well formed. */
  ghost predicate Valid(s: State) {
    && Distinct(s.order)
    && (forall id :: id in s.tasks <==> id in s.order)
    && (forall id :: id in s.tasks ==> s.tasks[id].id == Some(id) && s.tasks[id].ownerId.Some?)
    && Identity.Valid(s.users)
  }

  /** `a` and `b` hold the same rows, except possibly the row `id`. */
  ghost predicate SameExcept(a: map<Long, Task>, b: map<Long, Task>, id: Long) {
    forall k :: k != id ==> (k in a <==> k in b) && (k in a ==> a[k] == b[k])
  }

  function InitialState(users: Identity.Directory): (s: State)
    requires Identity.Valid(users)
    ensures Valid(s) && s.tasks == map[]
  {
    State(map[], [], users)
  }

  /** Before the first task is created, nobody has a task to list. */
  lemma NothingListedAtStart(users: Identity.Directory, userId: Long)
    requires Identity.Valid(users)
    ensures GetTasksByUserId(InitialState(users), userId) == []
  {
    var s := InitialState(users);
    assert s.order == [];
  }

  /** `mapToDto`: every field but `createdAt`, the owner as `assignedToUserId`. */
  function ToDto(t: Task): TaskDto {
    TaskDto(t.id, t.title, t.description, t.status, t.priority, t.dueDate, t.ownerId)
  }

  /** Two tasks look the same to callers exactly when they differ at most in their
      creation time. */
  lemma ToDtoForgetsOnlyCreatedAt(a: Task, b: Task)
    ensures ToDto(a) == ToDto(b) <==> a.(createdAt := b.createdAt) == b
  {
  }

  /** The guard every mutation starts with: the task must exist, then the requester
      must be its owner. */
  function Authorize(s: State, id: Long, requesterId: Long): (r: Result<Task, Error>)
    ensures id !in s.tasks ==> r == Failure(TaskNotFound(id))
    ensures id in s.tasks && s.tasks[id].ownerId != Some(requesterId) ==>
              r == Failure(Forbidden(requesterId, id))
    ensures r.Success? <==> id in s.tasks && s.tasks[id].ownerId == Some(requesterId)
    ensures r.Success? ==> r.value == s.tasks[id]
  {
    if id !in s.tasks then Failure(TaskNotFound(id))
    else if s.tasks[id].ownerId != Some(requesterId) then Failure(Forbidden(requesterId, id))
    else Success(s.tasks[id])
  }

  /** `createTask`: the builder sets title, status "TODO", priority, owner and due
      date; saving assigns the generated id `newId` and runs the pre-persist hook,
      which stamps `now`; then one `TaskCreated` event names the stored id. Anyone may
      create a task. */
  function CreateTask(s: State, request: CreateTaskRequest, newId: Long, now: Instant)
    : (r: Committed<TaskDto>)
    requires newId !in s.tasks
    ensures newId in r.state.tasks
    ensures var t := r.state.tasks[newId];
            && t.id == Some(newId)
            && t.status == Some(TODO)
            && t.ownerId == Some(request.creatorUserId)
            && t.title == Some(request.title)
            && t.priority == request.priority
            && t.dueDate == request.dueDate
            && t.description.None?
            && t.createdAt == Some(now)
            && r.reply == ToDto(t)
    ensures r.events == [TaskCreated(newId)]
    ensures r.state.tasks.Keys == s.tasks.Keys + {newId}
    ensures SameExcept(s.tasks, r.state.tasks, newId)
    ensures r.state.order == s.order + [newId] && r.state.users == s.users
    ensures Valid(s) ==> Valid(r.state)
  {
    var built := Build(NewBuilder().(title := Some(request.title),
                                     status := Some(TODO),
                                     priority := request.priority,
                                     ownerId := Some(request.creatorUserId),
                                     dueDate := request.dueDate));
    var saved := OnCreate(built, now).(id := Some(newId));
    var s' := State(s.tasks[newId := saved], s.order + [newId], s.users);
    assert Valid(s) ==> Valid(s') by {
      if Valid(s) {
        assert newId !in s.order;
        assert forall i :: 0 <= i < |s.order| ==> s'.order[i] == s.order[i];
      }
    }
    Committed(s', [TaskCreated(newId)], ToDto(saved))
  }

  /** `getTaskById`: any caller may read any task; an absent id is `TaskNotFound`. */
  function GetTaskById(s: State, id: Long): (r: Result<TaskDto, Error>)
    ensures r.Success? <==> id in s.tasks
    ensures r.Failure? ==> r.error == TaskNotFound(id)
    ensures r.Success? ==> r.value == ToDto(s.tasks[id])
    ensures Valid(s) && r.Success? ==> r.value.id == Some(id) && r.value.assignedToUserId.Some?
  {
    if id in s.tasks then Success(ToDto(s.tasks[id])) else Failure(TaskNotFound(id))
  }

  /** The stored tasks among `ids` that `ownerId` owns. */
  ghost function OwnedIds(tasks: map<Long, Task>, ids: seq<Long>, ownerId: Long): set<Long> {
    set id | id in ids && id in tasks && tasks[id].ownerId == Some(ownerId)
  }

  /** `d` is the DTO of the stored task at position `a` of `ids`. */
  ghost predicate DtoAt(d: TaskDto, tasks: map<Long, Task>, ids: seq<Long>, a: int) {
    0 <= a < |ids| && ids[a] in tasks && d == ToDto(tasks[ids[a]])
  }

  /** `d` is the DTO of the stored task at some position of `ids`. */
  ghost predicate FromSomePosition(d: TaskDto, tasks: map<Long, Task>, ids: seq<Long>) {
    exists a :: DtoAt(d, tasks, ids, a)
  }

  /** `x` and `y` are the DTOs of stored tasks at two positions of `ids`, `x`'s first. */
  ghost predicate PositionedBefore(x: TaskDto, y: TaskDto, tasks: map<Long, Task>, ids: seq<Long>) {
    exists a, b :: a < b && DtoAt(x, tasks, ids, a) && DtoAt(y, tasks, ids, b)
  }

  /** Each element of `r` is the DTO of the stored task at some position of `ids`. */
  ghost predicate FromPositions(r: seq<TaskDto>, tasks: map<Long, Task>, ids: seq<Long>) {
    forall k :: 0 <= k < |r| ==> FromSomePosition(r[k], tasks, ids)
  }

  /** Any two elements of `r` are the DTOs of stored tasks at positions of `ids` in the
      same order. */
  ghost predicate InScanOrder(r: seq<TaskDto>, tasks: map<Long, Task>, ids: seq<Long>) {
    forall i, j :: 0 <= i < j < |r| ==> PositionedBefore(r[i], r[j], tasks, ids)
  }

  /** Scanning one more id adds that id to the owned set when it qualifies, and it
      was not owned among the earlier ids when the ids are distinct. */
  lemma OwnedIdsStep(tasks: map<Long, Task>, ids: seq<Long>, ownerId: Long)
    requires |ids| > 0
    ensures var front, last := ids[..|ids| - 1], ids[|ids| - 1];
            Distinct(ids) ==>
            && Distinct(front)
            && last !in OwnedIds(tasks, front, ownerId)
            && OwnedIds(tasks, ids, ownerId)
               == OwnedIds(tasks, front, ownerId)
                  + (if last in tasks && tasks[last].ownerId == Some(ownerId) then {last} else {})
  {
    var front, last := ids[..|ids| - 1], ids[|ids| - 1];
    assert forall id :: id in ids <==> id in front || id == last;
    assert forall i :: 0 <= i < |front| ==> front[i] == ids[i];
  }

  /** Appending at most the DTO of the last scanned task keeps the list in scan order. */
  lemma ScanOrderStep(prefix: seq<TaskDto>, tasks: map<Long, Task>, ids: seq<Long>,
                      extra: seq<TaskDto>)
    requires |ids| > 0
    requires FromPositions(prefix, tasks, ids[..|ids| - 1])
    requires InScanOrder(prefix, tasks, ids[..|ids| - 1])
    requires extra == [] || (ids[|ids| - 1] in tasks && extra == [ToDto(tasks[ids[|ids| - 1]])])
    ensures FromPositions(prefix + extra, tasks, ids)
    ensures InScanOrder(prefix + extra, tasks, ids)
  {
    var front := ids[..|ids| - 1];
    var r := prefix + extra;
    var n := |ids| - 1;
    forall k | 0 <= k < |r|
      ensures FromSomePosition(r[k], tasks, ids)
    {
      if k < |prefix| {
        assert FromSomePosition(prefix[k], tasks, front);
        var a :| DtoAt(prefix[k], tasks, front, a);
        assert DtoAt(r[k], tasks, ids, a);
      } else {
        assert DtoAt(r[k], tasks, ids, n);
      }
    }
    forall i, j | 0 <= i < j < |r|
      ensures PositionedBefore(r[i], r[j], tasks, ids)
    {
      if j < |prefix| {
        assert PositionedBefore(prefix[i], prefix[j], tasks, front);
        var a, b :| a < b && DtoAt(prefix[i], tasks, front, a) && DtoAt(prefix[j], tasks, front, b);
        assert DtoAt(r[i], tasks, ids, a) && DtoAt(r[j], tasks, ids, b);
      } else {
        assert FromSomePosition(prefix[i], tasks, front);
        var a :| DtoAt(prefix[i], tasks, front, a);
        assert DtoAt(r[i], tasks, ids, a) && DtoAt(r[j], tasks, ids, n);
      }
    }
  }

  /** The repository query `findByOwnerId` mapped to DTOs: the tasks among `ids`
      owned by `ownerId`, one DTO per owned id, in the order of `ids`. */
  function OwnedBy(tasks: map<Long, Task>, ids: seq<Long>, ownerId: Long): (r: seq<TaskDto>)
    ensures |r| <= |ids|
    ensures forall k :: 0 <= k < |r| ==> r[k].assignedToUserId == Some(ownerId)
    ensures forall d :: d in r <==>
              exists id :: id in ids && id in tasks && tasks[id].ownerId == Some(ownerId)
                           && d == ToDto(tasks[id])
    ensures Distinct(ids) ==> |r| == |OwnedIds(tasks, ids, ownerId)|
    ensures FromPositions(r, tasks, ids)
    ensures InScanOrder(r, tasks, ids)
  {
    if |ids| == 0 then []
    else
      var front := ids[..|ids| - 1];
      var last := ids[|ids| - 1];
      assert forall id :: id in ids <==> id in front || id == last;
      var prefix := OwnedBy(tasks, front, ownerId);
      var extra := if last in tasks && tasks[last].ownerId == Some(ownerId)
                   then [ToDto(tasks[last])] else [];
      OwnedIdsStep(tasks, ids, ownerId);
      ScanOrderStep(prefix, tasks, ids, extra);
      prefix + extra
  }

  /** Under the store invariant the scanned ids are exactly the stored ones. */
  lemma OwnedIdsOfStore(s: State, userId: Long)
    ensures Valid(s) ==>
              OwnedIds(s.tasks, s.order, userId)
              == set id | id in s.tasks && s.tasks[id].ownerId == Some(userId)
  {
  }

  /** `getTasksByUserId`: the tasks owned by `userId`, one DTO each, in store order. */
  function GetTasksByUserId(s: State, userId: Long): (r: seq<TaskDto>)
    ensures forall k :: 0 <= k < |r| ==> r[k].assignedToUserId == Some(userId)
    ensures Valid(s) ==> forall id :: id in s.tasks && s.tasks[id].ownerId == Some(userId)
                                      ==> ToDto(s.tasks[id]) in r
    ensures forall d :: d in r ==> exists id :: id in s.tasks && d == ToDto(s.tasks[id])
    ensures Valid(s) ==> |r| == |set id | id in s.tasks && s.tasks[id].ownerId == Some(userId)|
    ensures InScanOrder(r, s.tasks, s.order)
  {
    OwnedIdsOfStore(s, userId);
    OwnedBy(s.tasks, s.order, userId)
  }

  /** Scanning one more id appends that task's DTO exactly when the user owns it. */
  lemma OwnedByExtend(tasks: map<Long, Task>, ids: seq<Long>, i: nat, ownerId: Long)
    requires i < |ids|
    ensures OwnedBy(tasks, ids[..i + 1], ownerId)
            == OwnedBy(tasks, ids[..i], ownerId)
               + (if ids[i] in tasks && tasks[ids[i]].ownerId == Some(ownerId)
                  then [ToDto(tasks[ids[i]])] else [])
  {
    assert ids[..i + 1][..i] == ids[..i];
  }

  /** `getTasksForUser`, the second listing entry point, written as the scan the
      repository performs; it returns exactly what `getTasksByUserId` returns. */
  method GetTasksForUser(s: State, userId: Long) returns (r: seq<TaskDto>)
    ensures r == GetTasksByUserId(s, userId)
  {
    r := [];
    var i := 0;
    while i < |s.order|
      invariant 0 <= i <= |s.order|
      invariant r == OwnedBy(s.tasks, s.order[..i], userId)
    {
      var id := s.order[i];
      var extra := if id in s.tasks && s.tasks[id].ownerId == Some(userId)
                   then [ToDto(s.tasks[id])] else [];
      OwnedByExtend(s.tasks, s.order, i, userId);
      r := r + extra;
      i := i + 1;
    }
    assert s.order[..i] == s.order;
  }

  /** `updateTask`: only the owner may update; the title, description, status,
      priority and due date are overwritten from the DTO, while the id, the owner and
      the creation time are kept whatever the DTO says. No event is published. */
  function UpdateTask(s: State, id: Long, dto: TaskDto, requesterId: Long)
    : (r: Result<Committed<TaskDto>, Error>)
    ensures id !in s.tasks ==> r == Failure(TaskNotFound(id))
    ensures id in s.tasks && s.tasks[id].ownerId != Some(requesterId) ==>
              r == Failure(Forbidden(requesterId, id))
    ensures r.Success? <==> id in s.tasks && s.tasks[id].ownerId == Some(requesterId)
    ensures r.Success? ==>
              var before := s.tasks[id];
              && id in r.value.state.tasks
              && var after := r.value.state.tasks[id];
              && after.title == dto.title
              && after.description == dto.description
              && after.status == dto.status
              && after.priority == dto.priority
              && after.dueDate == dto.dueDate
              && after.id == before.id
              && after.ownerId == before.ownerId
              && after.createdAt == before.createdAt
              && r.value.reply == ToDto(after)
    ensures r.Success? ==> r.value.events == []
                           && r.value.state.tasks.Keys == s.tasks.Keys
                           && SameExcept(s.tasks, r.value.state.tasks, id)
                           && r.value.state.order == s.order
                           && r.value.state.users == s.users
    ensures Valid(s) && r.Success? ==> Valid(r.value.state)
  {
    var task :- Authorize(s, id, requesterId);
    var updated := task.(title := dto.title, description := dto.description,
                         status := dto.status, priority := dto.priority,
                         dueDate := dto.dueDate);
    Success(Committed(State(s.tasks[id := updated], s.order, s.users), [], ToDto(updated)))
  }

  /** `x` occurs in `ids` at some position before one where `y` occurs. */
  ghost predicate IdBefore(x: Long, y: Long, ids: seq<Long>) {
    exists i, j :: 0 <= i < j < |ids| && ids[i] == x && ids[j] == y
  }

  /** An order seen in the tail of `ids` is seen in `ids`. */
  lemma IdBeforeInTail(ids: seq<Long>)
    requires |ids| > 0
    ensures forall x, y :: IdBefore(x, y, ids[1..]) ==> IdBefore(x, y, ids)
  {
    forall x, y | IdBefore(x, y, ids[1..])
      ensures IdBefore(x, y, ids)
    {
      var i, j :| 0 <= i < j < |ids| - 1 && ids[1..][i] == x && ids[1..][j] == y;
      assert ids[i + 1] == x && ids[j + 1] == y;
    }
  }

  /** The first id comes before every id of the tail. */
  lemma IdBeforeHead(ids: seq<Long>, y: Long)
    requires |ids| > 0 && y in ids[1..]
    ensures IdBefore(ids[0], y, ids)
  {
    var j :| 0 <= j < |ids| - 1 && ids[1..][j] == y;
    assert ids[j + 1] == y;
  }

  /** The scan order with one id taken out. */
  function RemoveId(ids: seq<Long>, x: Long): (r: seq<Long>)
    ensures forall k :: k in r <==> k in ids && k != x
    ensures Distinct(ids) ==> Distinct(r)
    ensures forall a, b :: 0 <= a < b < |r| ==> IdBefore(r[a], r[b], ids)
  {
    if |ids| == 0 then []
    else
      var rest := RemoveId(ids[1..], x);
      assert forall k :: k in ids <==> k == ids[0] || k in ids[1..];
      IdBeforeInTail(ids);
      if ids[0] == x then rest
      else
        ConsKeepsOrder(ids, rest);
        ConsKeepsDistinct(ids, rest);
        [ids[0]] + rest
  }

  /** Putting the first id before ids taken in order from the tail keeps the order. */
  lemma ConsKeepsOrder(ids: seq<Long>, rest: seq<Long>)
    requires |ids| > 0
    requires forall k :: k in rest ==> k in ids[1..]
    requires forall a, b :: 0 <= a < b < |rest| ==> IdBefore(rest[a], rest[b], ids[1..])
    ensures var r := [ids[0]] + rest;
            forall a, b :: 0 <= a < b < |r| ==> IdBefore(r[a], r[b], ids)
  {
    IdBeforeInTail(ids);
    var r := [ids[0]] + rest;
    forall a, b | 0 <= a < b < |r|
      ensures IdBefore(r[a], r[b], ids)
    {
      assert r[b] == rest[b - 1];
      if a == 0 {
        IdBeforeHead(ids, r[b]);
      } else {
        assert r[a] == rest[a - 1];
      }
    }
  }

  /** Putting the first id of distinct ids before distinct ids of the tail keeps
      them distinct. */
  lemma ConsKeepsDistinct(ids: seq<Long>, rest: seq<Long>)
    requires |ids| > 0
    requires forall k :: k in rest ==> k in ids[1..]
    requires Distinct(ids) ==> Distinct(rest)
    ensures Distinct(ids) ==> Distinct([ids[0]] + rest)
  {
    var r := [ids[0]] + rest;
    if Distinct(ids) {
      assert Distinct(ids[1..]);
      forall i, j | 0 <= i < j < |r|
        ensures r[i] != r[j]
      {
        assert r[j] == rest[j - 1] && r[j] in rest;
        if i > 0 {
          assert r[i] == rest[i - 1];
        }
      }
    }
  }

  /** `deleteTask`: only the owner may delete; exactly that row disappears. */
  function DeleteTask(s: State, id: Long, requesterId: Long): (r: Result<Committed<()>, Error>)
    ensures id !in s.tasks ==> r == Failure(TaskNotFound(id))
    ensures id in s.tasks && s.tasks[id].ownerId != Some(requesterId) ==>
              r == Failure(Forbidden(requesterId, id))
    ensures r.Success? <==> id in s.tasks && s.tasks[id].ownerId == Some(requesterId)
    ensures r.Success? ==> r.value.state.tasks.Keys == s.tasks.Keys - {id}
                           && SameExcept(s.tasks, r.value.state.tasks, id)
                           && r.value.events == []
                           && r.value.state.users == s.users
                           && (forall k :: k in r.value.state.order <==> k in s.order && k != id)
    ensures Valid(s) && r.Success? ==> Valid(r.value.state)
  {
    var _ :- Authorize(s, id, requesterId);
    Success(Committed(State(s.tasks - {id}, RemoveId(s.order, id), s.users), [], ()))
  }

  /** `delegateTask`: checks, in this order, that the task exists, that the requester
      owns it and that the target user exists; then only the owner changes, and one
      `TaskDelegated` event carries the previous and the new owner. */
  function DelegateTask(s: State, taskId: Long, targetUserId: Long, requesterId: Long)
    : (r: Result<Committed<()>, Error>)
    ensures taskId !in s.tasks ==> r == Failure(TaskNotFound(taskId))
    ensures taskId in s.tasks && s.tasks[taskId].ownerId != Some(requesterId) ==>
              r == Failure(Forbidden(requesterId, taskId))
    ensures taskId in s.tasks && s.tasks[taskId].ownerId == Some(requesterId)
            && !Identity.UserExistsById(s.users, targetUserId) ==>
              r == Failure(UserNotFound(targetUserId))
    ensures r.Success? <==> taskId in s.tasks && s.tasks[taskId].ownerId == Some(requesterId)
                            && Identity.UserExistsById(s.users, targetUserId)
    ensures r.Success? ==>
              var before := s.tasks[taskId];
              && taskId in r.value.state.tasks
              && var after := r.value.state.tasks[taskId];
              && after.ownerId == Some(targetUserId)
              && after.(ownerId := before.ownerId) == before
    ensures r.Success? ==> r.value.events == [TaskDelegated(taskId, requesterId, targetUserId)]
                           && r.value.state.tasks.Keys == s.tasks.Keys
                           && SameExcept(s.tasks, r.value.state.tasks, taskId)
                           && r.value.state.order == s.order
                           && r.value.state.users == s.users
    ensures Valid(s) && r.Success? ==> Valid(r.value.state)
  {
    var task :- Authorize(s, taskId, requesterId);
    if !Identity.UserExistsById(s.users, targetUserId) then Failure(UserNotFound(targetUserId))
    else
      var previousOwnerId := task.ownerId.value;
      var delegated := task.(ownerId := Some(targetUserId));
      Success(Committed(State(s.tasks[taskId := delegated], s.order, s.users),
                        [TaskDelegated(taskId, previousOwnerId, targetUserId)], ()))
  }

  /** `completeTask`: only the owner may complete; the status becomes "COMPLETED",
      whatever it was, nothing else changes, and one `TaskCompleted` event follows. */
  function CompleteTask(s: State, taskId: Long, requesterId: Long)
    : (r: Result<Committed<()>, Error>)
    ensures taskId !in s.tasks ==> r == Failure(TaskNotFound(taskId))
    ensures taskId in s.tasks && s.tasks[taskId].ownerId != Some(requesterId) ==>
              r == Failure(Forbidden(requesterId, taskId))
    ensures r.Success? <==> taskId in s.tasks && s.tasks[taskId].ownerId == Some(requesterId)
    ensures r.Success? ==>
              var before := s.tasks[taskId];
              && taskId in r.value.state.tasks
              && var after := r.value.state.tasks[taskId];
              && after.status == Some(COMPLETED)
              && after.(status := before.status) == before
    ensures r.Success? ==> r.value.events == [TaskCompleted(taskId)]
                           && r.value.state.tasks.Keys == s.tasks.Keys
                           && SameExcept(s.tasks, r.value.state.tasks, taskId)
                           && r.value.state.order == s.order
                           && r.value.state.users == s.users
    ensures Valid(s) && r.Success? ==> Valid(r.value.state)
  {
    var task :- Authorize(s, taskId, requesterId);
    var completed := task.(status := Some(COMPLETED));
    Success(Committed(State(s.tasks[taskId := completed], s.order, s.users),
                      [TaskCompleted(taskId)], ()))
  }

  // ---------------------------------------------------------------------------
  // The workflow as a whole

  /** One call into the workflow. */
  datatype Request =
    | Create(request: CreateTaskRequest, newId: Long, now: Instant)
    | Update(id: Long, dto: TaskDto, requesterId: Long)
    | Delete(id: Long, requesterId: Long)
    | Delegate(id: Long, targetUserId: Long, requesterId: Long)
    | Complete(id: Long, requesterId: Long)

  /** The id generator hands out an id not yet in the table. */
  predicate Admissible(s: State, q: Request) {
    q.Create? ==> q.newId !in s.tasks
  }

  function Execute(s: State, q: Request): Result<Committed<()>, Error>
    requires Admissible(s, q)
  {
    match q
    case Create(request, newId, now) =>
      var c := CreateTask(s, request, newId, now);
      Success(Committed(c.state, c.events, ()))
    case Update(id, dto, requesterId) =>
      var c :- UpdateTask(s, id, dto, requesterId);
      Success(Committed(c.state, c.events, ()))
    case Delete(id, requesterId) => DeleteTask(s, id, requesterId)
    case Delegate(id, targetUserId, requesterId) => DelegateTask(s, id, targetUserId, requesterId)
    case Complete(id, requesterId) => CompleteTask(s, id, requesterId)
  }

  /** Runs one call to completion: the state afterwards, the events published, and
      the error if the call failed. A failed call leaves the state as it was and
      publishes nothing; a mutation of an existing task succeeds only for the task's
      owner, and every refusal of a non-owner names the requester and the task; the
      store invariant is kept. */
  function Step(s: State, q: Request): (r: (State, seq<Event>, Option<Error>))
    requires Admissible(s, q)
    ensures r.2.Some? ==> r.0 == s && r.1 == []
    ensures r.2.None? && !q.Create? ==> q.id in s.tasks && s.tasks[q.id].ownerId == Some(q.requesterId)
    ensures !q.Create? && q.id in s.tasks && s.tasks[q.id].ownerId != Some(q.requesterId) ==>
              r == (s, [], Some(Forbidden(q.requesterId, q.id)))
    ensures !q.Create? && q.id !in s.tasks ==> r == (s, [], Some(TaskNotFound(q.id)))
    ensures |r.1| <= 1
    ensures r.0.users == s.users
    ensures Valid(s) ==> Valid(r.0)
  {
    match Execute(s, q)
    case Success(c) => (c.state, c.events, None)
    case Failure(e) => (s, [], Some(e))
  }

  /** Once the owner has handed a task to someone else, every further mutation of it
      by the former owner is refused. */
  lemma FormerOwnerIsLockedOut(s: State, taskId: Long, target: Long, owner: Long, q: Request)
    requires DelegateTask(s, taskId, target, owner).Success?
    requires target != owner
    requires !q.Create? && q.id == taskId && q.requesterId == owner
    ensures var s' := DelegateTask(s, taskId, target, owner).value.state;
            Step(s', q) == (s', [], Some(Forbidden(owner, taskId)))
  {
  }

  /** Completing an already completed task succeeds again, leaves the state as it
      was, and publishes `TaskCompleted` a second time. */
  lemma CompleteAgain(s: State, taskId: Long, requesterId: Long)
    requires CompleteTask(s, taskId, requesterId).Success?
    ensures var s1 := CompleteTask(s, taskId, requesterId).value.state;
            CompleteTask(s1, taskId, requesterId) == Success(Committed(s1, [TaskCompleted(taskId)], ()))
  {
    var s1 := CompleteTask(s, taskId, requesterId).value.state;
    var t := s1.tasks[taskId];
    assert t.(status := Some(COMPLETED)) == t;
    assert s1.tasks[taskId := t] == s1.tasks;
  }
}
