/** The `Task` entity: its fields, the full constructor, the builder and the
    pre-persist hook. Every reference field of the entity may be null, so each is an
    `Option`; `priority` is a Java `int` and cannot be.
 */
module TaskDomain {
  import opened Wrappers
  import opened JavaLang

  const TODO: string := "TODO"
  const COMPLETED: string := "COMPLETED"

  datatype Task = Task(
    id: Option<Long>,
    title: Option<string>,
    description: Option<string>,
    status: Option<string>,
    priority: Int32,
    createdAt: Option<Instant>,
    dueDate: Option<Instant>,
    ownerId: Option<Long>)

  /** `new Task()`: only the field initialisers apply, so the status is "TODO", the
      priority 0 and every other field null. */
  function BlankTask(): (t: Task)
    ensures t.status == Some(TODO) && t.priority == 0
    ensures t.id.None? && t.title.None? && t.description.None?
    ensures t.createdAt.None? && t.dueDate.None? && t.ownerId.None?
  {
    Task(None, None, None, Some(TODO), 0, None, None, None)
  }

  /** The full constructor: a null status becomes "TODO", a non-null one is kept, and
      every other argument is stored as given. */
  function NewTask(id: Option<Long>, title: Option<string>, description: Option<string>,
                   status: Option<string>, priority: Int32, createdAt: Option<Instant>,
                   dueDate: Option<Instant>, ownerId: Option<Long>): (t: Task)
    ensures t.status.Some?
    ensures status.None? ==> t.status == Some(TODO)
    ensures status.Some? ==> t.status == status
    ensures t.(status := status) == Task(id, title, description, status, priority, createdAt, dueDate, ownerId)
  {
    Task(id, title, description, if status.Some? then status else Some(TODO),
         priority, createdAt, dueDate, ownerId)
  }

  /** `Task.Builder`: one slot per entity field, with the builder's own field
      initialisers as defaults. Its setters are datatype updates, `b.(title := ...)`. */
  datatype Builder = Builder(
    id: Option<Long>,
    title: Option<string>,
    description: Option<string>,
    status: Option<string>,
    priority: Int32,
    createdAt: Option<Instant>,
    dueDate: Option<Instant>,
    ownerId: Option<Long>)

  /** `Task.builder()`: status "TODO", priority 0, everything else null. */
  function NewBuilder(): (b: Builder)
    ensures b.status == Some(TODO) && b.priority == 0
    ensures b.id.None? && b.title.None? && b.description.None?
    ensures b.createdAt.None? && b.dueDate.None? && b.ownerId.None?
  {
    Builder(None, None, None, Some(TODO), 0, None, None, None)
  }

  /** `Builder.build()`: hands every slot to the full constructor. */
  function Build(b: Builder): (t: Task)
    ensures t.id == b.id && t.title == b.title && t.description == b.description
    ensures t.priority == b.priority && t.createdAt == b.createdAt
    ensures t.dueDate == b.dueDate && t.ownerId == b.ownerId
    ensures b.status.Some? ==> t.status == b.status
    ensures b.status.None? ==> t.status == Some(TODO)
  {
    NewTask(b.id, b.title, b.description, b.status, b.priority, b.createdAt, b.dueDate, b.ownerId)
  }

  /** A builder left untouched builds the same task as the no-argument constructor. */
  lemma BuildDefaults()
    ensures Build(NewBuilder()) == BlankTask()
  {
  }

  /** Explicitly setting a null status on the builder still yields "TODO". */
  lemma BuildNullStatus(b: Builder)
    ensures Build(b.(status := None)).status == Some(TODO)
  {
  }

  /** Rebuilding a task from its own fields gives the task back once its status is
      non-null: the normalisation happens at most once. */
  lemma RebuildIsIdentity(t: Task)
    requires t.status.Some?
    ensures Build(Builder(t.id, t.title, t.description, t.status, t.priority,
                          t.createdAt, t.dueDate, t.ownerId)) == t
  {
  }

  /** The `@PrePersist` hook: a missing creation time becomes `now` and a missing
      status becomes "TODO"; values already present are never overwritten. */
  function OnCreate(t: Task, now: Instant): (r: Task)
    ensures r.createdAt.Some? && r.status.Some?
    ensures t.createdAt.Some? ==> r.createdAt == t.createdAt
    ensures t.createdAt.None? ==> r.createdAt == Some(now)
    ensures t.status.Some? ==> r.status == t.status
    ensures t.status.None? ==> r.status == Some(TODO)
    ensures r.(createdAt := t.createdAt, status := t.status) == t
  {
    var stamped := if t.createdAt.None? then t.(createdAt := Some(now)) else t;
    if stamped.status.None? then stamped.(status := Some(TODO)) else stamped
  }

  /** Running the hook again, at any later time, changes nothing. */
  lemma OnCreateIdempotent(t: Task, now: Instant, later: Instant)
    ensures OnCreate(OnCreate(t, now), later) == OnCreate(t, now)
  {
  }
}
