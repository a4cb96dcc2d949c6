/** The notification listener: for each workflow event, the messages it sends. A
    message goes to a user's messenger id, never to the internal id, and only when
    the directory knows the user. The listener runs synchronously inside the workflow
    call, and the created and completed handlers re-read the task through
    `getTaskById`, so they see the state written earlier in the same transaction.
 */
module Notifications {
  import opened Wrappers
  import opened JavaLang
  import Identity
  import opened TaskService

  /** One `SendMessageQuery(...).userId(recipient).execute()`; `recipient` is the
      messenger id the chat platform knows the user by. */
  datatype Message = Message(recipient: Long, text: string)

  /** String concatenation in Java writes a null reference as "null". */
  function Show(value: Option<string>): (r: string)
    ensures value.Some? ==> r == value.value
    ensures value.None? ==> r == "null"
  {
    match value
    case Some(v) => v
    case None => "null"
  }

  const CREATED_PREFIX: string := "✅ Задача создана: "
  const DELEGATED_TO_YOU_PREFIX: string := "📋 Вам делегирована задача #"
  const YOU_DELEGATED_PREFIX: string := "📤 Вы делегировали задачу #"
  const YOU_DELEGATED_MIDDLE: string := " пользователю #"
  const COMPLETED_PREFIX: string := "🎉 Поздравляем! Задача #"
  const COMPLETED_MIDDLE: string := " '"
  const COMPLETED_SUFFIX: string := "' успешно завершена!"

  function CreatedText(title: Option<string>): string {
    CREATED_PREFIX + Show(title)
  }

  function DelegatedToYouText(taskId: Long): string {
    DELEGATED_TO_YOU_PREFIX + FormatLong(taskId)
  }

  function YouDelegatedText(taskId: Long, newOwnerId: Long): string {
    YOU_DELEGATED_PREFIX + FormatLong(taskId) + YOU_DELEGATED_MIDDLE + FormatLong(newOwnerId)
  }

  function CompletedText(taskId: Long, title: Option<string>): string {
    COMPLETED_PREFIX + FormatLong(taskId) + COMPLETED_MIDDLE + Show(title) + COMPLETED_SUFFIX
  }

  /** Both variable parts of a text shaped `p + x + m + y` occur in it. */
  lemma ContainsBothParts(p: string, x: string, m: string, y: string)
    ensures Contains(p + x + m + y, x)
    ensures Contains(p + x + m + y, y)
  {
    var t := p + x + m + y;
    assert t[|p|..|p| + |x|] == x;
    assert t[|p| + |x| + |m|..|t|] == y;
  }

  /** Both variable parts of a text shaped `p + x + m + y + q` occur in it. */
  lemma ContainsBothPartsBefore(p: string, x: string, m: string, y: string, q: string)
    ensures Contains(p + x + m + y + q, x)
    ensures Contains(p + x + m + y + q, y)
  {
    var t := p + x + m + y + q;
    assert t[|p|..|p| + |x|] == x;
    assert t[|p| + |x| + |m|..|p| + |x| + |m| + |y|] == y;
  }

  /** The variable part of a text shaped `p + x` occurs in it. */
  lemma ContainsTail(p: string, x: string)
    ensures Contains(p + x, x)
  {
    assert (p + x)[|p|..|p| + |x|] == x;
  }

  lemma CreatedTextMentionsTitle(title: Option<string>)
    ensures Contains(CreatedText(title), Show(title))
  {
    ContainsTail(CREATED_PREFIX, Show(title));
  }

  lemma DelegatedTextsMentionIds(taskId: Long, newOwnerId: Long)
    ensures Contains(DelegatedToYouText(taskId), FormatLong(taskId))
    ensures Contains(YouDelegatedText(taskId, newOwnerId), FormatLong(taskId))
    ensures Contains(YouDelegatedText(taskId, newOwnerId), FormatLong(newOwnerId))
  {
    var a, b := FormatLong(taskId), FormatLong(newOwnerId);
    ContainsTail(DELEGATED_TO_YOU_PREFIX, a);
    ContainsBothParts(YOU_DELEGATED_PREFIX, a, YOU_DELEGATED_MIDDLE, b);
  }

  lemma CompletedTextMentionsTask(taskId: Long, title: Option<string>)
    ensures Contains(CompletedText(taskId, title), FormatLong(taskId))
    ensures Contains(CompletedText(taskId, title), Show(title))
  {
    ContainsBothPartsBefore(COMPLETED_PREFIX, FormatLong(taskId), COMPLETED_MIDDLE, Show(title), COMPLETED_SUFFIX);
  }

  /** `findUserById(userId)` followed by a send when the user is present. */
  function SendToUser(users: Identity.Directory, userId: Option<Long>, text: string)
    : (r: seq<Message>)
    ensures |r| <= 1
    ensures |r| == 1 <==> userId.Some? && userId.value in users.users
    ensures |r| == 1 ==> r[0] == Message(users.users[userId.value].messengerId, text)
  {
    if userId.None? then []
    else
      match Identity.FindUserById(users, userId.value)
      case Some(u) => [Message(u.messengerId, text)]
      case None => []
  }

  /** The recipient is the messenger id of some user in the directory. */
  ghost predicate AddressedByMessengerId(users: Identity.Directory, m: Message) {
    exists id :: id in users.users && users.users[id].messengerId == m.recipient
  }

  /** `handleTaskCreated`: one message to the owner of the task if the directory
      knows the owner, none otherwise. `getTaskById` is not guarded, so an unknown
      task id makes the handler throw `TaskNotFound`. */
  function HandleTaskCreated(s: State, taskId: Long): (r: Result<seq<Message>, Error>)
    ensures r.Failure? <==> taskId !in s.tasks
    ensures r.Failure? ==> r.error == TaskNotFound(taskId)
    ensures r.Success? ==>
              var t := s.tasks[taskId];
              && |r.value| <= 1
              && (|r.value| == 1 <==> t.ownerId.Some? && t.ownerId.value in s.users.users)
              && (|r.value| == 1 ==>
                    && r.value[0].recipient == s.users.users[t.ownerId.value].messengerId
                    && Contains(r.value[0].text, Show(t.title)))
  {
    var task :- GetTaskById(s, taskId);
    CreatedTextMentionsTitle(task.title);
    Success(SendToUser(s.users, task.assignedToUserId, CreatedText(task.title)))
  }

  /** `handleTaskDelegated`: first a message to the new owner, then one to the
      previous owner, each sent only if that user is in the directory; a missing
      recipient does not suppress the other message. */
  function HandleTaskDelegated(users: Identity.Directory, taskId: Long,
                               previousOwnerId: Long, newOwnerId: Long): (r: seq<Message>)
    ensures |r| <= 2
    ensures |r| == (if newOwnerId in users.users then 1 else 0)
                   + (if previousOwnerId in users.users then 1 else 0)
    ensures newOwnerId in users.users ==>
              && r[0].recipient == users.users[newOwnerId].messengerId
              && Contains(r[0].text, FormatLong(taskId))
    ensures previousOwnerId in users.users ==>
              && r[|r| - 1].recipient == users.users[previousOwnerId].messengerId
              && Contains(r[|r| - 1].text, FormatLong(taskId))
              && Contains(r[|r| - 1].text, FormatLong(newOwnerId))
  {
    DelegatedTextsMentionIds(taskId, newOwnerId);
    var toNewOwner := SendToUser(users, Some(newOwnerId), DelegatedToYouText(taskId));
    var toPreviousOwner :=
      SendToUser(users, Some(previousOwnerId), YouDelegatedText(taskId, newOwnerId));
    toNewOwner + toPreviousOwner
  }

  /** `handleTaskCompleted`: one message to the task's current owner naming the task
      id and title, if the directory knows the owner; an unknown task id throws. */
  function HandleTaskCompleted(s: State, taskId: Long): (r: Result<seq<Message>, Error>)
    ensures r.Failure? <==> taskId !in s.tasks
    ensures r.Failure? ==> r.error == TaskNotFound(taskId)
    ensures r.Success? ==>
              var t := s.tasks[taskId];
              && |r.value| <= 1
              && (|r.value| == 1 <==> t.ownerId.Some? && t.ownerId.value in s.users.users)
              && (|r.value| == 1 ==>
                    && r.value[0].recipient == s.users.users[t.ownerId.value].messengerId
                    && Contains(r.value[0].text, FormatLong(taskId))
                    && Contains(r.value[0].text, Show(t.title)))
  {
    var task :- GetTaskById(s, taskId);
    CompletedTextMentionsTask(taskId, task.title);
    Success(SendToUser(s.users, task.assignedToUserId, CompletedText(taskId, task.title)))
  }

  /** The listener method an event is delivered to. */
  function Dispatch(s: State, e: Event): (r: Result<seq<Message>, Error>)
    ensures r.Success? ==> |r.value| <= (if e.TaskDelegated? then 2 else 1)
    ensures r.Success? ==> forall k :: 0 <= k < |r.value| ==> AddressedByMessengerId(s.users, r.value[k])
    ensures e.TaskDelegated? ==> r.Success?
    ensures !e.TaskDelegated? ==> (r.Success? <==> e.taskId in s.tasks)
  {
    match e
    case TaskCreated(taskId) => HandleTaskCreated(s, taskId)
    case TaskDelegated(taskId, previousOwnerId, newOwnerId) =>
      Success(HandleTaskDelegated(s.users, taskId, previousOwnerId, newOwnerId))
    case TaskCompleted(taskId) => HandleTaskCompleted(s, taskId)
  }

  /** Every event the workflow publishes is delivered against the state the call wrote
      earlier in the same transaction without the listener throwing: the task a created or completed event names is
      in the store at that point. */
  lemma PublishedEventsAreDeliverable(s: State, q: Request)
    requires Admissible(s, q)
    ensures var (s', events, _) := Step(s, q);
            forall k :: 0 <= k < |events| ==> Dispatch(s', events[k]).Success?
  {
    var (s', events, err) := Step(s, q);
    if err.None? {
      match q
      case Create(request, newId, now) =>
        assert events == [TaskCreated(newId)];
      case Update(id, dto, requesterId) =>
        assert events == [];
      case Delete(id, requesterId) =>
        assert events == [];
      case Delegate(id, targetUserId, requesterId) =>
      case Complete(id, requesterId) =>
        assert events == [TaskCompleted(id)];
    }
  }

  /** Creating a task notifies its creator, and nobody else, when the creator is in
      the directory. */
  lemma CreateNotifiesCreator(s: State, request: CreateTaskRequest, newId: Long, now: Instant)
    requires newId !in s.tasks
    ensures var c := CreateTask(s, request, newId, now);
            var u := request.creatorUserId;
            Dispatch(c.state, TaskCreated(newId))
              == Success(if u in s.users.users
                         then [Message(s.users.users[u].messengerId, CreatedText(Some(request.title)))]
                         else [])
  {
  }

  /** A successful delegation always notifies the new owner first (the workflow
      checked that user exists), and the former owner second exactly when the
      directory knows them. */
  lemma DelegateNotifiesBothOwners(s: State, taskId: Long, target: Long, requesterId: Long)
    requires DelegateTask(s, taskId, target, requesterId).Success?
    ensures var c := DelegateTask(s, taskId, target, requesterId).value;
            var out := Dispatch(c.state, c.events[0]);
            && out.Success?
            && |out.value| >= 1
            && out.value[0].recipient == s.users.users[target].messengerId
            && (|out.value| == 2 <==> requesterId in s.users.users)
            && (requesterId in s.users.users ==>
                  out.value[1].recipient == s.users.users[requesterId].messengerId)
  {
  }

  /** Completing a task notifies its owner, the requester, with the unchanged
      title. */
  lemma CompleteNotifiesOwner(s: State, taskId: Long, requesterId: Long)
    requires CompleteTask(s, taskId, requesterId).Success?
    ensures var c := CompleteTask(s, taskId, requesterId).value;
            Dispatch(c.state, TaskCompleted(taskId))
              == Success(if requesterId in s.users.users
                         then [Message(s.users.users[requesterId].messengerId,
                                       CompletedText(taskId, s.tasks[taskId].title))]
                         else [])
  {
  }
}
