# Productivity bot core, modelled in Dafny

A model of the task workflow behind a messenger bot, with proofs. Users are
registered by their messenger account. They create tasks, list them, update them,
delete them, hand them to another user and complete them. Each create, delegate
and complete publishes an application event, and a listener turns each event into
chat messages.

The model covers five parts:

- `TaskDomain` (`task_domain.dfy`): the `Task` entity. This covers its
  no-argument and full constructors, its `Builder`, and the `@PrePersist` hook
  `onCreate`.
- `Identity` (`identity.dfy`): `IdentityServiceImpl`. The users table is a map
  from the internal id to the user, plus the unique index from messenger id to
  internal id. `findOrCreateUser` and the four lookups are pure functions over
  that directory.
- `TaskService` (`task_service.dfy`): `TaskServiceImpl`.
  - The store is the tasks table, a scan order over its ids, and the user
    directory. The repository query behind `getTasksByUserId` has no ORDER BY,
    so any order is possible. The model fixes one: insertion order, kept
    through updates and deletes.
  - Every mutation returns either a `Committed` value or an `Error`. A
    `Committed` value holds the new state, the published events and the reply.
    The `Error` is one of `TaskNotFound`, `Forbidden` (Java's
    `SecurityException`) or `UserNotFound`.
  - `Step` runs one call. It shows that a refused call changes nothing and
    publishes nothing: the Java service throws before any write in that case.
- `Notifications` (`notifications.dfy`): `NotificationEventListener`. Each
  handler returns the messages it would send, in order. Each message has a
  messenger id as recipient and a text that uses the source's literals.
- `BotCommands` (`bot_commands.dfy`): the argument handling of
  `MaxBotController`. This covers `extractTaskTitle`, the request that
  `/addTask` builds, and the token and number checks of `/delegate` and
  `/complete`.

Two helper modules support them:

- `Wrappers` holds `Option` and `Result`.
- `JavaLang` holds the pieces of the Java library the core relies on:
  - 64-bit `long` and 32-bit `int` ranges;
  - `String.trim` (it strips every character up to U+0020);
  - `String.split("\\s+")`, which yields one token for a string with no
    whitespace and drops trailing empty tokens otherwise;
  - `Long.parseLong` with an optional sign and the 64-bit range check;
  - `Long.toString`.

A Java `null` becomes `None`. Java exceptions become `Failure` values. Fresh
database ids and the clock become parameters. An id generator is only assumed to
hand out an id not yet in the table (`requires newId !in s.tasks`).

## Model

| member | source | states |
|---|---|---|
| TaskDomain.BlankTask | task-service/src/main/java/com/max/productivity/task/domain/Task.java:22-24 | `new Task()` has status "TODO", priority 0 and every reference field null |
| TaskDomain.NewTask | task-service/src/main/java/com/max/productivity/task/domain/Task.java:47-56 | the full constructor turns a null status into "TODO", keeps a non-null one and stores every other argument unchanged |
| TaskDomain.NewBuilder | task-service/src/main/java/com/max/productivity/task/domain/Task.java:129-137 | a fresh builder holds status "TODO", priority 0 and nulls |
| TaskDomain.Build | task-service/src/main/java/com/max/productivity/task/domain/Task.java:179-181 | `build()` copies every slot into the task; a null status slot still gives "TODO" |
| TaskDomain.BuildDefaults | task-service/src/main/java/com/max/productivity/task/domain/Task.java:125-137 | an untouched builder builds the same task as the no-argument constructor |
| TaskDomain.BuildNullStatus | task-service/src/main/java/com/max/productivity/task/domain/Task.java:154-157 | setting the status to null on the builder still yields "TODO" |
| TaskDomain.RebuildIsIdentity | task-service/src/main/java/com/max/productivity/task/domain/Task.java:47-56 | building from a task's own fields returns that task when its status is non-null |
| TaskDomain.OnCreate | task-service/src/main/java/com/max/productivity/task/domain/Task.java:33-41 | after the hook both creation time and status are set; a present value is never overwritten; no other field changes |
| TaskDomain.OnCreateIdempotent | task-service/src/main/java/com/max/productivity/task/domain/Task.java:33-41 | running the hook a second time, at any time, changes nothing |
| Identity.MessengerIdsUnique | identity-service/src/main/java/com/max/productivity/identity/domain/User.java:26-27 | in a well-formed directory two users with the same messenger id are the same user |
| Identity.LookupMessenger | identity-service/src/main/java/com/max/productivity/identity/service/IdentityServiceImpl.java:38 | the repository query finds a user exactly when some row carries the messenger id, and returns that row |
| Identity.FindUserByMessengerId | identity-service/src/main/java/com/max/productivity/identity/service/IdentityServiceImpl.java:58-61 | present exactly when the messenger id is registered; the result is that user's DTO |
| Identity.UserExists | identity-service/src/main/java/com/max/productivity/identity/service/IdentityServiceImpl.java:26-28 | true exactly when the messenger id is registered |
| Identity.UserDtoForgetsOnlyRegisteredAt | identity-service/src/main/java/com/max/productivity/identity/service/IdentityServiceImpl.java:75-81 | two users map to the same DTO exactly when they differ at most in the registration instant |
| Identity.FindUserById | identity-service/src/main/java/com/max/productivity/identity/service/IdentityServiceImpl.java:64-67 | present exactly when the internal id is a key of the table, with that row's id, messenger id and name |
| Identity.UserExistsById | identity-service/src/main/java/com/max/productivity/identity/service/IdentityServiceImpl.java:31-33 | true exactly when the internal id is a key of the table |
| Identity.ExistsAgreesWithFind | identity-service/src/main/java/com/max/productivity/identity/service/IdentityServiceImpl.java:26-33 | each existence test agrees with the lookup of the same key |
| Identity.FindOrCreateUser | identity-service/src/main/java/com/max/productivity/identity/service/IdentityServiceImpl.java:36-55 | a known account is returned as stored and nothing is written; otherwise exactly one row with the fresh id, the name and `now` is added and no other row changes; the unique index stays valid; the returned user carries the messenger id |
| Identity.FindOrCreateTwice | identity-service/src/main/java/com/max/productivity/identity/service/IdentityServiceImpl.java:36-55 | a second registration of the same account returns the same user and writes nothing, so two calls add at most one user |
| Identity.FirstRegistration | identity-service/src/main/java/com/max/productivity/identity/service/IdentityServiceImpl.java:36-55 | the first registration into an empty directory yields a table holding only the new user and an index holding only its messenger id |
| TaskService.ToDtoForgetsOnlyCreatedAt | task-service/src/main/java/com/max/productivity/task/service/TaskServiceImpl.java:162-172 | two tasks map to the same DTO exactly when they differ at most in creation time |
| TaskService.Authorize | task-service/src/main/java/com/max/productivity/task/service/TaskServiceImpl.java:78-83 | an absent task is `TaskNotFound` before ownership is looked at; a task owned by someone else is `Forbidden` naming requester and task; otherwise the stored task |
| TaskService.CreateTask | task-service/src/main/java/com/max/productivity/task/service/TaskServiceImpl.java:37-53 | the stored task has the fresh id, the request's title, priority, due date and creator as owner, status "TODO", no description and `now` as creation time; exactly that row is added; one `TaskCreated` with the stored id; the reply is its DTO; the invariant is kept |
| TaskService.GetTaskById | task-service/src/main/java/com/max/productivity/task/service/TaskServiceImpl.java:56-60 | succeeds exactly for a stored id, with that task's DTO; otherwise `TaskNotFound` for the id |
| TaskService.OwnedBy | task-service/src/main/java/com/max/productivity/task/service/TaskServiceImpl.java:64-66 | the DTOs of exactly the stored tasks among the scanned ids that the user owns, each with the user as assignee; over distinct ids, one DTO per owned id; any two DTOs come from scanned positions in the same order |
| TaskService.GetTasksByUserId | task-service/src/main/java/com/max/productivity/task/service/TaskServiceImpl.java:63-67 | every listed DTO is owned by the user, comes from a stored task, and every task the user owns is listed; in a well-formed store the list has exactly as many entries as the user owns tasks, in the store's scan order |
| TaskService.NothingListedAtStart | task-service/src/main/java/com/max/productivity/task/service/TaskServiceImpl.java:63-67 | before any task is created, no user has a task to list |
| TaskService.GetTasksForUser | task-service/src/main/java/com/max/productivity/task/service/TaskServiceImpl.java:70-74 | the scan over the store returns exactly what `getTasksByUserId` returns |
| TaskService.UpdateTask | task-service/src/main/java/com/max/productivity/task/service/TaskServiceImpl.java:77-93 | not found, then forbidden, else success; title, description, status, priority and due date come from the DTO while id, owner and creation time stay; no other row changes; no event |
| TaskService.RemoveId | task-service/src/main/java/com/max/productivity/task/service/TaskServiceImpl.java:104 | removing an id from the scan order keeps every other id and keeps the ids distinct; any two remaining ids stay in the order they had |
| TaskService.DeleteTask | task-service/src/main/java/com/max/productivity/task/service/TaskServiceImpl.java:96-105 | not found, then forbidden, else exactly that row disappears; no event; the invariant is kept |
| TaskService.DelegateTask | task-service/src/main/java/com/max/productivity/task/service/TaskServiceImpl.java:108-139 | the checks run in the order task found, requester owns it, target user exists; on success only the owner changes, to the target; one `TaskDelegated` carrying the previous owner (the requester) and the target |
| TaskService.CompleteTask | task-service/src/main/java/com/max/productivity/task/service/TaskServiceImpl.java:142-160 | not found, then forbidden, else the status becomes "COMPLETED" whatever it was, nothing else changes, and one `TaskCompleted` is published |
| TaskService.Step | task-service/src/main/java/com/max/productivity/task/service/TaskServiceImpl.java:77-160 | a refused call leaves the state unchanged and publishes nothing; a mutation succeeds only for the task's owner; a non-owner is refused with `Forbidden`; at most one event; the directory is untouched; the invariant is kept |
| TaskService.FormerOwnerIsLockedOut | task-service/src/main/java/com/max/productivity/task/service/TaskServiceImpl.java:113-126 | after handing a task to another user, every update, delete, delegate or complete of it by the former owner is refused |
| TaskService.CompleteAgain | task-service/src/main/java/com/max/productivity/task/service/TaskServiceImpl.java:142-160 | completing a completed task succeeds, leaves the state as it was, and publishes `TaskCompleted` again |
| Notifications.Show | notification-service/src/main/java/com/max/productivity/notification/service/NotificationEventListener.java:54 | string concatenation shows a null title as "null" and any other title as itself |
| Notifications.CreatedTextMentionsTitle | notification-service/src/main/java/com/max/productivity/notification/service/NotificationEventListener.java:54 | the creation message contains the task title |
| Notifications.DelegatedTextsMentionIds | notification-service/src/main/java/com/max/productivity/notification/service/NotificationEventListener.java:78-89 | both delegation messages contain the decimal task id; the one to the previous owner also contains the new owner's id |
| Notifications.CompletedTextMentionsTask | notification-service/src/main/java/com/max/productivity/notification/service/NotificationEventListener.java:116 | the completion message contains the decimal task id and the title |
| Notifications.SendToUser | notification-service/src/main/java/com/max/productivity/notification/service/NotificationEventListener.java:50-59 | one message exactly when the internal id is in the directory, addressed to that user's messenger id |
| Notifications.HandleTaskCreated | notification-service/src/main/java/com/max/productivity/notification/service/NotificationEventListener.java:42-60 | fails with `TaskNotFound` exactly when the task is absent; otherwise at most one message, sent exactly when the owner is known, to the owner's messenger id, containing the title |
| Notifications.HandleTaskDelegated | notification-service/src/main/java/com/max/productivity/notification/service/NotificationEventListener.java:69-95 | one message per known user, the new owner's first; each goes to that user's messenger id and names the task; the previous owner's also names the new owner |
| Notifications.HandleTaskCompleted | notification-service/src/main/java/com/max/productivity/notification/service/NotificationEventListener.java:104-122 | fails exactly when the task is absent; otherwise at most one message, to the owner's messenger id, containing the id and the title |
| Notifications.Dispatch | notification-service/src/main/java/com/max/productivity/notification/service/NotificationEventListener.java:41-122 | at most one message per event (two for a delegation), each addressed by a registered messenger id; delegation never fails and the others fail only for an absent task |
| Notifications.PublishedEventsAreDeliverable | notification-service/src/main/java/com/max/productivity/notification/service/NotificationEventListener.java:46-108 | every event the workflow publishes is handled against the state written earlier in the same transaction without the handler's `getTaskById` throwing |
| Notifications.CreateNotifiesCreator | notification-service/src/main/java/com/max/productivity/notification/service/NotificationEventListener.java:42-60 | after `createTask`, its event notifies the creator, and only the creator, with the request's title, when the creator is known |
| Notifications.DelegateNotifiesBothOwners | notification-service/src/main/java/com/max/productivity/notification/service/NotificationEventListener.java:69-95 | after a successful delegation the new owner is always notified first, and the former owner second exactly when known |
| Notifications.CompleteNotifiesOwner | notification-service/src/main/java/com/max/productivity/notification/service/NotificationEventListener.java:104-122 | after `completeTask`, its event notifies the requester, the owner, with the unchanged title |
| BotCommands.ExtractTaskTitle | bot-gateway/src/main/java/com/max/productivity/gateway/MaxBotController.java:231-237 | after the exact prefix "/addTask " the trimmed rest, else the whole text trimmed, and "" for null; the title is trimmed and occurs in the text |
| BotCommands.AddTaskTitleRoundTrip | bot-gateway/src/main/java/com/max/productivity/gateway/MaxBotController.java:231-237 | a title without surrounding blanks typed after "/addTask " is extracted unchanged |
| BotCommands.AddTaskCommand | bot-gateway/src/main/java/com/max/productivity/gateway/MaxBotController.java:41-60 | the request carries the extracted title, priority 0 and no due date; its creator is the internal user registered for the sender's messenger id; a known sender leaves the directory unchanged and is the creator under its stored id; an unknown sender is registered by `findOrCreateUser` with the fresh id, which becomes the creator |
| BotCommands.ParseDelegate | bot-gateway/src/main/java/com/max/productivity/gateway/MaxBotController.java:122-150 | a null text is an unexpected error; fewer than three tokens is the usage error; otherwise a number-format error exactly when the second or third token is not a `long`; the command is accepted exactly when both parse, with those two values |
| BotCommands.ParseComplete | bot-gateway/src/main/java/com/max/productivity/gateway/MaxBotController.java:184-211 | a null text is an unexpected error; fewer than two tokens is the usage error; otherwise a number-format error exactly when the second token is not a `long`; the command is accepted exactly when it parses, with its value |
| BotCommands.DelegateRoundTrip | bot-gateway/src/main/java/com/max/productivity/gateway/MaxBotController.java:126-136 | "/delegate" followed by two ids written in decimal, and any further words, is read back as exactly those two ids |
| BotCommands.DelegateIgnoresExtraTokens | bot-gateway/src/main/java/com/max/productivity/gateway/MaxBotController.java:126-136 | words after the third token do not change the outcome of `/delegate` |
| BotCommands.DelegateTooFewTokens | bot-gateway/src/main/java/com/max/productivity/gateway/MaxBotController.java:128-133 | one or two words is answered with the usage hint |
| BotCommands.CompleteRoundTrip | bot-gateway/src/main/java/com/max/productivity/gateway/MaxBotController.java:188-197 | "/complete" followed by an id written in decimal, and any further words, is read back as exactly that id |
| BotCommands.BlankCommandIsUsageError | bot-gateway/src/main/java/com/max/productivity/gateway/MaxBotController.java:126-133 | an empty or all-blank text splits into one empty token and gets the usage hint from both commands |
| JavaLang.Trim | bot-gateway/src/main/java/com/max/productivity/gateway/MaxBotController.java:234-236 | `String.trim`: the result neither starts nor ends with a character up to U+0020, it is an infix of the input, and only such characters are cut off |
| JavaLang.TrimIdempotent | bot-gateway/src/main/java/com/max/productivity/gateway/MaxBotController.java:234-236 | trimming twice is trimming once |
| JavaLang.Split | bot-gateway/src/main/java/com/max/productivity/gateway/MaxBotController.java:126 | `split("\\s+")`: the empty string gives one empty token; a string without whitespace gives itself; no token holds whitespace; a string not starting with whitespace gives at least one token and no empty ones; an all-whitespace string gives none; for a string not ending in whitespace, the tokens joined by single spaces are the string with each whitespace run squeezed to one space (`Squeeze`) |
| JavaLang.SplitJoinWords | bot-gateway/src/main/java/com/max/productivity/gateway/MaxBotController.java:126 | splitting words joined by single spaces on `\s+` gives the words back |
| JavaLang.ParseLong | bot-gateway/src/main/java/com/max/productivity/gateway/MaxBotController.java:135-136 | a digit string, optionally after one '+' or '-', parses exactly when its value lies in the 64-bit range, and then to that value; a string that parses is non-empty and blank-free, starts with a digit or with a sign followed by more, has only digits after its first character, and yields a negative value only after a leading '-' |
| JavaLang.ParseFormatOutOfRange | bot-gateway/src/main/java/com/max/productivity/gateway/MaxBotController.java:135-136 | the decimal form of a number outside the 64-bit range does not parse |
| JavaLang.FormatLong | notification-service/src/main/java/com/max/productivity/notification/service/NotificationEventListener.java:78 | the decimal form is one blank-free token that starts with '-' exactly for negative numbers and otherwise with a digit; every later character is a digit; there is no '+', no leading zero and no "-0" |
| JavaLang.ParseFormatLong | bot-gateway/src/main/java/com/max/productivity/gateway/MaxBotController.java:135-136 | `Long.parseLong(Long.toString(x)) == x` for every `long` |
| JavaLang.CanonicalIsFormat | notification-service/src/main/java/com/max/productivity/notification/service/NotificationEventListener.java:78 | a decimal string in canonical form (optional '-', digits, no leading zero, no "-0") that parses to `x` is exactly `Long.toString(x)`, so the canonical form is unique |

## Left out

- Persistence and transactions are not modelled: JPA, `@Transactional` and the
  repositories. A table is a map, and the tasks table also has a scan order. A
  refused call is modelled by returning the old state unchanged.
- Spring's event publishing, and the order in which listeners run, are not
  modelled. A workflow call returns its events, and `Dispatch` hands one event to
  the listener method for it.
- The listener's effect on the workflow call's outcome is not modelled. The
  listener methods run synchronously inside the `@Transactional` call, so a
  failure while sending (an exception from the messenger client) propagates out
  of `createTask`, `delegateTask` or `completeTask` and rolls the write back. The
  model treats delivery as independent of the call's outcome.
- The messenger client is not modelled. Its `SendMessageQuery(...).execute()`
  calls become the returned `Message` list. The SDK stub classes are left out.
- The clock (`Instant.now()`) and the generated ids are parameters.
- Concurrency is not modelled: two requests racing for the same messenger id
  or the same task.
- The column constraints are not enforced when data is written.
  - A task's title and owner are NOT NULL, and a user's name is NOT NULL.
  - The model keeps a non-null owner in its store invariant.
  - It does not reject a null title or status that `updateTask` copies from the
    DTO.
  - A request's title and creator are never null in the model.
- TaskService.GetTasksByUserId: Java promises no order. `findByOwnerId` is a
  derived query without ORDER BY, so the database may return the rows in any
  order, and a different one on each call. The model fixes one possible order:
  insertion order, kept through updates and deletes. Its order clause holds for
  that order only.
- Identity.FindOrCreateUser: the user name is never null in the model. In Java
  a first registration with a null `userName` fails on the NOT NULL column
  (`User.java` line 33), so every command from such an account throws. A known
  account is still returned, with no write, whatever name is passed.
- TaskService.Authorize: a task stored with a null owner is modelled as
  `Forbidden`. Java would throw a `NullPointerException` from
  `getOwnerId().equals`. The store invariant rules such a task out.
- Notifications.SendToUser: a null owner id is modelled as "no recipient".
  Java would pass `null` to `findById`, which throws. Under the store invariant
  every task has an owner.
- JavaLang.ParseLong accepts only the ASCII digits '0' to '9'. `Long.parseLong`
  also accepts the other Unicode decimal digits.
- The `/myTasks` reply text is not modelled. The task list it shows is
  `GetTasksForUser`.
- The console texts of the commands are not modelled. Of the controller's
  commands, only argument parsing and the `/addTask` request are modelled.
- The controller's calls into the workflow are not modelled:
  - `/delegate` and `/complete` call `delegateTask(taskId, targetUserId)` and
    `completeTask(taskId)`. They pass no requester, but the service interface
    declares one (`TaskService.java` lines 79 and 91).
  - The REST endpoints (lines 247-294) call `updateTask` and `deleteTask` the
    same way, without a requester.
  - Those calls do not match the interface, so the model stops at the parsed
    arguments.
- `findByOwnerIdAndStatus` is not modelled, because no core operation calls it.
