/** The argument parsing of the chat-bot commands: the task title of `/addTask`, the
    request it builds, and the token and number checks of `/delegate` and
    `/complete`, all done before any workflow call.
 */
module BotCommands {
  import opened Wrappers
  import opened JavaLang
  import Identity
  import opened TaskService

  const ADD_TASK_PREFIX: string := "/addTask "

  /** How a command is rejected before it reaches the workflow: too few tokens (the
      usage hint), a token that is not a `long` (`NumberFormatException`), or a null
      message text, whose `trim()` throws and lands in the catch-all handler. */
  datatype CommandError = Usage | NumberFormat | Unexpected

  /** `extractTaskTitle`: after the exact prefix "/addTask " the rest of the text,
      trimmed; any other text trimmed in full; a null text gives "". */
  function ExtractTaskTitle(text: Option<string>): (r: string)
    ensures Trimmed(r)
    ensures text.None? ==> r == ""
    ensures text.Some? ==> Contains(text.value, r)
    ensures text.Some? && StartsWith(text.value, ADD_TASK_PREFIX) ==>
              r == Trim(text.value[|ADD_TASK_PREFIX|..])
    ensures text.Some? && !StartsWith(text.value, ADD_TASK_PREFIX) ==> r == Trim(text.value)
  {
    match text
    case None => ""
    case Some(t) =>
      if StartsWith(t, ADD_TASK_PREFIX) then
        TrimWithin(t, |ADD_TASK_PREFIX|);
        Trim(t[|ADD_TASK_PREFIX|..])
      else
        TrimWithin(t, 0);
        assert t[0..] == t;
        Trim(t)
  }

  /** The title typed after "/addTask " comes back unchanged when it has no
      surrounding blanks. */
  lemma AddTaskTitleRoundTrip(title: string)
    requires Trimmed(title)
    ensures ExtractTaskTitle(Some(ADD_TASK_PREFIX + title)) == title
  {
    var t := ADD_TASK_PREFIX + title;
    assert t[..|ADD_TASK_PREFIX|] == ADD_TASK_PREFIX;
    assert t[|ADD_TASK_PREFIX|..] == title;
    TrimOfTrimmed(title);
  }

  /** `handleAddTask` up to the workflow call: register (or find) the sender, then
      build a request with the extracted title, priority 0, no due date and the
      sender's internal id as creator. */
  function AddTaskCommand(d: Identity.Directory, messengerId: Long, userName: string,
                          text: Option<string>, freshUserId: Long, now: Instant)
    : (r: (Identity.Directory, CreateTaskRequest))
    requires freshUserId !in d.users
    ensures r.1.title == ExtractTaskTitle(text)
    ensures r.1.priority == 0 && r.1.dueDate.None?
    ensures Identity.Valid(d) ==>
              && Identity.Valid(r.0)
              && r.1.creatorUserId in r.0.users
              && r.0.users[r.1.creatorUserId].messengerId == messengerId
    ensures Identity.Valid(d) && Identity.LookupMessenger(d, messengerId).Some? ==>
              r.0 == d && r.1.creatorUserId == Identity.LookupMessenger(d, messengerId).value.id
    ensures Identity.Valid(d) && Identity.LookupMessenger(d, messengerId).None? ==>
              && r.1.creatorUserId == freshUserId
              && r.0 == Identity.FindOrCreateUser(d, messengerId, userName, freshUserId, now).0
  {
    var (d', user) := Identity.FindOrCreateUser(d, messengerId, userName, freshUserId, now);
    (d', CreateTaskRequest(ExtractTaskTitle(text), 0, None, user.id))
  }

  /** The argument check of `handleDelegateTask`: split the trimmed text on runs of
      whitespace, demand at least three tokens, then parse the second and the third
      as `long`s. Further tokens are ignored. */
  function ParseDelegate(text: Option<string>): (r: Result<(Long, Long), CommandError>)
    ensures text.None? ==> r == Failure(Unexpected)
    ensures text.Some? && |Split(Trim(text.value))| < 3 ==> r == Failure(Usage)
    ensures text.Some? && |Split(Trim(text.value))| >= 3 ==>
              var parts := Split(Trim(text.value));
              && (r == Failure(NumberFormat) <==>
                    ParseLong(parts[1]).None? || ParseLong(parts[2]).None?)
              && (r.Success? ==> Some(r.value.0) == ParseLong(parts[1])
                                 && Some(r.value.1) == ParseLong(parts[2]))
    ensures text.Some? && |Split(Trim(text.value))| >= 3 ==>
              var parts := Split(Trim(text.value));
              ParseLong(parts[1]).Some? && ParseLong(parts[2]).Some? ==>
                r == Success((ParseLong(parts[1]).value, ParseLong(parts[2]).value))
  {
    match text
    case None => Failure(Unexpected)
    case Some(t) =>
      DelegateArguments(Split(Trim(t)))
  }

  function DelegateArguments(parts: seq<string>): Result<(Long, Long), CommandError> {
    if |parts| < 3 then Failure(Usage)
    else
      match (ParseLong(parts[1]), ParseLong(parts[2]))
      case (Some(taskId), Some(targetUserId)) => Success((taskId, targetUserId))
      case _ => Failure(NumberFormat)
  }

  /** The argument check of `handleCompleteTask`: at least two tokens, and the second
      must be a `long`. */
  function ParseComplete(text: Option<string>): (r: Result<Long, CommandError>)
    ensures text.None? ==> r == Failure(Unexpected)
    ensures text.Some? && |Split(Trim(text.value))| < 2 ==> r == Failure(Usage)
    ensures text.Some? && |Split(Trim(text.value))| >= 2 ==>
              var parts := Split(Trim(text.value));
              && (r == Failure(NumberFormat) <==> ParseLong(parts[1]).None?)
              && (r.Success? ==> Some(r.value) == ParseLong(parts[1]))
    ensures text.Some? && |Split(Trim(text.value))| >= 2 ==>
              var parts := Split(Trim(text.value));
              ParseLong(parts[1]).Some? ==> r == Success(ParseLong(parts[1]).value)
  {
    match text
    case None => Failure(Unexpected)
    case Some(t) =>
      CompleteArguments(Split(Trim(t)))
  }

  function CompleteArguments(parts: seq<string>): Result<Long, CommandError> {
    if |parts| < 2 then Failure(Usage)
    else
      match ParseLong(parts[1])
      case Some(taskId) => Success(taskId)
      case None => Failure(NumberFormat)
  }

  /** A command typed as words separated by single spaces splits back into exactly
      those words. */
  lemma TokensOfWords(ts: seq<string>)
    requires |ts| >= 1
    requires forall i :: 0 <= i < |ts| ==> Word(ts[i])
    ensures Split(Trim(JoinWords(ts))) == ts
  {
    JoinWordsShape(ts);
    TrimOfTrimmed(JoinWords(ts));
    SplitJoinWords(ts);
  }

  /** A command typed as single-space-separated words hands exactly those words to
      the argument checks of `/delegate` and `/complete`. */
  lemma CommandsReadWords(ts: seq<string>)
    requires |ts| >= 1
    requires forall i :: 0 <= i < |ts| ==> Word(ts[i])
    ensures ParseDelegate(Some(JoinWords(ts))) == DelegateArguments(ts)
    ensures ParseComplete(Some(JoinWords(ts))) == CompleteArguments(ts)
  {
    TokensOfWords(ts);
  }

  /** The ids at positions 1 and 2 of the tokens are what `/delegate` returns. */
  lemma DelegateArgumentsOfIds(ts: seq<string>, taskId: Long, targetUserId: Long)
    requires |ts| >= 3 && ts[1] == FormatLong(taskId) && ts[2] == FormatLong(targetUserId)
    ensures DelegateArguments(ts) == Success((taskId, targetUserId))
  {
    ParseFormatLong(taskId);
    ParseFormatLong(targetUserId);
  }

  /** A few words followed by more words are all words. */
  lemma WordsPrepend(front: seq<string>, extra: seq<string>)
    requires forall i :: 0 <= i < |front| ==> Word(front[i])
    requires forall i :: 0 <= i < |extra| ==> Word(extra[i])
    ensures forall i :: 0 <= i < |front + extra| ==> Word((front + extra)[i])
  {
  }

  /** Three words followed by more words are all words. */
  lemma ThreeWordsThen(x: string, y: string, z: string, extra: seq<string>)
    requires Word(x) && Word(y) && Word(z)
    requires forall i :: 0 <= i < |extra| ==> Word(extra[i])
    ensures forall i :: 0 <= i < |[x, y, z] + extra| ==> Word(([x, y, z] + extra)[i])
  {
    WordsPrepend([x, y, z], extra);
  }

  /** A prefix of a list of words is a list of words. */
  lemma WordsPrefix(ts: seq<string>, n: nat)
    requires n <= |ts|
    requires forall i :: 0 <= i < |ts| ==> Word(ts[i])
    ensures forall i :: 0 <= i < |ts[..n]| ==> Word(ts[..n][i])
  {
  }

  /** `/delegate` looks at no token past the third. */
  lemma DelegateArgumentsOfPrefix(ts: seq<string>)
    requires |ts| >= 3
    ensures DelegateArguments(ts) == DelegateArguments(ts[..3])
  {
    assert ts[..3][1] == ts[1] && ts[..3][2] == ts[2];
  }

  /** The decimal form of a `long` is a word. */
  lemma FormattedIsWord(x: Long)
    ensures Word(FormatLong(x))
  {
  }

  /** `/delegate <taskId> <userId>` written with `Long.toString` is read back as
      those two ids, whatever words follow. */
  lemma DelegateRoundTrip(command: string, taskId: Long, targetUserId: Long, extra: seq<string>)
    requires Word(command)
    requires forall i :: 0 <= i < |extra| ==> Word(extra[i])
    ensures ParseDelegate(Some(JoinWords([command, FormatLong(taskId), FormatLong(targetUserId)] + extra)))
            == Success((taskId, targetUserId))
  {
    var a, b := FormatLong(taskId), FormatLong(targetUserId);
    FormattedIsWord(taskId);
    FormattedIsWord(targetUserId);
    ThreeWordsThen(command, a, b, extra);
    var ts := [command, a, b] + extra;
    CommandsReadWords(ts);
    DelegateArgumentsOfIds(ts, taskId, targetUserId);
  }

  /** Only the first three tokens matter to `/delegate`. */
  lemma DelegateIgnoresExtraTokens(ts: seq<string>)
    requires |ts| >= 3
    requires forall i :: 0 <= i < |ts| ==> Word(ts[i])
    ensures ParseDelegate(Some(JoinWords(ts))) == ParseDelegate(Some(JoinWords(ts[..3])))
  {
    CommandsReadWords(ts);
    WordsPrefix(ts, 3);
    CommandsReadWords(ts[..3]);
    DelegateArgumentsOfPrefix(ts);
  }

  /** `/delegate` with one or two words is answered with the usage hint. */
  lemma DelegateTooFewTokens(ts: seq<string>)
    requires 1 <= |ts| < 3
    requires forall i :: 0 <= i < |ts| ==> Word(ts[i])
    ensures ParseDelegate(Some(JoinWords(ts))) == Failure(Usage)
  {
    TokensOfWords(ts);
  }

  /** `/complete <taskId>` written with `Long.toString` is read back as that id,
      whatever words follow. */
  lemma CompleteRoundTrip(command: string, taskId: Long, extra: seq<string>)
    requires Word(command)
    requires forall i :: 0 <= i < |extra| ==> Word(extra[i])
    ensures ParseComplete(Some(JoinWords([command, FormatLong(taskId)] + extra))) == Success(taskId)
  {
    var a := FormatLong(taskId);
    FormattedIsWord(taskId);
    WordsPrepend([command, a], extra);
    var ts := [command, a] + extra;
    CommandsReadWords(ts);
    ParseFormatLong(taskId);
    assert ts[1] == a;
  }

  /** An empty or all-blank message is answered with the usage hint: Java splits ""
      into one empty token. */
  lemma BlankCommandIsUsageError(text: string)
    requires forall i :: 0 <= i < |text| ==> IsTrimmable(text[i])
    ensures ParseDelegate(Some(text)) == Failure(Usage)
    ensures ParseComplete(Some(text)) == Failure(Usage)
  {
    assert TrimStartFrom(text, 0) == |text|;
    assert Trim(text) == [];
    assert Split(Trim(text)) == [""];
  }
}
