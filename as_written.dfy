/**
  Line 169 as it is written: inside the discussion loop, a user met for the
  first time has the unread messages requested by `get_messages()` with no
  argument, while `get_messages` (line 122) takes the user id. The rest of
  the model uses the call of line 173, `get_messages(userid)`, in both places
  (`Notificator.RecordUser`).
 */
module AsWritten {
  import opened Wrappers
  import opened MoodleData
  import opened Activity
  import opened FirstSeen
  import opened Notificator
  import opened Scenarios

  /** What a call of `get_messages` with the argument list `args` does. */
  datatype CallOutcome = Returned(messages: seq<Message>) | RequestFailed | TypeError

  /**
    Python binds the arguments before the body runs: any number of arguments
    other than one raises a TypeError; one argument makes the remote request.
   */
  function CallGetMessages(dir: Directory, args: seq<int>): (r: CallOutcome)
    ensures r.TypeError? <==> |args| != 1
    ensures r.Returned? ==> args[0] in dir.messages && r.messages == dir.messages[args[0]]
  {
    if |args| != 1 then TypeError
    else if args[0] in dir.messages then Returned(dir.messages[args[0]])
    else RequestFailed
  }

  /** Lines 167-169 as written, for the roster entry `u`. */
  function RecordInLoopAsWritten(dir: Directory, agg: Aggregation, u: EnrolledUser): (r: Result<Aggregation, CallOutcome>)
    ensures r.Ok? <==> u.id in agg.usercol
    ensures r.Ok? ==> r.value == agg
  {
    if u.id in agg.usercol then Ok(agg)
    else
      match CallGetMessages(dir, [])
      case Returned(ms) =>
        Ok(agg.(usercol := agg.usercol[u.id := IdentityOf(u)], msgcol := agg.msgcol[u.id := ms], order := agg.order + [u.id]))
      case other => Err(other)
  }

  /** As written, recording any user not yet in `usercol` raises a TypeError. */
  lemma AsWrittenFailsOnNewUser(dir: Directory, agg: Aggregation, u: EnrolledUser)
    requires u.id !in agg.usercol
    ensures RecordInLoopAsWritten(dir, agg, u) == Err(TypeError)
  {
  }

  /**
    The input that shows line 169 failing: every request is answered, the
    discussion is recent, so user 5 is met inside the discussion loop with an
    empty `usercol`, and the call as written raises a TypeError; the call
    of line 173 returns the user's messages.
   */
  lemma Line169Counterexample(now: int)
    ensures Available(OneCourse(now))
    ensures Recent(Discussion("Bob", now - 3600, "Welcome"), now)
    ensures RecordInLoopAsWritten(OneCourse(now), Aggregation(map[], map[], map[], []), EnrolledUser(5, "a@x.com", "Ann")) == Err(TypeError)
    ensures CallGetMessages(OneCourse(now), [5]) == Returned([])
  {
    var dir := OneCourse(now);
    assert CourseAvailable(dir, Course(2, "Intro"));
  }
}
