/**
  The records the notificator reads from the Moodle web services, and the
  remote directory as one snapshot of the answers those services give.
  A service call that fails (a non-200 status or an `exception` field, after
  which the program exits) is a key the snapshot does not answer.
 */
module MoodleData {
  import opened Wrappers

  /** An entry of `core_course_get_courses`, reduced to `(id, fullname)`. */
  datatype Course = Course(id: int, fullname: string)

  /** An entry of `core_enrol_get_enrolled_users`, reduced to `(id, email, fullname)`. */
  datatype EnrolledUser = EnrolledUser(id: int, email: string, fullname: string)

  /** An entry of `mod_forum_get_forums_by_courses`, reduced to `(course, type, id)`. */
  datatype Forum = Forum(course: int, kind: string, id: int)

  /**
    An entry of `mod_forum_get_forum_discussions`, reduced to
    `(firstuserfullname, timemodified, subject)`; the time is in Unix seconds.
   */
  datatype Discussion = Discussion(firstUserFullname: string, timeModified: int, subject: string)

  /** An unread private message; the notificator only counts them. */
  datatype Message = Message(id: int, userFromFullname: string, subject: string, timeCreated: int)

  /**
    What the Moodle installation answers during one run: the course list, and
    per course id its roster and its forums, per forum id its discussions, and
    per user id the unread messages (`core_message_get_messages`).
   */
  datatype Directory = Directory(
    courses: seq<Course>,
    rosters: map<int, seq<EnrolledUser>>,
    forums: map<int, seq<Forum>>,
    discussions: map<int, seq<Discussion>>,
    messages: map<int, seq<Message>>)

  /** The web-service calls the aggregation makes after the course list. */
  datatype Request =
    | EnrolledUsers(courseId: int)
    | ForumsByCourse(courseId: int)
    | ForumDiscussions(forumId: int)
    | UnreadMessages(userId: int)

  /** The directory answers `req` (the call succeeds). */
  predicate Answers(dir: Directory, req: Request)
  {
    match req
    case EnrolledUsers(cid) => cid in dir.rosters
    case ForumsByCourse(cid) => cid in dir.forums
    case ForumDiscussions(fid) => fid in dir.discussions
    case UnreadMessages(uid) => uid in dir.messages
  }

  /**
    The walk over the directory reaches `req` unless an earlier call fails:
    roster and forums of every listed course, the discussions of every forum
    of a listed course, and the messages of every user on a listed roster.
   */
  ghost predicate Needed(dir: Directory, req: Request)
  {
    match req
    case EnrolledUsers(cid) => exists c :: c in dir.courses && c.id == cid
    case ForumsByCourse(cid) => exists c :: c in dir.courses && c.id == cid
    case ForumDiscussions(fid) =>
      exists c, f :: c in dir.courses && c.id in dir.forums && f in dir.forums[c.id] && f.id == fid
    case UnreadMessages(uid) =>
      exists c, u :: c in dir.courses && c.id in dir.rosters && u in dir.rosters[c.id] && u.id == uid
  }

  /** Every call the walk makes for course `c` succeeds. */
  predicate CourseAvailable(dir: Directory, c: Course)
  {
    && c.id in dir.rosters
    && c.id in dir.forums
    && (forall f :: f in dir.forums[c.id] ==> f.id in dir.discussions)
    && (forall u :: u in dir.rosters[c.id] ==> u.id in dir.messages)
  }

  predicate CoursesAvailable(dir: Directory, cs: seq<Course>)
  {
    forall c :: c in cs ==> CourseAvailable(dir, c)
  }

  /** Every call of the whole run succeeds. */
  predicate Available(dir: Directory)
  {
    CoursesAvailable(dir, dir.courses)
  }

  /** The whole run succeeds exactly when every call it needs is answered. */
  lemma AvailableIffNeededAnswered(dir: Directory)
    ensures Available(dir) <==> forall req :: Needed(dir, req) ==> Answers(dir, req)
  {
    if Available(dir) {
      forall req | Needed(dir, req) ensures Answers(dir, req) {
        match req
        case EnrolledUsers(cid) =>
        case ForumsByCourse(cid) =>
        case ForumDiscussions(fid) =>
          var c, f :| c in dir.courses && c.id in dir.forums && f in dir.forums[c.id] && f.id == fid;
          assert CourseAvailable(dir, c);
        case UnreadMessages(uid) =>
          var c, u :| c in dir.courses && c.id in dir.rosters && u in dir.rosters[c.id] && u.id == uid;
          assert CourseAvailable(dir, c);
      }
    } else {
      var c :| c in dir.courses && !CourseAvailable(dir, c);
      if c.id !in dir.rosters {
        assert Needed(dir, EnrolledUsers(c.id)) && !Answers(dir, EnrolledUsers(c.id));
      } else if c.id !in dir.forums {
        assert Needed(dir, ForumsByCourse(c.id)) && !Answers(dir, ForumsByCourse(c.id));
      } else if f :| f in dir.forums[c.id] && f.id !in dir.discussions {
        assert Needed(dir, ForumDiscussions(f.id)) && !Answers(dir, ForumDiscussions(f.id));
      } else {
        var u :| u in dir.rosters[c.id] && u.id !in dir.messages;
        assert Needed(dir, UnreadMessages(u.id)) && !Answers(dir, UnreadMessages(u.id));
      }
    }
  }

  /** An entry of the `users` list answered by `core_user_get_users`. */
  datatype UserRecord = UserRecord(id: int, email: string)

  /** `get_email_address`: the first user's `(id, email)`, or none for an empty answer. */
  function EmailAddress(users: seq<UserRecord>): (r: Option<(int, string)>)
    ensures r.None? <==> users == []
    ensures r.Some? ==> r.value == (users[0].id, users[0].email)
  {
    if |users| > 0 then Some((users[0].id, users[0].email)) else None
  }

  /** Only the first record of the answer decides the address. */
  lemma EmailAddressOfFirst(users: seq<UserRecord>, rest: seq<UserRecord>)
    requires users != []
    ensures EmailAddress(users[..1] + rest) == EmailAddress(users)
  {
    assert (users[..1] + rest)[0] == users[0];
  }
}
