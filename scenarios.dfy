/**
  Small directories worked through the model: what a successful fetch
  returns for them and who gets which mail.
 */
module Scenarios {
  import opened Wrappers
  import opened Maps
  import opened MoodleData
  import opened Activity
  import opened FirstSeen
  import opened Notificator
  import opened Mailing

  /**
    One course, one forum, one discussion `age` seconds old, one enrolled
    user whose unread messages are `msgs`.
   */
  function OneCourseAt(now: int, age: int, msgs: seq<Message>): Directory
  {
    Directory([Course(2, "Intro")],
              map[2 := [EnrolledUser(5, "a@x.com", "Ann")]],
              map[2 := [Forum(2, "general", 11)]],
              map[11 := [Discussion("Bob", now - age, "Welcome")]],
              map[5 := msgs])
  }

  /** The same with the discussion an hour old and no unread message. */
  function OneCourse(now: int): Directory
  {
    OneCourseAt(now, 3600, [])
  }

  /** The activity over a single course. */
  lemma ActivityOfOne(dir: Directory, now: int, c: Course, uid: int)
    requires CourseAvailable(dir, c)
    ensures CoursesAvailable(dir, [c])
    ensures ActivityOf(dir, now, [c], uid) == Spread(CourseItems(dir, now, c), Occurrences(dir.rosters[c.id], uid))
  {
    assert [c][..0] == [];
  }

  /** The items of a course with one forum that has one discussion. */
  lemma ItemsOfOne(dir: Directory, now: int, c: Course, f: Forum, d: Discussion)
    requires c.id in dir.forums && dir.forums[c.id] == [f]
    requires f.id in dir.discussions && dir.discussions[f.id] == [d]
    ensures ForumsAnswered(dir, [f])
    ensures ForumItems(dir, now, c, [f]) == if Recent(d, now) then [MakeItem(c, f, d)] else []
  {
    assert [f][..0] == [];
    assert [d][..0] == [];
  }

  /** Spreading one item over a roster on which the user stands once. */
  lemma SpreadOnce(items: seq<ActivityItem>, item: ActivityItem)
    requires items == [item]
    ensures Spread(items, 1) == [item] && Spread(items, 0) == []
  {
    assert items[..0] == [];
  }

  /** Over `OneCourseAt`, only user 5 can have activity: the one item, if the discussion is recent. */
  lemma OneCourseActivity(now: int, age: int, msgs: seq<Message>, uid: int)
    ensures Available(OneCourseAt(now, age, msgs))
    ensures ActivityOf(OneCourseAt(now, age, msgs), now, OneCourseAt(now, age, msgs).courses, uid) ==
            if uid == 5 && age <= Window then [ActivityItem(2, "Welcome", "Intro", "Bob")] else []
  {
    var dir := OneCourseAt(now, age, msgs);
    var c, f, d := Course(2, "Intro"), Forum(2, "general", 11), Discussion("Bob", now - age, "Welcome");
    var roster := [EnrolledUser(5, "a@x.com", "Ann")];
    assert CourseAvailable(dir, c);
    ItemsOfOne(dir, now, c, f, d);
    assert roster[..0] == [];
    SpreadOnce([MakeItem(c, f, d)], MakeItem(c, f, d));
    SpreadEmpty([], Occurrences(roster, uid));
    ActivityOfOne(dir, now, c, uid);
  }

  /** Over `OneCourseAt`, the roster entries are user 5's single entry. */
  lemma OneCourseEntries(now: int, age: int, msgs: seq<Message>)
    ensures Available(OneCourseAt(now, age, msgs))
    ensures RosterEntries(OneCourseAt(now, age, msgs), OneCourseAt(now, age, msgs).courses) == [EnrolledUser(5, "a@x.com", "Ann")]
    ensures IdentityMap([EnrolledUser(5, "a@x.com", "Ann")]) == map[5 := Identity("a@x.com", "Ann")]
    ensures FirstSeenOrder([EnrolledUser(5, "a@x.com", "Ann")]) == [5]
  {
    var dir := OneCourseAt(now, age, msgs);
    assert CourseAvailable(dir, Course(2, "Intro"));
    assert [Course(2, "Intro")][..0] == [];
    assert [EnrolledUser(5, "a@x.com", "Ann")][..0] == [];
  }

  /**
    A recent discussion: the only enrolled user gets one forum entry naming
    the course, the subject and the author, and no message phrase, since
    the snapshot is empty.
   */
  lemma ScenarioRecent(now: int, agg: Aggregation)
    requires Fetched(OneCourse(now), now, agg)
    ensures agg.collector == map[5 := [ActivityItem(2, "Welcome", "Intro", "Bob")]]
    ensures agg.usercol == map[5 := Identity("a@x.com", "Ann")] && agg.order == [5]
    ensures Recipients(agg.order, agg.collector, agg.msgcol) == [5]
    ensures DigestFor(5, agg.collector, agg.msgcol, agg.usercol) == Digest("Ann", None, [ForumEntry("Intro", "Welcome", "Bob")])
  {
    var item := ActivityItem(2, "Welcome", "Intro", "Bob");
    forall uid ensures Lookup(agg.collector, uid) == Lookup(map[5 := [item]], uid) {
      OneCourseActivity(now, 3600, [], uid);
    }
    LookupExtensional(agg.collector, map[5 := [item]]);
    OneCourseEntries(now, 3600, []);
    assert [5][..0] == [];
  }

  /**
    A discussion three days old: no activity at all, and the user gets a
    mail, with the message phrase and no forum entry, exactly when there are
    unread messages.
   */
  lemma ScenarioStale(now: int, msgs: seq<Message>, agg: Aggregation)
    requires Fetched(OneCourseAt(now, 3 * 86400, msgs), now, agg)
    ensures agg.collector == map[]
    ensures Recipients(agg.order, agg.collector, agg.msgcol) == if msgs == [] then [] else [5]
    ensures DigestFor(5, agg.collector, agg.msgcol, agg.usercol) == Digest("Ann", UnreadPhrase(|msgs|), [])
  {
    forall uid ensures Lookup(agg.collector, uid) == Lookup(map[], uid) {
      OneCourseActivity(now, 3 * 86400, msgs, uid);
    }
    LookupExtensional(agg.collector, map[]);
    OneCourseEntries(now, 3 * 86400, msgs);
    assert [5][..0] == [];
  }

  /**
    Two courses with a recent discussion each; user 5 stands on both
    rosters, with a different address on the second, and user 6 only on the
    second, before user 5.
   */
  function TwoCourses(now: int): Directory
  {
    Directory([Course(2, "Intro"), Course(3, "Lab")],
              map[2 := [EnrolledUser(5, "a@x.com", "Ann")],
                  3 := [EnrolledUser(6, "c@x.com", "Cem"), EnrolledUser(5, "ann@y.org", "Ann B")]],
              map[2 := [Forum(2, "general", 11)], 3 := [Forum(3, "news", 12)]],
              map[11 := [Discussion("Bob", now - 3600, "Welcome")], 12 := [Discussion("Cem", now - 60, "Sheet 1")]],
              map[5 := [], 6 := []])
  }

  lemma TwoCoursesItems(now: int)
    ensures Available(TwoCourses(now))
    ensures CourseItems(TwoCourses(now), now, Course(2, "Intro")) == [ActivityItem(2, "Welcome", "Intro", "Bob")]
    ensures CourseItems(TwoCourses(now), now, Course(3, "Lab")) == [ActivityItem(3, "Sheet 1", "Lab", "Cem")]
  {
    var dir := TwoCourses(now);
    assert CourseAvailable(dir, Course(2, "Intro")) && CourseAvailable(dir, Course(3, "Lab"));
    ItemsOfOne(dir, now, Course(2, "Intro"), Forum(2, "general", 11), Discussion("Bob", now - 3600, "Welcome"));
    ItemsOfOne(dir, now, Course(3, "Lab"), Forum(3, "news", 12), Discussion("Cem", now - 60, "Sheet 1"));
  }

  lemma TwoCoursesEntries(now: int)
    ensures Available(TwoCourses(now))
    ensures RosterEntries(TwoCourses(now), TwoCourses(now).courses) ==
            [EnrolledUser(5, "a@x.com", "Ann"), EnrolledUser(6, "c@x.com", "Cem"), EnrolledUser(5, "ann@y.org", "Ann B")]
  {
    var dir := TwoCourses(now);
    TwoCoursesItems(now);
    ActivityOfOne(dir, now, Course(2, "Intro"), 0);
    ActivityAfterCourse(dir, now, [Course(2, "Intro")], Course(3, "Lab"));
    assert [Course(2, "Intro")] + [Course(3, "Lab")] == dir.courses;
    assert [Course(2, "Intro")][..0] == [];
  }

  lemma TwoCoursesIdentities()
    ensures IdentityMap([EnrolledUser(5, "a@x.com", "Ann"), EnrolledUser(6, "c@x.com", "Cem"), EnrolledUser(5, "ann@y.org", "Ann B")]) ==
            map[5 := Identity("a@x.com", "Ann"), 6 := Identity("c@x.com", "Cem")]
    ensures FirstSeenOrder([EnrolledUser(5, "a@x.com", "Ann"), EnrolledUser(6, "c@x.com", "Cem"), EnrolledUser(5, "ann@y.org", "Ann B")]) == [5, 6]
  {
    var es := [EnrolledUser(5, "a@x.com", "Ann"), EnrolledUser(6, "c@x.com", "Cem"), EnrolledUser(5, "ann@y.org", "Ann B")];
    var one, two := [es[0]], [es[0], es[1]];
    assert one[..0] == [] && two[..1] == one && es[..2] == two;
    assert IdentityMap(one) == map[5 := Identity("a@x.com", "Ann")] && FirstSeenOrder(one) == [5];
    assert IdentityMap(two) == map[5 := Identity("a@x.com", "Ann"), 6 := Identity("c@x.com", "Cem")];
    assert FirstSeenOrder(two) == [5, 6];
  }

  lemma TwoCoursesOccurrences(now: int, uid: int)
    ensures Occurrences(TwoCourses(now).rosters[2], uid) == if uid == 5 then 1 else 0
    ensures Occurrences(TwoCourses(now).rosters[3], uid) == if uid == 5 || uid == 6 then 1 else 0
  {
    var r2, r3 := TwoCourses(now).rosters[2], TwoCourses(now).rosters[3];
    assert r2[..0] == [] && r3[..1][..0] == [] && r3[..1] == [r3[0]];
  }

  /** The activity over two courses. */
  lemma ActivityOfTwo(dir: Directory, now: int, c: Course, d: Course, uid: int)
    requires CourseAvailable(dir, c) && CourseAvailable(dir, d)
    ensures CoursesAvailable(dir, [c, d])
    ensures ActivityOf(dir, now, [c, d], uid) ==
            Spread(CourseItems(dir, now, c), Occurrences(dir.rosters[c.id], uid)) +
            Spread(CourseItems(dir, now, d), Occurrences(dir.rosters[d.id], uid))
  {
    ActivityOfOne(dir, now, c, uid);
    ActivityAfterCourse(dir, now, [c], d);
    assert [c] + [d] == [c, d];
  }

  lemma TwoCoursesShape(now: int, uid: int)
    ensures Available(TwoCourses(now))
    ensures ActivityOf(TwoCourses(now), now, TwoCourses(now).courses, uid) ==
            Spread([ActivityItem(2, "Welcome", "Intro", "Bob")], Occurrences(TwoCourses(now).rosters[2], uid)) +
            Spread([ActivityItem(3, "Sheet 1", "Lab", "Cem")], Occurrences(TwoCourses(now).rosters[3], uid))
  {
    TwoCoursesItems(now);
    ActivityOfTwo(TwoCourses(now), now, Course(2, "Intro"), Course(3, "Lab"), uid);
  }

  lemma TwoCoursesActivity(now: int, uid: int)
    ensures Available(TwoCourses(now))
    ensures ActivityOf(TwoCourses(now), now, TwoCourses(now).courses, uid) ==
            if uid == 5 then [ActivityItem(2, "Welcome", "Intro", "Bob"), ActivityItem(3, "Sheet 1", "Lab", "Cem")]
            else if uid == 6 then [ActivityItem(3, "Sheet 1", "Lab", "Cem")]
            else []
  {
    var i2, i3 := ActivityItem(2, "Welcome", "Intro", "Bob"), ActivityItem(3, "Sheet 1", "Lab", "Cem");
    TwoCoursesShape(now, uid);
    TwoCoursesOccurrences(now, uid);
    SpreadOnce([i2], i2);
    SpreadOnce([i3], i3);
  }

  /**
    A user on two rosters: identity taken from the first roster entry, one
    entry in the key order (so the messages are requested once), and the
    activity items of both courses in walk order.
   */
  lemma ScenarioTwoRosters(now: int, agg: Aggregation)
    requires Fetched(TwoCourses(now), now, agg)
    ensures agg.usercol == map[5 := Identity("a@x.com", "Ann"), 6 := Identity("c@x.com", "Cem")]
    ensures agg.order == [5, 6]
    ensures Lookup(agg.collector, 5) == [ActivityItem(2, "Welcome", "Intro", "Bob"), ActivityItem(3, "Sheet 1", "Lab", "Cem")]
    ensures Lookup(agg.collector, 6) == [ActivityItem(3, "Sheet 1", "Lab", "Cem")]
  {
    TwoCoursesEntries(now);
    TwoCoursesIdentities();
    TwoCoursesActivity(now, 5);
    TwoCoursesActivity(now, 6);

  }

  /** The message phrase for one, three and no unread messages. */
  lemma ScenarioPhrases()
    ensures UnreadPhrase(1) == Some("eine ungelesene Nachricht")
    ensures UnreadPhrase(3) == Some("3 ungelesene Nachrichten")
    ensures UnreadPhrase(0) == None
  {
    assert DigitChar(3) == '3';
    assert Decimal(3) == "3";
    assert "3" + PluralSuffix == "3 ungelesene Nachrichten";
  }
}
