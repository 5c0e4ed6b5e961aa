/**
  Which forum activity is reported: the recency window and the activity
  items a course contributes, and, per user, the list of items the collector
  holds once a sequence of courses has been walked.
 */
module Activity {
  import opened MoodleData

  /** The notification window, `timedelta(days=1)`, in seconds. */
  const Window: int := 86400

  /** A discussion counts when it was modified within the last day; the bound is inclusive. */
  predicate Recent(d: Discussion, now: int)
  {
    d.timeModified >= now - Window
  }

  /** A collector tuple `(course, subject, cname, dname)`. */
  datatype ActivityItem = ActivityItem(course: int, subject: string, courseName: string, authorName: string)

  /** The tuple appended for discussion `d` of forum `f` in course `c`. */
  function MakeItem(c: Course, f: Forum, d: Discussion): ActivityItem
  {
    ActivityItem(f.course, d.subject, c.fullname, d.firstUserFullname)
  }

  /** The items of the recent discussions among `ds`, in list order. */
  function DiscussionItems(c: Course, f: Forum, ds: seq<Discussion>, now: int): (r: seq<ActivityItem>)
    ensures |r| <= |ds|
  {
    if ds == [] then []
    else
      var d := ds[|ds| - 1];
      DiscussionItems(c, f, ds[..|ds| - 1], now) + (if Recent(d, now) then [MakeItem(c, f, d)] else [])
  }

  predicate ForumsAnswered(dir: Directory, fs: seq<Forum>)
  {
    forall f :: f in fs ==> f.id in dir.discussions
  }

  /** The items of course `c` from the forums `fs`, forum by forum. */
  function ForumItems(dir: Directory, now: int, c: Course, fs: seq<Forum>): seq<ActivityItem>
    requires ForumsAnswered(dir, fs)
  {
    if fs == [] then []
    else
      var f := fs[|fs| - 1];
      ForumItems(dir, now, c, fs[..|fs| - 1]) + DiscussionItems(c, f, dir.discussions[f.id], now)
  }

  /** All items course `c` contributes to each user on its roster. */
  function CourseItems(dir: Directory, now: int, c: Course): seq<ActivityItem>
    requires CourseAvailable(dir, c)
  {
    ForumItems(dir, now, c, dir.forums[c.id])
  }

  /** How often user `uid` is listed in `users`. */
  function Occurrences(users: seq<EnrolledUser>, uid: int): nat
  {
    if users == [] then 0
    else Occurrences(users[..|users| - 1], uid) + (if users[|users| - 1].id == uid then 1 else 0)
  }

  /** `n` copies of `x`. */
  function Repeat(x: ActivityItem, n: nat): (r: seq<ActivityItem>)
    ensures |r| == n
    ensures forall i :: 0 <= i < n ==> r[i] == x
  {
    if n == 0 then [] else Repeat(x, n - 1) + [x]
  }

  /**
    Each item of `items` in turn, `n` times over: what a user listed `n`
    times on a roster receives for the items of that course.
   */
  function Spread(items: seq<ActivityItem>, n: nat): seq<ActivityItem>
  {
    if items == [] then []
    else Spread(items[..|items| - 1], n) + Repeat(items[|items| - 1], n)
  }

  /** The activity list of user `uid` after the courses `cs` have been walked. */
  function ActivityOf(dir: Directory, now: int, cs: seq<Course>, uid: int): seq<ActivityItem>
    requires CoursesAvailable(dir, cs)
  {
    if cs == [] then []
    else
      var c := cs[|cs| - 1];
      ActivityOf(dir, now, cs[..|cs| - 1], uid) + Spread(CourseItems(dir, now, c), Occurrences(dir.rosters[c.id], uid))
  }

  /** A discussion yields an item exactly when it is recent. */
  lemma {:induction false} DiscussionItemsExact(c: Course, f: Forum, ds: seq<Discussion>, now: int)
    ensures forall x :: x in DiscussionItems(c, f, ds, now) <==>
                        exists d :: d in ds && Recent(d, now) && x == MakeItem(c, f, d)
  {
    if ds != [] {
      var init, d := ds[..|ds| - 1], ds[|ds| - 1];
      DiscussionItemsExact(c, f, init, now);
      assert ds == init + [d];
      forall x | exists e :: e in ds && Recent(e, now) && x == MakeItem(c, f, e)
        ensures x in DiscussionItems(c, f, ds, now)
      {
        var e :| e in ds && Recent(e, now) && x == MakeItem(c, f, e);
        if e != d { assert e in init; }
      }
    }
  }

  /** The items of two discussion lists one after the other are the items of each, in order. */
  lemma {:induction false} DiscussionItemsAppend(c: Course, f: Forum, a: seq<Discussion>, b: seq<Discussion>, now: int)
    ensures DiscussionItems(c, f, a + b, now) == DiscussionItems(c, f, a, now) + DiscussionItems(c, f, b, now)
    decreases |b|
  {
    if b == [] {
      assert a + b == a;
    } else {
      var init := b[..|b| - 1];
      assert (a + b)[..|a + b| - 1] == a + init;
      DiscussionItemsAppend(c, f, a, init, now);
    }
  }

  /** A single discussion yields its item exactly when it is recent. */
  lemma DiscussionItemsSingle(c: Course, f: Forum, d: Discussion, now: int)
    ensures DiscussionItems(c, f, [d], now) == if Recent(d, now) then [MakeItem(c, f, d)] else []
  {
    assert [d][..0] == [];
  }

  /** A discussion modified exactly one day before `now` is reported; one second earlier is not. */
  lemma RecencyBoundary(c: Course, f: Forum, author: string, subject: string, now: int)
    ensures DiscussionItems(c, f, [Discussion(author, now - 86400, subject)], now)
            == [ActivityItem(f.course, subject, c.fullname, author)]
    ensures DiscussionItems(c, f, [Discussion(author, now - 86401, subject)], now) == []
  {
    assert [Discussion(author, now - 86400, subject)][..0] == [];
    assert [Discussion(author, now - 86401, subject)][..0] == [];
  }

  lemma SpreadSnoc(items: seq<ActivityItem>, x: ActivityItem, n: nat)
    ensures Spread(items + [x], n) == Spread(items, n) + Repeat(x, n)
  {
    assert (items + [x])[..|items|] == items;
  }

  /** Spreading distributes over concatenation. */
  lemma {:induction false} SpreadAppend(a: seq<ActivityItem>, b: seq<ActivityItem>, n: nat)
    ensures Spread(a + b, n) == Spread(a, n) + Spread(b, n)
    decreases |b|
  {
    if b == [] {
      assert a + b == a;
    } else {
      var init, x := b[..|b| - 1], b[|b| - 1];
      assert b == init + [x];
      assert a + b == (a + init) + [x];
      SpreadSnoc(a + init, x, n);
      SpreadSnoc(init, x, n);
      SpreadAppend(a, init, n);
    }
  }

  /** A spread is empty exactly when there are no items or no copies. */
  lemma {:induction false} SpreadEmpty(items: seq<ActivityItem>, n: nat)
    ensures Spread(items, n) == [] <==> items == [] || n == 0
  {
    if items != [] {
      SpreadEmpty(items[..|items| - 1], n);
    }
  }

  /** A user is listed on a roster exactly when the count is positive. */
  lemma {:induction false} OccurrencesPositive(users: seq<EnrolledUser>, uid: int)
    ensures Occurrences(users, uid) > 0 <==> exists u :: u in users && u.id == uid
  {
    if users != [] {
      var init := users[..|users| - 1];
      OccurrencesPositive(init, uid);
      assert users == init + [users[|users| - 1]];
    }
  }

  /**
    A user has activity exactly when some walked course lists the user on its
    roster and has at least one recent discussion.
   */
  lemma {:induction false} ActivityNonEmptyIff(dir: Directory, now: int, cs: seq<Course>, uid: int)
    requires CoursesAvailable(dir, cs)
    ensures ActivityOf(dir, now, cs, uid) != [] <==>
            exists c, u :: c in cs && u in dir.rosters[c.id] && u.id == uid && CourseItems(dir, now, c) != []
  {
    if cs != [] {
      var init, c := cs[..|cs| - 1], cs[|cs| - 1];
      assert cs == init + [c];
      ActivityNonEmptyIff(dir, now, init, uid);
      SpreadEmpty(CourseItems(dir, now, c), Occurrences(dir.rosters[c.id], uid));
      OccurrencesPositive(dir.rosters[c.id], uid);
      if exists c', u :: c' in cs && u in dir.rosters[c'.id] && u.id == uid && CourseItems(dir, now, c') != [] {
        var c', u :| c' in cs && u in dir.rosters[c'.id] && u.id == uid && CourseItems(dir, now, c') != [];
        if c' != c { assert c' in init; }
      }
    }
  }
}
