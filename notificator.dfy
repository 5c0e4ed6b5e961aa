/**
  `Notificator.fetch`: the walk over courses, forums, discussions and roster
  users that fills the three dictionaries `collector`, `usercol` and `msgcol`.
 */
module Notificator {
  import opened Wrappers
  import opened Maps
  import opened MoodleData
  import opened Activity
  import opened FirstSeen

  /**
    The three dictionaries `fetch` returns. `order` is the insertion order of
    `usercol` (and of `msgcol`, which is filled at the same moments), the
    order in which `send_mails` visits the users.
   */
  datatype Aggregation = Aggregation(
    collector: map<int, seq<ActivityItem>>,
    usercol: map<int, Identity>,
    msgcol: map<int, seq<Message>>,
    order: seq<int>)

  /** The roster entries of the courses `cs`, course after course. */
  function RosterEntries(dir: Directory, cs: seq<Course>): seq<EnrolledUser>
    requires CoursesAvailable(dir, cs)
  {
    if cs == [] then []
    else
      assert cs[|cs| - 1] in cs;
      RosterEntries(dir, cs[..|cs| - 1]) + dir.rosters[cs[|cs| - 1].id]
  }

  /**
    `usercol` and its key order are those filled from the roster entries
    `seen`, met in that order, and `msgcol` holds, for exactly the same users,
    each user's own unread messages.
   */
  predicate Tracks(dir: Directory, agg: Aggregation, seen: seq<EnrolledUser>)
  {
    && agg.usercol == IdentityMap(seen)
    && agg.order == FirstSeenOrder(seen)
    && agg.msgcol.Keys == agg.usercol.Keys
    && forall uid :: uid in agg.msgcol ==> uid in dir.messages && agg.msgcol[uid] == dir.messages[uid]
  }

  lemma TrackKnown(dir: Directory, agg: Aggregation, seen: seq<EnrolledUser>, u: EnrolledUser)
    requires Tracks(dir, agg, seen) && u.id in agg.usercol
    ensures Tracks(dir, agg, seen + [u])
  {
    OrderMatchesKeys(seen);
    assert (seen + [u])[..|seen|] == seen;
  }

  lemma TrackNew(dir: Directory, agg: Aggregation, seen: seq<EnrolledUser>, u: EnrolledUser)
    requires Tracks(dir, agg, seen) && u.id !in agg.usercol && u.id in dir.messages
    ensures Tracks(dir, agg.(usercol := agg.usercol[u.id := IdentityOf(u)],
                             msgcol := agg.msgcol[u.id := dir.messages[u.id]],
                             order := agg.order + [u.id]), seen + [u])
  {
    OrderMatchesKeys(seen);
    assert (seen + [u])[..|seen|] == seen;
  }

  lemma TrackAllKnown(dir: Directory, agg: Aggregation, seen: seq<EnrolledUser>, users: seq<EnrolledUser>)
    requires Tracks(dir, agg, seen + users)
    requires forall u :: u in users ==> u.id in IdentityMap(seen)
    ensures Tracks(dir, agg, seen)
  {
    OrderMatchesKeys(seen);
    AppendAllKnown(seen, users);
  }

  /**
    Lines 167-169 and 171-173: a user not yet in `usercol` gets identity and
    unread messages recorded; a user already there is left alone. `ok` is
    false when the message request fails.
   */
  method RecordUser(dir: Directory, u: EnrolledUser, agg: Aggregation,
                    ghost met: seq<EnrolledUser>, ghost fetched: seq<int>)
    returns (ok: bool, agg': Aggregation, ghost fetched': seq<int>)
    requires Tracks(dir, agg, met) && fetched == agg.order
    ensures agg'.collector == agg.collector
    ensures ok <==> u.id in agg.usercol || u.id in dir.messages
    ensures ok ==> Tracks(dir, agg', met + [u]) && fetched' == agg'.order
  {
    agg', fetched' := agg, fetched;
    ok := true;
    if u.id !in agg.usercol {
      if u.id !in dir.messages {
        return false, agg', fetched';
      }
      TrackNew(dir, agg, met, u);
      fetched' := fetched + [u.id];
      agg' := agg.(usercol := agg.usercol[u.id := IdentityOf(u)],
                   msgcol := agg.msgcol[u.id := dir.messages[u.id]],
                   order := agg.order + [u.id]);
    } else {
      TrackKnown(dir, agg, met, u);
    }
  }

  /** The collector after appending `item` for each entry of `users` in turn. */
  function AppendForRoster(col: map<int, seq<ActivityItem>>, users: seq<EnrolledUser>, item: ActivityItem)
    : map<int, seq<ActivityItem>>
  {
    if users == [] then col
    else
      var m := AppendForRoster(col, users[..|users| - 1], item);
      var uid := users[|users| - 1].id;
      m[uid := Lookup(m, uid) + [item]]
  }

  lemma AppendForRosterSnoc(col: map<int, seq<ActivityItem>>, users: seq<EnrolledUser>, u: EnrolledUser, item: ActivityItem)
    ensures var m := AppendForRoster(col, users, item);
            AppendForRoster(col, users + [u], item) == m[u.id := Lookup(m, u.id) + [item]]
  {
    assert (users + [u])[..|users|] == users;
  }

  /**
    Appending for a roster adds to each user's list, at its end, one copy of
    the item per roster entry of that user; no list becomes empty.
   */
  lemma {:induction false} AppendForRosterSpec(col: map<int, seq<ActivityItem>>, users: seq<EnrolledUser>, item: ActivityItem)
    ensures forall uid {:trigger Lookup(AppendForRoster(col, users, item), uid)} :: Lookup(AppendForRoster(col, users, item), uid) ==
                          Lookup(col, uid) + Repeat(item, Occurrences(users, uid))
    ensures NonEmptyLists(col) ==> NonEmptyLists(AppendForRoster(col, users, item))
  {
    if users != [] {
      var init := users[..|users| - 1];
      AppendForRosterSpec(col, init, item);
      forall uid
        ensures Lookup(AppendForRoster(col, users, item), uid) == Lookup(col, uid) + Repeat(item, Occurrences(users, uid))
      {
        var n := Occurrences(init, uid);
        assert Lookup(AppendForRoster(col, init, item), uid) == Lookup(col, uid) + Repeat(item, n);
        if uid == users[|users| - 1].id {
          assert Repeat(item, n + 1) == Repeat(item, n) + [item];
        }
      }
    }
  }

  /** Lines 163-166: append `item` to the list of `uid`, starting the list when there is none. */
  method AppendItem(collector: map<int, seq<ActivityItem>>, uid: int, item: ActivityItem)
    returns (collector': map<int, seq<ActivityItem>>)
    ensures collector' == collector[uid := Lookup(collector, uid) + [item]]
  {
    if uid in collector {
      collector' := collector[uid := collector[uid] + [item]];
    } else {
      collector' := collector[uid := [item]];
      assert [item] == Lookup(collector, uid) + [item];
    }
  }

  /**
    Lines 162-169: append `item` to the list of every user on the roster and
    record identity and messages of users not met before. On failure of a
    message request, `failed` names the user.
   */
  method VisitRoster(dir: Directory, users: seq<EnrolledUser>, item: ActivityItem, agg: Aggregation,
                     ghost seen: seq<EnrolledUser>, ghost fetched: seq<int>)
    returns (failed: Option<int>, agg': Aggregation, ghost fetched': seq<int>)
    requires Tracks(dir, agg, seen) && fetched == agg.order
    requires NonEmptyLists(agg.collector)
    ensures failed.Some? ==> exists u :: u in users && u.id == failed.value && u.id !in dir.messages
    ensures failed.None? ==> Tracks(dir, agg', seen + users) && fetched' == agg'.order
    ensures failed.None? ==> NonEmptyLists(agg'.collector)
    ensures failed.None? ==> forall uid {:trigger Lookup(agg'.collector, uid)} :: Lookup(agg'.collector, uid) ==
                                         Lookup(agg.collector, uid) + Repeat(item, Occurrences(users, uid))
  {
    agg', fetched' := agg, fetched;
    assert seen + users[..0] == seen;
    ghost var met := seen;
    var l := 0;
    while l < |users|
      invariant 0 <= l <= |users|
      invariant met == seen + users[..l]
      invariant Tracks(dir, agg', met) && fetched' == agg'.order
      invariant agg'.collector == AppendForRoster(agg.collector, users[..l], item)
    {
      var u := users[l];
      assert users[..l + 1] == users[..l] + [u];
      AppendForRosterSnoc(agg.collector, users[..l], u, item);
      var collector := AppendItem(agg'.collector, u.id, item);
      agg' := agg'.(collector := collector);
      var ok;
      ok, agg', fetched' := RecordUser(dir, u, agg', met, fetched');
      if !ok {
        return Some(u.id), agg', fetched';
      }
      met := met + [u];
      l := l + 1;
    }
    assert users[..|users|] == users;
    AppendForRosterSpec(agg.collector, users, item);
    failed := None;
  }

  /**
    Lines 170-173: record identity and messages of the roster users that no
    recent discussion of the course has recorded yet.
   */
  method RecordRoster(dir: Directory, users: seq<EnrolledUser>, agg: Aggregation,
                      ghost seen: seq<EnrolledUser>, ghost fetched: seq<int>)
    returns (failed: Option<int>, agg': Aggregation, ghost fetched': seq<int>)
    requires Tracks(dir, agg, seen) && fetched == agg.order
    ensures agg'.collector == agg.collector
    ensures failed.Some? ==> exists u :: u in users && u.id == failed.value && u.id !in dir.messages
    ensures failed.None? ==> Tracks(dir, agg', seen + users) && fetched' == agg'.order
  {
    agg', fetched' := agg, fetched;
    assert seen + users[..0] == seen;
    ghost var met := seen;
    var l := 0;
    while l < |users|
      invariant 0 <= l <= |users|
      invariant agg'.collector == agg.collector
      invariant met == seen + users[..l]
      invariant Tracks(dir, agg', met) && fetched' == agg'.order
    {
      var u := users[l];
      assert users[..l + 1] == users[..l] + [u];
      var ok;
      ok, agg', fetched' := RecordUser(dir, u, agg', met, fetched');
      if !ok {
        return Some(u.id), agg', fetched';
      }
      met := met + [u];
      l := l + 1;
    }
    assert users[..|users|] == users;
    failed := None;
  }

  /** Appending one more recent discussion's item, per user. */
  lemma CollectorAfterItem(users: seq<EnrolledUser>, items: seq<ActivityItem>, item: ActivityItem,
                           base: map<int, seq<ActivityItem>>, col: map<int, seq<ActivityItem>>,
                           col': map<int, seq<ActivityItem>>)
    requires forall uid {:trigger Lookup(col, uid)} :: Lookup(col, uid) == Lookup(base, uid) + Spread(items, Occurrences(users, uid))
    requires forall uid {:trigger Lookup(col', uid)} :: Lookup(col', uid) == Lookup(col, uid) + Repeat(item, Occurrences(users, uid))
    ensures forall uid {:trigger Lookup(col', uid)} :: Lookup(col', uid) == Lookup(base, uid) + Spread(items + [item], Occurrences(users, uid))
  {
    forall uid
      ensures Lookup(col', uid) == Lookup(base, uid) + Spread(items + [item], Occurrences(users, uid))
    {
      SpreadSnoc(items, item, Occurrences(users, uid));
    }
  }

  /** Appending the items of one more forum, per user. */
  lemma CollectorAfterForum(users: seq<EnrolledUser>, items: seq<ActivityItem>, more: seq<ActivityItem>,
                            base: map<int, seq<ActivityItem>>, col: map<int, seq<ActivityItem>>,
                            col': map<int, seq<ActivityItem>>)
    requires forall uid {:trigger Lookup(col, uid)} :: Lookup(col, uid) == Lookup(base, uid) + Spread(items, Occurrences(users, uid))
    requires forall uid {:trigger Lookup(col', uid)} :: Lookup(col', uid) == Lookup(col, uid) + Spread(more, Occurrences(users, uid))
    ensures forall uid {:trigger Lookup(col', uid)} :: Lookup(col', uid) == Lookup(base, uid) + Spread(items + more, Occurrences(users, uid))
  {
    forall uid
      ensures Lookup(col', uid) == Lookup(base, uid) + Spread(items + more, Occurrences(users, uid))
    {
      SpreadAppend(items, more, Occurrences(users, uid));
    }
  }

  /**
    The walk over one forum's discussions (lines 159-169): every recent
    discussion's item is appended for each roster entry, and on the first
    such item the roster users are recorded. Fails with the id of a user
    whose unread messages cannot be fetched.
   */
  method VisitDiscussions(dir: Directory, now: int, c: Course, f: Forum, users: seq<EnrolledUser>,
                          discussions: seq<Discussion>, agg: Aggregation,
                          ghost before: seq<EnrolledUser>, ghost seen: seq<EnrolledUser>, ghost fetched: seq<int>)
    returns (failed: Option<int>, agg': Aggregation, ghost seen': seq<EnrolledUser>, ghost fetched': seq<int>)
    requires seen == before || seen == before + users
    requires Tracks(dir, agg, seen) && fetched == agg.order
    requires NonEmptyLists(agg.collector)
    ensures failed.Some? ==> exists u :: u in users && u.id == failed.value && u.id !in dir.messages
    ensures failed.None? ==> seen' == before || seen' == before + users
    ensures failed.None? ==> Tracks(dir, agg', seen') && fetched' == agg'.order
    ensures failed.None? ==> NonEmptyLists(agg'.collector)
    ensures failed.None? ==>
              forall uid {:trigger Lookup(agg'.collector, uid)} :: Lookup(agg'.collector, uid) ==
                Lookup(agg.collector, uid) + Spread(DiscussionItems(c, f, discussions, now), Occurrences(users, uid))
  {
    agg', seen', fetched' := agg, seen, fetched;
    assert discussions[..0] == [];
    forall uid ensures Spread([], Occurrences(users, uid)) == [] {
      SpreadEmpty([], Occurrences(users, uid));
    }
    var k := 0;
    while k < |discussions|
      invariant 0 <= k <= |discussions|
      invariant seen' == before || seen' == before + users
      invariant Tracks(dir, agg', seen') && fetched' == agg'.order
      invariant NonEmptyLists(agg'.collector)
      invariant forall uid {:trigger Lookup(agg'.collector, uid)} :: Lookup(agg'.collector, uid) ==
                              Lookup(agg.collector, uid) + Spread(DiscussionItems(c, f, discussions[..k], now), Occurrences(users, uid))
    {
      var d := discussions[k];
      ghost var items := DiscussionItems(c, f, discussions[..k], now);
      assert discussions[..k + 1][..k] == discussions[..k];
      if Recent(d, now) {
        var item := MakeItem(c, f, d);
        ghost var col := agg'.collector;
        failed, agg', fetched' := VisitRoster(dir, users, item, agg', seen', fetched');
        if failed.Some? {
          return;
        }
        CollectorAfterItem(users, items, item, agg.collector, col, agg'.collector);
        assert DiscussionItems(c, f, discussions[..k + 1], now) == items + [item];
        if seen' == before + users {
          Recorded(before, users);
          TrackAllKnown(dir, agg', seen', users);
        } else {
          seen' := before + users;
        }
      } else {
        assert DiscussionItems(c, f, discussions[..k + 1], now) == items;
      }
      k := k + 1;
    }
    assert discussions[..|discussions|] == discussions;
    failed := None;
  }

  /**
    One forum (lines 158-169): its discussions are fetched and walked. Fails
    with the discussion list or the message call that is not answered.
   */
  method VisitForum(dir: Directory, now: int, c: Course, users: seq<EnrolledUser>, f: Forum,
                    agg: Aggregation, ghost before: seq<EnrolledUser>, ghost seen: seq<EnrolledUser>, ghost fetched: seq<int>)
    returns (failed: Option<Request>, agg': Aggregation, ghost seen': seq<EnrolledUser>, ghost fetched': seq<int>)
    requires c in dir.courses && c.id in dir.rosters && users == dir.rosters[c.id]
    requires c.id in dir.forums && f in dir.forums[c.id]
    requires seen == before || seen == before + users
    requires Tracks(dir, agg, seen) && fetched == agg.order
    requires NonEmptyLists(agg.collector)
    ensures failed.Some? ==> Needed(dir, failed.value) && !Answers(dir, failed.value)
    ensures failed.None? ==> f.id in dir.discussions
    ensures failed.None? ==> seen' == before || seen' == before + users
    ensures failed.None? ==> Tracks(dir, agg', seen') && fetched' == agg'.order
    ensures failed.None? ==> NonEmptyLists(agg'.collector)
    ensures failed.None? ==>
              forall uid {:trigger Lookup(agg'.collector, uid)} :: Lookup(agg'.collector, uid) ==
                Lookup(agg.collector, uid) + Spread(DiscussionItems(c, f, dir.discussions[f.id], now), Occurrences(users, uid))
  {
    agg', seen', fetched' := agg, seen, fetched;
    if f.id !in dir.discussions {
      return Some(ForumDiscussions(f.id)), agg', seen', fetched';
    }
    var missing;
    missing, agg', seen', fetched' := VisitDiscussions(dir, now, c, f, users, dir.discussions[f.id], agg, before, seen, fetched);
    if missing.Some? {
      return Some(UnreadMessages(missing.value)), agg', seen', fetched';
    }
    failed := None;
  }

  /**
    The walk over one course's forums (lines 157-169): every forum's
    discussions are fetched and walked in order. Fails with the first call
    that is not answered.
   */
  method VisitForums(dir: Directory, now: int, c: Course, users: seq<EnrolledUser>, forums: seq<Forum>,
                     agg: Aggregation, ghost before: seq<EnrolledUser>, ghost fetched: seq<int>)
    returns (failed: Option<Request>, agg': Aggregation, ghost seen: seq<EnrolledUser>, ghost fetched': seq<int>)
    requires c in dir.courses && c.id in dir.rosters && users == dir.rosters[c.id]
    requires c.id in dir.forums && forums == dir.forums[c.id]
    requires Tracks(dir, agg, before) && fetched == agg.order
    requires NonEmptyLists(agg.collector)
    ensures failed.Some? ==> Needed(dir, failed.value) && !Answers(dir, failed.value)
    ensures failed.None? ==> ForumsAnswered(dir, forums)
    ensures failed.None? ==> seen == before || seen == before + users
    ensures failed.None? ==> Tracks(dir, agg', seen) && fetched' == agg'.order
    ensures failed.None? ==> NonEmptyLists(agg'.collector)
    ensures failed.None? ==>
              forall uid {:trigger Lookup(agg'.collector, uid)} :: Lookup(agg'.collector, uid) ==
                Lookup(agg.collector, uid) + Spread(ForumItems(dir, now, c, forums), Occurrences(users, uid))
  {
    agg', seen, fetched' := agg, before, fetched;
    assert forums[..0] == [];
    forall uid ensures Spread([], Occurrences(users, uid)) == [] {
      SpreadEmpty([], Occurrences(users, uid));
    }
    var j := 0;
    while j < |forums|
      invariant 0 <= j <= |forums|
      invariant ForumsAnswered(dir, forums[..j])
      invariant seen == before || seen == before + users
      invariant Tracks(dir, agg', seen) && fetched' == agg'.order
      invariant NonEmptyLists(agg'.collector)
      invariant forall uid {:trigger Lookup(agg'.collector, uid)} :: Lookup(agg'.collector, uid) ==
                              Lookup(agg.collector, uid) + Spread(ForumItems(dir, now, c, forums[..j]), Occurrences(users, uid))
    {
      var f := forums[j];
      ghost var col, items := agg'.collector, ForumItems(dir, now, c, forums[..j]);
      failed, agg', seen, fetched' := VisitForum(dir, now, c, users, f, agg', before, seen, fetched');
      if failed.Some? {
        return;
      }
      assert forums[..j + 1] == forums[..j] + [f];
      assert ForumsAnswered(dir, forums[..j + 1]);
      assert ForumItems(dir, now, c, forums[..j + 1]) == items + DiscussionItems(c, f, dir.discussions[f.id], now);
      CollectorAfterForum(users, items, DiscussionItems(c, f, dir.discussions[f.id], now), agg.collector, col, agg'.collector);
      j := j + 1;
    }
    assert forums[..|forums|] == forums;
    failed := None;
  }

  /**
    One course of the walk (lines 154-173): its roster and forums are
    fetched, every forum's discussions are walked, and then the roster
    users are recorded. Fails with the first call that is not answered.
   */
  method VisitCourse(dir: Directory, now: int, c: Course, agg: Aggregation,
                     ghost before: seq<EnrolledUser>, ghost fetched: seq<int>)
    returns (failed: Option<Request>, agg': Aggregation, ghost fetched': seq<int>)
    requires c in dir.courses
    requires Tracks(dir, agg, before) && fetched == agg.order
    requires NonEmptyLists(agg.collector)
    ensures failed.Some? ==> Needed(dir, failed.value) && !Answers(dir, failed.value)
    ensures failed.None? ==> CourseAvailable(dir, c)
    ensures failed.None? ==> Tracks(dir, agg', before + dir.rosters[c.id]) && fetched' == agg'.order
    ensures failed.None? ==> NonEmptyLists(agg'.collector)
    ensures failed.None? ==>
              forall uid {:trigger Lookup(agg'.collector, uid)} :: Lookup(agg'.collector, uid) ==
                Lookup(agg.collector, uid) + Spread(CourseItems(dir, now, c), Occurrences(dir.rosters[c.id], uid))
  {
    agg', fetched' := agg, fetched;
    if c.id !in dir.rosters {
      return Some(EnrolledUsers(c.id)), agg', fetched';
    }
    var users := dir.rosters[c.id];
    if c.id !in dir.forums {
      return Some(ForumsByCourse(c.id)), agg', fetched';
    }
    ghost var seen;
    failed, agg', seen, fetched' := VisitForums(dir, now, c, users, dir.forums[c.id], agg, before, fetched);
    if failed.Some? {
      return;
    }
    ghost var visited := agg'.collector;
    var missing;
    missing, agg', fetched' := RecordRoster(dir, users, agg', seen, fetched');
    if missing.Some? {
      return Some(UnreadMessages(missing.value)), agg', fetched';
    }
    assert agg'.collector == visited;
    Recorded(before, users);
    if seen == before + users {
      TrackAllKnown(dir, agg', seen, users);
    }
  }

  /** The activity after one more course, per user. */
  lemma ActivityAfterCourse(dir: Directory, now: int, cs: seq<Course>, c: Course)
    requires CoursesAvailable(dir, cs) && CourseAvailable(dir, c)
    ensures CoursesAvailable(dir, cs + [c])
    ensures forall uid {:trigger ActivityOf(dir, now, cs + [c], uid)} :: ActivityOf(dir, now, cs + [c], uid) ==
                          ActivityOf(dir, now, cs, uid) + Spread(CourseItems(dir, now, c), Occurrences(dir.rosters[c.id], uid))
    ensures RosterEntries(dir, cs + [c]) == RosterEntries(dir, cs) + dir.rosters[c.id]
  {
    assert (cs + [c])[..|cs|] == cs;
  }

  /**
    `Notificator.fetch` (lines 146-174). The run succeeds exactly when every
    call it needs is answered, and otherwise reports a failed call it needed.
    On success: each user's activity list is the reported activity of the
    courses on whose rosters the user stands, in walk order, and no list is
    empty; `usercol` and its key order are filled first-seen-wins from the
    rosters in course order; `msgcol` has the same keys and holds each
    user's own unread messages; and the messages of a user are requested
    once, in the recorded order (`fetched`).
   */
  method Fetch(dir: Directory, now: int) returns (r: Result<Aggregation, Request>, ghost fetched: seq<int>)
    ensures r.Ok? <==> Available(dir)
    ensures r.Err? ==> Needed(dir, r.error) && !Answers(dir, r.error)
    ensures r.Ok? ==> Fetched(dir, now, r.value) && fetched == r.value.order
  {
    var agg := Aggregation(map[], map[], map[], []);
    fetched := [];
    var i := 0;
    while i < |dir.courses|
      invariant 0 <= i <= |dir.courses|
      invariant CoursesAvailable(dir, dir.courses[..i])
      invariant Tracks(dir, agg, RosterEntries(dir, dir.courses[..i])) && fetched == agg.order
      invariant NonEmptyLists(agg.collector)
      invariant forall uid {:trigger Lookup(agg.collector, uid)} :: Lookup(agg.collector, uid) == ActivityOf(dir, now, dir.courses[..i], uid)
    {
      var c := dir.courses[i];
      assert c in dir.courses;
      ghost var done := dir.courses[..i];
      var failed;
      failed, agg, fetched := VisitCourse(dir, now, c, agg, RosterEntries(dir, done), fetched);
      if failed.Some? {
        AvailableIffNeededAnswered(dir);
        return Err(failed.value), fetched;
      }
      assert dir.courses[..i + 1] == done + [c];
      ActivityAfterCourse(dir, now, done, c);
      i := i + 1;
    }
    assert dir.courses[..|dir.courses|] == dir.courses;
    r := Ok(agg);
  }

  /**
    What a successful run returns: each user's activity list is the user's
    reported activity, no list is empty, and `usercol`, `msgcol` and the key
    order are those filled from the roster entries in walk order.
   */
  ghost predicate Fetched(dir: Directory, now: int, agg: Aggregation)
  {
    && Available(dir)
    && (forall uid {:trigger Lookup(agg.collector, uid)} :: Lookup(agg.collector, uid) == ActivityOf(dir, now, dir.courses, uid))
    && NonEmptyLists(agg.collector)
    && Tracks(dir, agg, RosterEntries(dir, dir.courses))
  }

  /** The user stands on the roster of some course of the course list. */
  ghost predicate Enrolled(dir: Directory, uid: int)
  {
    exists c, u :: c in dir.courses && c.id in dir.rosters && u in dir.rosters[c.id] && u.id == uid
  }

  /** The roster entries are those of the rosters of the walked courses. */
  lemma {:induction false} RosterEntriesMembers(dir: Directory, cs: seq<Course>)
    requires CoursesAvailable(dir, cs)
    ensures forall u :: u in RosterEntries(dir, cs) <==> exists c :: c in cs && u in dir.rosters[c.id]
  {
    if cs != [] {
      var init, last := cs[..|cs| - 1], cs[|cs| - 1];
      assert cs == init + [last];
      RosterEntriesMembers(dir, init);
      forall u | exists c :: c in cs && u in dir.rosters[c.id]
        ensures u in RosterEntries(dir, cs)
      {
        var c :| c in cs && u in dir.rosters[c.id];
        if c != last {
          assert c in init;
        }
      }
    }
  }

  /**
    `usercol` and `msgcol` hold exactly the users on the rosters of the
    courses, and `msgcol` holds each user's own unread messages.
   */
  lemma FetchedUsers(dir: Directory, now: int, agg: Aggregation)
    requires Fetched(dir, now, agg)
    ensures forall uid :: uid in agg.usercol <==> Enrolled(dir, uid)
    ensures forall uid :: uid in agg.msgcol <==> Enrolled(dir, uid)
    ensures forall uid :: uid in agg.msgcol ==> uid in dir.messages && agg.msgcol[uid] == dir.messages[uid]
  {
    var es := RosterEntries(dir, dir.courses);
    IdentityMapIsFirstSeen(es);
    RosterEntriesMembers(dir, dir.courses);
    forall uid | Enrolled(dir, uid) ensures uid in Ids(es) {
      var c, u :| c in dir.courses && c.id in dir.rosters && u in dir.rosters[c.id] && u.id == uid;
      assert u in es;
    }
  }

  /**
    The identity recorded for a user is the one on the user's first roster
    entry in walk order (first seen wins; lines 167-168 and 171-172).
   */
  lemma FetchedIdentities(dir: Directory, now: int, agg: Aggregation)
    requires Fetched(dir, now, agg)
    ensures agg.usercol == Identities(RosterEntries(dir, dir.courses))
  {
    IdentityMapIsFirstSeen(RosterEntries(dir, dir.courses));
  }

  /** The key order lists every recorded user exactly once. */
  lemma FetchedOrder(dir: Directory, now: int, agg: Aggregation)
    requires Fetched(dir, now, agg)
    ensures Distinct(agg.order)
    ensures forall uid :: uid in agg.order <==> uid in agg.usercol
  {
    OrderDistinct(RosterEntries(dir, dir.courses));
    OrderMatchesKeys(RosterEntries(dir, dir.courses));
  }

  /**
    `collector` holds exactly the users enrolled in some course with recent
    discussions, and each of them is in `usercol`, so `send_mails`, which
    walks `usercol`, reaches every user with activity.
   */
  lemma FetchedActivityKeys(dir: Directory, now: int, agg: Aggregation)
    requires Fetched(dir, now, agg)
    ensures forall uid :: uid in agg.collector <==>
              exists c, u :: c in dir.courses && u in dir.rosters[c.id] && u.id == uid && CourseItems(dir, now, c) != []
    ensures agg.collector.Keys <= agg.usercol.Keys
  {
    FetchedUsers(dir, now, agg);
    forall uid
      ensures uid in agg.collector <==>
                exists c, u :: c in dir.courses && u in dir.rosters[c.id] && u.id == uid && CourseItems(dir, now, c) != []
    {
      ActivityNonEmptyIff(dir, now, dir.courses, uid);
      assert uid in agg.collector <==> Lookup(agg.collector, uid) != [];
    }
    forall uid | uid in agg.collector ensures uid in agg.usercol {
      ActivityNonEmptyIff(dir, now, dir.courses, uid);
      var c, u :| c in dir.courses && u in dir.rosters[c.id] && u.id == uid && CourseItems(dir, now, c) != [];
      assert Enrolled(dir, uid);
    }
  }

  /** The outcome of a successful run is determined by the directory and the time. */
  lemma FetchedDetermined(dir: Directory, now: int, a: Aggregation, b: Aggregation)
    requires Fetched(dir, now, a) && Fetched(dir, now, b)
    ensures a == b
  {
    forall uid | uid in a.collector ensures uid in b.collector {
      assert Lookup(b.collector, uid) == Lookup(a.collector, uid);
    }
    forall uid | uid in b.collector ensures uid in a.collector {
      assert Lookup(b.collector, uid) == Lookup(a.collector, uid);
    }
    forall uid | uid in a.collector ensures a.collector[uid] == b.collector[uid] {
      assert Lookup(b.collector, uid) == Lookup(a.collector, uid);
    }
    assert a.collector == b.collector;
    assert a.msgcol.Keys == b.msgcol.Keys;
    forall uid | uid in a.msgcol ensures a.msgcol[uid] == b.msgcol[uid] {
      assert a.msgcol[uid] == dir.messages[uid];
    }
  }
}
