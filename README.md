# Moodle notificator — a Dafny model

The notificator is a batch job for a Moodle installation. It walks every
course, the course's forums and each forum's discussions. Every discussion
modified within the last day becomes an activity item for every user on the
course's roster. It also records the email address, full name and unread
private messages of every enrolled user. From that it builds one digest
mail per user: the forum entries, plus a German phrase counting the unread
messages. The mail goes to every user, except user 99, who has activity or
unread messages.

The model has these modules:

- `MoodleData` (`moodle_data.dfy`): the web-service records.
  - The Moodle answers of one run are a `Directory` value, a snapshot of what each service call returns.
  - A call that fails (the source exits the process) is a key the snapshot does not answer.
  - It also holds `get_email_address`.
- `Activity` (`activity.dfy`): the one-day window and the items each course contributes.
  - `ActivityOf` is the reference definition of a user's activity list after a sequence of courses.
  - A user listed n times on a roster receives every item n times, exactly as the nested loops do.
- `FirstSeen` (`first_seen.dfy`): the "insert if absent" filling of `usercol`.
  - Defined as a fold over the roster entries in walk order, together with its key order.
  - A reference definition by first index is proved equal to the fold.
- `Notificator` (`notificator.dfy`): `Notificator.fetch` as imperative methods.
  - One method per loop, with invariants tying the dictionaries to the reference definitions.
  - `Fetched` collects what a successful run returns, and lemmas state what that means.
- `Mailing` (`mailing.dfy`): `prepare_txt` up to template rendering, and the recipient choice of `send_mails`.
- `Scenarios` (`scenarios.dfy`): small directories worked through end to end.
- `AsWritten` (`as_written.dfy`): the message call of line 169 as the source writes it (see Findings).

How the model represents the inputs:

- Time is one integer `now` in seconds. The window is 86400 seconds and its bound is inclusive.
- The remote service is the `Directory` argument.
- A ghost log `fetched` records each unread-message request. `Fetch` proves the log equals the key order
  of `usercol`, so each user's messages are requested exactly once.

## Model

| member | source | states |
|---|---|---|
| MoodleData.AvailableIffNeededAnswered | moodlenotificator.py:23-40 | a run can only succeed when every roster, forum list, discussion list and message call it reaches is answered; the directory is available exactly when all those calls are answered |
| MoodleData.EmailAddress | moodlenotificator.py:207-211 | none exactly for an empty `users` list, otherwise the first user's id and email |
| MoodleData.EmailAddressOfFirst | moodlenotificator.py:208-209 | only the first user record decides the address: whatever follows it, the result is the same |
| Activity.Recent | moodlenotificator.py:160 | the recency test of a discussion: modified at or after one day before now (its boundary is stated by `RecencyBoundary`) |
| Activity.DiscussionItemsSingle | moodlenotificator.py:159-164 | one discussion yields its tuple exactly when it is recent, and nothing otherwise |
| Activity.DiscussionItemsAppend | moodlenotificator.py:159-164 | the items of two discussion lists in turn are the items of the first followed by those of the second, so items keep list order |
| Activity.DiscussionItemsExact | moodlenotificator.py:159-160 | an item is produced exactly for each discussion modified within the window, carrying course id, subject, course name and first author |
| Activity.RecencyBoundary | moodlenotificator.py:160 | a discussion exactly one day old counts, one a second older does not |
| Activity.ActivityNonEmptyIff | moodlenotificator.py:151-166 | a user has activity exactly when some walked course lists the user and has a recent discussion |
| FirstSeen.FirstSeenWins | moodlenotificator.py:167-168 | later roster entries never change the identity found first for a user |
| FirstSeen.FirstSeenKept | moodlenotificator.py:167-173 | an identity recorded in `usercol` is never overwritten by later entries |
| FirstSeen.IdentityMapIsFirstSeen | moodlenotificator.py:167-173 | the insert-if-absent map equals the map taking each user's identity from the user's first entry |
| FirstSeen.OrderMatchesKeys | moodlenotificator.py:167-173 | the key order lists exactly the keys of `usercol` |
| FirstSeen.OrderDistinct | moodlenotificator.py:167-173 | no user appears twice in the key order |
| FirstSeen.AppendAllKnown | moodlenotificator.py:170-173 | entries of users already recorded change neither `usercol` nor its order |
| FirstSeen.Recorded | moodlenotificator.py:170-173 | after a roster is processed, every user on it is in `usercol` |
| Notificator.RecordUser | moodlenotificator.py:167-173 | a new user's identity and the user's own messages are recorded once, appended to the key order and the request log; a known user changes nothing; fails exactly when a new user's messages are not answered |
| Notificator.AppendItem | moodlenotificator.py:163-166 | the item is appended to the user's list, and a missing list is started with it |
| Notificator.AppendForRosterSpec | moodlenotificator.py:162-166 | each user's list grows at its end by one copy of the item per roster entry of the user, and no list becomes empty |
| Notificator.VisitRoster | moodlenotificator.py:162-169 | each roster user receives the item once per entry, and new users are recorded first-seen-wins; on failure, names a roster user whose messages are not answered |
| Notificator.RecordRoster | moodlenotificator.py:170-173 | `collector` is unchanged and every roster user is recorded first-seen-wins; on failure, names an unanswered roster user |
| Notificator.VisitDiscussions | moodlenotificator.py:158-169 | each user's list grows by the items of the forum's recent discussions, spread over the roster |
| Notificator.VisitForum | moodlenotificator.py:158-169 | one forum: fails with its discussion list when that is not answered, or with an unanswered message call; otherwise each user's list grows by the forum's recent items, once per roster entry |
| Notificator.VisitForums | moodlenotificator.py:157-169 | each user's list grows by the items of all forums of the course; fails with an unanswered discussion list or message call that the walk needed |
| Notificator.VisitCourse | moodlenotificator.py:151-173 | one course: roster, forums, discussions and recording; on success the course is fully answered and each user's list grows by that course's items |
| Notificator.ActivityAfterCourse | moodlenotificator.py:151-173 | walking one more course appends that course's items to each user's activity and its roster to the roster entries |
| Notificator.Fetch | moodlenotificator.py:146-174 | succeeds exactly when the directory is available, otherwise reports a needed, unanswered call; on success, see `Fetched`; each user's messages are requested once, in key order |
| Notificator.RosterEntriesMembers | moodlenotificator.py:151-154 | the roster entries met are exactly those on the rosters of the listed courses |
| Notificator.FetchedUsers | moodlenotificator.py:146-174 | `usercol` and `msgcol` hold exactly the users on some roster, and `msgcol` holds each user's own messages |
| Notificator.FetchedIdentities | moodlenotificator.py:167-173 | each user's identity comes from the user's first roster entry in walk order |
| Notificator.FetchedOrder | moodlenotificator.py:167-173 | the key order lists every recorded user exactly once |
| Notificator.FetchedActivityKeys | moodlenotificator.py:159-166 | `collector` holds exactly the users enrolled in a course with recent activity, all of them in `usercol` |
| Notificator.FetchedDetermined | moodlenotificator.py:146-174 | the result of a successful run is determined by the directory and the time |
| Mailing.Decimal | moodlenotificator.py:198 | the count's numeral is a non-empty string of digits without leading zeros |
| Mailing.ParseDecimalOfDecimal | moodlenotificator.py:198 | the numeral reads back as the count |
| Mailing.DecimalOfParseDecimal | moodlenotificator.py:198 | a numeral without leading zeros is the numeral of its value, so the numeral of a count is unique |
| Mailing.UnreadPhrase | moodlenotificator.py:196-200 | no phrase exactly when there is no unread message |
| Mailing.UnreadPhraseRoundTrip | moodlenotificator.py:196-200 | the phrase reads back as the count it was made for |
| Mailing.UnreadPhraseExact | moodlenotificator.py:196-200 | the phrase for a count is exactly the string stating it: the singular wording for one, the plain numeral without leading zeros followed by the plural wording for more |
| Mailing.UnreadPhraseInjective | moodlenotificator.py:196-200 | different counts give different phrases |
| Mailing.Entries | moodlenotificator.py:193-195 | one forum entry per activity item, in order, with course name, subject and author |
| Mailing.ForumEntries | moodlenotificator.py:192-195 | the loop produces exactly those entries |
| Mailing.DigestFor | moodlenotificator.py:191-204 | the digest carries the user's full name, a phrase exactly when the message snapshot is non-empty, stating its size, and one entry per activity item |
| Mailing.PrepareDigest | moodlenotificator.py:191-204 | `prepare_txt` computes that digest |
| Mailing.Selected | moodlenotificator.py:183-184 | the recipient test: not user 99, and an activity list or a non-empty message list (its meaning is stated by `SelectedIffNews`) |
| Mailing.SelectedIffNews | moodlenotificator.py:182-184 | when no activity list is empty, a user other than 99 is selected exactly when the digest reports something |
| Mailing.Recipients | moodlenotificator.py:181-184 | the users mailed are exactly the selected users of the key order |
| Mailing.RecipientsDistinct | moodlenotificator.py:181-184 | no user is mailed twice when the key order has no repetition |
| Mailing.MailsOf | moodlenotificator.py:181-187 | one mail per recipient, in order, addressed with the recipient's recorded name and email and carrying the recipient's digest |
| Mailing.SendMails | moodlenotificator.py:176-189 | the loop produces exactly those mails |
| Mailing.NotifiedUsers | moodlenotificator.py:146-189 | after a successful fetch, each enrolled user other than 99 with activity or unread messages is mailed exactly once, and no one else |
| Scenarios.ScenarioRecent | moodlenotificator.py:146-204 | one course with an hour-old discussion: the user gets one forum entry and no phrase |
| Scenarios.ScenarioStale | moodlenotificator.py:160-184 | a three-day-old discussion gives no activity; the user is mailed only with unread messages, with a phrase and no entry |
| Scenarios.ScenarioTwoRosters | moodlenotificator.py:151-173 | a user on two rosters: first identity kept, recorded once, items of both courses in walk order |
| Scenarios.ScenarioPhrases | moodlenotificator.py:196-200 | one message: singular wording; three: "3 ungelesene Nachrichten"; none: no phrase |
| AsWritten.CallGetMessages | moodlenotificator.py:122-124 | calling `get_messages` with a number of arguments other than one is a TypeError |
| AsWritten.RecordInLoopAsWritten | moodlenotificator.py:167-169 | recording a roster entry as written: succeeds, changing nothing, exactly when the user is already in `usercol` |
| AsWritten.AsWrittenFailsOnNewUser | moodlenotificator.py:167-169 | as written, recording any new user inside the discussion loop raises a TypeError |
| AsWritten.Line169Counterexample | moodlenotificator.py:169 | an answered directory with a recent discussion on which the call as written fails and the call of line 173 succeeds |

## Left out

- HTTP transport (`get_json_from_moodle`, `requests`, JSON decoding): replaced by the `Directory` snapshot.
  - A failing call ends the run with the request that failed.
  - The two exit codes (1 for a bad status, 2 for a Moodle exception) are not distinguished.
- The course-list call (`get_courseid_list`): its answer is `Directory.courses`. Its failure, which exits before any aggregation, is not modelled.
- The `get_*` projection helpers (lines 48-102): each record type carries only the fields they keep.
- `core_message_get_messages` (lines 112-120) asks for unread messages, newest first, at most 10. The model takes whatever list the directory answers, so the cap of 10 is not enforced.
- Time: `datetime.datetime.today()` is read again for every discussion and compared in local time with `fromtimestamp`. The model uses one fixed `now` in seconds, so clock advance during a run and daylight-saving shifts are not modelled.
- `get_user_info` (lines 104-110) and the remote call behind `get_email_address`: only the pure extraction on the answered `users` list is modelled.
- `send_mails` side effects: reading the two template files, Jinja rendering, the `print` of each mail, and the SMTP session (`Mailer`, lines 222-260) are left out. A mail is modelled as name, address and the digest the templates would be rendered from.
- Configuration loading and `Notificator.__init__`, logging, `get_email_text` and the `__main__` driver are left out: none of them affects the aggregation or the mail selection.
- DiscussionItems: its own contract only bounds the length; what it contains is stated by `Activity.DiscussionItemsSingle`, `Activity.DiscussionItemsAppend` and `Activity.DiscussionItemsExact`.

## Findings

| source | as written | input that shows it | evidently intended | confidence | as-written member | corrected member |
|---|---|---|---|---|---|---|
| moodlenotificator.py:169 | `self.Moo.get_messages()` is called with no argument, but `get_messages` (line 122) requires the user id, so the call raises TypeError the first time a recent discussion meets a user not yet recorded | `Scenarios.OneCourse`: course 2 with one forum whose only discussion is an hour old, and user 5 on the roster | `self.Moo.get_messages(userid)`, as on line 173 | not executed | AsWritten.Line169Counterexample | Notificator.RecordUser |
