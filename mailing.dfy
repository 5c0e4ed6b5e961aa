/**
  `Notificator.send_mails` and `Notificator.prepare_txt`: which users get a
  mail, and the data each mail's templates are rendered from.
 */
module Mailing {
  import opened Wrappers
  import opened Maps
  import opened MoodleData
  import opened Activity
  import opened FirstSeen
  import opened Notificator

  // Decimal numerals, as Python's `'{}'.format(n)` writes a count.

  function DigitChar(d: nat): char
    requires d < 10
  {
    ('0' as int + d) as char
  }

  predicate IsDigit(ch: char)
  {
    '0' <= ch <= '9'
  }

  function DigitValue(ch: char): nat
    requires IsDigit(ch)
  {
    ch as int - '0' as int
  }

  predicate AllDigits(s: string)
  {
    forall i :: 0 <= i < |s| ==> IsDigit(s[i])
  }

  /** The decimal numeral of `n`, without leading zeros. */
  function Decimal(n: nat): (s: string)
    ensures s != [] && AllDigits(s)
    ensures s[0] == '0' <==> n == 0
    decreases n
  {
    if n < 10 then [DigitChar(n)] else Decimal(n / 10) + [DigitChar(n % 10)]
  }

  /** The value of a decimal numeral. */
  function ParseDecimal(s: string): nat
    requires AllDigits(s)
  {
    if s == [] then 0 else ParseDecimal(s[..|s| - 1]) * 10 + DigitValue(s[|s| - 1])
  }

  lemma {:induction false} ParseDecimalOfDecimal(n: nat)
    ensures ParseDecimal(Decimal(n)) == n
    decreases n
  {
    if n >= 10 {
      ParseDecimalOfDecimal(n / 10);
      var s := Decimal(n);
      assert s[..|s| - 1] == Decimal(n / 10);
    }
  }

  // The unread-message phrase (lines 196-200).

  const Singular: string := "eine ungelesene Nachricht"
  const PluralSuffix: string := " ungelesene Nachrichten"

  /**
    The phrase for `count` unread messages: none for no message, the
    singular wording for one, and the count followed by the plural wording
    for more.
   */
  function UnreadPhrase(count: nat): (p: Option<string>)
    ensures p.None? <==> count == 0
  {
    if count > 1 then Some(Decimal(count) + PluralSuffix)
    else if count > 0 then Some(Singular)
    else None
  }

  /** A numeral as `'{}'.format` writes it: non-empty digits, no leading zero unless it is "0". */
  predicate Canonical(s: string)
  {
    s != [] && AllDigits(s) && (s[0] == '0' ==> |s| == 1)
  }

  /**
    The count a phrase states, if it is one of the two wordings: the singular
    wording for one, or a numeral above one in canonical form followed by the
    plural wording.
   */
  function PhraseCount(p: string): Option<nat>
  {
    if p == Singular then Some(1)
    else if |p| > |PluralSuffix| && p[|p| - |PluralSuffix|..] == PluralSuffix then
      var d := p[..|p| - |PluralSuffix|];
      if Canonical(d) && ParseDecimal(d) > 1 then Some(ParseDecimal(d)) else None
    else None
  }

  /** A numeral with a non-zero first digit has a positive value. */
  lemma {:induction false} ParseDecimalPositive(s: string)
    requires s != [] && AllDigits(s) && s[0] != '0'
    ensures ParseDecimal(s) > 0
  {
    if |s| > 1 {
      ParseDecimalPositive(s[..|s| - 1]);
    }
  }

  /** Writing back the value of a canonical numeral gives the numeral. */
  lemma {:induction false} DecimalOfParseDecimal(s: string)
    requires Canonical(s)
    ensures Decimal(ParseDecimal(s)) == s
  {
    if |s| > 1 {
      var init := s[..|s| - 1];
      ParseDecimalPositive(init);
      DecimalOfParseDecimal(init);
      var n := ParseDecimal(s);
      assert n / 10 == ParseDecimal(init) && n % 10 == DigitValue(s[|s| - 1]);
      assert s == init + [s[|s| - 1]];
    }
  }

  /** The phrase states the count it was made for. */
  lemma UnreadPhraseRoundTrip(count: nat)
    requires count > 0
    ensures PhraseCount(UnreadPhrase(count).value) == Some(count)
  {
    if count > 1 {
      var d := Decimal(count);
      var p := d + PluralSuffix;
      assert IsDigit(p[0]) && !IsDigit(Singular[0]);
      assert p[|p| - |PluralSuffix|..] == PluralSuffix;
      assert p[..|p| - |PluralSuffix|] == d;
      ParseDecimalOfDecimal(count);
    }
  }

  /**
    The phrase for `count` is exactly the string stating `count`: the wording
    is fixed by the count, with the singular wording for one and the plain
    numeral for more.
   */
  lemma UnreadPhraseExact(count: nat, p: string)
    ensures UnreadPhrase(count) == Some(p) <==> PhraseCount(p) == Some(count)
  {
    if UnreadPhrase(count) == Some(p) {
      UnreadPhraseRoundTrip(count);
    }
    if PhraseCount(p) == Some(count) && p != Singular {
      var d := p[..|p| - |PluralSuffix|];
      DecimalOfParseDecimal(d);
      assert p == d + PluralSuffix;
    }
  }

  /** Different counts give different phrases. */
  lemma UnreadPhraseInjective(a: nat, b: nat)
    requires UnreadPhrase(a) == UnreadPhrase(b)
    ensures a == b
  {
    if a > 0 && b > 0 {
      UnreadPhraseRoundTrip(a);
      UnreadPhraseRoundTrip(b);
    }
  }

  // The forum-entry list (lines 192-195).

  /** One forum entry: the course name, the subject and the author's name. */
  datatype ForumEntry = ForumEntry(kursname: string, subject: string, username: string)

  function EntryOf(item: ActivityItem): ForumEntry
  {
    ForumEntry(item.courseName, item.subject, item.authorName)
  }

  /** The entries of `items`, one per item, in order. */
  function Entries(items: seq<ActivityItem>): (r: seq<ForumEntry>)
    ensures |r| == |items|
    ensures forall i :: 0 <= i < |items| ==> r[i] == EntryOf(items[i])
  {
    if items == [] then [] else Entries(items[..|items| - 1]) + [EntryOf(items[|items| - 1])]
  }

  /** The loop of lines 193-195. */
  method ForumEntries(items: seq<ActivityItem>) returns (entries: seq<ForumEntry>)
    ensures entries == Entries(items)
  {
    entries := [];
    var i := 0;
    while i < |items|
      invariant 0 <= i <= |items|
      invariant entries == Entries(items[..i])
    {
      assert items[..i + 1][..i] == items[..i];
      entries := entries + [EntryOf(items[i])];
      i := i + 1;
    }
    assert items[..|items|] == items;
  }

  // The digest of one user (lines 191-204), before template rendering.

  /** What the two templates are rendered from: `name`, `msgs` and `foren`. */
  datatype Digest = Digest(name: string, msgs: Option<string>, foren: seq<ForumEntry>)

  /**
    The digest of `userid`: the user's full name, the unread-message phrase
    for the user's message snapshot (none when there is no snapshot or it is
    empty), and one forum entry per activity item, in order.
   */
  function DigestFor(userid: int, coll: map<int, seq<ActivityItem>>, mcoll: map<int, seq<Message>>,
                     ucoll: map<int, Identity>): (r: Digest)
    requires userid in ucoll
    ensures r.name == ucoll[userid].fullname
    ensures r.msgs.None? <==> userid !in mcoll || |mcoll[userid]| == 0
    ensures r.msgs.Some? ==> PhraseCount(r.msgs.value) == Some(|mcoll[userid]|)
    ensures |r.foren| == |Lookup(coll, userid)|
    ensures forall i :: 0 <= i < |r.foren| ==> r.foren[i] == EntryOf(Lookup(coll, userid)[i])
  {
    if userid in mcoll && |mcoll[userid]| > 0 then
      UnreadPhraseRoundTrip(|mcoll[userid]|);
      Digest(ucoll[userid].fullname, UnreadPhrase(|mcoll[userid]|), Entries(Lookup(coll, userid)))
    else
      Digest(ucoll[userid].fullname, None, Entries(Lookup(coll, userid)))
  }

  /** `prepare_txt` (lines 191-204) up to the rendering. */
  method PrepareDigest(userid: int, coll: map<int, seq<ActivityItem>>, mcoll: map<int, seq<Message>>,
                       ucoll: map<int, Identity>) returns (d: Digest)
    requires userid in ucoll
    ensures d == DigestFor(userid, coll, mcoll, ucoll)
  {
    var forumslist: seq<ForumEntry> := [];
    if userid in coll && |coll[userid]| > 0 {
      forumslist := ForumEntries(coll[userid]);
    }
    var txtMsgs: Option<string> := None;
    if userid in mcoll && |mcoll[userid]| > 1 {
      txtMsgs := Some(Decimal(|mcoll[userid]|) + PluralSuffix);
    } else if userid in mcoll && |mcoll[userid]| > 0 {
      txtMsgs := Some(Singular);
    }
    d := Digest(ucoll[userid].fullname, txtMsgs, forumslist);
  }

  // Choosing the recipients (lines 182-184).

  /** The user id that never gets a mail (line 183). */
  const ExcludedUser: int := 99

  predicate Selected(userid: int, coll: map<int, seq<ActivityItem>>, mcoll: map<int, seq<Message>>)
  {
    userid != ExcludedUser && (userid in coll || (userid in mcoll && |mcoll[userid]| > 0))
  }

  /**
    When no activity list is empty, a user other than the excluded one is
    selected exactly when the digest has a forum entry or a message phrase.
   */
  lemma SelectedIffNews(userid: int, coll: map<int, seq<ActivityItem>>, mcoll: map<int, seq<Message>>,
                        ucoll: map<int, Identity>)
    requires userid in ucoll && NonEmptyLists(coll)
    ensures Selected(userid, coll, mcoll) <==>
            userid != ExcludedUser && (DigestFor(userid, coll, mcoll, ucoll).foren != [] ||
                                       DigestFor(userid, coll, mcoll, ucoll).msgs.Some?)
  {
  }

  /** The users of `order` that are selected, in that order. */
  function Recipients(order: seq<int>, coll: map<int, seq<ActivityItem>>, mcoll: map<int, seq<Message>>): (r: seq<int>)
    ensures forall uid :: uid in r <==> uid in order && Selected(uid, coll, mcoll)
  {
    if order == [] then []
    else
      var init, uid := order[..|order| - 1], order[|order| - 1];
      assert order == init + [uid];
      Recipients(init, coll, mcoll) + (if Selected(uid, coll, mcoll) then [uid] else [])
  }

  /** Filtering a list without repetitions gives one without repetitions. */
  lemma {:induction false} RecipientsDistinct(order: seq<int>, coll: map<int, seq<ActivityItem>>, mcoll: map<int, seq<Message>>)
    requires Distinct(order)
    ensures Distinct(Recipients(order, coll, mcoll))
  {
    if order != [] {
      var init := order[..|order| - 1];
      assert Distinct(init);
      RecipientsDistinct(init, coll, mcoll);
    }
  }

  /** One mail: recipient name, recipient address and the digest. */
  datatype Mail = Mail(toName: string, toEmail: string, digest: Digest)

  function MailFor(userid: int, coll: map<int, seq<ActivityItem>>, mcoll: map<int, seq<Message>>,
                   ucoll: map<int, Identity>): Mail
    requires userid in ucoll
  {
    Mail(ucoll[userid].fullname, ucoll[userid].email, DigestFor(userid, coll, mcoll, ucoll))
  }

  /** The mails for the users of `order`: one per selected user, in that order. */
  function MailsOf(order: seq<int>, coll: map<int, seq<ActivityItem>>, mcoll: map<int, seq<Message>>,
                   ucoll: map<int, Identity>): (r: seq<Mail>)
    requires forall uid :: uid in order ==> uid in ucoll
    ensures |r| == |Recipients(order, coll, mcoll)|
    ensures forall i :: 0 <= i < |r| ==>
              Recipients(order, coll, mcoll)[i] in ucoll && r[i] == MailFor(Recipients(order, coll, mcoll)[i], coll, mcoll, ucoll)
  {
    if order == [] then []
    else
      var init, uid := order[..|order| - 1], order[|order| - 1];
      assert order == init + [uid];
      MailsOf(init, coll, mcoll, ucoll) + (if Selected(uid, coll, mcoll) then [MailFor(uid, coll, mcoll, ucoll)] else [])
  }

  /**
    `send_mails` (lines 176-189) without the templates and the SMTP session:
    walking the users in key order, one mail for each selected user.
   */
  method SendMails(order: seq<int>, coll: map<int, seq<ActivityItem>>, mcoll: map<int, seq<Message>>,
                   ucoll: map<int, Identity>) returns (mails: seq<Mail>)
    requires forall uid :: uid in order ==> uid in ucoll
    ensures |mails| == |Recipients(order, coll, mcoll)|
    ensures forall i :: 0 <= i < |mails| ==> mails[i] == MailFor(Recipients(order, coll, mcoll)[i], coll, mcoll, ucoll)
  {
    mails := [];
    var k := 0;
    while k < |order|
      invariant 0 <= k <= |order|
      invariant mails == MailsOf(order[..k], coll, mcoll, ucoll)
    {
      var userid := order[k];
      assert order[..k + 1][..k] == order[..k];
      if userid != ExcludedUser {
        if userid in coll || (userid in mcoll && |mcoll[userid]| > 0) {
          var digest := PrepareDigest(userid, coll, mcoll, ucoll);
          mails := mails + [Mail(ucoll[userid].fullname, ucoll[userid].email, digest)];
        }
      }
      k := k + 1;
    }
    assert order[..|order|] == order;
  }

  /**
    After a successful fetch, every user on some roster, other than the
    excluded one, gets exactly one mail when the user has activity or unread
    messages, and no one else gets a mail.
   */
  lemma NotifiedUsers(dir: Directory, now: int, agg: Aggregation)
    requires Fetched(dir, now, agg)
    ensures Distinct(Recipients(agg.order, agg.collector, agg.msgcol))
    ensures forall uid :: uid in Recipients(agg.order, agg.collector, agg.msgcol) <==>
              && Enrolled(dir, uid) && uid != ExcludedUser
              && (ActivityOf(dir, now, dir.courses, uid) != [] || (uid in dir.messages && dir.messages[uid] != []))
  {
    FetchedOrder(dir, now, agg);
    FetchedUsers(dir, now, agg);
    FetchedActivityKeys(dir, now, agg);
    RecipientsDistinct(agg.order, agg.collector, agg.msgcol);
    forall uid ensures uid in agg.collector <==> ActivityOf(dir, now, dir.courses, uid) != [] {
      assert uid in agg.collector <==> Lookup(agg.collector, uid) != [];
    }
  }
}
