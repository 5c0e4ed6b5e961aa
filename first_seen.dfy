/**
  First-seen bookkeeping: the identity `(email, fullname)` and the dictionary
  order recorded for users, as a function of the roster entries met so far.
  An entry whose user id was met before changes nothing.
 */
module FirstSeen {
  import opened MoodleData

  /** A `usercol` value `(email, fullname)`. */
  datatype Identity = Identity(email: string, fullname: string)

  function IdentityOf(u: EnrolledUser): Identity
  {
    Identity(u.email, u.fullname)
  }

  /** The user ids listed in `es`. */
  function Ids(es: seq<EnrolledUser>): set<int>
  {
    set u | u in es :: u.id
  }

  /** The position of the first entry of `es` for user `uid`. */
  function FirstIndex(es: seq<EnrolledUser>, uid: int): (k: nat)
    requires uid in Ids(es)
    ensures k < |es| && es[k].id == uid
    ensures forall j :: 0 <= j < k ==> es[j].id != uid
  {
    if es[0].id == uid then 0
    else
      assert uid in Ids(es[1..]) by {
        var u :| u in es && u.id == uid;
        assert es == [es[0]] + es[1..];
      }
      FirstIndex(es[1..], uid) + 1
  }

  /** The identity given by the first entry for `uid`. */
  function FirstIdentity(es: seq<EnrolledUser>, uid: int): Identity
    requires uid in Ids(es)
  {
    IdentityOf(es[FirstIndex(es, uid)])
  }

  /** The `usercol` dictionary after the entries `es`, first entry per user winning. */
  function Identities(es: seq<EnrolledUser>): map<int, Identity>
  {
    map uid | uid in Ids(es) :: FirstIdentity(es, uid)
  }

  predicate Distinct(s: seq<int>)
  {
    forall i, j :: 0 <= i < j < |s| ==> s[i] != s[j]
  }

  /** The `usercol` dictionary filled from the entries `es` by insert-if-absent. */
  function IdentityMap(es: seq<EnrolledUser>): map<int, Identity>
  {
    if es == [] then map[]
    else
      var m, u := IdentityMap(es[..|es| - 1]), es[|es| - 1];
      if u.id in m then m else m[u.id := IdentityOf(u)]
  }

  /** The key order of a dictionary filled from the entries `es` by insert-if-absent. */
  function FirstSeenOrder(es: seq<EnrolledUser>): seq<int>
  {
    if es == [] then []
    else
      var order, u := FirstSeenOrder(es[..|es| - 1]), es[|es| - 1];
      if u.id in order then order else order + [u.id]
  }

  lemma IdsSnoc(es: seq<EnrolledUser>, u: EnrolledUser)
    ensures Ids(es + [u]) == Ids(es) + {u.id}
  {
    IdsAppend(es, [u]);
    assert Ids([u]) == {u.id};
  }

  lemma IdsAppend(es: seq<EnrolledUser>, fs: seq<EnrolledUser>)
    ensures Ids(es + fs) == Ids(es) + Ids(fs)
  {
    forall uid | uid in Ids(es + fs) ensures uid in Ids(es) + Ids(fs) {
      var u :| u in es + fs && u.id == uid;
    }
  }

  /**
    First seen wins: entries appended later never change the identity of a
    user who already has one.
   */
  lemma FirstSeenWins(es: seq<EnrolledUser>, fs: seq<EnrolledUser>, uid: int)
    requires uid in Ids(es)
    ensures uid in Ids(es + fs) && FirstIdentity(es + fs, uid) == FirstIdentity(es, uid)
  {
    IdsAppend(es, fs);
    var k := FirstIndex(es, uid);
    assert (es + fs)[k] == es[k];
  }

  /** The key order lists exactly the keys of the dictionary. */
  lemma {:induction false} OrderMatchesKeys(es: seq<EnrolledUser>)
    ensures forall uid :: uid in FirstSeenOrder(es) <==> uid in IdentityMap(es)
  {
    if es != [] {
      OrderMatchesKeys(es[..|es| - 1]);
    }
  }

  /** The key order lists no user twice. */
  lemma {:induction false} OrderDistinct(es: seq<EnrolledUser>)
    ensures Distinct(FirstSeenOrder(es))
  {
    if es != [] {
      OrderDistinct(es[..|es| - 1]);
    }
  }

  /** An entry for a user already listed leaves the first-seen identities unchanged. */
  lemma IdentitiesSnocKnown(init: seq<EnrolledUser>, u: EnrolledUser)
    requires u.id in Ids(init)
    ensures Identities(init + [u]) == Identities(init)
  {
    IdsSnoc(init, u);
    forall uid | uid in Ids(init) ensures FirstIdentity(init + [u], uid) == FirstIdentity(init, uid) {
      FirstSeenWins(init, [u], uid);
    }
  }

  /** An entry for a user not listed before adds that user with the entry's identity. */
  lemma IdentitiesSnocNew(init: seq<EnrolledUser>, u: EnrolledUser)
    requires u.id !in Ids(init)
    ensures Identities(init + [u]) == Identities(init)[u.id := IdentityOf(u)]
  {
    var es := init + [u];
    IdsSnoc(init, u);
    forall j | 0 <= j < |init| ensures es[j].id != u.id {
      assert es[j] == init[j] && init[j] in init;
    }
    assert FirstIndex(es, u.id) == |init|;
    forall uid | uid in Ids(init) ensures FirstIdentity(es, uid) == FirstIdentity(init, uid) {
      FirstSeenWins(init, [u], uid);
    }
  }

  /**
    Insert-if-absent over the entries yields, for exactly the users listed,
    the identity of each user's first entry.
   */
  lemma {:induction false} IdentityMapIsFirstSeen(es: seq<EnrolledUser>)
    ensures IdentityMap(es) == Identities(es)
  {
    if es != [] {
      var init, u := es[..|es| - 1], es[|es| - 1];
      assert es == init + [u];
      IdentityMapIsFirstSeen(init);
      if u.id in Ids(init) {
        IdentitiesSnocKnown(init, u);
      } else {
        IdentitiesSnocNew(init, u);
      }
    }
  }

  /** Entries of users all met before change neither the dictionary nor its key order. */
  lemma {:induction false} AppendAllKnown(es: seq<EnrolledUser>, fs: seq<EnrolledUser>)
    requires forall u :: u in fs ==> u.id in IdentityMap(es)
    requires forall u :: u in fs ==> u.id in FirstSeenOrder(es)
    ensures IdentityMap(es + fs) == IdentityMap(es)
    ensures FirstSeenOrder(es + fs) == FirstSeenOrder(es)
  {
    if fs == [] {
      assert es + fs == es;
    } else {
      var init, u := fs[..|fs| - 1], fs[|fs| - 1];
      assert fs == init + [u];
      AppendAllKnown(es, init);
      assert es + fs == (es + init) + [u];
      assert (es + fs)[..|es + init|] == es + init;
    }
  }

  /** After entries `fs`, every user they list has been recorded. */
  lemma Recorded(es: seq<EnrolledUser>, fs: seq<EnrolledUser>)
    ensures forall u :: u in fs ==> u.id in IdentityMap(es + fs)
  {
    IdentityMapIsFirstSeen(es + fs);
    forall u | u in fs ensures u.id in Ids(es + fs) {
      assert u in es + fs;
    }
  }

  /** An identity once recorded is never replaced by later roster entries. */
  lemma FirstSeenKept(es: seq<EnrolledUser>, fs: seq<EnrolledUser>, uid: int)
    requires uid in IdentityMap(es)
    ensures uid in IdentityMap(es + fs) && IdentityMap(es + fs)[uid] == IdentityMap(es)[uid]
  {
    IdentityMapIsFirstSeen(es);
    IdentityMapIsFirstSeen(es + fs);
    FirstSeenWins(es, fs, uid);
  }
}
