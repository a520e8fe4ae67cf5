/** The document store as the page scripts see it: the `users` collection
    (one document per user id) and the `event_registrations` collection (a
    sequence of records in snapshot order), the equality-filtered query on
    registrations, the profile-completeness test, and `saveUserData`. */
module Store {
  import opened Common

  /** A document of the `users` collection, field name to value. A field
      stored as `null` is modelled as an absent key: every read in the page
      scripts is a truthiness test, which cannot tell the two apart. */
  type Doc = map<string, string>

  const UidKey := "uid"
  const NameKey := "name"
  const EmailKey := "email"
  const PhotoKey := "photoURL"
  const PhoneKey := "phone"
  const CollegeKey := "college"
  const CreatedAtKey := "createdAt"
  const LastLoginKey := "lastLogin"

  /** The one event the site takes registrations for. */
  const EventId := "gsoc-2024-10-31"

  /** A document of the `event_registrations` collection. */
  datatype Registration = Registration(
    userId: string,
    eventId: string,
    name: Option<string>,
    phone: Option<string>,
    college: Option<string>,
    email: Option<string>,
    registeredAt: Option<string>,
    status: Option<string>)

  datatype Backend = Backend(users: map<string, Doc>, registrations: seq<Registration>)

  function Field(d: Doc, key: string): Option<string> {
    if key in d then Some(d[key]) else None
  }

  /** Sets `key` only when the value is present (a `null` value is no field). */
  function Put(d: Doc, key: string, v: Option<string>): Doc {
    if v.Some? then d[key := v.value] else d
  }

  function UserDoc(users: map<string, Doc>, uid: string): Option<Doc> {
    if uid in users then Some(users[uid]) else None
  }

  /** `setDoc(ref, patch, { merge: true })`: the patch's fields overwrite,
      every other field of the stored document stays. */
  function Merge(d: Doc, patch: Doc): (r: Doc)
    ensures r.Keys == d.Keys + patch.Keys
    ensures forall k | k in patch :: r[k] == patch[k]
    ensures forall k | k in d && k !in patch :: r[k] == d[k]
  {
    d + patch
  }

  /** `setDoc(doc(users, uid), patch, { merge: true })`: creates the
      document if it is missing, merges the patch into it otherwise, and
      leaves every other user's document alone. */
  function MergeUserDoc(users: map<string, Doc>, uid: string, patch: Doc): (r: map<string, Doc>)
    ensures r.Keys == users.Keys + {uid}
    ensures forall id | id in users && id != uid :: r[id] == users[id]
    ensures var before := if uid in users then users[uid] else map[];
            && r[uid].Keys == before.Keys + patch.Keys
            && (forall k | k in patch :: r[uid][k] == patch[k])
            && (forall k | k in before && k !in patch :: r[uid][k] == before[k])
  {
    var before := if uid in users then users[uid] else map[];
    users[uid := Merge(before, patch)]
  }

  /** Profile completeness: a document exists and has truthy phone and college. */
  predicate ProfileComplete(doc: Option<Doc>) {
    doc.Some? && Truthy(Field(doc.value, PhoneKey)) && Truthy(Field(doc.value, CollegeKey))
  }

  predicate Selects(x: Registration, uid: string, event: Option<string>) {
    x.userId == uid && (event.None? || x.eventId == event.value)
  }

  /** `query(registrations, where('userId', '==', uid) [, where('eventId', '==', event)])`:
      the selected records, in snapshot order. */
  function Where(regs: seq<Registration>, uid: string, event: Option<string>): (q: seq<Registration>)
    ensures |q| <= |regs|
    ensures forall x :: x in q <==> x in regs && Selects(x, uid, event)
  {
    if |regs| == 0 then []
    else (if Selects(regs[0], uid, event) then [regs[0]] else []) + Where(regs[1..], uid, event)
  }

  lemma {:induction false} WhereAppend(a: seq<Registration>, b: seq<Registration>, uid: string, event: Option<string>)
    ensures Where(a + b, uid, event) == Where(a, uid, event) + Where(b, uid, event)
  {
    if |a| == 0 {
      assert a + b == b;
    } else {
      assert (a + b)[1..] == a[1..] + b;
      WhereAppend(a[1..], b, uid, event);
    }
  }

  /** Where a new record lands in snapshot order: a document created with
      an auto-generated ID sorts at a place the writer does not choose,
      modelled as the position `at`, capped at the end. */
  function Inserted(regs: seq<Registration>, x: Registration, at: nat): (r: seq<Registration>)
    ensures |r| == |regs| + 1
  {
    var k := if at <= |regs| then at else |regs|;
    regs[..k] + [x] + regs[k..]
  }

  /** The query over a collection with one more record is the query over
      the records before it, the new record if it is selected, and the
      query over the records after it. */
  lemma WhereInserted(regs: seq<Registration>, x: Registration, at: nat, uid: string, event: Option<string>)
    ensures var k := if at <= |regs| then at else |regs|;
            && Where(Inserted(regs, x, at), uid, event)
               == Where(regs[..k], uid, event) + (if Selects(x, uid, event) then [x] else []) + Where(regs[k..], uid, event)
            && Where(regs, uid, event) == Where(regs[..k], uid, event) + Where(regs[k..], uid, event)
  {
    var k := if at <= |regs| then at else |regs|;
    var pre, post := regs[..k], regs[k..];
    assert Inserted(regs, x, at) == (pre + [x]) + post;
    assert pre + post == regs;
    WhereOfOne(x, uid, event);
    WhereAppend(pre, [x], uid, event);
    WhereAppend(pre + [x], post, uid, event);
    WhereAppend(pre, post, uid, event);
  }

  lemma WhereOfOne(x: Registration, uid: string, event: Option<string>)
    ensures Where([x], uid, event) == if Selects(x, uid, event) then [x] else []
  {
    assert [x][1..] == [];
  }

  /** Some record links `uid` to the event. */
  ghost predicate IsRegisteredFor(regs: seq<Registration>, uid: string) {
    exists i | 0 <= i < |regs| :: regs[i].userId == uid && regs[i].eventId == EventId
  }

  /** How many records link `uid` to the event. */
  function RegistrationCount(store: Option<Backend>, uid: string): nat {
    if store.Some? then |Where(store.value.registrations, uid, Some(EventId))| else 0
  }

  lemma RegisteredIffCounted(store: Option<Backend>, uid: string)
    requires store.Some?
    ensures IsRegisteredFor(store.value.registrations, uid) <==> RegistrationCount(store, uid) > 0
  {
    var regs := store.value.registrations;
    var q := Where(regs, uid, Some(EventId));
    if |q| > 0 {
      assert q[0] in q;
      var i :| 0 <= i < |regs| && regs[i] == q[0];
    }
    if IsRegisteredFor(regs, uid) {
      var i :| 0 <= i < |regs| && regs[i].userId == uid && regs[i].eventId == EventId;
      assert regs[i] in q;
    }
  }

  /** `checkRegistrationStatus`: the query's snapshot is non-empty; an
      unconfigured store or a failed query answers `false`. */
  function CheckRegistrationStatus(store: Option<Backend>, uid: string, queryOk: bool): (r: bool)
    ensures r <==> store.Some? && queryOk && IsRegisteredFor(store.value.registrations, uid)
  {
    if store.None? || !queryOk then false
    else
      RegisteredIffCounted(store, uid);
      RegistrationCount(store, uid) > 0
  }

  /** The document `saveUserData` creates on a first sign-in. */
  function NewUserDoc(user: User, now: string): (d: Doc)
    ensures Field(d, UidKey) == Some(user.uid)
    ensures Field(d, CreatedAtKey) == Some(now) && Field(d, LastLoginKey) == Some(now)
    ensures Field(d, NameKey) == user.displayName
    ensures Field(d, EmailKey) == user.email
    ensures Field(d, PhotoKey) == user.photoURL
    ensures d.Keys <= {UidKey, NameKey, EmailKey, PhotoKey, CreatedAtKey, LastLoginKey}
  {
    var base := map[UidKey := user.uid, CreatedAtKey := now, LastLoginKey := now];
    Put(Put(Put(base, NameKey, user.displayName), EmailKey, user.email), PhotoKey, user.photoURL)
  }

  /** `saveUserData`: creates the user's document when none exists, and
      otherwise merges only `lastLogin`. `ok` is false when the read or the
      write fails; the failure is caught and nothing changes. */
  function SaveUserData(store: Option<Backend>, user: User, now: string, ok: bool): (r: Option<Backend>)
    ensures store.None? || !ok ==> r == store
    ensures store.Some? && ok ==>
              && r.Some?
              && r.value.registrations == store.value.registrations
              && r.value.users.Keys == store.value.users.Keys + {user.uid}
              && forall id | id in store.value.users && id != user.uid ::
                   r.value.users[id] == store.value.users[id]
    ensures store.Some? && ok && user.uid !in store.value.users ==>
              var d := r.value.users[user.uid];
              && Field(d, UidKey) == Some(user.uid)
              && Field(d, CreatedAtKey) == Some(now)
              && Field(d, LastLoginKey) == Some(now)
              && Field(d, NameKey) == user.displayName
              && Field(d, EmailKey) == user.email
              && Field(d, PhotoKey) == user.photoURL
              && d.Keys <= {UidKey, NameKey, EmailKey, PhotoKey, CreatedAtKey, LastLoginKey}
    ensures store.Some? && ok && user.uid in store.value.users ==>
              var before := store.value.users[user.uid];
              var d := r.value.users[user.uid];
              && Field(d, LastLoginKey) == Some(now)
              && d.Keys == before.Keys + {LastLoginKey}
              && forall k | k in before && k != LastLoginKey :: d[k] == before[k]
  {
    if store.None? || !ok then store
    else
      var users := store.value.users;
      var d := if user.uid !in users then NewUserDoc(user, now)
               else Merge(users[user.uid], map[LastLoginKey := now]);
      Some(store.value.(users := users[user.uid := d]))
  }

  /** `saveUserData` never makes a profile complete or incomplete: a new
      document has no phone or college, and the `lastLogin` merge keeps
      both. */
  lemma SaveUserDataKeepsCompleteness(store: Option<Backend>, user: User, now: string, ok: bool, id: string)
    requires store.Some?
    ensures var r := SaveUserData(store, user, now, ok);
            ProfileComplete(UserDoc(r.value.users, id)) <==> ProfileComplete(UserDoc(store.value.users, id))
  {
    var r := SaveUserData(store, user, now, ok);
    if ok && id == user.uid {
      assert PhoneKey != LastLoginKey && CollegeKey != LastLoginKey;
      if user.uid !in store.value.users {
        assert PhoneKey !in {UidKey, NameKey, EmailKey, PhotoKey, CreatedAtKey, LastLoginKey} by {
          assert PhoneKey != EmailKey by { assert PhoneKey[0] != EmailKey[0]; }
        }
      }
    }
  }
}
