/** The event-registration page (`event-registration.js`) as a state
    machine: the four page sections, the confirmation modal with its pending
    data, the session (auth handle, store, current user), and the handlers
    for auth changes, the register button, the modal's confirm and cancel
    buttons and its backdrop. */
module RegistrationFlow {
  import opened Common
  import opened Store

  datatype Section = LoginPrompt | RegistrationForm | RegistrationSuccess | AlreadyRegistered

  /** `pendingRegistrationData`: what the register click read from the profile. */
  datatype Pending = Pending(name: Option<string>, phone: string, college: string)

  /** The transient messages the handlers show. */
  datatype Notice =
    | NotConfigured
    | SignInFirst
    | CompleteProfileFirst
    | AddPhoneAndCollege
    | AlreadyRegisteredNotice
    | RegistrationSucceeded
    | RegistrationFailed

  datatype Page = Page(
    shown: set<Section>,
    modalOpen: bool,
    pending: Option<Pending>,
    notice: Option<Notice>,
    redirect: Option<string>)

  /** `authReady` is whether the auth handle exists; `store` is `None` when
      the database handle does not. */
  datatype Session = Session(authReady: bool, store: Option<Backend>, user: Option<User>)

  datatype State = State(session: Session, page: Page)

  /** The events the page reacts to, each carrying the outcome of the store
      calls its handler makes; `at` is where the new record's auto-generated
      ID puts it in snapshot order. */
  datatype Event =
    | AuthChanged(user: Option<User>, queryOk: bool)
    | RegisterClicked(readOk: bool, queryOk: bool)
    | ConfirmClicked(writeOk: bool, now: string, at: nat)
    | CancelClicked
    | ModalClicked(onBackdrop: bool)

  const JoinPage := "join.html"
  const RegisteredStatus := "registered"

  /** The one section shown, if exactly one is. */
  predicate ShowsOnly(shown: set<Section>, s: Section) {
    s in shown && |shown| == 1
  }

  /** `showRegistrationSuccess`. */
  function ShowRegistrationSuccess(shown: set<Section>): (r: set<Section>)
    ensures r == {RegistrationSuccess}
  {
    var r := shown - {LoginPrompt} - {RegistrationForm} - {AlreadyRegistered} + {RegistrationSuccess};
    assert forall y: Section | y in r :: y == RegistrationSuccess;
    OnlyMember(r, RegistrationSuccess);
    r
  }

  /** `showAlreadyRegistered`. */
  function ShowAlreadyRegistered(shown: set<Section>): (r: set<Section>)
    ensures r == {AlreadyRegistered}
  {
    var r := shown - {LoginPrompt} - {RegistrationForm} - {RegistrationSuccess} + {AlreadyRegistered};
    assert forall y: Section | y in r :: y == AlreadyRegistered;
    OnlyMember(r, AlreadyRegistered);
    r
  }

  /** The `onAuthStateChanged` callback's section updates as written: the
      signed-out branch and the not-registered branch never hide the
      already-registered section. */
  function ObserveAsWritten(shown: set<Section>, signedIn: bool, registered: bool): (r: set<Section>)
    ensures LoginPrompt in r <==> !signedIn
    ensures RegistrationForm in r <==> signedIn && !registered
    ensures RegistrationSuccess !in r
    ensures AlreadyRegistered in r <==> (signedIn && registered) || AlreadyRegistered in shown
  {
    if signedIn then
      if registered then ShowAlreadyRegistered(shown - {LoginPrompt} - {RegistrationForm} - {RegistrationSuccess})
      else shown - {LoginPrompt} + {RegistrationForm} - {RegistrationSuccess}
    else shown + {LoginPrompt} - {RegistrationForm} - {RegistrationSuccess}
  }

  /** Once the already-registered section is up, a sign-out leaves it up
      beside the login prompt, and so does a switch to an unregistered user
      beside the form. */
  lemma ObserverLeavesTwoSections(shown: set<Section>)
    requires shown == {AlreadyRegistered}
    ensures ObserveAsWritten(shown, false, false) == {LoginPrompt, AlreadyRegistered}
    ensures ObserveAsWritten(shown, true, false) == {RegistrationForm, AlreadyRegistered}
  {
  }

  /** The observer with the already-registered section hidden in the two
      branches that show another section: it always leaves exactly one. */
  function Observe(shown: set<Section>, signedIn: bool, registered: bool): (r: set<Section>)
    ensures !signedIn ==> r == {LoginPrompt}
    ensures signedIn && registered ==> r == {AlreadyRegistered}
    ensures signedIn && !registered ==> r == {RegistrationForm}
  {
    if signedIn then
      if registered then ShowAlreadyRegistered(shown - {LoginPrompt} - {RegistrationForm} - {RegistrationSuccess})
      else
        var r := shown - {LoginPrompt} + {RegistrationForm} - {RegistrationSuccess} - {AlreadyRegistered};
        assert forall y: Section | y in r :: y == RegistrationForm;
        OnlyMember(r, RegistrationForm);
        r
    else
      var r := shown + {LoginPrompt} - {RegistrationForm} - {RegistrationSuccess} - {AlreadyRegistered};
      assert forall y: Section | y in r :: y == LoginPrompt;
      OnlyMember(r, LoginPrompt);
      r
  }

  /** Which auth observer the page runs: the callback as written, or the
      one that also hides the already-registered section. */
  datatype Observer = AsWritten | Corrected

  function ObserveWith(obs: Observer, shown: set<Section>, signedIn: bool, registered: bool): set<Section> {
    match obs
    case AsWritten => ObserveAsWritten(shown, signedIn, registered)
    case Corrected => Observe(shown, signedIn, registered)
  }

  /** The auth-state callback; it exists only when the auth handle does.
      It records the user and sets the sections from the duplicate check. */
  function AuthChange(s: State, user: Option<User>, queryOk: bool, obs: Observer): (r: State)
    ensures !s.session.authReady ==> r == s
    ensures s.session.authReady ==>
              && r.session == s.session.(user := user)
              && r.page == s.page.(shown := r.page.shown)
    ensures s.session.authReady && obs == AsWritten ==>
              var registered := user.Some? && CheckRegistrationStatus(s.session.store, user.value.uid, queryOk);
              && (LoginPrompt in r.page.shown <==> user.None?)
              && (RegistrationForm in r.page.shown <==> user.Some? && !registered)
              && RegistrationSuccess !in r.page.shown
              && (AlreadyRegistered in r.page.shown <==> registered || AlreadyRegistered in s.page.shown)
    ensures s.session.authReady && obs == Corrected ==>
              && (user.None? ==> r.page.shown == {LoginPrompt})
              && (user.Some? && CheckRegistrationStatus(s.session.store, user.value.uid, queryOk) ==>
                    r.page.shown == {AlreadyRegistered})
              && (user.Some? && !CheckRegistrationStatus(s.session.store, user.value.uid, queryOk) ==>
                    r.page.shown == {RegistrationForm})
    ensures obs == Corrected && |s.page.shown| == 1 ==> |r.page.shown| == 1
  {
    if !s.session.authReady then s
    else
      var registered := user.Some? && CheckRegistrationStatus(s.session.store, user.value.uid, queryOk);
      State(s.session.(user := user), s.page.(shown := ObserveWith(obs, s.page.shown, user.Some?, registered)))
  }

  /** The register click may open the confirmation modal: both handles
      exist, a user is signed in, the profile read succeeds and finds a
      complete profile, and the duplicate check finds no registration. */
  predicate OpensConfirmation(s: State, readOk: bool, queryOk: bool) {
    && s.session.authReady && s.session.store.Some? && s.session.user.Some? && readOk
    && ProfileComplete(UserDoc(s.session.store.value.users, s.session.user.value.uid))
    && !CheckRegistrationStatus(s.session.store, s.session.user.value.uid, queryOk)
  }

  /** The pending name: the profile's `name`, else the provider's `displayName`. */
  function PendingName(doc: Doc, user: User): Option<string> {
    var name := Field(doc, NameKey);
    if Truthy(name) then name else user.displayName
  }

  /** The register-button handler. It never writes; it opens the modal
      with data copied from the profile only when `OpensConfirmation`
      holds, and otherwise leaves the pending data and the modal alone. */
  function RegisterClick(s: State, readOk: bool, queryOk: bool): (r: State)
    ensures r.session == s.session
    ensures r.page.modalOpen <==> s.page.modalOpen || OpensConfirmation(s, readOk, queryOk)
    ensures !OpensConfirmation(s, readOk, queryOk) ==> r.page.pending == s.page.pending
    ensures OpensConfirmation(s, readOk, queryOk) ==>
              var doc := s.session.store.value.users[s.session.user.value.uid];
              && r.page.shown == s.page.shown
              && r.page.pending.Some?
              && r.page.pending.value.name == PendingName(doc, s.session.user.value)
              && Some(r.page.pending.value.phone) == Field(doc, PhoneKey)
              && Some(r.page.pending.value.college) == Field(doc, CollegeKey)
    ensures r.page.shown == s.page.shown || r.page.shown == {AlreadyRegistered}
    ensures |s.page.shown| == 1 ==> |r.page.shown| == 1
    ensures r.page.redirect != s.page.redirect ==>
              && r.page.redirect == Some(JoinPage)
              && s.session.authReady && s.session.store.Some?
              && (s.session.user.None? || !ProfileComplete(UserDoc(s.session.store.value.users, s.session.user.value.uid)))
    ensures s.session.authReady && s.session.store.Some? && s.session.user.Some? && readOk
            && ProfileComplete(UserDoc(s.session.store.value.users, s.session.user.value.uid))
            && CheckRegistrationStatus(s.session.store, s.session.user.value.uid, queryOk) ==>
              r.page.shown == {AlreadyRegistered} && r.page.notice == Some(AlreadyRegisteredNotice)
  {
    var p := s.page;
    if !s.session.authReady || s.session.store.None? then
      s.(page := p.(notice := Some(NotConfigured)))
    else if s.session.user.None? then
      s.(page := p.(notice := Some(SignInFirst), redirect := Some(JoinPage)))
    else if !readOk then
      s  // the rejected profile read escapes the handler
    else
      var user := s.session.user.value;
      var doc := UserDoc(s.session.store.value.users, user.uid);
      if doc.None? then
        s.(page := p.(notice := Some(CompleteProfileFirst), redirect := Some(JoinPage)))
      else
        var name := PendingName(doc.value, user);
        var phone := Field(doc.value, PhoneKey);
        var college := Field(doc.value, CollegeKey);
        if !Truthy(phone) || !Truthy(college) then
          s.(page := p.(notice := Some(AddPhoneAndCollege), redirect := Some(JoinPage)))
        else if CheckRegistrationStatus(s.session.store, user.uid, queryOk) then
          s.(page := p.(notice := Some(AlreadyRegisteredNotice), shown := ShowAlreadyRegistered(p.shown)))
        else
          s.(page := p.(pending := Some(Pending(name, phone.value, college.value)), modalOpen := true))
  }

  /** The record a confirmed registration writes. */
  function NewRegistration(user: User, p: Pending, now: string): Registration {
    Registration(user.uid, EventId, p.name, Some(p.phone), Some(p.college), user.email,
                 Some(now), Some(RegisteredStatus))
  }

  /** The modal's confirm handler. */
  function ConfirmClick(s: State, writeOk: bool, now: string, at: nat): (r: State)
    ensures s.page.pending.None? ==> r == s
    ensures r.session.authReady == s.session.authReady && r.session.user == s.session.user
    ensures r.page.shown == s.page.shown || r.page.shown == {RegistrationSuccess}
    ensures |s.page.shown| == 1 ==> |r.page.shown| == 1
    ensures r.session.store.None? <==> s.session.store.None?
    ensures r.session.store.Some? ==> r.session.store.value.users == s.session.store.value.users
    ensures r.session.store != s.session.store ==>
              var before := s.session.store.value.registrations;
              var after := r.session.store.value.registrations;
              && s.page.pending.Some? && s.session.user.Some? && writeOk
              && |after| == |before| + 1
              && var k := if at <= |before| then at else |before|;
              && var rec := after[k];
              && after == Inserted(before, rec, at)
              && rec.userId == s.session.user.value.uid
              && rec.eventId == EventId
              && rec.name == s.page.pending.value.name
              && rec.phone == Some(s.page.pending.value.phone)
              && rec.college == Some(s.page.pending.value.college)
              && rec.email == s.session.user.value.email
              && rec.registeredAt == Some(now)
              && rec.status == Some(RegisteredStatus)
              && r.page.pending.None? && !r.page.modalOpen
              && r.page.shown == {RegistrationSuccess}
              && r.page.notice == Some(RegistrationSucceeded)
    ensures s.page.pending.Some? && s.session.authReady && s.session.user.Some? &&
            (s.session.store.None? || !writeOk) ==>
              && r.session == s.session
              && r.page == s.page.(notice := Some(RegistrationFailed))
    ensures s.page.pending.Some? && s.session.authReady && s.session.user.Some? &&
            s.session.store.Some? && writeOk ==>
              r.session.store != s.session.store
  {
    if s.page.pending.None? then s
    else if !s.session.authReady then
      s  // reading `currentUser` of a missing auth handle throws
    else if s.session.user.None? then
      s.(page := s.page.(notice := Some(SignInFirst), modalOpen := false, redirect := Some(JoinPage)))
    else if s.session.store.None? || !writeOk then
      s.(page := s.page.(notice := Some(RegistrationFailed)))
    else
      var b := s.session.store.value;
      var rec := NewRegistration(s.session.user.value, s.page.pending.value, now);
      var regs := Inserted(b.registrations, rec, at);
      var shown := ShowRegistrationSuccess(s.page.shown - {RegistrationForm});
      State(s.session.(store := Some(b.(registrations := regs))),
            s.page.(modalOpen := false, shown := shown, notice := Some(RegistrationSucceeded), pending := None))
  }

  /** The modal's cancel handler: hides the modal and drops the pending data. */
  function CancelClick(s: State): (r: State)
    ensures r.session == s.session
    ensures !r.page.modalOpen && r.page.pending.None?
    ensures r.page.shown == s.page.shown && r.page.notice == s.page.notice
  {
    s.(page := s.page.(modalOpen := false, pending := None))
  }

  /** A click on the modal: only one on the backdrop itself acts as a cancel. */
  function ModalClick(s: State, onBackdrop: bool): (r: State)
    ensures !onBackdrop ==> r == s
    ensures onBackdrop ==> r.session == s.session && !r.page.modalOpen && r.page.pending.None?
  {
    if onBackdrop then CancelClick(s) else s
  }

  function Step(s: State, e: Event, obs: Observer): State {
    match e
    case AuthChanged(user, queryOk) => AuthChange(s, user, queryOk, obs)
    case RegisterClicked(readOk, queryOk) => RegisterClick(s, readOk, queryOk)
    case ConfirmClicked(writeOk, now, at) => ConfirmClick(s, writeOk, now, at)
    case CancelClicked => CancelClick(s)
    case ModalClicked(onBackdrop) => ModalClick(s, onBackdrop)
  }

  function Run(s: State, events: seq<Event>, obs: Observer): State
    decreases |events|
  {
    if |events| == 0 then s else Run(Step(s, events[0], obs), events[1..], obs)
  }

  /** With the corrected observer, once exactly one section is shown,
      every event keeps it so. */
  lemma StepKeepsOneSection(s: State, e: Event)
    requires |s.page.shown| == 1
    ensures |Step(s, e, Corrected).page.shown| == 1
  {
    match e
    case AuthChanged(user, queryOk) =>
      assert Step(s, e, Corrected) == AuthChange(s, user, queryOk, Corrected);
    case RegisterClicked(readOk, queryOk) =>
      assert Step(s, e, Corrected) == RegisterClick(s, readOk, queryOk);
    case ConfirmClicked(writeOk, now, at) =>
      assert Step(s, e, Corrected) == ConfirmClick(s, writeOk, now, at);
    case CancelClicked =>
    case ModalClicked(onBackdrop) =>
  }

  /** With the corrected observer, after the first auth callback every
      sequence of events leaves exactly one section shown. */
  lemma {:induction false} OneSectionAfterAuthChange(s: State, user: Option<User>, queryOk: bool, events: seq<Event>)
    requires s.session.authReady
    ensures |Run(AuthChange(s, user, queryOk, Corrected), events, Corrected).page.shown| == 1
  {
    var t := AuthChange(s, user, queryOk, Corrected);
    RunKeepsOneSection(t, events);
  }

  lemma {:induction false} RunKeepsOneSection(s: State, events: seq<Event>)
    requires |s.page.shown| == 1
    ensures |Run(s, events, Corrected).page.shown| == 1
    decreases |events|
  {
    if |events| > 0 {
      StepKeepsOneSection(s, events[0]);
      RunKeepsOneSection(Step(s, events[0], Corrected), events[1..]);
    }
  }

  /** The page as written: a registered user signs in, then signs out; the
      login prompt and the already-registered section end up shown together,
      where the corrected observer shows the login prompt alone. */
  lemma AsWrittenRunLeavesTwoSections(s: State, u: User)
    requires s.session.authReady && s.session.store.Some?
    requires IsRegisteredFor(s.session.store.value.registrations, u.uid)
    ensures Run(s, [AuthChanged(Some(u), true), AuthChanged(None, true)], AsWritten).page.shown
            == {LoginPrompt, AlreadyRegistered}
    ensures Run(s, [AuthChanged(Some(u), true), AuthChanged(None, true)], Corrected).page.shown
            == {LoginPrompt}
  {
    var registered := CheckRegistrationStatus(s.session.store, u.uid, true);
    assert registered;
    RunTwo(s, AuthChanged(Some(u), true), AuthChanged(None, true), AsWritten);
    var s1 := AuthChange(s, Some(u), true, AsWritten);
    assert forall y: Section | y in s1.page.shown :: y == AlreadyRegistered;
    OnlyMember(s1.page.shown, AlreadyRegistered);
    var r := AuthChange(s1, None, true, AsWritten).page.shown;
    assert forall y: Section | y in r :: y == LoginPrompt || y == AlreadyRegistered;
    assert r == {LoginPrompt, AlreadyRegistered};
    RunTwo(s, AuthChanged(Some(u), true), AuthChanged(None, true), Corrected);
  }

  lemma RunTwo(s: State, e1: Event, e2: Event, obs: Observer)
    ensures Run(s, [e1, e2], obs) == Step(Step(s, e1, obs), e2, obs)
  {
    var s1 := Step(s, e1, obs);
    assert [e1, e2][1..] == [e2];
    assert Run(s, [e1, e2], obs) == Run(s1, [e2], obs);
    assert [e2][1..] == [];
    assert Run(s1, [e2], obs) == Run(Step(s1, e2, obs), [], obs);
  }

  /** Events of a session in which `u` stays signed in and every duplicate
      check reaches the store. */
  predicate Honest(e: Event, u: User) {
    && (e.AuthChanged? ==> e.user == Some(u))
    && (e.RegisterClicked? ==> e.queryOk)
  }

  /** Pending data exists only for a user with no registration yet. */
  predicate PendingOnlyUnregistered(s: State, uid: string) {
    s.page.pending.Some? ==> RegistrationCount(s.session.store, uid) == 0
  }

  lemma StepAddsAtMostFirstRegistration(s: State, e: Event, u: User, obs: Observer)
    requires s.session.user == Some(u) && Honest(e, u) && PendingOnlyUnregistered(s, u.uid)
    ensures Step(s, e, obs).session.user == Some(u)
    ensures PendingOnlyUnregistered(Step(s, e, obs), u.uid)
    ensures var n, n' := RegistrationCount(s.session.store, u.uid), RegistrationCount(Step(s, e, obs).session.store, u.uid);
            n' == n || (n == 0 && n' == 1)
  {
    var r := Step(s, e, obs);
    match e
    case AuthChanged(user, queryOk) =>
    case RegisterClicked(readOk, queryOk) =>
      if r.page.pending.Some? && r.page.pending != s.page.pending {
        assert OpensConfirmation(s, readOk, queryOk);
        RegisteredIffCounted(s.session.store, u.uid);
      }
    case ConfirmClicked(writeOk, now, at) =>
      if r.session.store != s.session.store {
        var before := s.session.store.value.registrations;
        var k := if at <= |before| then at else |before|;
        var rec := r.session.store.value.registrations[k];
        WhereInserted(before, rec, at, u.uid, Some(EventId));
      }
    case CancelClicked =>
    case ModalClicked(onBackdrop) =>
  }

  /** Registration idempotence: while one user stays signed in and the
      duplicate check reaches the store, no sequence of clicks writes a second
      record for that user and the event, and a user already registered is
      never registered again. This holds with either observer. */
  lemma {:induction false} AtMostOneRegistration(s: State, events: seq<Event>, u: User, obs: Observer)
    requires s.session.user == Some(u) && PendingOnlyUnregistered(s, u.uid)
    requires forall i | 0 <= i < |events| :: Honest(events[i], u)
    ensures var n, n' := RegistrationCount(s.session.store, u.uid), RegistrationCount(Run(s, events, obs).session.store, u.uid);
            n' == n || (n == 0 && n' == 1)
    decreases |events|
  {
    if |events| > 0 {
      StepAddsAtMostFirstRegistration(s, events[0], u, obs);
      AtMostOneRegistration(Step(s, events[0], obs), events[1..], u, obs);
    }
  }

  /** The registration path end to end: a signed-in user with a complete
      profile and no registration clicks register and confirms, and both
      store calls succeed. Exactly one record is added, carrying the
      profile's name, phone and college, and only the success view is
      shown. */
  lemma RegisterThenConfirm(s: State, u: User, now: string, at: nat, obs: Observer)
    requires s.session.authReady && s.session.store.Some? && s.session.user == Some(u)
    requires ProfileComplete(UserDoc(s.session.store.value.users, u.uid))
    requires !IsRegisteredFor(s.session.store.value.registrations, u.uid)
    ensures var r := Run(s, [RegisterClicked(true, true), ConfirmClicked(true, now, at)], obs);
            var b := s.session.store.value;
            var doc := b.users[u.uid];
            var p := Pending(PendingName(doc, u), Field(doc, PhoneKey).value, Field(doc, CollegeKey).value);
            && r.session.store == Some(b.(registrations := Inserted(b.registrations, NewRegistration(u, p, now), at)))
            && RegistrationCount(r.session.store, u.uid) == 1
            && r.page.shown == {RegistrationSuccess}
            && !r.page.modalOpen && r.page.pending.None?
  {
    var b := s.session.store.value;
    var doc := b.users[u.uid];
    var p := Pending(PendingName(doc, u), Field(doc, PhoneKey).value, Field(doc, CollegeKey).value);
    RunTwo(s, RegisterClicked(true, true), ConfirmClicked(true, now, at), obs);
    var s1 := RegisterClick(s, true, true);
    assert OpensConfirmation(s, true, true);
    assert s1.page.pending == Some(p);
    var rec := NewRegistration(u, p, now);
    WhereInserted(b.registrations, rec, at, u.uid, Some(EventId));
    RegisteredIffCounted(Some(b), u.uid);
  }
}
