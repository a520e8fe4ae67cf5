/** The sign-in page (`auth.js`): which of its three sections the auth
    observer shows, and the profile-completion submit handler, which decides
    whether anything is written and what. */
module AuthPage {
  import opened Common
  import opened Store
  import opened Validators

  datatype Section = LoginSection | CompletionSection | Dashboard

  /** The `display` the observer assigns to each section; `true` is `block`. */
  datatype Displays = Displays(login: bool, completion: bool, dashboard: bool)

  function Visible(d: Displays): set<Section> {
    (if d.login then {LoginSection} else {})
    + (if d.completion then {CompletionSection} else {})
    + (if d.dashboard then {Dashboard} else {})
  }

  /** The `onAuthStateChanged` callback; `users` is the `users` collection it
      reads the signed-in user's document from. Exactly one section is shown:
      the login section without a user, the dashboard for a complete
      profile, the completion form otherwise. */
  function ObserveAuthState(user: Option<User>, users: map<string, Doc>): (shown: set<Section>)
    ensures |shown| == 1
    ensures LoginSection in shown <==> user.None?
    ensures Dashboard in shown <==> user.Some? && ProfileComplete(UserDoc(users, user.value.uid))
    ensures CompletionSection in shown <==> user.Some? && !ProfileComplete(UserDoc(users, user.value.uid))
  {
    var d :=
      if user.Some? then
        var doc := UserDoc(users, user.value.uid);
        if doc.Some? then
          if Truthy(Field(doc.value, PhoneKey)) && Truthy(Field(doc.value, CollegeKey)) then
            Displays(false, false, true)
          else
            Displays(false, true, false)
        else
          Displays(false, true, false)
      else
        Displays(true, false, false);
    assert Visible(Displays(true, false, false)) == {LoginSection};
    assert Visible(Displays(false, true, false)) == {CompletionSection};
    assert Visible(Displays(false, false, true)) == {Dashboard};
    Visible(d)
  }

  /** The error line under the phone field, as the `input` handler
      (`onBlur` false) and the `blur` handler set it from the raw field
      value: the validator's message, except that typing into an empty
      field shows none. */
  function PhoneFieldError(value: string, onBlur: bool): (m: Option<string>)
    ensures m.Some? <==> ValidatePhoneNumber(value).Invalid? && (onBlur || |value| > 0)
    ensures m.Some? ==> ValidatePhoneNumber(value) == Invalid(m.value)
    ensures onBlur && |value| == 0 ==> m == Some(PhoneRequired)
  {
    var validation := ValidatePhoneNumber(value);
    if (onBlur || |value| > 0) && validation.Invalid? then Some(validation.message) else None
  }

  const CollegeMinLength := 2

  /** How a submit of the completion form ends; each rejection is the
      message the handler shows before returning. */
  datatype SubmitOutcome =
    | NotConfigured
    | NotSignedIn
    | PhoneRejected(message: string)
    | CollegeRejected
    | EmailRejected
    | SaveFailed
    | ProfileSaved

  /** What a submit leaves behind: how it ended, the store, and the shown
      sections. */
  datatype Submission = Submission(outcome: SubmitOutcome, store: Option<Backend>, shown: set<Section>)

  const CompletionFields := {PhoneKey, CollegeKey, EmailKey}

  /** The fields the completion form merges into the user's document. */
  function CompletionPatch(phone: string, college: string, email: string): Doc {
    map[PhoneKey := Clean(phone), CollegeKey := college, EmailKey := email]
  }

  /** The write of a validated completion form: the cleaned phone, the
      college and the provider's email are merged into the user's document;
      every other field, and every other document, is kept. */
  function SaveCompletion(b: Backend, user: User, phone: string, college: string): (r: Backend)
    requires user.email.Some?
    ensures r.registrations == b.registrations
    ensures r.users.Keys == b.users.Keys + {user.uid}
    ensures forall id | id in b.users && id != user.uid :: r.users[id] == b.users[id]
    ensures var d := r.users[user.uid];
            && Field(d, PhoneKey) == Some(Clean(phone))
            && Field(d, CollegeKey) == Some(college)
            && Field(d, EmailKey) == user.email
    ensures var before := if user.uid in b.users then b.users[user.uid] else map[];
            var d := r.users[user.uid];
            && d.Keys == before.Keys + CompletionFields
            && forall k | k in before && k !in CompletionFields :: d[k] == before[k]
  {
    var patch := CompletionPatch(phone, college, user.email.value);
    assert patch.Keys == CompletionFields;
    b.(users := MergeUserDoc(b.users, user.uid, patch))
  }

  /** The profile-completion submit handler. `shown` is what the page shows
      when the form is submitted, `phoneField` and `collegeField` are the raw
      form values, and `writeOk` is whether the merge write succeeds.
      Nothing is written unless the trimmed phone is valid, the trimmed
      college is at least two UTF-16 code units long (JavaScript's
      `length`) and the provider's email is valid.
      A save hides the completion form and shows the dashboard itself; the
      auth observer does not run again on a write. */
  function SubmitProfile(store: Option<Backend>, user: Option<User>, shown: set<Section>, phoneField: string,
                         collegeField: string, writeOk: bool): (r: Submission)
    ensures r.outcome != ProfileSaved ==> r.store == store && r.shown == shown
    ensures r.outcome == ProfileSaved ==> r.shown == shown - {CompletionSection} + {Dashboard}
    ensures r.outcome == ProfileSaved <==>
              && store.Some? && user.Some?
              && ValidatePhoneNumber(Trim(phoneField)).Valid?
              && Utf16Length(Trim(collegeField)) >= CollegeMinLength
              && ValidateEmail(user.value.email).Valid?
              && writeOk
    ensures r.outcome.PhoneRejected? ==>
              ValidatePhoneNumber(Trim(phoneField)) == Invalid(r.outcome.message)
    ensures r.outcome == ProfileSaved ==>
              && user.value.email.Some?
              && r.store == Some(SaveCompletion(store.value, user.value, Trim(phoneField), Trim(collegeField)))
  {
    if store.None? then Submission(NotConfigured, store, shown)
    else if user.None? then Submission(NotSignedIn, store, shown)
    else
      var phone := Trim(phoneField);
      var college := Trim(collegeField);
      var phoneCheck := ValidatePhoneNumber(phone);
      if phoneCheck.Invalid? then Submission(PhoneRejected(phoneCheck.message), store, shown)
      else if |college| == 0 || Utf16Length(college) < CollegeMinLength then Submission(CollegeRejected, store, shown)
      else if ValidateEmail(user.value.email).Invalid? then Submission(EmailRejected, store, shown)
      else if !writeOk then Submission(SaveFailed, store, shown)
      else Submission(ProfileSaved, Some(SaveCompletion(store.value, user.value, phone, college)),
                      shown - {CompletionSection} + {Dashboard})
  }

  /** A first sign-in leaves a document without phone or college, so the
      observer shows the completion form and only it. */
  lemma FirstSignInShowsCompletion(b: Backend, u: User, now: string)
    requires u.uid !in b.users
    ensures ObserveAuthState(Some(u), SaveUserData(Some(b), u, now, true).value.users) == {CompletionSection}
  {
    SaveUserDataKeepsCompleteness(Some(b), u, now, true, u.uid);
    var shown := ObserveAuthState(Some(u), SaveUserData(Some(b), u, now, true).value.users);
    OnlyMember(shown, CompletionSection);
  }

  /** The first end-to-end path of the sign-in page: from the completion
      form, a saved submit shows the dashboard and only it, and that is also
      what the auth observer shows for the saved document, whatever the
      document held before. */
  lemma SavedProfileShowsDashboard(store: Option<Backend>, user: Option<User>, phoneField: string,
                                   collegeField: string, writeOk: bool)
    requires SubmitProfile(store, user, {CompletionSection}, phoneField, collegeField, writeOk).outcome == ProfileSaved
    ensures var r := SubmitProfile(store, user, {CompletionSection}, phoneField, collegeField, writeOk);
            && r.shown == {Dashboard}
            && ObserveAuthState(user, r.store.value.users) == r.shown
  {
    var r := SubmitProfile(store, user, {CompletionSection}, phoneField, collegeField, writeOk);
    var c := Clean(Trim(phoneField));
    assert WellFormedPhone(c);
    assert |c| >= 10;
    assert ProfileComplete(UserDoc(r.store.value.users, user.value.uid));
    var shown := ObserveAuthState(user, r.store.value.users);
    OnlyMember(shown, Dashboard);
    OnlyMember(r.shown, Dashboard);
  }

  /** A submit that is rejected, for any reason, leaves the store and the
      shown sections as they were. */
  lemma RejectedSubmitWritesNothing(store: Option<Backend>, user: Option<User>, shown: set<Section>,
                                    phoneField: string, collegeField: string, writeOk: bool)
    requires !ValidatePhoneNumber(Trim(phoneField)).Valid? || Utf16Length(Trim(collegeField)) < CollegeMinLength
             || (user.Some? && !ValidateEmail(user.value.email).Valid?)
    ensures var r := SubmitProfile(store, user, shown, phoneField, collegeField, writeOk);
            r.store == store && r.shown == shown
  {
  }

  /** The college check counts UTF-16 code units, as JavaScript's `length`
      does: a college of one non-space character is rejected exactly when
      that character is not astral; an astral one, stored as a surrogate
      pair, is two units long and passes. */
  lemma OneCharacterCollege(store: Option<Backend>, user: Option<User>, shown: set<Section>,
                            phoneField: string, c: char, writeOk: bool)
    requires store.Some? && user.Some? && ValidatePhoneNumber(Trim(phoneField)).Valid?
    requires !IsWhitespace(c)
    ensures SubmitProfile(store, user, shown, phoneField, [c], writeOk).outcome == CollegeRejected <==> !Astral(c)
  {
    assert Trim([c]) == [c];
    assert [c][..0] == [];
    assert Utf16Length([c]) == if Astral(c) then 2 else 1;
  }
}
