/** The profile page (`profile.js`): the profile card the signed-in user
    sees, and the list of registered events, built by joining the user's
    registrations to the page's event catalog. */
module ProfilePage {
  import opened Common
  import opened Store

  datatype EventInfo = EventInfo(title: string, image: string, date: string, time: string, link: string)

  /** `eventDataMap`: the events the page knows how to show. */
  const EventCatalog: map<string, EventInfo> :=
    map[EventId := EventInfo("GSoC Success Story with Prathamesh Sahasrabhojane", "GsocEvent.jpeg",
                             "October 31, 2025", "2:30 PM IST", "event-gsoc.html")]

  const DefaultStatus := "registered"

  /** One card of the registered-events grid. */
  datatype EventEntry = EventEntry(info: EventInfo, registeredAt: Option<string>, status: string)

  /** The card for a registration of a known event: the catalog's data,
      the record's `registeredAt`, and its status or `"registered"`. */
  function EntryFor(x: Registration, catalog: map<string, EventInfo>): (e: EventEntry)
    requires x.eventId in catalog
    ensures e.info == catalog[x.eventId] && e.registeredAt == x.registeredAt
    ensures |e.status| > 0
    ensures Truthy(x.status) ==> e.status == x.status.value
    ensures !Truthy(x.status) ==> e.status == DefaultStatus
  {
    EventEntry(catalog[x.eventId], x.registeredAt, Or(x.status, DefaultStatus))
  }

  /** The `forEach` of `loadRegisteredEvents`: registrations of unknown
      events are dropped, the others become cards in snapshot order. */
  function Entries(snapshot: seq<Registration>, catalog: map<string, EventInfo>): (r: seq<EventEntry>)
    ensures |r| <= |snapshot|
  {
    if |snapshot| == 0 then []
    else
      var rest := Entries(snapshot[1..], catalog);
      var head := if snapshot[0].eventId in catalog then [EntryFor(snapshot[0], catalog)] else [];
      head + rest
  }

  /** The join is a homomorphism of snapshots: the cards of a concatenation
      are the cards of each part, in order. With `EntriesOfOne` this fixes
      the list completely: one card per known registration, in snapshot
      order. */
  lemma {:induction false} EntriesAppend(a: seq<Registration>, b: seq<Registration>, catalog: map<string, EventInfo>)
    ensures Entries(a + b, catalog) == Entries(a, catalog) + Entries(b, catalog)
  {
    if |a| == 0 {
      assert a + b == b;
    } else {
      var ab := a + b;
      assert ab[0] == a[0];
      assert ab[1..] == a[1..] + b;
      var head := if a[0].eventId in catalog then [EntryFor(a[0], catalog)] else [];
      assert Entries(ab, catalog) == head + Entries(a[1..] + b, catalog);
      assert Entries(a, catalog) == head + Entries(a[1..], catalog);
      EntriesAppend(a[1..], b, catalog);
    }
  }

  /** The join is empty exactly when no registration names a known event. */
  lemma {:induction false} EntriesEmpty(snapshot: seq<Registration>, catalog: map<string, EventInfo>)
    ensures |Entries(snapshot, catalog)| == 0 <==> forall i | 0 <= i < |snapshot| :: snapshot[i].eventId !in catalog
  {
    if |snapshot| > 0 {
      EntriesEmpty(snapshot[1..], catalog);
      assert forall i | 1 <= i < |snapshot| :: snapshot[i] == snapshot[1..][i - 1];
    }
  }

  lemma EntriesOfOne(x: Registration, catalog: map<string, EventInfo>)
    ensures Entries([x], catalog) == if x.eventId in catalog then [EntryFor(x, catalog)] else []
  {
    assert [x][1..] == [];
  }

  /** The events half of the page: whether `#no-events-message` and
      `#registered-events-grid` are shown, and the cards in the grid. */
  datatype EventsView = EventsView(noEventsShown: bool, gridShown: bool, cards: seq<EventEntry>)

  /** `loadRegisteredEvents` for the user's snapshot: the empty state when
      no card results (an empty snapshot or only unknown events), the grid
      with the cards otherwise. */
  function LoadRegisteredEvents(prev: EventsView, snapshot: seq<Registration>): (v: EventsView)
    ensures v.noEventsShown <==> !v.gridShown
    ensures v.gridShown <==> exists i | 0 <= i < |snapshot| :: snapshot[i].eventId in EventCatalog
    ensures v.gridShown ==> v.cards == Entries(snapshot, EventCatalog) && |v.cards| > 0
    ensures !v.gridShown ==> v.cards == prev.cards
  {
    if |snapshot| == 0 then EventsView(true, false, prev.cards)
    else
      var events := Entries(snapshot, EventCatalog);
      EntriesEmpty(snapshot, EventCatalog);
      if |events| == 0 then EventsView(true, false, prev.cards)
      else EventsView(false, true, events)
  }

  /** A phone or college line: the stored value, or "Not provided" in the
      muted style. */
  datatype FieldView = Provided(value: string) | NotProvided

  function ShowField(v: Option<string>): (f: FieldView)
    ensures f.Provided? <==> Truthy(v)
    ensures f.Provided? ==> f.value == v.value && |f.value| > 0
  {
    if Truthy(v) then Provided(v.value) else NotProvided
  }

  datatype Card = Card(name: string, email: string, phone: FieldView, college: FieldView)

  /** The profile page: the user card (`None` while hidden), the photo
      source (only ever set, never cleared) and the events half. */
  datatype ProfileView = ProfileView(card: Option<Card>, photo: Option<string>, events: EventsView)

  /** The card of `loadUserProfile`: from the profile document when there
      is one, from the provider's user object otherwise. */
  function CardFor(doc: Option<Doc>, user: User): (c: Card)
    ensures |c.name| > 0
    ensures doc.Some? ==>
              c.name == Or(Field(doc.value, NameKey), Or(user.displayName, "User"))
    ensures doc.None? ==> c.name == MenuName(user)
    ensures c.email == Or(user.email, "")
    ensures c.phone.Provided? <==> doc.Some? && Truthy(Field(doc.value, PhoneKey))
    ensures c.college.Provided? <==> doc.Some? && Truthy(Field(doc.value, CollegeKey))
    ensures c.phone.Provided? ==> Some(c.phone.value) == Field(doc.value, PhoneKey)
    ensures c.college.Provided? ==> Some(c.college.value) == Field(doc.value, CollegeKey)
  {
    var email := Or(user.email, "");
    match doc
    case Some(d) =>
      Card(Or(Field(d, NameKey), Or(user.displayName, "User")), email,
           ShowField(Field(d, PhoneKey)), ShowField(Field(d, CollegeKey)))
    case None =>
      Card(MenuName(user), email, NotProvided, NotProvided)
  }

  /** `loadUserProfile`. `readOk` is whether the profile read succeeds and
      `queryOk` whether the registrations query does; a failure is caught
      and leaves what was already drawn. The events are those of
      `where('userId', '==', uid)`, for any event. */
  function LoadUserProfile(prev: ProfileView, store: Option<Backend>, user: Option<User>,
                           readOk: bool, queryOk: bool): (v: ProfileView)
    ensures store.None? || user.None? || !readOk ==> v == prev
    ensures store.Some? && user.Some? && readOk ==>
              && v.card == Some(CardFor(UserDoc(store.value.users, user.value.uid), user.value))
              && v.photo == (if Truthy(user.value.photoURL) then user.value.photoURL else prev.photo)
              && v.events == (if queryOk then
                                LoadRegisteredEvents(prev.events, Where(store.value.registrations, user.value.uid, None))
                              else prev.events)
  {
    if store.None? || user.None? || !readOk then prev
    else
      var u := user.value;
      var card := CardFor(UserDoc(store.value.users, u.uid), u);
      var photo := if Truthy(u.photoURL) then u.photoURL else prev.photo;
      var events := if queryOk then LoadRegisteredEvents(prev.events, Where(store.value.registrations, u.uid, None))
                    else prev.events;
      ProfileView(Some(card), photo, events)
  }

  /** The profile page's auth callback: a signed-in user's profile is
      loaded; a signed-out visitor is sent to the join page. */
  function ProfileAuthChange(prev: ProfileView, store: Option<Backend>, user: Option<User>,
                             readOk: bool, queryOk: bool): (r: (ProfileView, Option<string>))
    ensures r.1.Some? <==> user.None?
    ensures user.None? ==> r == (prev, Some("join.html"))
    ensures user.Some? ==> r.0 == LoadUserProfile(prev, store, user, readOk, queryOk)
  {
    if user.Some? then (LoadUserProfile(prev, store, user, readOk, queryOk), None)
    else (prev, Some("join.html"))
  }

  /** A new registration record lands wherever the store's generated id puts
      it among the user's records, so its card appears at that place in the
      grid: the cards of the records before it, its own card, then the cards
      of the records after it. No other card is added or lost. */
  lemma NewRegistrationHasCard(regs: seq<Registration>, x: Registration, at: nat, uid: string)
    requires x.userId == uid && x.eventId == EventId
    ensures var k := if at <= |regs| then at else |regs|;
            var cards := Entries(Where(Inserted(regs, x, at), uid, None), EventCatalog);
            && cards == Entries(Where(regs[..k], uid, None), EventCatalog) + [EntryFor(x, EventCatalog)]
                        + Entries(Where(regs[k..], uid, None), EventCatalog)
            && Entries(Where(regs, uid, None), EventCatalog)
               == Entries(Where(regs[..k], uid, None), EventCatalog) + Entries(Where(regs[k..], uid, None), EventCatalog)
            && EntryFor(x, EventCatalog) in cards
  {
    var k := if at <= |regs| then at else |regs|;
    var pre, post := Where(regs[..k], uid, None), Where(regs[k..], uid, None);
    WhereInserted(regs, x, at, uid, None);
    assert Where(Inserted(regs, x, at), uid, None) == (pre + [x]) + post;
    EntriesAppend(pre + [x], post, EventCatalog);
    EntriesAppend(pre, [x], EventCatalog);
    EntriesOfOne(x, EventCatalog);
    EntriesAppend(pre, post, EventCatalog);
    var cards := Entries(Where(Inserted(regs, x, at), uid, None), EventCatalog);
    var before := Entries(pre, EventCatalog);
    assert cards == before + [EntryFor(x, EventCatalog)] + Entries(post, EventCatalog);
    assert cards[|before|] == EntryFor(x, EventCatalog);
  }

  /** A user with a registration for the event sees the grid, not the
      empty state, once both reads succeed. */
  lemma RegisteredUserSeesGrid(prev: ProfileView, b: Backend, u: User)
    requires IsRegisteredFor(b.registrations, u.uid)
    ensures var v := LoadUserProfile(prev, Some(b), Some(u), true, true);
            v.events.gridShown && !v.events.noEventsShown
  {
    var i :| 0 <= i < |b.registrations| && b.registrations[i].userId == u.uid && b.registrations[i].eventId == EventId;
    var snapshot := Where(b.registrations, u.uid, None);
    assert b.registrations[i] in snapshot;
    var j :| 0 <= j < |snapshot| && snapshot[j] == b.registrations[i];
    assert snapshot[j].eventId in EventCatalog;
  }

  /** A signed-in user's callback keeps the visitor on the page and, once
      both reads succeed, draws that user's card; a registered user also
      sees the grid and not the empty state. */
  lemma SignedInCallbackShowsProfile(prev: ProfileView, b: Backend, u: User)
    ensures var r := ProfileAuthChange(prev, Some(b), Some(u), true, true);
            && r.1 == None
            && r.0.card == Some(CardFor(UserDoc(b.users, u.uid), u))
            && (IsRegisteredFor(b.registrations, u.uid) ==> r.0.events.gridShown && !r.0.events.noEventsShown)
  {
    if IsRegisteredFor(b.registrations, u.uid) {
      RegisteredUserSeesGrid(prev, b, u);
    }
  }
}
