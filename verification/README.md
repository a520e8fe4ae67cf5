# CodeNexus website: the logic behind its sign-in, registration and profile pages

This project models, in Dafny, the sequential logic of the CodeNexus
community website's page scripts. The model covers:

- **Sign-in page** (`auth.js`): the phone and e-mail validators, the
  profile-completion submit (what it writes, and when), `saveUserData`, the
  live phone-field error, and the auth observer that picks one of three
  sections.
- **Event-registration page** (`event-registration.js`): a state machine
  over the four page sections, the confirmation modal and its pending data,
  and an abstract registration store. It covers the duplicate check and the
  register, confirm, cancel and backdrop handlers. The machine takes the
  auth observer as a parameter: the observer as written, or a corrected
  one (see "Findings").
- **Navigation script** (`nav-auth.js`): member-count rounding, the
  navigation placeholder, and the rewrites of the call-to-action links and
  hints.
- **Profile page** (`profile.js`): the profile card with its fallbacks, and
  the join of the user's registrations to the event catalog.

The document store is a map from user id to document (`map<string,string>`)
plus the registrations collection, kept as a sequence in snapshot order. An
absent database handle is `None`. Every network call becomes a boolean
parameter that says whether the call succeeded. A user object is a record
whose nullable properties are `Option<string>`. JavaScript truthiness of a
string property is "present and non-empty". A document field stored as
`null` is modelled as an absent key, because every read of such a field is a
truthiness test.

Modules: `Common` (options, the user record, truthiness, the `\s`/`trim`
whitespace class, the menu-name fallback), `Store`, `Validators`,
`AuthPage`, `RegistrationFlow`, `NavAuth` and `ProfilePage`.

## Model

| member | source | states |
|---|---|---|
| `Common.Utf16Length` | auth.js:254 | JavaScript's `length` lies between the code-point count and twice that count. It equals the code-point count iff no character is astral. |
| `Common.Trim` | auth.js:237-238 | The result is the slice of the input that starts right after its leading whitespace; everything after that slice is whitespace. The result has no whitespace at either end. It is empty iff the input is all whitespace. It equals the input iff the input is empty or starts and ends with non-whitespace. |
| `Common.LocalPart` | nav-auth.js:59 | `split('@')[0]` is the longest prefix without `@`. The character after it, if any, is `@`. |
| `Common.MenuName` | nav-auth.js:59 | The menu name is never empty. It is a non-empty `displayName`; failing that, the e-mail text before the first `@` when that is non-empty; otherwise `"User"`. |
| `Store.Merge` | auth.js:276-280 | A merge write overwrites exactly the patch's fields. Every other field of the stored document is kept. |
| `Store.MergeUserDoc` | auth.js:275-280 | A merge into one user's document creates the document if it is missing. Other users' documents are unchanged. |
| `Store.Where` | event-registration.js:88-90 | A record is in the query result iff it is in the collection and matches the user id (and the event id, when one is given). |
| `Store.WhereAppend` | event-registration.js:88-90 | The query distributes over concatenation of the collection, so snapshot order is preserved. |
| `Store.WhereInserted` | event-registration.js:276-286 | A record stored at any position of the collection (the store places a new document by its generated id) enters the query result at the matching position: the selected records before it, then the record itself when it matches, then the selected records after it. |
| `Store.RegisteredIffCounted` | event-registration.js:88-91 | Some record links the user to the event iff the filtered snapshot is non-empty. |
| `Store.CheckRegistrationStatus` | event-registration.js:84-96 | True iff the store exists, the query succeeds, and some record has both the user id and the event id `gsoc-2024-10-31`. |
| `Store.NewUserDoc` | auth.js:133-137 | A first sign-in's document (the caller's `userData` of auth.js:71-75 plus the stamps) holds `uid`, `createdAt` and `lastLogin`, plus `name`, `email` and `photoURL` exactly when the provider has them. It holds no other field. |
| `Store.SaveUserData` | auth.js:124-148 | On a first sign-in it creates a document with `uid`, `createdAt`, `lastLogin` and the non-null provider fields, and no other field. Otherwise it merges only `lastLogin`. A failure or a missing store changes nothing. It never touches registrations or other users. The copy at event-registration.js:343-368 has the same effect. |
| `Store.SaveUserDataKeepsCompleteness` | auth.js:124-148 | `saveUserData` never changes whether any user's profile has a truthy phone and college. |
| `Validators.Clean` | auth.js:157 | The cleaned number is no longer than the input and contains no whitespace, `-`, `(` or `)`. |
| `Validators.CleanAppend` | auth.js:157 | Cleaning works character by character: it distributes over concatenation. |
| `Validators.CleanKeeps` | auth.js:157 | A string without separators is kept exactly, so every other character is kept, in order. |
| `Validators.CleanDropsSeparator` | auth.js:157 | Deleting one separator anywhere leaves the cleaned string unchanged. |
| `Validators.CleanIdempotent` | auth.js:157 | Cleaning twice is cleaning once. |
| `Validators.ValidatePhoneNumber` | auth.js:151-174 | Accepts iff the cleaned number is 10 ASCII digits, or `+` followed by 10 to 13 ASCII digits. Rejects with "Phone number is required" iff the input is empty. Otherwise it gives the message of the branch taken. |
| `Validators.PlusOnlyFirst` | auth.js:160-171 | A `+` anywhere but first in the cleaned number makes the number invalid. |
| `Validators.SeparatorsIrrelevant` | auth.js:157 | Inserting a separator never changes whether a number is accepted. |
| `Validators.TenDigitsAccepted` | auth.js:166-171 | Any ten ASCII digits are accepted. |
| `Validators.DashedDigitsAccepted` | auth.js:157-171 | Ten digits split into three dash-separated groups are accepted. |
| `Validators.CountryCodeAccepted` | auth.js:160-165 | `+` followed by 10 to 13 digits is accepted. |
| `Validators.WrongDigitCountRejected` | auth.js:166-170 | Digits alone, but not ten of them, are rejected with the ten-digit message. |
| `Validators.DashedExample` | auth.js:151-174 | `987-654-3210` is accepted. |
| `Validators.InternationalExample` | auth.js:151-174 | `+919876543210` is accepted. |
| `Validators.ShortNumberExample` | auth.js:151-174 | `12345` is rejected with the ten-digit message. |
| `Validators.ShapeMatchesPattern` | auth.js:182-183 | An address that passes the scanning check matches the regular expression. |
| `Validators.PatternHasShape` | auth.js:182-183 | An address matching the regular expression, at the given `@` and `.` positions, passes the scanning check. |
| `Validators.EmailShapeIsPattern` | auth.js:182-183 | The scanning check agrees with the regular expression, which is stated by positions: one `@` after a non-empty local part, and a `.` strictly inside the domain. No character except that `@` is whitespace or `@`. |
| `Validators.ValidateEmail` | auth.js:176-188 | Accepts iff the address is present and matches the pattern. Rejects with "Email is required" iff it is null or empty. Otherwise the message is the malformed-address one. |
| `Validators.AtomsAccepted` | auth.js:182-183 | `local@host.tld` is accepted whenever the three parts are non-empty runs without whitespace or `@`. |
| `Validators.TwoAtsRejected` | auth.js:182-183 | Two `@` signs are rejected. |
| `Validators.WhitespaceRejected` | auth.js:182-183 | Whitespace anywhere is rejected. |
| `Validators.NoInnerDotRejected` | auth.js:182-183 | A domain with no `.` strictly inside it is rejected. |
| `Validators.EmptyLocalRejected` | auth.js:182-183 | An empty local part is rejected. |
| `AuthPage.ObserveAuthState` | auth.js:316-345 | Exactly one section is shown: login iff there is no user, the dashboard iff the user's document has a truthy phone and college, and the completion form otherwise. |
| `AuthPage.PhoneFieldError` | auth.js:193-217 | The field error is shown iff the raw value is invalid, and while typing only when the field is non-empty. Its text is the validator's message. On blur, an empty field shows "Phone number is required". |
| `AuthPage.SaveCompletion` | auth.js:271-280 | The user's document gains exactly `phone` (cleaned), `college` and `email` (the provider's). Every other field and every other document is kept. Registrations are untouched. |
| `AuthPage.SubmitProfile` | auth.js:222-297 | The submit saves iff the store exists, a user is signed in, the trimmed phone is valid, the trimmed college is at least 2 UTF-16 code units long, the provider e-mail is valid, and the write succeeds. Only a save changes the store, and it writes exactly `SaveCompletion`. A save hides the completion form and shows the dashboard; any other outcome leaves the shown sections alone. A phone rejection carries the validator's message. |
| `AuthPage.SavedProfileShowsDashboard` | auth.js:282-284 | From the completion form, a saved submit shows the dashboard and only it, and that is also the section the auth observer picks for the saved store. |
| `AuthPage.OneCharacterCollege` | auth.js:254 | With a store, a user and a valid phone, a college of one non-space character is rejected iff that character is in the Basic Multilingual Plane. An astral character is two code units long, so it passes. |
| `AuthPage.RejectedSubmitWritesNothing` | auth.js:240-263 | An invalid phone, a short college or an invalid provider e-mail leaves the store and the shown sections as they were. |
| `AuthPage.FirstSignInShowsCompletion` | auth.js:316-345 | After a first sign-in's `saveUserData`, the auth observer shows the completion form alone. |
| `RegistrationFlow.ShowRegistrationSuccess` | event-registration.js:323-328 | Afterwards only the success section is shown. |
| `RegistrationFlow.ShowAlreadyRegistered` | event-registration.js:331-340 | Afterwards only the already-registered section is shown. |
| `RegistrationFlow.ObserveAsWritten` | event-registration.js:372-396 | As written, the login prompt is shown iff no user is signed in, and the form iff the user is signed in and not registered. The success section is hidden. The already-registered section is shown iff the user is registered or it was shown before: no branch hides it. |
| `RegistrationFlow.ObserverLeavesTwoSections` | event-registration.js:384-396 | From the already-registered view, a sign-out shows the login prompt and the already-registered section together. A switch to an unregistered user shows the form and the already-registered section together. |
| `RegistrationFlow.Observe` | event-registration.js:372-396 | The corrected observer shows exactly one section: the login prompt with no user, the already-registered view for a registered user, and the form otherwise. |
| `RegistrationFlow.AuthChange` | event-registration.js:371-396 | The callback exists only when the auth handle does. It records the user and changes only the shown sections. With the observer as written, the four membership facts of `ObserveAsWritten` hold for the duplicate check's answer. With the corrected observer, exactly the one section `Observe` picks is shown. |
| `RegistrationFlow.RegisterClick` | event-registration.js:209-254 | It never writes. It opens the modal iff both handles exist, a user is signed in, the profile read succeeds, the profile has a truthy phone and college, and no registration is found. Otherwise pending data is unchanged. The pending name is the profile name, falling back to `displayName`; phone and college are copied verbatim. It redirects to the join page only for a missing user or an incomplete profile. A found registration shows only the already-registered view. |
| `RegistrationFlow.ConfirmClick` | event-registration.js:259-302 | With no pending data it is a no-op. A successful write inserts exactly one record, at the position the store gives the new document (user id, event id, pending name, phone and college, provider e-mail, time, status "registered"); it also clears pending data, closes the modal and shows only the success view. A failed write, or a missing store, keeps pending data and the modal, so a retry is possible. |
| `RegistrationFlow.CancelClick` | event-registration.js:306-311 | It closes the modal and drops pending data. It writes nothing and leaves the sections alone. |
| `RegistrationFlow.ModalClick` | event-registration.js:314-320 | A click on the backdrop acts as cancel. Any other click inside the modal changes nothing. |
| `RegistrationFlow.StepKeepsOneSection` | event-registration.js:323-340 | On the page with the corrected observer, every event keeps exactly one section shown once exactly one is. |
| `RegistrationFlow.RunKeepsOneSection` | event-registration.js:323-340 | On the page with the corrected observer, the same holds over any sequence of events. |
| `RegistrationFlow.OneSectionAfterAuthChange` | event-registration.js:372-396 | On the page with the corrected observer, after the first auth callback every sequence of events leaves exactly one section shown. |
| `RegistrationFlow.AsWrittenRunLeavesTwoSections` | event-registration.js:384-396 | On the page as written, a registered user who signs in and then signs out is left with the login prompt and the already-registered section both shown; the corrected page shows the login prompt alone. |
| `RegistrationFlow.StepAddsAtMostFirstRegistration` | event-registration.js:242-293 | With either observer, while one user stays signed in and duplicate checks reach the store, a single event can raise that user's registration count only from 0 to 1. Pending data exists only for an unregistered user. |
| `RegistrationFlow.AtMostOneRegistration` | event-registration.js:242-293 | Over any sequence of such events, the user's registration count for the event either stays the same or goes from 0 to 1. |
| `RegistrationFlow.RegisterThenConfirm` | event-registration.js:209-302 | A signed-in user with a complete profile and no registration who clicks register and then confirms, with every store call succeeding, gets exactly one record: the profile's name (or `displayName`), phone and college, stored where the store places it. Only the success view is shown, the modal is closed and no pending data is left. |
| `NavAuth.FormatRoundedCountNumber` | nav-auth.js:268-274 | The result is a multiple of 50, and of 100 from 1000 on. The count lies in the half-open interval of one step centred on it, so halves round up. Non-negative counts give non-negative results. |
| `NavAuth.RoundedIsNearest` | nav-auth.js:268-274 | No multiple of the step is nearer to the count than the result. |
| `NavAuth.RewriteJoinLinks` | nav-auth.js:96-126 | Only primary links to `join.html` whose trimmed text is the caption change. For a signed-in user they become "Go to Profile" → `profile.html`; otherwise they become the caption → `join.html`. |
| `NavAuth.RewriteIdempotent` | nav-auth.js:98-109 | Rewriting with the same caption twice is rewriting once. |
| `NavAuth.HeroRewrite` | nav-auth.js:96-127 | A link that is neither a hero "Join Now" join link nor a "Join a Team" join link is unchanged. A link that is one gets `profile.html` and "Go to Profile" when signed in, and `join.html` and its trimmed text otherwise. No other property changes. |
| `NavAuth.HeroRewriteIdempotent` | nav-auth.js:96-127 | Rewriting one link twice is rewriting it once. |
| `NavAuth.HeroPassesCompose` | nav-auth.js:96-127 | The "Join a Team" pass leaves alone every link the "Join Now" pass rewrote. So the two passes together act on each link as one `HeroRewrite`. |
| `NavAuth.UpdateHeroCTA` | nav-auth.js:91-131 | On a page with a hero, the hero's "Join Now" links and every "Join a Team" link are relabelled. Nothing else changes. |
| `NavAuth.UpdateGetStartedCTA` | nav-auth.js:134-153 | Only the hero card's "Get Started →" join links are relabelled, each as `GetStartedRewrite` says. |
| `NavAuth.GetStartedRewrite` | nav-auth.js:140-150 | A hero-card primary join link reading "Get Started →" gets `profile.html` and "Go to Profile" when signed in, and `join.html` and "Get Started →" otherwise. No other property changes. Every other link is unchanged. |
| `NavAuth.HeroCTAIdempotent` | nav-auth.js:91-131 | The hero update is idempotent for a fixed user. |
| `NavAuth.GetStartedCTAIdempotent` | nav-auth.js:134-153 | The hero-card update is idempotent for a fixed user. |
| `NavAuth.SignedOutDoesNotRestore` | nav-auth.js:96-151 | A link rewritten to `profile.html` no longer matches, so a later signed-out update leaves it reading "Go to Profile". |
| `NavAuth.LinkRewrite` | nav-auth.js:358-360 | The hero and hero-card passes change only the text and target of a link, and only of a link to `join.html`, which then points at `profile.html` when signed in and `join.html` otherwise. Whether the link is the featured event's primary link is unchanged. |
| `NavAuth.LinkRewriteIdempotent` | nav-auth.js:91-153 | Both passes run twice on a link act as both passes run once. |
| `NavAuth.First` | nav-auth.js:424 | `querySelector` picks the first matching link in document order, or none when no link matches. |
| `NavAuth.FirstDependsOnSelection` | nav-auth.js:173 | Which link a `querySelector` picks depends only on which links match it. |
| `NavAuth.FirstAt` | nav-auth.js:173 | A selector picks a matching link when no link before it matches. |
| `NavAuth.FirstDependsOnTags` | nav-auth.js:424-436 | Which links `refreshCTAs` picks depends only on their `data-cta` tags. |
| `NavAuth.CtaRewriteTwice` | nav-auth.js:425-445 | Two rewrites for the same user are one rewrite of a link picked by either. |
| `NavAuth.RefreshTagged` | nav-auth.js:424-433 | Only the first link with the tag is rewritten. The length is unchanged. |
| `NavAuth.RefreshCTAs` | nav-auth.js:421-451 | Each link is rewritten as picked iff it is the first `hero-primary` or the first `hero-card` link of the page before the refresh. The rewrite yields "Go to Profile" → `profile.html` when signed in, and "Join Now" → `join.html` otherwise. Every `data-cta-hint` hint is hidden iff signed in. Nothing else changes. |
| `NavAuth.RefreshIdempotent` | nav-auth.js:421-451 | Refreshing twice is refreshing once. |
| `NavAuth.UpdateCTAHints` | nav-auth.js:197-205 | Every `cta-hint` hint is hidden iff a user is present. Nothing else changes. No script calls this function. |
| `NavAuth.FeaturedHidesLikeCTAHints` | nav-auth.js:186-203 | For a registered user, the featured-event update leaves the hints exactly as `updateCTAHints` would. |
| `NavAuth.CTAHintsAgreeWithRefresh` | nav-auth.js:197-205 | On a hint that carries both the `cta-hint` class and the `data-cta-hint` attribute, `updateCTAHints` and `refreshCTAs` set the same visibility. |
| `NavAuth.UpdateFeaturedEventCTA` | nav-auth.js:156-194 | A page without the featured card, a signed-out visitor, a missing store, a failed query and an unregistered user leave the page exactly as it was. For a registered user, the first primary event link in the card's CTA becomes "View My Registration" → `profile.html`, with that aria label; every `cta-hint` hint is hidden; every other link and hint is unchanged. |
| `NavAuth.UpdateNavigation` | nav-auth.js:332-363 | With a placeholder present, it holds the Join button iff there is no user, and otherwise the user menu under the menu name. No link's `data-cta` tag changes. Without a placeholder the page is unchanged. |
| `NavAuth.NavigationRewritesLinks` | nav-auth.js:358-362 | With a placeholder present, each link gets `LinkRewrite`, except the featured event's first primary link, which reads "View My Registration" → `profile.html` for a registered user. |
| `NavAuth.NavigationHidesHints` | nav-auth.js:358-362 | With a placeholder present, a registered user's update hides every `cta-hint` hint and changes no other hint. |
| `NavAuth.NoFeaturedLeft` | nav-auth.js:173-178 | On a page with at most one featured primary link, the update leaves none for a registered user. |
| `NavAuth.NavigationIdempotent` | nav-auth.js:332-363 | Running the navigation update twice for the same user and store is running it once, when the user is not registered or the page has at most one featured primary link. |
| `NavAuth.SecondFeaturedLinkRewritten` | nav-auth.js:173-178 | On a page whose featured card holds two primary links to the event page, a second update for a registered user also rewrites the second link. |
| `NavAuth.NavigationSync` | nav-auth.js:332-360 | With a placeholder present, it holds the Join button iff there is no user, and otherwise the user menu under the menu name. Each link gets `LinkRewrite` and nothing else changes. Without a placeholder the page is unchanged. |
| `NavAuth.NavigationIsSyncThenFeatured` | nav-auth.js:358-362 | With a placeholder present, the navigation update is its immediate part followed by the featured-event update. |
| `NavAuth.OnAuthChange` | nav-auth.js:355-381 | The callback runs the immediate part of the navigation update, then `refreshCTAs`, then the featured-event updates. Both un-awaited featured updates write only after their query returns, so they land after the refresh. The placeholder holds the Join button without a user and the user menu under the menu name with one, and is left missing when there is none. No link's tag changes. |
| `NavAuth.FeaturedUpdates` | nav-auth.js:362-381 | The two featured-event updates that land after the refresh, or one without a placeholder. They change only links and hints, and no link's tag. |
| `NavAuth.FeaturedKeepsOthers` | nav-auth.js:173-178 | The featured-event update leaves every link its selector does not match as it was. |
| `NavAuth.RefreshPrecedesFeaturedUpdates` | nav-auth.js:377-381 | On a page with a `hero-primary` link to the event page followed by two untagged ones, a registered user's callback ends with the tagged link as "Go to Profile" → `profile.html`, keeping its label, and both untagged links as "View My Registration". |
| `NavAuth.AuthChangeHints` | nav-auth.js:377-381 | After the callback, every `cta-hint` hint is hidden when the user is registered. Each other `data-cta-hint` hint is hidden iff a user is signed in, and every other hint is as it was. |
| `NavAuth.AuthChangeSetsPicked` | nav-auth.js:377-381 | After the callback, the first `hero-primary` and the first `hero-card` link read "Go to Profile" → `profile.html` when signed in, and "Join Now" → `join.html` otherwise. |
| `NavAuth.SignedOutOffersJoin` | nav-auth.js:377-384 | After a signed-out auth callback, the placeholder holds the Join button, the first `hero-primary` link reads "Join Now" → `join.html`, and no `data-cta-hint` hint is hidden. |
| `NavAuth.RegisteredSeesViewRegistration` | nav-auth.js:377-381 | After the callback for a registered user, the featured event's primary link, when no `data-cta` tag claims it, reads "View My Registration" → `profile.html`, and no `cta-hint` hint is visible. |
| `ProfilePage.EntryFor` | profile.js:131-137 | A card carries the catalog's event data and the record's `registeredAt`. Its status is the record's status when truthy, else "registered". |
| `ProfilePage.Entries` | profile.js:128-139 | There are no more cards than records. |
| `ProfilePage.EntriesEmpty` | profile.js:128-139 | There are no cards iff no record's event id is in the catalog. |
| `ProfilePage.EntriesAppend` | profile.js:129-139 | The cards of a concatenation are the cards of each part, in order. |
| `ProfilePage.EntriesOfOne` | profile.js:130-138 | A single record gives its one card when its event is known, and no card otherwise. |
| `ProfilePage.LoadRegisteredEvents` | profile.js:112-172 | Exactly one of the no-events message and the grid is shown. The grid is shown iff some record's event is known, and then it holds exactly the joined cards. |
| `ProfilePage.ShowField` | profile.js:55-69 | A phone or college line shows the stored value iff it is truthy, else "Not provided". |
| `ProfilePage.CardFor` | profile.js:38-98 | With a document, the name is `name`, else `displayName`, else "User"; without one it is the menu name. The name is never empty. The e-mail is the provider's or empty. Phone and college are shown only from a document that has them. |
| `ProfilePage.LoadUserProfile` | profile.js:30-109 | With a store, a user and a successful read, the card is drawn from the user's document. The grid comes from the user's registrations for any event. A failed read changes nothing; a failed query keeps the previous grid. |
| `ProfilePage.ProfileAuthChange` | profile.js:182-189 | A signed-out visitor is sent to `join.html` and nothing is drawn. A signed-in user's profile is loaded. |
| `ProfilePage.NewRegistrationHasCard` | profile.js:129-139 | A new registration record, wherever the store places it, gives its card at that place in the grid: the cards of the records before it, its own card, then the cards of the records after it. No other card is added or lost. |
| `ProfilePage.SignedInCallbackShowsProfile` | profile.js:182-189 | A signed-in user's callback keeps the visitor on the page. Once both reads succeed, it draws that user's card, and a registered user sees the grid and not the empty state. |
| `ProfilePage.RegisteredUserSeesGrid` | profile.js:141-169 | A user with a registration for the event sees the grid, not the empty state, once both reads succeed. |

## Left out

- The Firebase SDK: app, auth and database initialisation (`window.firebase*` singletons). The store and the auth handle are parameters instead.
- The sign-in popup and sign-out handlers (auth.js:57-120, event-registration.js:119-157), because the popup is a foreign call. The store effect they have, `saveUserData`, is modelled. The sections they set are set again by the auth observers, which are modelled.
- The sign-out button of the user menu and the dropdown wiring (nav-auth.js:295-329). These are event plumbing, and sign-out is a foreign call.
- The display-only renderers `loadUserProfileForRegistration`, `updateDashboardUserInfo` and `loadUserData` (event-registration.js:173-202, auth.js:300-313, auth.js:358-374), and the HTML templates of the menu, the Join button and the event cards.
- `getRegistrationData` (event-registration.js:99-116), because no handler calls it.
- `formatRoundedCount`, `animateCount`, `easeOutCubic`, `injectTrustedByStats` and `populateTestimonials`. They involve floating point, locale formatting, animation frames and rendering.
- Timers: the 5-second message dismissal, the `setTimeout` retry of `updateNavigation` when no placeholder exists, the `requestAnimationFrame` wait for auth, profile.js polling, and its 2-second redirect.
- The order in which async callbacks interleave, and the check-then-write race between two confirm clicks. The model is sequential: each handler runs to completion with the outcome of its store calls as parameters. The exception is `NavAuth.OnAuthChange`, which places the un-awaited featured-event writes after `refreshCTAs`. Even then, both featured updates are assumed to see the same query result and to land in call order.
- Button `disabled` states and labels, and the transient message texts beyond which message is shown.
- Failures of the profile read in the sign-in page's auth observer (auth.js:316-321). It has no `catch`, so a failure is an uncaught rejection that leaves the page as it was. The model lets that read succeed. The event page reads the profile through `loadUserProfileForRegistration`, which catches its own errors.
- `Store.SaveUserData` stamps `createdAt` and `lastLogin` with one time. The source takes two clock readings, which may differ by a moment.
- `ProfilePage.Entries` looks events up in a Dafny map, which has exactly the catalog's keys. The source indexes a plain object, so an `eventId` such as `toString` or `constructor` would find an inherited property and give a card with no event data. The model drops such records instead.
- `NavAuth.NavigationIdempotent` holds only when the user is not registered or the page has at most one featured primary link. `NavAuth.SecondFeaturedLinkRewritten` shows why: each run rewrites the first such link that is still unrewritten.
- `NavAuth.UpdateCTAHints` is modelled, but nothing calls it, so no page-level property depends on it.
- `NavAuth.FormatRoundedCountNumber` is exact integer rounding. It does not model the float division inside `Math.round`, which could differ only for counts beyond 2^53.

## Findings

| source | as written | input that shows it | evidently intended | confidence | as-written member | corrected member |
|---|---|---|---|---|---|---|
| event-registration.js:384-396 | The signed-out and not-registered branches of the auth observer hide the login prompt, form and success sections, but never the already-registered section. | A registered user is on the page, which shows only the already-registered view. That user signs out in another tab, so the observer runs with no user. The login prompt and the already-registered section are then both visible. | Exactly one of the four sections is visible, as `showRegistrationSuccess` and `showAlreadyRegistered` ensure. | not executed; medium (needs an auth change while the page stays open) | `RegistrationFlow.AsWrittenRunLeavesTwoSections` | `RegistrationFlow.Observe` |
