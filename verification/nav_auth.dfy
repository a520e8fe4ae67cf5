/** The shared navigation script (`nav-auth.js`): the member-count rounding,
    the navigation placeholder, and the rewrites of the call-to-action links
    and hints that depend on whether a user is signed in and registered. The
    page is reduced to the links and hints those rewrites select, each with
    the facts about its position and attributes that the selectors test. */
module NavAuth {
  import opened Common
  import opened Store

  /** The step `formatRoundedCountNumber` rounds to. */
  function RoundingStep(count: int): (m: nat)
    ensures m == 50 || m == 100
  {
    if count < 1000 then 50 else 100
  }

  /** `formatRoundedCountNumber`: `Math.round(count / step) * step`, where
      `Math.round(x)` is `floor(x + 1/2)`; on an integer count that is an
      exact integer division. The result is the multiple of the step nearest
      to the count, halves rounding up. */
  function FormatRoundedCountNumber(count: int): (r: int)
    ensures r % RoundingStep(count) == 0 && r % 50 == 0
    ensures r - RoundingStep(count) / 2 <= count < r + RoundingStep(count) / 2
    ensures count >= 0 ==> r >= 0
  {
    var m := RoundingStep(count);
    (count + m / 2) / m * m
  }

  function Abs(x: int): nat {
    if x < 0 then -x else x
  }

  lemma MulAtLeast(d: int, m: nat)
    requires d >= 1
    ensures d * m >= m
    decreases d
  {
    if d > 1 {
      MulAtLeast(d - 1, m);
      assert d * m == (d - 1) * m + m;
    }
  }

  lemma MulNonPositive(d: int, m: nat)
    requires d <= 0
    ensures d * m <= 0
    decreases -d
  {
    if d < 0 {
      MulNonPositive(d + 1, m);
      assert d * m == (d + 1) * m - m;
    }
  }

  /** Two distinct multiples of `m` are at least `m` apart. */
  lemma MultiplesApart(a: int, b: int, m: nat)
    requires m > 0 && a % m == 0 && b % m == 0 && a < b
    ensures b - a >= m
  {
    var qa, qb := a / m, b / m;
    assert a == qa * m;
    assert b == qb * m;
    assert b - a == (qb - qa) * m;
    assert qb - qa >= 1 by {
      if qb - qa <= 0 {
        MulNonPositive(qb - qa, m);
      }
    }
    MulAtLeast(qb - qa, m);
  }

  /** No multiple of the step lies closer to the count than the result does. */
  lemma {:induction false} RoundedIsNearest(count: int, k: int)
    requires k % RoundingStep(count) == 0
    ensures Abs(FormatRoundedCountNumber(count) - count) <= Abs(k - count)
  {
    var m := RoundingStep(count);
    var r := FormatRoundedCountNumber(count);
    if k < r {
      MultiplesApart(k, r, m);
    } else if k > r {
      MultiplesApart(r, k, m);
    }
  }

  /** What `#nav-auth-placeholder` holds: `Missing` when the page has none. */
  datatype Slot = Missing | Untouched | JoinButton | UserMenu(name: string)

  /** The two `data-cta` tags `refreshCTAs` looks for. */
  datatype CtaTag = HeroPrimary | HeroCard

  /** A link of the page. `inHero` is inside the first `.hero`,
      `inHeroCard` inside an `aside.hero-card`, `inFeaturedCta` inside the
      `.featured-event-cta` of the first `.featured-event-card`; `primary` is
      `a.btn.btn--primary`. */
  datatype Anchor = Anchor(
    inHero: bool,
    inHeroCard: bool,
    inFeaturedCta: bool,
    primary: bool,
    cta: Option<CtaTag>,
    text: string,
    href: string,
    ariaLabel: Option<string>)

  /** A hint element: with class `cta-hint`, with attribute `data-cta-hint`,
      and whether its inline `display` is `none`. */
  datatype Hint = Hint(ctaHintClass: bool, dataCtaHint: bool, hidden: bool)

  datatype NavPage = NavPage(
    slot: Slot,
    hasHero: bool,
    hasFeaturedCard: bool,
    anchors: seq<Anchor>,
    hints: seq<Hint>)

  const JoinHref := "join.html"
  const ProfileHref := "profile.html"
  const EventHref := "event-gsoc.html"
  const GoToProfile := "Go to Profile"
  const JoinNow := "Join Now"
  const JoinTeam := "Join a Team"
  const GetStarted := "Get Started →"
  const ViewRegistration := "View My Registration"

  /** Where a `querySelectorAll` of the CTA updaters looks. */
  datatype Scope = InHero | Anywhere | InHeroCard

  predicate InScope(a: Anchor, scope: Scope) {
    match scope
    case InHero => a.inHero
    case Anywhere => true
    case InHeroCard => a.inHeroCard
  }

  /** A primary link to the join page whose trimmed text is `caption`. */
  predicate JoinLink(a: Anchor, scope: Scope, caption: string) {
    InScope(a, scope) && a.primary && a.href == JoinHref && Trim(a.text) == caption
  }

  /** The text and target a join link gets: the profile page when signed in,
      its own caption and the join page otherwise. */
  function Relabel(a: Anchor, signedIn: bool, caption: string): Anchor {
    if signedIn then a.(text := GoToProfile, href := ProfileHref)
    else a.(text := caption, href := JoinHref)
  }

  /** One `forEach` of `updateHeroCTA` or `updateGetStartedCTA`: every join
      link with the caption is relabelled, every other link is left alone. */
  function RewriteJoinLinks(anchors: seq<Anchor>, scope: Scope, caption: string, signedIn: bool): (r: seq<Anchor>)
    ensures |r| == |anchors|
    ensures forall i | 0 <= i < |anchors| && !JoinLink(anchors[i], scope, caption) :: r[i] == anchors[i]
    ensures forall i | 0 <= i < |anchors| && JoinLink(anchors[i], scope, caption) ::
              && r[i].href == (if signedIn then ProfileHref else JoinHref)
              && r[i].text == (if signedIn then GoToProfile else caption)
              && r[i].(text := anchors[i].text, href := anchors[i].href) == anchors[i]
  {
    seq(|anchors|, i requires 0 <= i < |anchors| =>
      if JoinLink(anchors[i], scope, caption) then Relabel(anchors[i], signedIn, caption) else anchors[i])
  }

  /** The captions the updaters look for have no surrounding whitespace,
      so each is its own trimmed text. */
  lemma CaptionTrimmed(c: string)
    requires c == JoinNow || c == JoinTeam || c == GetStarted
    ensures Trim(c) == c
  {
    assert |c| > 0 && !IsWhitespace(c[0]) && !IsWhitespace(c[|c| - 1]);
  }

  /** Rewriting with the same caption twice is rewriting once: a signed-in
      rewrite leaves no join link behind, a signed-out one leaves the same
      link with the same caption. */
  lemma {:induction false} RewriteIdempotent(anchors: seq<Anchor>, scope: Scope, caption: string, signedIn: bool)
    requires Trim(caption) == caption
    ensures var once := RewriteJoinLinks(anchors, scope, caption, signedIn);
            RewriteJoinLinks(once, scope, caption, signedIn) == once
  {
    var once := RewriteJoinLinks(anchors, scope, caption, signedIn);
    var twice := RewriteJoinLinks(once, scope, caption, signedIn);
    forall i | 0 <= i < |anchors| ensures twice[i] == once[i] {
      if JoinLink(anchors[i], scope, caption) && !signedIn {
        assert once[i] == anchors[i].(text := caption, href := JoinHref);
        assert JoinLink(once[i], scope, caption);
      }
    }
  }

  /** A hero target: a hero link reading "Join Now", or any link reading
      "Join a Team", that points at the join page. */
  predicate HeroTarget(a: Anchor) {
    JoinLink(a, InHero, JoinNow) || JoinLink(a, Anywhere, JoinTeam)
  }

  /** What `updateHeroCTA` does to one link of a page with a hero. */
  function HeroRewrite(a: Anchor, signedIn: bool): (b: Anchor)
    ensures !HeroTarget(a) ==> b == a
    ensures HeroTarget(a) ==>
              && b.href == (if signedIn then ProfileHref else JoinHref)
              && b.text == (if signedIn then GoToProfile else Trim(a.text))
              && b.(text := a.text, href := a.href) == a
  {
    if JoinLink(a, InHero, JoinNow) then Relabel(a, signedIn, JoinNow)
    else if JoinLink(a, Anywhere, JoinTeam) then Relabel(a, signedIn, JoinTeam)
    else a
  }

  /** Rewriting one link twice is rewriting it once. */
  lemma HeroRewriteIdempotent(a: Anchor, signedIn: bool)
    ensures HeroRewrite(HeroRewrite(a, signedIn), signedIn) == HeroRewrite(a, signedIn)
  {
    var b := HeroRewrite(a, signedIn);
    if HeroTarget(a) && !signedIn {
      CaptionTrimmed(JoinNow);
      CaptionTrimmed(JoinTeam);
      assert b.text == Trim(a.text) && Trim(b.text) == b.text;
      assert HeroTarget(b);
      var c := HeroRewrite(b, signedIn);
      assert c.text == b.text && c.href == b.href;
    }
  }

  /** `updateHeroCTA`: on a page with a hero, the hero's "Join Now" links
      and then every "Join a Team" link of the page. The second pass never
      undoes the first, so each link is rewritten once, by `HeroRewrite`. */
  function UpdateHeroCTA(p: NavPage, user: Option<User>): (r: NavPage)
    ensures !p.hasHero ==> r == p
    ensures r == p.(anchors := r.anchors) && |r.anchors| == |p.anchors|
    ensures p.hasHero ==> forall i | 0 <= i < |p.anchors| :: r.anchors[i] == HeroRewrite(p.anchors[i], user.Some?)
  {
    if !p.hasHero then p
    else
      var heroLinks := RewriteJoinLinks(p.anchors, InHero, JoinNow, user.Some?);
      HeroPassesCompose(p.anchors, user.Some?);
      p.(anchors := RewriteJoinLinks(heroLinks, Anywhere, JoinTeam, user.Some?))
  }

  /** The "Join a Team" pass leaves alone every link the "Join Now" pass
      rewrote. */
  lemma HeroPassesCompose(anchors: seq<Anchor>, signedIn: bool)
    ensures var heroLinks := RewriteJoinLinks(anchors, InHero, JoinNow, signedIn);
            var both := RewriteJoinLinks(heroLinks, Anywhere, JoinTeam, signedIn);
            forall i | 0 <= i < |anchors| :: both[i] == HeroRewrite(anchors[i], signedIn)
  {
    var heroLinks := RewriteJoinLinks(anchors, InHero, JoinNow, signedIn);
    var both := RewriteJoinLinks(heroLinks, Anywhere, JoinTeam, signedIn);
    CaptionTrimmed(JoinNow);
    assert JoinNow != JoinTeam by { assert JoinNow[5] != JoinTeam[5]; }
    forall i | 0 <= i < |anchors| ensures both[i] == HeroRewrite(anchors[i], signedIn) {
      var a := anchors[i];
      if JoinLink(a, InHero, JoinNow) {
        assert heroLinks[i] == Relabel(a, signedIn, JoinNow);
        assert !JoinLink(heroLinks[i], Anywhere, JoinTeam);
      } else {
        assert heroLinks[i] == a;
      }
    }
  }

  /** What `updateGetStartedCTA` does to one link. */
  function GetStartedRewrite(a: Anchor, signedIn: bool): (b: Anchor)
    ensures !JoinLink(a, InHeroCard, GetStarted) ==> b == a
    ensures JoinLink(a, InHeroCard, GetStarted) ==>
              && b.href == (if signedIn then ProfileHref else JoinHref)
              && b.text == (if signedIn then GoToProfile else GetStarted)
              && b.(text := a.text, href := a.href) == a
  {
    if JoinLink(a, InHeroCard, GetStarted) then Relabel(a, signedIn, GetStarted) else a
  }

  /** `updateGetStartedCTA`: the hero card's "Get Started →" links. */
  function UpdateGetStartedCTA(p: NavPage, user: Option<User>): (r: NavPage)
    ensures r == p.(anchors := r.anchors) && |r.anchors| == |p.anchors|
    ensures forall i | 0 <= i < |p.anchors| ::
              var a := p.anchors[i];
              if JoinLink(a, InHeroCard, GetStarted) then
                && r.anchors[i].href == (if user.Some? then ProfileHref else JoinHref)
                && r.anchors[i].text == (if user.Some? then GoToProfile else GetStarted)
              else r.anchors[i] == a
    ensures forall i | 0 <= i < |p.anchors| :: r.anchors[i] == GetStartedRewrite(p.anchors[i], user.Some?)
  {
    p.(anchors := RewriteJoinLinks(p.anchors, InHeroCard, GetStarted, user.Some?))
  }

  /** A link rewritten for a signed-in user points at the profile page and
      so is no longer a join link: a later signed-out update leaves it as it
      is instead of restoring it. */
  lemma {:induction false} SignedOutDoesNotRestore(p: NavPage, u: User)
    ensures var once := UpdateGetStartedCTA(UpdateHeroCTA(p, Some(u)), Some(u));
            var later := UpdateGetStartedCTA(UpdateHeroCTA(once, None), None);
            forall i | 0 <= i < |p.anchors| && p.anchors[i].href == JoinHref && once.anchors[i].href == ProfileHref ::
              later.anchors[i] == once.anchors[i] && later.anchors[i].text == GoToProfile
  {
    var hero := UpdateHeroCTA(p, Some(u));
    var once := UpdateGetStartedCTA(hero, Some(u));
    var hero2 := UpdateHeroCTA(once, None);
    var later := UpdateGetStartedCTA(hero2, None);
    forall i | 0 <= i < |p.anchors| && p.anchors[i].href == JoinHref && once.anchors[i].href == ProfileHref
      ensures later.anchors[i] == once.anchors[i] && later.anchors[i].text == GoToProfile
    {
      assert hero2.anchors[i] == once.anchors[i];
      if hero.anchors[i] == p.anchors[i] {
        assert once.anchors[i].text == GoToProfile;
      }
    }
  }

  /** `updateHeroCTA` is idempotent for a fixed user. */
  lemma HeroCTAIdempotent(p: NavPage, user: Option<User>)
    ensures UpdateHeroCTA(UpdateHeroCTA(p, user), user) == UpdateHeroCTA(p, user)
  {
    var once := UpdateHeroCTA(p, user);
    var twice := UpdateHeroCTA(once, user);
    forall i | 0 <= i < |p.anchors| ensures twice.anchors[i] == once.anchors[i] {
      if p.hasHero {
        HeroRewriteIdempotent(p.anchors[i], user.Some?);
      }
    }
  }

  /** `updateGetStartedCTA` is idempotent for a fixed user. */
  lemma GetStartedCTAIdempotent(p: NavPage, user: Option<User>)
    ensures UpdateGetStartedCTA(UpdateGetStartedCTA(p, user), user) == UpdateGetStartedCTA(p, user)
  {
    CaptionTrimmed(GetStarted);
    RewriteIdempotent(p.anchors, InHeroCard, GetStarted, user.Some?);
  }

  /** The three targets the updaters write are different pages. */
  lemma HrefsDistinct()
    ensures JoinHref != EventHref && ProfileHref != EventHref && ProfileHref != JoinHref
  {
    assert JoinHref[0] != EventHref[0];
    assert ProfileHref[0] != EventHref[0];
    assert ProfileHref[0] != JoinHref[0];
  }

  /** The hero and hero-card updates of `updateNavigation`, on one link:
      only the text and target of a join link change, and whether the link
      is the featured event's primary link does not. */
  function LinkRewrite(a: Anchor, hasHero: bool, signedIn: bool): (b: Anchor)
    ensures b == a.(text := b.text, href := b.href)
    ensures b != a ==> a.href == JoinHref && b.href == (if signedIn then ProfileHref else JoinHref)
    ensures a.href != JoinHref ==> b == a
    ensures Selected(b, FeaturedTarget) <==> Selected(a, FeaturedTarget)
  {
    HrefsDistinct();
    GetStartedRewrite(if hasHero then HeroRewrite(a, signedIn) else a, signedIn)
  }

  /** The captions the updaters look for are their own trimmed text and
      pairwise different. */
  lemma CaptionsDistinct()
    ensures Trim(JoinNow) == JoinNow && Trim(JoinTeam) == JoinTeam && Trim(GetStarted) == GetStarted
    ensures GetStarted != JoinNow && GetStarted != JoinTeam
  {
    CaptionTrimmed(JoinNow);
    CaptionTrimmed(JoinTeam);
    CaptionTrimmed(GetStarted);
    assert GetStarted[1] != JoinNow[1] && GetStarted[1] != JoinTeam[1];
  }

  /** A signed-out hero rewrite leaves a link the hero update keeps and the
      hero-card update does not look at. */
  lemma HeroTargetStable(a: Anchor)
    requires HeroTarget(a)
    ensures var h := HeroRewrite(a, false);
            HeroRewrite(h, false) == h && !JoinLink(h, InHeroCard, GetStarted)
  {
    CaptionsDistinct();
    HeroRewriteIdempotent(a, false);
  }

  /** A signed-out "Get Started →" rewrite leaves a link both updates keep. */
  lemma GetStartedStable(a: Anchor)
    requires JoinLink(a, InHeroCard, GetStarted)
    ensures var b := GetStartedRewrite(a, false);
            GetStartedRewrite(b, false) == b && !HeroTarget(b)
  {
    CaptionsDistinct();
    var b := GetStartedRewrite(a, false);
    assert b.text == GetStarted && b.href == JoinHref;
  }

  /** Rewriting a link twice for the same user is rewriting it once: a
      signed-in rewrite leaves no join link, and a signed-out one leaves a
      caption no other update looks for. */
  lemma LinkRewriteIdempotent(a: Anchor, hasHero: bool, signedIn: bool)
    ensures LinkRewrite(LinkRewrite(a, hasHero, signedIn), hasHero, signedIn) == LinkRewrite(a, hasHero, signedIn)
  {
    var b := LinkRewrite(a, hasHero, signedIn);
    HrefsDistinct();
    if b != a && !signedIn {
      if hasHero && HeroTarget(a) {
        HeroTargetStable(a);
      } else {
        assert JoinLink(a, InHeroCard, GetStarted);
        GetStartedStable(a);
      }
    }
  }

  /** The first link, in document order, that a `querySelector` picks. */
  datatype Selector = Tagged(tag: CtaTag) | FeaturedTarget

  predicate Selected(a: Anchor, sel: Selector) {
    match sel
    case Tagged(tag) => a.cta == Some(tag)
    case FeaturedTarget => a.inFeaturedCta && a.primary && a.href == EventHref
  }

  function First(anchors: seq<Anchor>, sel: Selector): (r: Option<nat>)
    ensures r.Some? ==> r.value < |anchors| && Selected(anchors[r.value], sel)
    ensures r.Some? ==> forall j | 0 <= j < r.value :: !Selected(anchors[j], sel)
    ensures r.None? ==> forall j | 0 <= j < |anchors| :: !Selected(anchors[j], sel)
  {
    if |anchors| == 0 then None
    else if Selected(anchors[0], sel) then Some(0)
    else
      match First(anchors[1..], sel)
      case None => None
      case Some(i) => Some(i + 1)
  }

  /** Which link a selector picks depends only on which links it matches. */
  lemma {:induction false} FirstDependsOnSelection(a: seq<Anchor>, b: seq<Anchor>, sel: Selector)
    requires |a| == |b|
    requires forall i | 0 <= i < |a| :: Selected(a[i], sel) <==> Selected(b[i], sel)
    ensures First(a, sel) == First(b, sel)
  {
    if |a| > 0 {
      assert forall i | 0 <= i < |a| - 1 :: a[1..][i] == a[i + 1] && b[1..][i] == b[i + 1];
      FirstDependsOnSelection(a[1..], b[1..], sel);
    }
  }

  /** Which links `refreshCTAs` picks depends only on their tags. */
  lemma FirstDependsOnTags(a: seq<Anchor>, b: seq<Anchor>, tag: CtaTag)
    requires |a| == |b|
    requires forall i | 0 <= i < |a| :: a[i].cta == b[i].cta
    ensures First(a, Tagged(tag)) == First(b, Tagged(tag))
  {
    assert forall i | 0 <= i < |a| :: Selected(a[i], Tagged(tag)) <==> Selected(b[i], Tagged(tag));
    FirstDependsOnSelection(a, b, Tagged(tag));
  }

  /** A selector picks the link it matches when it matches none before it. */
  lemma {:induction false} FirstAt(anchors: seq<Anchor>, sel: Selector, i: nat)
    requires i < |anchors| && Selected(anchors[i], sel)
    requires forall j | 0 <= j < i :: !Selected(anchors[j], sel)
    ensures First(anchors, sel) == Some(i)
  {
    if i > 0 {
      assert forall j | 0 <= j < i - 1 :: anchors[1..][j] == anchors[j + 1];
      FirstAt(anchors[1..], sel, i - 1);
    }
  }

  /** What `refreshCTAs` does to one link: a picked link gets the text and
      target for the user's state; nothing else about it changes, and a
      link that is not picked is left alone. */
  function CtaRewrite(a: Anchor, picked: bool, signedIn: bool): (b: Anchor)
    ensures b.cta == a.cta
    ensures !picked ==> b == a
    ensures picked ==> b == a.(text := if signedIn then GoToProfile else JoinNow,
                               href := if signedIn then ProfileHref else JoinHref)
  {
    if picked then
      a.(text := if signedIn then GoToProfile else JoinNow, href := if signedIn then ProfileHref else JoinHref)
    else a
  }

  /** Rewriting a link twice for the same user is rewriting it once, picked
      if either pass picked it. */
  lemma CtaRewriteTwice(a: Anchor, x: bool, y: bool, signedIn: bool)
    ensures CtaRewrite(CtaRewrite(a, x, signedIn), y, signedIn) == CtaRewrite(a, x || y, signedIn)
  {
  }

  /** Sets the text and target of the first link with the tag. */
  function RefreshTagged(anchors: seq<Anchor>, tag: CtaTag, signedIn: bool): (r: seq<Anchor>)
    ensures |r| == |anchors|
    ensures forall i | 0 <= i < |anchors| :: r[i] == CtaRewrite(anchors[i], Some(i) == First(anchors, Tagged(tag)), signedIn)
  {
    match First(anchors, Tagged(tag))
    case None => anchors
    case Some(i) => anchors[i := CtaRewrite(anchors[i], true, signedIn)]
  }

  /** Whether `refreshCTAs` picks link `i`: it is the first `hero-primary`
      or the first `hero-card` link. */
  predicate Picked(anchors: seq<Anchor>, i: nat) {
    Some(i) == First(anchors, Tagged(HeroPrimary)) || Some(i) == First(anchors, Tagged(HeroCard))
  }

  /** `refreshCTAs`: the first `hero-primary` and the first `hero-card`
      link point at the profile page for a signed-in user and read "Join Now"
      towards the join page otherwise; every `data-cta-hint` hint is hidden
      exactly when a user is signed in. Only whether a user is signed in
      matters. */
  function RefreshCTAs(p: NavPage, user: Option<User>): (r: NavPage)
    ensures r.slot == p.slot && r.hasHero == p.hasHero && r.hasFeaturedCard == p.hasFeaturedCard
    ensures |r.anchors| == |p.anchors| && |r.hints| == |p.hints|
    ensures forall i | 0 <= i < |p.anchors| :: r.anchors[i] == CtaRewrite(p.anchors[i], Picked(p.anchors, i), user.Some?)
    ensures forall i | 0 <= i < |p.hints| ::
              r.hints[i] == if p.hints[i].dataCtaHint then p.hints[i].(hidden := user.Some?) else p.hints[i]
  {
    var primary := RefreshTagged(p.anchors, HeroPrimary, user.Some?);
    FirstDependsOnTags(p.anchors, primary, HeroCard);
    var card := RefreshTagged(primary, HeroCard, user.Some?);
    assert forall i | 0 <= i < |p.anchors| :: card[i] == CtaRewrite(p.anchors[i], Picked(p.anchors, i), user.Some?) by {
      forall i | 0 <= i < |p.anchors|
        ensures card[i] == CtaRewrite(p.anchors[i], Picked(p.anchors, i), user.Some?)
      {
        CtaRewriteTwice(p.anchors[i], Some(i) == First(p.anchors, Tagged(HeroPrimary)),
                        Some(i) == First(p.anchors, Tagged(HeroCard)), user.Some?);
      }
    }
    var hints := seq(|p.hints|, i requires 0 <= i < |p.hints| =>
      if p.hints[i].dataCtaHint then p.hints[i].(hidden := user.Some?) else p.hints[i]);
    p.(anchors := card, hints := hints)
  }

  /** Refreshing twice for the same user is refreshing once. */
  lemma {:induction false} RefreshIdempotent(p: NavPage, user: Option<User>)
    ensures RefreshCTAs(RefreshCTAs(p, user), user) == RefreshCTAs(p, user)
  {
    var once := RefreshCTAs(p, user);
    var twice := RefreshCTAs(once, user);
    FirstDependsOnTags(p.anchors, once.anchors, HeroPrimary);
    FirstDependsOnTags(p.anchors, once.anchors, HeroCard);
    forall i | 0 <= i < |p.anchors| ensures twice.anchors[i] == once.anchors[i] {
      CtaRewriteTwice(p.anchors[i], Picked(p.anchors, i), Picked(once.anchors, i), user.Some?);
    }
    assert twice.anchors == once.anchors;
    assert twice.hints == once.hints;
  }

  /** `updateCTAHints`: every `cta-hint` hint is hidden exactly when a user
      is signed in; nothing else changes. No script calls it. */
  function UpdateCTAHints(p: NavPage, user: Option<User>): (r: NavPage)
    ensures r == p.(hints := r.hints) && |r.hints| == |p.hints|
    ensures forall i | 0 <= i < |p.hints| ::
              if p.hints[i].ctaHintClass then r.hints[i].hidden == user.Some?
              else r.hints[i] == p.hints[i]
  {
    p.(hints := seq(|p.hints|, i requires 0 <= i < |p.hints| =>
      if p.hints[i].ctaHintClass then p.hints[i].(hidden := user.Some?) else p.hints[i]))
  }

  /** Whether `updateFeaturedEventCTA` acts: the page has the featured-event
      card, a user is signed in, and the duplicate query finds a record. */
  predicate ShowsRegistration(p: NavPage, store: Option<Backend>, user: Option<User>, queryOk: bool) {
    p.hasFeaturedCard && user.Some? && CheckRegistrationStatus(store, user.value.uid, queryOk)
  }

  /** The featured event's primary link once the user is known registered. */
  function ViewRegistrationLink(a: Anchor): (b: Anchor)
    ensures b.text == ViewRegistration && b.href == ProfileHref && b.ariaLabel == Some(ViewRegistration)
    ensures b.(text := a.text, href := a.href, ariaLabel := a.ariaLabel) == a
  {
    a.(text := ViewRegistration, href := ProfileHref, ariaLabel := Some(ViewRegistration))
  }

  /** `updateFeaturedEventCTA`: on a page with the featured-event card, for
      a signed-in user the duplicate query finds registered, the first
      primary link to the event page in the card's CTA becomes "View My
      Registration" towards the profile page, and every `cta-hint` hint is
      hidden. A missing card, user or store, a failed query and an
      unregistered user all leave the page as it was. */
  function UpdateFeaturedEventCTA(p: NavPage, store: Option<Backend>, user: Option<User>, queryOk: bool): (r: NavPage)
    ensures r.slot == p.slot && r.hasHero == p.hasHero && r.hasFeaturedCard == p.hasFeaturedCard
    ensures |r.anchors| == |p.anchors| && |r.hints| == |p.hints|
    ensures !ShowsRegistration(p, store, user, queryOk) ==> r == p
    ensures ShowsRegistration(p, store, user, queryOk) ==>
              && (forall i | 0 <= i < |p.hints| ::
                    r.hints[i] == if p.hints[i].ctaHintClass then p.hints[i].(hidden := true) else p.hints[i])
              && (forall i | 0 <= i < |p.anchors| ::
                    r.anchors[i] == if Some(i) == First(p.anchors, FeaturedTarget) then ViewRegistrationLink(p.anchors[i])
                                    else p.anchors[i])
  {
    if !p.hasFeaturedCard || user.None? || store.None? then p
    else if !CheckRegistrationStatus(store, user.value.uid, queryOk) then p
    else
      var anchors :=
        match First(p.anchors, FeaturedTarget)
        case None => p.anchors
        case Some(i) => p.anchors[i := ViewRegistrationLink(p.anchors[i])];
      var hints := seq(|p.hints|, i requires 0 <= i < |p.hints| =>
        if p.hints[i].ctaHintClass then p.hints[i].(hidden := true) else p.hints[i]);
      p.(anchors := anchors, hints := hints)
  }

  /** For a registered user the featured-event update hides the `cta-hint`
      hints exactly as `updateCTAHints` would for a signed-in user. */
  lemma FeaturedHidesLikeCTAHints(p: NavPage, store: Option<Backend>, user: Option<User>, queryOk: bool)
    requires ShowsRegistration(p, store, user, queryOk)
    ensures UpdateFeaturedEventCTA(p, store, user, queryOk).hints == UpdateCTAHints(p, user).hints
  {
    var r := UpdateFeaturedEventCTA(p, store, user, queryOk);
    var h := UpdateCTAHints(p, user);
    assert forall i | 0 <= i < |p.hints| :: r.hints[i] == h.hints[i];
  }

  /** On a hint carrying both the `cta-hint` class and the `data-cta-hint`
      attribute, `updateCTAHints` and `refreshCTAs` agree. */
  lemma CTAHintsAgreeWithRefresh(p: NavPage, user: Option<User>)
    ensures forall i | 0 <= i < |p.hints| && p.hints[i].ctaHintClass && p.hints[i].dataCtaHint ::
              UpdateCTAHints(p, user).hints[i] == RefreshCTAs(p, user).hints[i]
  {
    var h := UpdateCTAHints(p, user);
    var r := RefreshCTAs(p, user);
    forall i | 0 <= i < |p.hints| && p.hints[i].ctaHintClass && p.hints[i].dataCtaHint
      ensures h.hints[i] == r.hints[i]
    {
      assert h.hints[i] == p.hints[i].(hidden := user.Some?);
      assert r.hints[i] == p.hints[i].(hidden := user.Some?);
    }
  }

  /** `updateNavigation`: with a placeholder on the page, it holds the
      Join button exactly when no user is signed in and the user menu under
      the menu name otherwise; then the hero, hero-card and featured-event
      updates run (`NavigationRewritesLinks` and `NavigationHidesHints` say
      what they do to each link and hint). Without a placeholder nothing
      happens here (the source schedules a retry). */
  function UpdateNavigation(p: NavPage, store: Option<Backend>, user: Option<User>, queryOk: bool): (r: NavPage)
    ensures p.slot.Missing? ==> r == p
    ensures !p.slot.Missing? ==> (r.slot == JoinButton <==> user.None?)
    ensures !p.slot.Missing? && user.Some? ==> r.slot == UserMenu(MenuName(user.value))
    ensures r.hasHero == p.hasHero && r.hasFeaturedCard == p.hasFeaturedCard
    ensures |r.anchors| == |p.anchors| && |r.hints| == |p.hints|
    ensures forall i | 0 <= i < |p.anchors| :: r.anchors[i].cta == p.anchors[i].cta
  {
    if p.slot.Missing? then p
    else
      var slotted := p.(slot := if user.Some? then UserMenu(MenuName(user.value)) else JoinButton);
      var ctas := UpdateGetStartedCTA(UpdateHeroCTA(slotted, user), user);
      NavigationLinks(p, slotted, ctas, user);
      UpdateFeaturedEventCTA(ctas, store, user, queryOk)
  }

  /** The hero and hero-card passes of `updateNavigation` rewrite each link
      by `LinkRewrite`, so the featured selector still picks the same link,
      and that link is not rewritten. */
  lemma NavigationLinks(p: NavPage, slotted: NavPage, ctas: NavPage, user: Option<User>)
    requires slotted == p.(slot := slotted.slot)
    requires ctas == UpdateGetStartedCTA(UpdateHeroCTA(slotted, user), user)
    ensures ctas == p.(slot := slotted.slot, anchors := ctas.anchors)
    ensures |ctas.anchors| == |p.anchors|
    ensures forall i | 0 <= i < |p.anchors| :: ctas.anchors[i] == LinkRewrite(p.anchors[i], p.hasHero, user.Some?)
    ensures First(ctas.anchors, FeaturedTarget) == First(p.anchors, FeaturedTarget)
  {
    var hero := UpdateHeroCTA(slotted, user);
    forall i | 0 <= i < |p.anchors| ensures ctas.anchors[i] == LinkRewrite(p.anchors[i], p.hasHero, user.Some?) {
      assert hero.anchors[i] == if p.hasHero then HeroRewrite(p.anchors[i], user.Some?) else p.anchors[i];
    }
    FirstDependsOnSelection(p.anchors, ctas.anchors, FeaturedTarget);
  }

  /** What `updateNavigation` does to each link of a page with a
      placeholder: the hero and hero-card rewrite, except that the featured
      event's primary link reads "View My Registration" for a registered
      user. */
  lemma NavigationRewritesLinks(p: NavPage, store: Option<Backend>, user: Option<User>, queryOk: bool)
    requires !p.slot.Missing?
    ensures var r := UpdateNavigation(p, store, user, queryOk);
            forall i | 0 <= i < |p.anchors| ::
              r.anchors[i] == if ShowsRegistration(p, store, user, queryOk) && Some(i) == First(p.anchors, FeaturedTarget)
                              then ViewRegistrationLink(p.anchors[i])
                              else LinkRewrite(p.anchors[i], p.hasHero, user.Some?)
  {
    var slotted := p.(slot := if user.Some? then UserMenu(MenuName(user.value)) else JoinButton);
    var ctas := UpdateGetStartedCTA(UpdateHeroCTA(slotted, user), user);
    NavigationLinks(p, slotted, ctas, user);
    var r := UpdateFeaturedEventCTA(ctas, store, user, queryOk);
    assert r == UpdateNavigation(p, store, user, queryOk);
    assert ShowsRegistration(ctas, store, user, queryOk) == ShowsRegistration(p, store, user, queryOk);
    HrefsDistinct();
  }

  /** What `updateNavigation` does to each hint of a page with a
      placeholder: for a registered user every `cta-hint` hint is hidden;
      nothing else changes. */
  lemma NavigationHidesHints(p: NavPage, store: Option<Backend>, user: Option<User>, queryOk: bool)
    requires !p.slot.Missing?
    ensures var r := UpdateNavigation(p, store, user, queryOk);
            forall i | 0 <= i < |p.hints| ::
              r.hints[i] == if ShowsRegistration(p, store, user, queryOk) && p.hints[i].ctaHintClass
                            then p.hints[i].(hidden := true) else p.hints[i]
  {
    var slotted := p.(slot := if user.Some? then UserMenu(MenuName(user.value)) else JoinButton);
    var ctas := UpdateGetStartedCTA(UpdateHeroCTA(slotted, user), user);
    NavigationLinks(p, slotted, ctas, user);
    assert ctas.hints == p.hints;
    assert UpdateFeaturedEventCTA(ctas, store, user, queryOk) == UpdateNavigation(p, store, user, queryOk);
    assert ShowsRegistration(ctas, store, user, queryOk) == ShowsRegistration(p, store, user, queryOk);
  }

  /** At most one link of the page is the featured event's primary link. */
  predicate AtMostOneFeatured(anchors: seq<Anchor>) {
    forall i, j | 0 <= i < j < |anchors| :: !(Selected(anchors[i], FeaturedTarget) && Selected(anchors[j], FeaturedTarget))
  }

  /** On a page with at most one featured primary link, `updateNavigation`
      leaves none behind for a registered user. */
  lemma NoFeaturedLeft(p: NavPage, store: Option<Backend>, user: Option<User>, queryOk: bool)
    requires !p.slot.Missing? && ShowsRegistration(p, store, user, queryOk) && AtMostOneFeatured(p.anchors)
    ensures First(UpdateNavigation(p, store, user, queryOk).anchors, FeaturedTarget).None?
  {
    var once := UpdateNavigation(p, store, user, queryOk);
    NavigationRewritesLinks(p, store, user, queryOk);
    HrefsDistinct();
    forall j | 0 <= j < |p.anchors| ensures !Selected(once.anchors[j], FeaturedTarget) {
      if Some(j) != First(p.anchors, FeaturedTarget) {
        assert once.anchors[j] == LinkRewrite(p.anchors[j], p.hasHero, user.Some?);
        if First(p.anchors, FeaturedTarget).Some? {
          var f := First(p.anchors, FeaturedTarget).value;
        }
      }
    }
  }

  /** `updateNavigation` is idempotent for a fixed user and store whenever
      the featured update cannot find a second target: the user is not
      registered, or the page has at most one featured primary link. */
  lemma NavigationIdempotent(p: NavPage, store: Option<Backend>, user: Option<User>, queryOk: bool)
    requires AtMostOneFeatured(p.anchors) || !ShowsRegistration(p, store, user, queryOk)
    ensures var once := UpdateNavigation(p, store, user, queryOk);
            UpdateNavigation(once, store, user, queryOk) == once
  {
    if !p.slot.Missing? {
      var once := UpdateNavigation(p, store, user, queryOk);
      var twice := UpdateNavigation(once, store, user, queryOk);
      var shows := ShowsRegistration(p, store, user, queryOk);
      assert ShowsRegistration(once, store, user, queryOk) == shows;
      assert twice.anchors == once.anchors by {
        if shows {
          NoFeaturedLeft(p, store, user, queryOk);
        }
        NavigationRewritesLinks(p, store, user, queryOk);
        NavigationRewritesLinks(once, store, user, queryOk);
        NavigationAnchorsStable(p, once, twice, shows, user.Some?);
      }
      assert twice.hints == once.hints by {
        NavigationHidesHints(p, store, user, queryOk);
        NavigationHidesHints(once, store, user, queryOk);
        NavigationHintsStable(p, once, twice, shows);
      }
    }
  }

  /** The hint step of `NavigationIdempotent`: hiding a hint twice is
      hiding it once. */
  lemma NavigationHintsStable(p: NavPage, once: NavPage, twice: NavPage, shows: bool)
    requires |once.hints| == |p.hints| == |twice.hints|
    requires forall i | 0 <= i < |p.hints| ::
               once.hints[i] == if shows && p.hints[i].ctaHintClass then p.hints[i].(hidden := true) else p.hints[i]
    requires forall i | 0 <= i < |p.hints| ::
               twice.hints[i] == if shows && once.hints[i].ctaHintClass then once.hints[i].(hidden := true) else once.hints[i]
    ensures twice.hints == once.hints
  {
    forall i | 0 <= i < |p.hints| ensures twice.hints[i] == once.hints[i] {
      assert once.hints[i].ctaHintClass == p.hints[i].ctaHintClass;
    }
  }

  /** The link step of `NavigationIdempotent`: once the featured link is
      rewritten (or there is none to rewrite), a second pass applies only
      `LinkRewrite`, which changes nothing the first pass produced. */
  lemma NavigationAnchorsStable(p: NavPage, once: NavPage, twice: NavPage, shows: bool, signedIn: bool)
    requires |once.anchors| == |p.anchors| == |twice.anchors| && once.hasHero == p.hasHero
    requires forall i | 0 <= i < |p.anchors| ::
               once.anchors[i] == if shows && Some(i) == First(p.anchors, FeaturedTarget)
                                  then ViewRegistrationLink(p.anchors[i])
                                  else LinkRewrite(p.anchors[i], p.hasHero, signedIn)
    requires forall i | 0 <= i < |p.anchors| ::
               twice.anchors[i] == if shows && Some(i) == First(once.anchors, FeaturedTarget)
                                   then ViewRegistrationLink(once.anchors[i])
                                   else LinkRewrite(once.anchors[i], p.hasHero, signedIn)
    requires shows ==> First(once.anchors, FeaturedTarget).None?
    ensures twice.anchors == once.anchors
  {
    HrefsDistinct();
    forall i | 0 <= i < |p.anchors| ensures twice.anchors[i] == once.anchors[i] {
      if shows && Some(i) == First(p.anchors, FeaturedTarget) {
        assert once.anchors[i].href == ProfileHref;
      } else {
        LinkRewriteIdempotent(p.anchors[i], p.hasHero, signedIn);
      }
    }
  }

  /** Without the at-most-one condition the update is not idempotent: on a
      page whose featured card holds two primary links to the event page, a
      second run for a registered user rewrites the second link too. */
  lemma SecondFeaturedLinkRewritten()
    ensures var f := Anchor(false, false, true, true, None, "Register Now", EventHref, None);
            var p := NavPage(Untouched, false, true, [f, f], []);
            var b := Backend(map[], [Registration("u1", EventId, None, None, None, None, None, None)]);
            var u := User("u1", None, None, None);
            var once := UpdateNavigation(p, Some(b), Some(u), true);
            var twice := UpdateNavigation(once, Some(b), Some(u), true);
            && once.anchors == [ViewRegistrationLink(f), f]
            && twice.anchors == [ViewRegistrationLink(f), ViewRegistrationLink(f)]
  {
    var f := Anchor(false, false, true, true, None, "Register Now", EventHref, None);
    var p := NavPage(Untouched, false, true, [f, f], []);
    var b := Backend(map[], [Registration("u1", EventId, None, None, None, None, None, None)]);
    var u := User("u1", None, None, None);
    assert IsRegisteredFor(b.registrations, u.uid) by {
      assert b.registrations[0].userId == u.uid && b.registrations[0].eventId == EventId;
    }
    assert ShowsRegistration(p, Some(b), Some(u), true);
    FirstAt(p.anchors, FeaturedTarget, 0);
    var once := UpdateNavigation(p, Some(b), Some(u), true);
    HrefsDistinct();
    assert once.anchors == [ViewRegistrationLink(f), f];
    FirstAt(once.anchors, FeaturedTarget, 1);
  }

  /** The part of `updateNavigation` that takes effect at once: the
      placeholder, then the hero and hero-card updates. Its featured-event
      update is `async`, is not awaited and writes only once its
      registration query returns, so those writes land after anything its
      caller runs next. Without a placeholder nothing happens (the source
      schedules a retry). */
  function NavigationSync(p: NavPage, user: Option<User>): (r: NavPage)
    ensures p.slot.Missing? ==> r == p
    ensures !p.slot.Missing? ==> r.slot == (if user.Some? then UserMenu(MenuName(user.value)) else JoinButton)
    ensures r == p.(slot := r.slot, anchors := r.anchors) && |r.anchors| == |p.anchors|
    ensures forall i | 0 <= i < |p.anchors| ::
              r.anchors[i] == if p.slot.Missing? then p.anchors[i] else LinkRewrite(p.anchors[i], p.hasHero, user.Some?)
  {
    if p.slot.Missing? then p
    else
      var slotted := p.(slot := if user.Some? then UserMenu(MenuName(user.value)) else JoinButton);
      var ctas := UpdateGetStartedCTA(UpdateHeroCTA(slotted, user), user);
      NavigationLinks(p, slotted, ctas, user);
      ctas
  }

  /** `updateNavigation` is its immediate part followed by its
      featured-event update. */
  lemma NavigationIsSyncThenFeatured(p: NavPage, store: Option<Backend>, user: Option<User>, queryOk: bool)
    requires !p.slot.Missing?
    ensures UpdateNavigation(p, store, user, queryOk) == UpdateFeaturedEventCTA(NavigationSync(p, user), store, user, queryOk)
  {
  }

  /** The `onAuthStateChanged` callback of `initNavigation`. It calls
      `updateNavigation`, `refreshCTAs` and `updateFeaturedEventCTA`; both
      featured-event updates (the one inside `updateNavigation` and the
      callback's own) write only after their registration query returns,
      so both land after the refresh. The model therefore runs the
      placeholder and hero updates, then the refresh, then the featured
      update twice, or once when the page has no placeholder and
      `updateNavigation` returns early. The placeholder shows the user's
      state and no link's tag changes; `AuthChangeHints`,
      `AuthChangeSetsPicked` and `RegisteredSeesViewRegistration` say what
      happens to the hints and links. */
  function OnAuthChange(p: NavPage, store: Option<Backend>, user: Option<User>, queryOk: bool): (r: NavPage)
    ensures p.slot.Missing? ==> r.slot == Missing
    ensures !p.slot.Missing? ==> r.slot == (if user.Some? then UserMenu(MenuName(user.value)) else JoinButton)
    ensures r.hasHero == p.hasHero && r.hasFeaturedCard == p.hasFeaturedCard
    ensures |r.anchors| == |p.anchors| && |r.hints| == |p.hints|
    ensures forall i | 0 <= i < |p.anchors| :: r.anchors[i].cta == p.anchors[i].cta
  {
    var sync := NavigationSync(p, user);
    assert forall i | 0 <= i < |p.anchors| :: sync.anchors[i].cta == p.anchors[i].cta;
    FeaturedUpdates(RefreshCTAs(sync, user), store, user, queryOk, !p.slot.Missing?)
  }

  /** The featured-event updates that land after the refresh: two, or one
      when `updateNavigation` returned early. They change only links and
      hints, and no link's tag. */
  function FeaturedUpdates(p: NavPage, store: Option<Backend>, user: Option<User>, queryOk: bool, twice: bool): (r: NavPage)
    ensures r == p.(anchors := r.anchors, hints := r.hints)
    ensures |r.anchors| == |p.anchors| && |r.hints| == |p.hints|
    ensures forall i | 0 <= i < |p.anchors| :: r.anchors[i].cta == p.anchors[i].cta
  {
    var first := if twice then UpdateFeaturedEventCTA(p, store, user, queryOk) else p;
    UpdateFeaturedEventCTA(first, store, user, queryOk)
  }

  /** The featured-event update leaves every link it does not match alone. */
  lemma FeaturedKeepsOthers(p: NavPage, store: Option<Backend>, user: Option<User>, queryOk: bool, i: nat)
    requires i < |p.anchors| && !Selected(p.anchors[i], FeaturedTarget)
    ensures UpdateFeaturedEventCTA(p, store, user, queryOk).anchors[i] == p.anchors[i]
  {
  }

  /** After the callback every `cta-hint` hint is hidden when the user is
      registered, the other `data-cta-hint` hints are hidden exactly when a
      user is signed in, and every other hint is as it was. */
  lemma AuthChangeHints(p: NavPage, store: Option<Backend>, user: Option<User>, queryOk: bool)
    ensures var r := OnAuthChange(p, store, user, queryOk);
            forall i | 0 <= i < |p.hints| ::
              r.hints[i] == if p.hints[i].ctaHintClass && ShowsRegistration(p, store, user, queryOk)
                            then p.hints[i].(hidden := true)
                            else if p.hints[i].dataCtaHint then p.hints[i].(hidden := user.Some?)
                            else p.hints[i]
  {
    var sync := NavigationSync(p, user);
    var refreshed := RefreshCTAs(sync, user);
    var first := if p.slot.Missing? then refreshed else UpdateFeaturedEventCTA(refreshed, store, user, queryOk);
    var r := UpdateFeaturedEventCTA(first, store, user, queryOk);
    assert r == FeaturedUpdates(refreshed, store, user, queryOk, !p.slot.Missing?) == OnAuthChange(p, store, user, queryOk);
    var shows := ShowsRegistration(p, store, user, queryOk);
    assert ShowsRegistration(refreshed, store, user, queryOk) == shows;
    assert ShowsRegistration(first, store, user, queryOk) == shows;
    forall i | 0 <= i < |p.hints| ensures
      r.hints[i] == if p.hints[i].ctaHintClass && shows then p.hints[i].(hidden := true)
                    else if p.hints[i].dataCtaHint then p.hints[i].(hidden := user.Some?)
                    else p.hints[i]
    {
      assert refreshed.hints[i] == if p.hints[i].dataCtaHint then p.hints[i].(hidden := user.Some?) else p.hints[i];
      assert first.hints[i] == if !p.slot.Missing? && shows && p.hints[i].ctaHintClass then p.hints[i].(hidden := true) else refreshed.hints[i];
    }
  }

  /** After the callback the first `hero-primary` and the first `hero-card`
      link of the page carry the text and target for the user's state: the
      refresh moves them off the event page, so neither featured update
      picks them. */
  lemma AuthChangeSetsPicked(p: NavPage, store: Option<Backend>, user: Option<User>, queryOk: bool)
    ensures var r := OnAuthChange(p, store, user, queryOk);
            forall i | 0 <= i < |p.anchors| && Picked(p.anchors, i) ::
              && r.anchors[i].text == (if user.Some? then GoToProfile else JoinNow)
              && r.anchors[i].href == (if user.Some? then ProfileHref else JoinHref)
  {
    var sync := NavigationSync(p, user);
    var refreshed := RefreshCTAs(sync, user);
    var first := if p.slot.Missing? then refreshed else UpdateFeaturedEventCTA(refreshed, store, user, queryOk);
    var r := UpdateFeaturedEventCTA(first, store, user, queryOk);
    assert r == FeaturedUpdates(refreshed, store, user, queryOk, !p.slot.Missing?) == OnAuthChange(p, store, user, queryOk);
    AuthChangeKeepsPicked(p, sync, refreshed, user);
    forall i | 0 <= i < |p.anchors| && Picked(p.anchors, i) ensures r.anchors[i] == refreshed.anchors[i] {
      FeaturedKeepsOthers(refreshed, store, user, queryOk, i);
      FeaturedKeepsOthers(first, store, user, queryOk, i);
    }
  }

  /** The links `refreshCTAs` picks are the ones it would pick on the
      original page, and after it they are no featured targets. */
  lemma AuthChangeKeepsPicked(p: NavPage, sync: NavPage, refreshed: NavPage, user: Option<User>)
    requires sync == NavigationSync(p, user)
    requires refreshed == RefreshCTAs(sync, user)
    ensures forall i | 0 <= i < |p.anchors| :: Picked(sync.anchors, i) == Picked(p.anchors, i)
    ensures forall i | 0 <= i < |p.anchors| && Picked(p.anchors, i) ::
              && refreshed.anchors[i].text == (if user.Some? then GoToProfile else JoinNow)
              && refreshed.anchors[i].href == (if user.Some? then ProfileHref else JoinHref)
              && !Selected(refreshed.anchors[i], FeaturedTarget)
  {
    assert forall i | 0 <= i < |p.anchors| :: sync.anchors[i].cta == p.anchors[i].cta;
    FirstDependsOnTags(p.anchors, sync.anchors, HeroPrimary);
    FirstDependsOnTags(p.anchors, sync.anchors, HeroCard);
    HrefsDistinct();
  }

  /** After a sign-out, the page offers joining again: the placeholder (if
      any) holds the Join button, the tagged hero links read "Join Now"
      towards the join page, and no `data-cta-hint` hint is hidden. */
  lemma SignedOutOffersJoin(p: NavPage, store: Option<Backend>, user: Option<User>, queryOk: bool)
    requires user.None?
    ensures var r := OnAuthChange(p, store, user, queryOk);
            && (!p.slot.Missing? ==> r.slot == JoinButton)
            && (forall i | 0 <= i < |r.hints| && r.hints[i].dataCtaHint :: !r.hints[i].hidden)
            && (forall i | 0 <= i < |r.anchors| && First(r.anchors, Tagged(HeroPrimary)) == Some(i) ::
                  r.anchors[i].text == JoinNow && r.anchors[i].href == JoinHref)
  {
    var r := OnAuthChange(p, store, user, queryOk);
    assert forall i | 0 <= i < |r.hints| && r.hints[i].dataCtaHint :: !r.hints[i].hidden by {
      AuthChangeHints(p, store, user, queryOk);
    }
    assert forall i | 0 <= i < |r.anchors| && First(r.anchors, Tagged(HeroPrimary)) == Some(i) ::
             r.anchors[i].text == JoinNow && r.anchors[i].href == JoinHref by {
      AuthChangeSetsPicked(p, store, user, queryOk);
      FirstDependsOnTags(p.anchors, r.anchors, HeroPrimary);
    }
  }

  /** A registered user who signs in sees the featured event's primary link
      (when no `data-cta` tag claims it) read "View My Registration" towards
      the profile page, and no `cta-hint` hint. */
  lemma RegisteredSeesViewRegistration(p: NavPage, store: Option<Backend>, user: Option<User>, queryOk: bool, i: nat)
    requires ShowsRegistration(p, store, user, queryOk)
    requires First(p.anchors, FeaturedTarget) == Some(i) && !Picked(p.anchors, i)
    ensures var r := OnAuthChange(p, store, user, queryOk);
            && r.anchors[i] == ViewRegistrationLink(p.anchors[i])
            && (forall j | 0 <= j < |p.hints| && p.hints[j].ctaHintClass :: r.hints[j].hidden)
  {
    AuthChangeHints(p, store, user, queryOk);
    var sync := NavigationSync(p, user);
    var refreshed := RefreshCTAs(sync, user);
    var first := if p.slot.Missing? then refreshed else UpdateFeaturedEventCTA(refreshed, store, user, queryOk);
    var r := UpdateFeaturedEventCTA(first, store, user, queryOk);
    assert r == FeaturedUpdates(refreshed, store, user, queryOk, !p.slot.Missing?) == OnAuthChange(p, store, user, queryOk);
    SyncKeepsFeatured(p, user, i);
    FeaturedFoundAfterRefresh(sync, refreshed, user, i);
    assert ShowsRegistration(refreshed, store, user, queryOk);
    var once := UpdateFeaturedEventCTA(refreshed, store, user, queryOk);
    assert once.anchors[i] == ViewRegistrationLink(p.anchors[i]);
    if !p.slot.Missing? {
      HrefsDistinct();
      FeaturedKeepsOthers(first, store, user, queryOk, i);
    }
  }

  /** The immediate part of `updateNavigation` leaves the featured event's
      untagged primary link where it was and as it was. */
  lemma SyncKeepsFeatured(p: NavPage, user: Option<User>, i: nat)
    requires First(p.anchors, FeaturedTarget) == Some(i) && !Picked(p.anchors, i)
    ensures var s := NavigationSync(p, user);
            && First(s.anchors, FeaturedTarget) == Some(i) && !Picked(s.anchors, i) && s.anchors[i] == p.anchors[i]
  {
    var s := NavigationSync(p, user);
    HrefsDistinct();
    assert forall j | 0 <= j < |p.anchors| :: s.anchors[j].cta == p.anchors[j].cta;
    FirstDependsOnTags(p.anchors, s.anchors, HeroPrimary);
    FirstDependsOnTags(p.anchors, s.anchors, HeroCard);
    FirstDependsOnSelection(p.anchors, s.anchors, FeaturedTarget);
  }

  /** The refresh moves no link onto the event page, so the featured
      selector still picks the untagged link it picked before. */
  lemma FeaturedFoundAfterRefresh(p: NavPage, refreshed: NavPage, user: Option<User>, i: nat)
    requires refreshed == RefreshCTAs(p, user)
    requires First(p.anchors, FeaturedTarget) == Some(i) && !Picked(p.anchors, i)
    ensures First(refreshed.anchors, FeaturedTarget) == Some(i) && refreshed.anchors[i] == p.anchors[i]
  {
    HrefsDistinct();
    forall j | 0 <= j < i ensures !Selected(refreshed.anchors[j], FeaturedTarget) {
      assert !Selected(p.anchors[j], FeaturedTarget);
    }
    FirstAt(refreshed.anchors, FeaturedTarget, i);
  }

  /** The refresh runs before both featured-event updates. On a page whose
      featured card holds a `hero-primary` link to the event page followed
      by two untagged ones, a registered user's callback sends the tagged
      link to the profile page as "Go to Profile", keeping its label, and
      the two featured updates rewrite the two untagged links. */
  lemma RefreshPrecedesFeaturedUpdates()
    ensures var t := Anchor(false, false, true, true, Some(HeroPrimary), "Register Now", EventHref, None);
            var f := Anchor(false, false, true, true, None, "Register Now", EventHref, None);
            var p := NavPage(Untouched, false, true, [t, f, f], []);
            var b := Backend(map[], [Registration("u1", EventId, None, None, None, None, None, None)]);
            var u := User("u1", None, None, None);
            OnAuthChange(p, Some(b), Some(u), true).anchors
              == [t.(text := GoToProfile, href := ProfileHref), ViewRegistrationLink(f), ViewRegistrationLink(f)]
  {
    var t := Anchor(false, false, true, true, Some(HeroPrimary), "Register Now", EventHref, None);
    var f := Anchor(false, false, true, true, None, "Register Now", EventHref, None);
    var p := NavPage(Untouched, false, true, [t, f, f], []);
    var b := Backend(map[], [Registration("u1", EventId, None, None, None, None, None, None)]);
    var u := User("u1", None, None, None);
    assert IsRegisteredFor(b.registrations, u.uid) by {
      assert b.registrations[0].userId == u.uid && b.registrations[0].eventId == EventId;
    }
    var refreshed := RefreshCTAs(NavigationSync(p, Some(u)), Some(u));
    RefreshTaggedFeatured(p, Some(u), t, f);
    TwoFeaturedUpdates(refreshed, Some(b), Some(u), true, t.(text := GoToProfile, href := ProfileHref), f);
  }

  /** The immediate part and the refresh on the page of
      `RefreshPrecedesFeaturedUpdates`: only the tagged link changes. */
  lemma RefreshTaggedFeatured(p: NavPage, user: Option<User>, t: Anchor, f: Anchor)
    requires !p.slot.Missing? && user.Some? && p.anchors == [t, f, f]
    requires t.cta == Some(HeroPrimary) && t.href == EventHref && f.cta == None && f.href == EventHref
    ensures RefreshCTAs(NavigationSync(p, user), user).anchors == [t.(text := GoToProfile, href := ProfileHref), f, f]
  {
    HrefsDistinct();
    var sync := NavigationSync(p, user);
    assert sync.anchors == p.anchors;
    FirstAt(p.anchors, Tagged(HeroPrimary), 0);
    assert First(p.anchors, Tagged(HeroCard)).None?;
    assert Picked(p.anchors, 0) && !Picked(p.anchors, 1) && !Picked(p.anchors, 2);
  }

  /** Two featured updates on a page whose first link is no featured
      target rewrite the next two featured links. */
  lemma TwoFeaturedUpdates(q: NavPage, store: Option<Backend>, user: Option<User>, queryOk: bool, t: Anchor, f: Anchor)
    requires ShowsRegistration(q, store, user, queryOk)
    requires q.anchors == [t, f, f] && !Selected(t, FeaturedTarget) && Selected(f, FeaturedTarget)
    ensures FeaturedUpdates(q, store, user, queryOk, true).anchors == [t, ViewRegistrationLink(f), ViewRegistrationLink(f)]
  {
    HrefsDistinct();
    FirstAt(q.anchors, FeaturedTarget, 1);
    var first := UpdateFeaturedEventCTA(q, store, user, queryOk);
    assert first.anchors == [t, ViewRegistrationLink(f), f];
    FirstAt(first.anchors, FeaturedTarget, 2);
  }
}
