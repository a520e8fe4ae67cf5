/** The input validators of the sign-in page: `validatePhoneNumber`, with
    the separator-stripping step it shares with the profile write, and
    `validateEmail`. */
module Validators {
  import opened Common

  /** The `{ valid, message }` record both validators return. */
  datatype Validation = Valid | Invalid(message: string)

  const PhoneRequired := "Phone number is required"
  const PhoneWithCountryCode := "Phone number with country code should have 10-13 digits after +"
  const PhoneTenDigits := "Phone number should be exactly 10 digits (e.g., 9876543210)"
  const EmailRequired := "Email is required"
  const EmailMalformed := "Please enter a valid email address"

  /** The class `[\s\-\(\)]` the phone number is stripped of. */
  predicate IsSeparator(c: char) {
    IsWhitespace(c) || c == '-' || c == '(' || c == ')'
  }

  /** `\d` in a JavaScript regular expression: ASCII digits only. */
  predicate IsDigit(c: char) {
    '0' <= c <= '9'
  }

  predicate AllDigits(s: string) {
    forall k | 0 <= k < |s| :: IsDigit(s[k])
  }

  /** `phone.replace(/[\s\-\(\)]/g, '')`. */
  function Clean(s: string): (r: string)
    ensures |r| <= |s|
    ensures forall k | 0 <= k < |r| :: !IsSeparator(r[k])
  {
    if |s| == 0 then [] else (if IsSeparator(s[0]) then [] else [s[0]]) + Clean(s[1..])
  }

  /** Cleaning works character by character: it distributes over
      concatenation, so together with its effect on one character (drop a
      separator, keep anything else) it keeps every other character in order. */
  lemma {:induction false} CleanAppend(a: string, b: string)
    ensures Clean(a + b) == Clean(a) + Clean(b)
  {
    if |a| == 0 {
      assert a + b == b;
    } else {
      assert (a + b)[1..] == a[1..] + b;
      CleanAppend(a[1..], b);
    }
  }

  /** A string without separators is left exactly as it is. */
  lemma {:induction false} CleanKeeps(s: string)
    requires forall k | 0 <= k < |s| :: !IsSeparator(s[k])
    ensures Clean(s) == s
  {
    if |s| > 0 {
      CleanKeeps(s[1..]);
    }
  }

  /** Removing one separator anywhere does not change the cleaned string. */
  lemma CleanDropsSeparator(a: string, c: char, b: string)
    requires IsSeparator(c)
    ensures Clean(a + [c] + b) == Clean(a + b)
  {
    CleanAppend(a + [c], b);
    CleanAppend(a, [c]);
    CleanAppend(a, b);
    assert Clean([c]) == [];
  }

  lemma CleanIdempotent(s: string)
    ensures Clean(Clean(s)) == Clean(s)
  {
    CleanKeeps(Clean(s));
  }

  /** A cleaned phone number the validator accepts, stated without its
      branch structure: only digits, except a `+` allowed in first place;
      10 to 13 digits after a `+`, exactly 10 without one. */
  ghost predicate WellFormedPhone(c: string) {
    && (forall k | 0 <= k < |c| :: IsDigit(c[k]) || (k == 0 && c[k] == '+'))
    && (if '+' in c then 11 <= |c| <= 14 else |c| == 10)
  }

  /** `validatePhoneNumber`. */
  function ValidatePhoneNumber(phone: string): (r: Validation)
    ensures r.Valid? <==> WellFormedPhone(Clean(phone))
    ensures r == Invalid(PhoneRequired) <==> |phone| == 0
    ensures r.Invalid? && |phone| > 0 ==>
              var c := Clean(phone);
              r.message == (if |c| > 0 && c[0] == '+' then PhoneWithCountryCode else PhoneTenDigits)
  {
    if |phone| == 0 then Invalid(PhoneRequired)
    else
      var cleaned := Clean(phone);
      if |cleaned| > 0 && cleaned[0] == '+' then
        var digits := cleaned[1..];
        if !(AllDigits(digits) && 10 <= |digits| <= 13) then Invalid(PhoneWithCountryCode) else Valid
      else
        if !(AllDigits(cleaned) && |cleaned| == 10) then Invalid(PhoneTenDigits) else Valid
  }

  /** A `+` anywhere but first in the cleaned number makes it invalid. */
  lemma PlusOnlyFirst(phone: string, k: nat)
    requires 0 < k < |Clean(phone)| && Clean(phone)[k] == '+'
    ensures ValidatePhoneNumber(phone).Invalid?
  {
  }

  /** Inserting or deleting a separator never changes whether a non-empty
      input is accepted. */
  lemma SeparatorsIrrelevant(a: string, c: char, b: string)
    requires IsSeparator(c)
    ensures ValidatePhoneNumber(a + [c] + b).Valid? <==> ValidatePhoneNumber(a + b).Valid?
  {
    CleanDropsSeparator(a, c, b);
  }

  /** Ten digits are accepted. */
  lemma TenDigitsAccepted(d: string)
    requires AllDigits(d) && |d| == 10
    ensures ValidatePhoneNumber(d) == Valid
  {
    CleanKeeps(d);
  }

  /** Ten digits written in three dash-separated groups are accepted. */
  lemma DashedDigitsAccepted(a: string, b: string, c: string)
    requires AllDigits(a + b + c) && |a + b + c| == 10
    ensures ValidatePhoneNumber(a + "-" + b + "-" + c) == Valid
  {
    var p := a + "-" + b + "-" + c;
    assert Clean(p) == Clean(a + b + "-" + c) by {
      assert p == a + ['-'] + (b + "-" + c);
      assert a + b + "-" + c == a + (b + "-" + c);
      CleanDropsSeparator(a, '-', b + "-" + c);
    }
    assert Clean(a + b + "-" + c) == Clean(a + b + c) by {
      assert a + b + "-" + c == (a + b) + ['-'] + c;
      CleanDropsSeparator(a + b, '-', c);
    }
    CleanKeeps(a + b + c);
  }

  /** A `+` followed by 10 to 13 digits is accepted. */
  lemma CountryCodeAccepted(d: string)
    requires AllDigits(d) && 10 <= |d| <= 13
    ensures ValidatePhoneNumber(['+'] + d) == Valid
  {
    CleanKeeps(['+'] + d);
    assert (['+'] + d)[1..] == d;
  }

  /** Digits alone, but not ten of them, are rejected with the ten-digit message. */
  lemma WrongDigitCountRejected(d: string)
    requires AllDigits(d) && 0 < |d| && |d| != 10
    ensures ValidatePhoneNumber(d) == Invalid(PhoneTenDigits)
  {
    CleanKeeps(d);
  }

  /** The dashed example of the phone field: accepted. */
  lemma DashedExample()
    ensures ValidatePhoneNumber("987-654-3210") == Valid
  {
    var dashed := "987-654-3210";
    assert dashed == "987" + "-" + "654" + "-" + "3210";
    assert AllDigits("987" + "654" + "3210");
    DashedDigitsAccepted("987", "654", "3210");
  }

  /** The international example: accepted. */
  lemma InternationalExample()
    ensures ValidatePhoneNumber("+919876543210") == Valid
  {
    var international := "+919876543210";
    assert international == ['+'] + "919876543210";
    CountryCodeAccepted("919876543210");
  }

  /** A five-digit number: rejected with the ten-digit message. */
  lemma ShortNumberExample()
    ensures ValidatePhoneNumber("12345") == Invalid(PhoneTenDigits)
  {
    WrongDigitCountRejected("12345");
  }

  /** The index of the first `c` in `s`, or `|s|` when there is none. */
  function IndexOf(s: string, c: char): (i: nat)
    ensures i <= |s|
    ensures i < |s| ==> s[i] == c
    ensures forall k | 0 <= k < i :: s[k] != c
  {
    if |s| == 0 || s[0] == c then 0 else 1 + IndexOf(s[1..], c)
  }

  /** The pattern `^[^\s@]+@[^\s@]+\.[^\s@]+$`, stated by the positions
      of the `@` and the `.` it matches. */
  ghost predicate MatchesEmailPattern(e: string) {
    exists i, j | 0 < i && i + 1 < j && j + 1 < |e| ::
      && e[i] == '@'
      && e[j] == '.'
      && forall k | 0 <= k < |e| && k != i :: e[k] != '@' && !IsWhitespace(e[k])
  }

  /** The shape check as a scan: no whitespace, exactly one `@`, a non-empty
      local part, and a domain with a `.` that is neither its first nor its
      last character. */
  predicate EmailShape(e: string) {
    var at := IndexOf(e, '@');
    && NoWhitespace(e)
    && 0 < at < |e|
    && var domain := e[at + 1..];
    && IndexOf(domain, '@') == |domain|
    && |domain| >= 3
    && IndexOf(domain[1..|domain| - 1], '.') < |domain| - 2
  }

  lemma ShapeMatchesPattern(e: string)
    requires EmailShape(e)
    ensures MatchesEmailPattern(e)
  {
    var at := IndexOf(e, '@');
    var domain := e[at + 1..];
    var inner := domain[1..|domain| - 1];
    var m := IndexOf(inner, '.');
    var j := at + 2 + m;
    assert e[j] == inner[m];
    forall k | 0 <= k < |e| && k != at
      ensures e[k] != '@' && !IsWhitespace(e[k])
    {
      if k > at {
        assert e[k] == domain[k - at - 1];
      }
    }
    assert 0 < at && at + 1 < j && j + 1 < |e| && e[at] == '@' && e[j] == '.';
  }

  lemma PatternHasShape(e: string, i: nat, j: nat)
    requires 0 < i && i + 1 < j && j + 1 < |e|
    requires e[i] == '@' && e[j] == '.'
    requires forall k | 0 <= k < |e| && k != i :: e[k] != '@' && !IsWhitespace(e[k])
    ensures EmailShape(e)
  {
    var at := IndexOf(e, '@');
    assert at == i;
    var domain := e[at + 1..];
    assert forall k | 0 <= k < |domain| :: domain[k] == e[i + 1 + k];
    assert IndexOf(domain, '@') == |domain|;
    var inner := domain[1..|domain| - 1];
    assert inner[j - i - 2] == '.';
  }

  lemma EmailShapeIsPattern(e: string)
    ensures EmailShape(e) <==> MatchesEmailPattern(e)
  {
    if EmailShape(e) {
      ShapeMatchesPattern(e);
    }
    if MatchesEmailPattern(e) {
      var i, j :| 0 < i && i + 1 < j && j + 1 < |e| && e[i] == '@' && e[j] == '.' &&
        forall k | 0 <= k < |e| && k != i :: e[k] != '@' && !IsWhitespace(e[k]);
      PatternHasShape(e, i, j);
    }
  }

  /** `validateEmail`; the address is the provider's possibly-null `email`. */
  function ValidateEmail(email: Option<string>): (r: Validation)
    ensures r.Valid? <==> email.Some? && MatchesEmailPattern(email.value)
    ensures r == Invalid(EmailRequired) <==> !Truthy(email)
    ensures r.Invalid? && Truthy(email) ==> r.message == EmailMalformed
  {
    if !Truthy(email) then Invalid(EmailRequired)
    else
      EmailShapeIsPattern(email.value);
      if !EmailShape(email.value) then Invalid(EmailMalformed) else Valid
  }

  /** A non-empty run of `[^\s@]`. */
  predicate Atom(s: string) {
    |s| > 0 && forall k | 0 <= k < |s| :: s[k] != '@' && !IsWhitespace(s[k])
  }

  /** `local@host.tld` is accepted whenever the three parts are atoms. */
  lemma AtomsAccepted(local: string, host: string, tld: string)
    requires Atom(local) && Atom(host) && Atom(tld)
    ensures ValidateEmail(Some(local + "@" + host + "." + tld)) == Valid
  {
    var e := local + "@" + host + "." + tld;
    var i, j := |local|, |local| + 1 + |host|;
    assert e[i] == '@' && e[j] == '.';
    forall k | 0 <= k < |e| && k != i
      ensures e[k] != '@' && !IsWhitespace(e[k])
    {
      if k < i {
        assert e[k] == local[k];
      } else if i < k < j {
        assert e[k] == host[k - i - 1];
      } else if k > j {
        assert e[k] == tld[k - j - 1];
      }
    }
    assert MatchesEmailPattern(e);
  }

  /** Two `@` signs are rejected. */
  lemma TwoAtsRejected(e: string, a: nat, b: nat)
    requires a < b < |e| && e[a] == '@' && e[b] == '@'
    ensures ValidateEmail(Some(e)) == Invalid(EmailMalformed)
  {
  }

  /** Whitespace anywhere is rejected. */
  lemma WhitespaceRejected(e: string, k: nat)
    requires k < |e| && IsWhitespace(e[k])
    ensures ValidateEmail(Some(e)) == Invalid(EmailMalformed)
  {
  }

  /** An address whose domain has no `.` strictly inside it is rejected:
      `a@.co` and `a@co.` both fail. */
  lemma NoInnerDotRejected(e: string, at: nat)
    requires at < |e| && e[at] == '@'
    requires forall j | at + 1 < j < |e| - 1 :: e[j] != '.'
    ensures ValidateEmail(Some(e)).Invalid?
  {
  }

  /** An empty local part is rejected. */
  lemma EmptyLocalRejected(e: string)
    requires |e| > 0 && e[0] == '@'
    ensures ValidateEmail(Some(e)).Invalid?
  {
  }
}
