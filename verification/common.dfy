/** Values shared by every page script: optional values, the signed-in user
    as the identity provider reports it, JavaScript truthiness of string
    properties, the whitespace class of JavaScript regular expressions and
    `String.prototype.trim`, and the display-name fallback chain. */
module Common {

  datatype Option<+T> = None | Some(value: T)

  /** The identity provider's user object; a `null` property is `None`. */
  datatype User = User(
    uid: string,
    displayName: Option<string>,
    email: Option<string>,
    photoURL: Option<string>)

  /** JavaScript truthiness of a string-valued property: present and non-empty. */
  predicate Truthy(s: Option<string>) {
    s.Some? && |s.value| > 0
  }

  /** `a || fallback` for a string-valued property. */
  function Or(a: Option<string>, fallback: string): string {
    if Truthy(a) then a.value else fallback
  }

  /** The code points matched by `\s` in a JavaScript regular expression; the
      same set (white space plus line terminators) is what `trim()` strips. */
  predicate IsWhitespace(c: char) {
    || c == ' ' || c == '\t' || c == '\n' || c == '\r'
    || c == '\U{000B}' || c == '\U{000C}' || c == '\U{00A0}' || c == '\U{1680}'
    || ('\U{2000}' <= c <= '\U{200A}')
    || c == '\U{2028}' || c == '\U{2029}' || c == '\U{202F}' || c == '\U{205F}'
    || c == '\U{3000}' || c == '\U{FEFF}'
  }

  predicate NoWhitespace(s: string) {
    forall k | 0 <= k < |s| :: !IsWhitespace(s[k])
  }

  /** The length of the whitespace run `s` starts with. */
  function LeadingSpace(s: string): (n: nat)
    ensures n <= |s|
    ensures forall k | 0 <= k < n :: IsWhitespace(s[k])
    ensures n < |s| ==> !IsWhitespace(s[n])
  {
    if |s| > 0 && IsWhitespace(s[0]) then 1 + LeadingSpace(s[1..]) else 0
  }

  /** The length of the whitespace run `s` ends with. */
  function TrailingSpace(s: string): (n: nat)
    ensures n <= |s|
    ensures forall k | |s| - n <= k < |s| :: IsWhitespace(s[k])
    ensures n < |s| ==> !IsWhitespace(s[|s| - n - 1])
  {
    if |s| > 0 && IsWhitespace(s[|s| - 1]) then 1 + TrailingSpace(s[..|s| - 1]) else 0
  }

  /** The text between the leading and the trailing whitespace runs. */
  function Between(s: string): string {
    var t := s[LeadingSpace(s)..];
    t[..|t| - TrailingSpace(t)]
  }

  /** `Between` is the slice after the leading run, followed only by
      whitespace. */
  lemma BetweenIsSlice(s: string)
    ensures var lead, r := LeadingSpace(s), Between(s);
            && lead + |r| <= |s| && r == s[lead..lead + |r|]
            && forall k | lead + |r| <= k < |s| :: IsWhitespace(s[k])
  {
    var lead := LeadingSpace(s);
    var t := s[lead..];
    var trail := TrailingSpace(t);
    var r := t[..|t| - trail];
    assert r == Between(s);
    assert |r| == |s| - lead - trail;
    assert r == s[lead..lead + |r|];
    forall k | lead + |r| <= k < |s| ensures IsWhitespace(s[k]) {
      assert s[k] == t[k - lead];
    }
  }

  /** `Between` starts and ends with non-whitespace, and is empty exactly
      for an all-whitespace input. */
  lemma BetweenEnds(s: string)
    ensures var r := Between(s);
            && (|r| > 0 ==> !IsWhitespace(r[0]) && !IsWhitespace(r[|r| - 1]))
            && (|r| == 0 <==> forall k | 0 <= k < |s| :: IsWhitespace(s[k]))
  {
    var lead := LeadingSpace(s);
    var t := s[lead..];
    var trail := TrailingSpace(t);
    var r := Between(s);
    assert |r| > 0 ==> r[0] == s[lead] && r[|r| - 1] == t[|t| - trail - 1];
    assert lead < |s| ==> t[0] == s[lead] && trail < |t|;
    if lead < |s| {
      assert !IsWhitespace(s[lead]);
    }
  }

  /** `Between` keeps exactly the inputs that do not start or end with
      whitespace. */
  lemma BetweenFixes(s: string)
    ensures Between(s) == s <==> |s| == 0 || (!IsWhitespace(s[0]) && !IsWhitespace(s[|s| - 1]))
  {
    var lead := LeadingSpace(s);
    var t := s[lead..];
    var trail := TrailingSpace(t);
    BetweenEnds(s);
    if |s| > 0 && !IsWhitespace(s[0]) && !IsWhitespace(s[|s| - 1]) {
      assert lead == 0;
      assert t == s;
      assert trail == 0;
    }
  }

  /** `String.prototype.trim`: the input with its leading and its trailing
      whitespace runs removed. */
  function Trim(s: string): (r: string)
    ensures |r| <= |s|
    ensures |r| > 0 ==> !IsWhitespace(r[0]) && !IsWhitespace(r[|r| - 1])
    ensures |r| == 0 <==> forall k | 0 <= k < |s| :: IsWhitespace(s[k])
    ensures NoWhitespace(s) ==> r == s
    ensures r == s <==> |s| == 0 || (!IsWhitespace(s[0]) && !IsWhitespace(s[|s| - 1]))
    ensures var lead := LeadingSpace(s);
            && lead + |r| <= |s| && r == s[lead..lead + |r|]
            && forall k | lead + |r| <= k < |s| :: IsWhitespace(s[k])
  {
    BetweenIsSlice(s);
    BetweenEnds(s);
    BetweenFixes(s);
    Between(s)
  }

  /** A code point outside the Basic Multilingual Plane, which a JavaScript
      string stores as a surrogate pair of two UTF-16 code units. */
  predicate Astral(c: char) {
    c as int >= 0x1_0000
  }

  /** `s.length` in JavaScript: the number of UTF-16 code units, one per
      code point and one more per astral code point. */
  function Utf16Length(s: string): (n: nat)
    ensures |s| <= n <= 2 * |s|
    ensures n == |s| <==> forall k | 0 <= k < |s| :: !Astral(s[k])
  {
    if |s| == 0 then 0
    else
      var init := s[..|s| - 1];
      assert forall k | 0 <= k < |init| :: init[k] == s[k];
      Utf16Length(init) + (if Astral(s[|s| - 1]) then 2 else 1)
  }

  /** A set whose every element is `x`, and which holds `x`, is `{x}`. */
  lemma OnlyMember<T>(s: set<T>, x: T)
    requires x in s
    requires forall y | y in s :: y == x
    ensures s == {x}
  {
  }

  /** `email.split('@')[0]`: the text before the first `@`, or all of it. */
  function LocalPart(email: string): (r: string)
    ensures |r| <= |email| && r == email[..|r|]
    ensures forall k | 0 <= k < |r| :: r[k] != '@'
    ensures |r| < |email| ==> email[|r|] == '@'
  {
    if |email| == 0 || email[0] == '@' then [] else [email[0]] + LocalPart(email[1..])
  }

  /** The name a signed-in user is shown under when no profile document is
      consulted: `displayName || email?.split('@')[0] || 'User'`. */
  function MenuName(user: User): (r: string)
    ensures |r| > 0
    ensures Truthy(user.displayName) ==> r == user.displayName.value
    ensures !Truthy(user.displayName) && user.email.Some? && |user.email.value| > 0 &&
            user.email.value[0] != '@' ==>
              var e := user.email.value;
              && |r| <= |e| && r == e[..|r|]
              && (forall k | 0 <= k < |r| :: r[k] != '@')
              && (|r| < |e| ==> e[|r|] == '@')
    ensures !Truthy(user.displayName) &&
            (user.email.None? || |user.email.value| == 0 || user.email.value[0] == '@') ==>
              r == "User"
  {
    var local := if user.email.Some? then Some(LocalPart(user.email.value)) else None;
    Or(user.displayName, Or(local, "User"))
  }
}
