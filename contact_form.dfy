/** The contact form's client-side checks: JavaScript's white-space class,
    `String.prototype.trim`, the email pattern `^[^\s@]+@[^\s@]+\.[^\s@]+$`
    (stated as a string predicate, not a regular-expression engine), and the
    submit handler's early-return validation chain. */
module ContactForm {

  datatype Option<T> = None | Some(value: T)

  /** The characters that both the `\s` class and `String.prototype.trim`
      treat as white space: ECMAScript's WhiteSpace and LineTerminator
      (tab, line feed, vertical tab, form feed, carriage return, space,
      no-break space, the Unicode space separators, line and paragraph
      separator, and the byte-order mark). */
  predicate IsSpace(c: char) {
    var n := c as int;
    (9 <= n <= 13) || n == 0x20 || n == 0xA0 || n == 0x1680 ||
    (0x2000 <= n <= 0x200A) || n == 0x2028 || n == 0x2029 ||
    n == 0x202F || n == 0x205F || n == 0x3000 || n == 0xFEFF
  }

  /** Every character of `s` in `[lo, hi)` is white space. */
  predicate SpaceIn(s: string, lo: int, hi: int) {
    forall k :: lo <= k < hi && 0 <= k < |s| ==> IsSpace(s[k])
  }

  predicate AllSpace(s: string) {
    SpaceIn(s, 0, |s|)
  }

  predicate NoSpace(s: string) {
    forall k :: 0 <= k < |s| ==> !IsSpace(s[k])
  }

  // ---------------------------------------------------------------------
  // String.prototype.trim
  // ---------------------------------------------------------------------

  /** The end of the run of white space that starts at `i`: the first
      position at or after `i` that is not white space, or `|s|`. */
  function SpaceRunEnd(s: string, i: nat): (j: nat)
    requires i <= |s|
    ensures i <= j <= |s| && SpaceIn(s, i, j)
    ensures j == |s| || !IsSpace(s[j])
    decreases |s| - i
  {
    if i < |s| && IsSpace(s[i]) then SpaceRunEnd(s, i + 1) else i
  }

  /** The start of the run of white space that ends at `hi`, not going below
      `lo`: the last position `j` with `s[j - 1]` not white space, or `lo`. */
  function SpaceRunStart(s: string, lo: nat, hi: nat): (j: nat)
    requires lo <= hi <= |s|
    ensures lo <= j <= hi && SpaceIn(s, j, hi)
    ensures j == lo || !IsSpace(s[j - 1])
    decreases hi
  {
    if lo < hi && IsSpace(s[hi - 1]) then SpaceRunStart(s, lo, hi - 1) else hi
  }

  /** `s.trim()`: the piece `s[lo..lo + |r|]` of `s` with only white space
      cut off on either side, neither starting nor ending with white space;
      it is empty exactly when `s` is all white space. */
  function Trim(s: string): (r: string)
    ensures var lo := SpaceRunEnd(s, 0);
      lo + |r| <= |s| && r == s[lo..lo + |r|] &&
      SpaceIn(s, 0, lo) && SpaceIn(s, lo + |r|, |s|)
    ensures r == [] || (!IsSpace(r[0]) && !IsSpace(r[|r| - 1]))
    ensures r == [] <==> AllSpace(s)
  {
    var lo := SpaceRunEnd(s, 0);
    var hi := SpaceRunStart(s, lo, |s|);
    assert lo < hi ==> s[lo..hi][0] == s[lo] && s[lo..hi][hi - lo - 1] == s[hi - 1];
    s[lo..hi]
  }

  // ---------------------------------------------------------------------
  // Character search and counting
  // ---------------------------------------------------------------------

  /** `s.indexOf(c)` for one character: the first position of `c`, or -1. */
  function IndexOfChar(s: string, c: char): (r: int)
    ensures -1 <= r < |s|
    ensures r == -1 <==> c !in s
    ensures 0 <= r ==> s[r] == c && c !in s[..r]
  {
    if s == [] then -1
    else if s[0] == c then 0
    else
      var t := IndexOfChar(s[1..], c);
      assert s == [s[0]] + s[1..];
      if t == -1 then -1
      else
        assert s[..t + 1] == [s[0]] + s[1..][..t];
        t + 1
  }

  /** The number of occurrences of `c` in `s`. */
  function CountChar(s: string, c: char): (n: nat)
    ensures n == 0 <==> c !in s
    ensures n <= |s|
  {
    if s == [] then 0
    else
      assert s == [s[0]] + s[1..];
      (if s[0] == c then 1 else 0) + CountChar(s[1..], c)
  }

  lemma {:induction false} CountCharConcat(a: string, b: string, c: char)
    ensures CountChar(a + b, c) == CountChar(a, c) + CountChar(b, c)
  {
    if a == [] {
      assert a + b == b;
    } else {
      assert (a + b)[1..] == a[1..] + b;
      CountCharConcat(a[1..], b, c);
    }
  }

  /** With exactly one `c` in `s`, every other position holds something else. */
  lemma OnlyOccurrence(s: string, c: char, k: int)
    requires CountChar(s, c) == 1 && 0 <= k < |s| && k != IndexOfChar(s, c)
    ensures s[k] != c
  {
    var at := IndexOfChar(s, c);
    assert s == s[..at] + s[at..];
    CountCharConcat(s[..at], s[at..], c);
    assert s[at..] == [c] + s[at + 1..];
    CountCharConcat([c], s[at + 1..], c);
    assert c !in s[at + 1..];
    if k < at {
      assert s[k] == s[..at][k];
    } else {
      assert s[k] == s[at + 1..][k - at - 1];
    }
  }

  // ---------------------------------------------------------------------
  // The email rule
  // ---------------------------------------------------------------------

  /** One character of a `[^\s@]` run. */
  predicate IsNameChar(c: char) {
    !IsSpace(c) && c != '@'
  }

  /** Every character of `s` in `[lo, hi)` may stand in a `[^\s@]` run. */
  predicate NameCharsIn(s: string, lo: int, hi: int) {
    forall k :: lo <= k < hi && 0 <= k < |s| ==> IsNameChar(s[k])
  }

  predicate NameChars(t: string) {
    NameCharsIn(t, 0, |t|)
  }

  /** `isValidEmail`: no white space, exactly one `@`, something before it,
      and a dot after it that is neither right after the `@` nor last. */
  function IsValidEmail(s: string): (b: bool)
    ensures b ==> 5 <= |s| && s[0] != '@' && '@' in s
  {
    NoSpace(s) && CountChar(s, '@') == 1 &&
    var at := IndexOfChar(s, '@');
    0 < at && exists j :: at + 1 < j < |s| - 1 && s[j] == '.'
  }

  /** The pattern read literally, with the `@` at `at` and the `\.` at `dot`:
      three non-empty `[^\s@]` runs around them covering all of `s`. */
  ghost predicate MatchesAt(s: string, at: int, dot: int) {
    0 < at && at + 1 < dot && dot + 1 < |s| &&
    s[at] == '@' && s[dot] == '.' &&
    NameCharsIn(s, 0, at) && NameCharsIn(s, at + 1, dot) && NameCharsIn(s, dot + 1, |s|)
  }

  /** `^[^\s@]+@[^\s@]+\.[^\s@]+$` matches `s` for some choice of the split. */
  ghost predicate MatchesPattern(s: string) {
    exists at, dot :: MatchesAt(s, at, dot)
  }

  /** A character found at `at` and nowhere else is counted once and found
      first. */
  lemma {:induction false} SingleOccurrence(s: string, c: char, at: int)
    requires 0 <= at < |s| && s[at] == c
    requires forall k :: 0 <= k < |s| && k != at ==> s[k] != c
    ensures CountChar(s, c) == 1 && IndexOfChar(s, c) == at
  {
    if at == 0 {
      assert c !in s[1..] by {
        forall k | 0 <= k < |s| - 1 ensures s[1..][k] != c { assert s[1..][k] == s[k + 1]; }
      }
    } else {
      forall k | 0 <= k < |s| - 1 && k != at - 1 ensures s[1..][k] != c {
        assert s[1..][k] == s[k + 1];
      }
      SingleOccurrence(s[1..], c, at - 1);
    }
  }

  lemma ValidEmailMatches(s: string)
    requires IsValidEmail(s)
    ensures MatchesPattern(s)
  {
    var at := IndexOfChar(s, '@');
    var dot :| at + 1 < dot < |s| - 1 && s[dot] == '.';
    forall k | 0 <= k < |s| && k != at ensures IsNameChar(s[k]) {
      OnlyOccurrence(s, '@', k);
    }
    assert MatchesAt(s, at, dot);
  }

  lemma MatchesIsValidEmail(s: string, at: int, dot: int)
    requires MatchesAt(s, at, dot)
    ensures IsValidEmail(s)
  {
    forall k | 0 <= k < |s| && k != at ensures s[k] != '@' && !IsSpace(s[k]) {
      assert k != dot ==> IsNameChar(s[k]);
    }
    SingleOccurrence(s, '@', at);
  }

  /** `isValidEmail` holds exactly when the pattern matches. */
  lemma EmailRuleIsPattern(s: string)
    ensures IsValidEmail(s) <==> MatchesPattern(s)
  {
    if IsValidEmail(s) {
      ValidEmailMatches(s);
    }
    if MatchesPattern(s) {
      var at, dot :| MatchesAt(s, at, dot);
      MatchesIsValidEmail(s, at, dot);
    }
  }

  /** Every `local@host.tld` with three non-empty `[^\s@]` parts passes. */
  lemma EmailOfParts(local: string, host: string, tld: string)
    requires |local| > 0 && |host| > 0 && |tld| > 0
    requires NameChars(local) && NameChars(host) && NameChars(tld)
    ensures IsValidEmail(local + "@" + host + "." + tld)
  {
    var s := local + "@" + host + "." + tld;
    var at, dot := |local|, |local| + 1 + |host|;
    forall k | 0 <= k < |s| && k != at && k != dot ensures IsNameChar(s[k]) {
      if k < at { assert s[k] == local[k]; }
      else if k < dot { assert s[k] == host[k - at - 1]; }
      else { assert s[k] == tld[k - dot - 1]; }
    }
    assert s[at] == '@' && s[dot] == '.';
    MatchesIsValidEmail(s, at, dot);
  }

  // ---------------------------------------------------------------------
  // Substring search for the configuration marker
  // ---------------------------------------------------------------------

  ghost predicate OccursAt(s: string, sub: string, k: int) {
    0 <= k && k + |sub| <= |s| && s[k..k + |sub|] == sub
  }

  /** `s.indexOf(sub, from)` for `from` within `s`: the first occurrence at or
      after `from`, or -1 when there is none. */
  function IndexOfFrom(s: string, sub: string, from: nat): (r: int)
    requires from <= |s|
    ensures r == -1 || (from <= r && OccursAt(s, sub, r))
    ensures forall k :: from <= k && (r == -1 || k < r) ==> !OccursAt(s, sub, k)
    decreases |s| - from
  {
    if from + |sub| > |s| then -1
    else if s[from..from + |sub|] == sub then from
    else IndexOfFrom(s, sub, from + 1)
  }

  /** `s.indexOf(sub)`. */
  function IndexOf(s: string, sub: string): int {
    IndexOfFrom(s, sub, 0)
  }

  /** `s.indexOf(sub) !== -1` exactly when `sub` occurs somewhere in `s`. */
  lemma IndexOfFindsOccurrence(s: string, sub: string)
    ensures IndexOf(s, sub) != -1 <==> exists k :: OccursAt(s, sub, k)
  {
    var r := IndexOf(s, sub);
    if r != -1 {
      assert OccursAt(s, sub, r);
    }
  }

  // ---------------------------------------------------------------------
  // The submit handler
  // ---------------------------------------------------------------------

  /** The placeholder left in the form's `action` until the endpoint is set. */
  const Placeholder: string := "YOUR_FORM_ID"

  /** What one submit does. `Throws` is the form without an `action`
      attribute: `getAttribute` yields null and `action.indexOf` raises. */
  datatype Outcome =
    | MissingFields
    | BadEmail
    | NotConfigured
    | Throws
    | Sending(endpoint: string)

  predicate IsError(o: Outcome) {
    o.MissingFields? || o.BadEmail? || o.NotConfigured?
  }

  /** The validation chain of the submit handler on the raw field values:
      empty fields first, then the email rule, then the configured endpoint;
      the first failing check decides. */
  function Submit(name: string, email: string, message: string, action: Option<string>): (r: Outcome)
    ensures r.MissingFields? <==> AllSpace(name) || AllSpace(email) || AllSpace(message)
    ensures r.BadEmail? <==>
      !AllSpace(name) && !AllSpace(email) && !AllSpace(message) && !IsValidEmail(Trim(email))
    ensures r.NotConfigured? <==>
      !AllSpace(name) && !AllSpace(email) && !AllSpace(message) && IsValidEmail(Trim(email)) &&
      action.Some? && exists k :: OccursAt(action.value, Placeholder, k)
    ensures r.Throws? <==>
      !AllSpace(name) && !AllSpace(email) && !AllSpace(message) && IsValidEmail(Trim(email)) &&
      action.None?
    ensures r.Sending? ==> action == Some(r.endpoint)
  {
    var n, e, m := Trim(name), Trim(email), Trim(message);
    if n == [] || e == [] || m == [] then MissingFields
    else if !IsValidEmail(e) then BadEmail
    else if action.None? then Throws
    else
      IndexOfFindsOccurrence(action.value, Placeholder);
      if IndexOf(action.value, Placeholder) != -1 then NotConfigured
      else Sending(action.value)
  }

  /** A submit that goes on to send has passed every check: each trimmed field
      has content, the trimmed email matches the pattern, and the endpoint
      has no placeholder in it. */
  lemma SendingPassedEveryCheck(name: string, email: string, message: string, action: Option<string>)
    requires Submit(name, email, message, action).Sending?
    ensures Trim(name) != [] && Trim(email) != [] && Trim(message) != []
    ensures MatchesPattern(Trim(email))
    ensures action.Some? && forall k :: !OccursAt(action.value, Placeholder, k)
  {
    EmailRuleIsPattern(Trim(email));
  }

  /** The user-visible message shown for each error outcome. */
  function StatusMessage(o: Outcome): (m: string)
    requires IsError(o)
    ensures |m| > 0 && m[|m| - 1] == '.'
  {
    match o
    case MissingFields => "Please fill in all required fields."
    case BadEmail => "Please enter a valid email address."
    case NotConfigured => "Contact form is not yet configured. Please email us directly."
  }

  /** The status line and the submit button, as the handler leaves them. */
  datatype FormView = FormView(statusText: string, statusClass: string, buttonDisabled: bool, buttonText: string)

  /** The effect of one outcome on the view (before any network reply). */
  function AfterSubmit(v: FormView, o: Outcome): (w: FormView)
    ensures w.buttonDisabled <==> v.buttonDisabled || o.Sending?
    ensures w.buttonText == (if o.Sending? then "Sending..." else v.buttonText)
    ensures IsError(o) ==>
      w.statusText == StatusMessage(o) && w.statusClass == "form__status form__status--error"
    ensures !IsError(o) ==> w.statusText == v.statusText && w.statusClass == v.statusClass
  {
    if IsError(o) then
      v.(statusText := StatusMessage(o), statusClass := "form__status form__status--error")
    else if o.Sending? then
      v.(buttonDisabled := true, buttonText := "Sending...")
    else v
  }

  /** A field that is blank after trimming reports missing fields, whatever
      the email and the endpoint are: the first check wins. */
  lemma BlankFieldWins(name: string, email: string, message: string, action: Option<string>, v: FormView)
    requires AllSpace(name) || AllSpace(email) || AllSpace(message)
    ensures AfterSubmit(v, Submit(name, email, message, action)) ==
      v.(statusText := "Please fill in all required fields.", statusClass := "form__status form__status--error")
  {
  }
}
