/**
  The decision rules of the authorizing-payment web view: matching a redirect
  against the merchant's expected return-URL patterns, the three-way navigation
  policy, and the guard that decides whether the authorization page is loaded.
 */
module AuthorizingPayment {
  import opened Wrappers

  /** The parts of a `URLComponents` value that the matcher reads. */
  datatype Components = Components(scheme: Option<string>, host: Option<string>, path: string)

  /** A URL as the navigation delegate sees it: `url.scheme`, and the result of
      `URLComponents(url:resolvingAgainstBaseURL:)`, which is None when parsing fails. */
  datatype Url = Url(scheme: Option<string>, components: Option<Components>)

  /** Swift's `String.hasPrefix`: the empty string is a prefix of every string. */
  predicate IsPrefix(p: string, s: string) {
    |p| <= |s| && s[..|p|] == p
  }

  /** One expected return pattern accepts parsed components: equal scheme, equal host,
      and the pattern's path is a prefix of the URL's path. */
  predicate PatternMatches(pattern: Components, c: Components) {
    && pattern.scheme == c.scheme
    && pattern.host == c.host
    && IsPrefix(pattern.path, c.path)
  }

  /** `expectedReturnURLPatterns.contains { ... }`, a left-to-right search. */
  function MatchesAny(patterns: seq<Components>, c: Components): (r: bool)
    ensures r <==> exists i :: 0 <= i < |patterns| && PatternMatches(patterns[i], c)
  {
    if |patterns| == 0 then false
    else if PatternMatches(patterns[0], c) then true
    else
      var rest := MatchesAny(patterns[1..], c);
      assert rest ==> exists i :: 0 <= i < |patterns| && PatternMatches(patterns[i], c) by {
        if rest {
          var j :| 0 <= j < |patterns[1..]| && PatternMatches(patterns[1..][j], c);
          assert PatternMatches(patterns[j + 1], c);
        }
      }
      assert (exists i :: 0 <= i < |patterns| && PatternMatches(patterns[i], c)) ==> rest by {
        if exists i :: 0 <= i < |patterns| && PatternMatches(patterns[i], c) {
          var i :| 0 <= i < |patterns| && PatternMatches(patterns[i], c);
          assert i != 0;
          assert patterns[1..][i - 1] == patterns[i];
        }
      }
      rest
  }

  /** `verifyPaymentURL`: a URL completes the flow when it parses and some pattern
      accepts its components. */
  function VerifyPaymentUrl(patterns: seq<Components>, url: Url): (r: bool)
    ensures r <==> url.components.Some? &&
                   exists i :: 0 <= i < |patterns| && PatternMatches(patterns[i], url.components.value)
  {
    match url.components
    case None => false
    case Some(c) => MatchesAny(patterns, c)
  }

  /** Lower-cases the ASCII letters of a character and leaves every other character alone. */
  function LowerChar(c: char): (r: char)
    ensures 'A' <= c <= 'Z' ==> 'a' <= r <= 'z' && r as int - c as int == 32
    ensures !('A' <= c <= 'Z') ==> r == c
  {
    if 'A' <= c <= 'Z' then (c as int + 32) as char else c
  }

  /** `String.lowercased()`, restricted to ASCII letters. */
  function Lowercased(s: string): (r: string)
    ensures |r| == |s|
    ensures forall i :: 0 <= i < |s| ==> r[i] == LowerChar(s[i])
  {
    seq(|s|, i requires 0 <= i < |s| => LowerChar(s[i]))
  }

  /** The custom-scheme test of the navigation delegate: a scheme is present and,
      lower-cased, is neither `https` nor `http`. */
  predicate IsCustomScheme(url: Url) {
    url.scheme.Some? &&
    var scheme := Lowercased(url.scheme.value);
    scheme != "https" && scheme != "http"
  }

  /** `WKNavigationActionPolicy`. */
  datatype Policy = Cancel | Allow

  /** Everything one call of `webView(_:decidePolicyFor:decisionHandler:)` does:
      the single policy handed to the decision handler, the URL reported to the
      delegate as the completed redirect, and the URL opened outside the app. */
  datatype NavigationOutcome = NavigationOutcome(policy: Policy, reported: Option<Url>, handedOff: Option<Url>)

  /** The navigation policy, in the source's precedence order: a matching URL completes
      the flow, a non-matching custom-scheme URL is handed to the system, anything else
      (including a navigation without a URL) is allowed. */
  function DecidePolicy(patterns: seq<Components>, navigation: Option<Url>, hasDelegate: bool): (r: NavigationOutcome)
    ensures r.policy == Cancel <==>
              navigation.Some? &&
              ((navigation.value.components.Some? &&
                exists i :: 0 <= i < |patterns| && PatternMatches(patterns[i], navigation.value.components.value))
               || IsCustomScheme(navigation.value))
    ensures r.reported.Some? <==> hasDelegate && navigation.Some? && VerifyPaymentUrl(patterns, navigation.value)
    ensures r.handedOff.Some? <==> navigation.Some? && !VerifyPaymentUrl(patterns, navigation.value) && IsCustomScheme(navigation.value)
    ensures r.reported.Some? ==> r.reported == navigation
    ensures r.handedOff.Some? ==> r.handedOff == navigation
    ensures r.reported.None? || r.handedOff.None?
    ensures r.policy == Allow ==> r.reported.None? && r.handedOff.None?
  {
    if navigation.Some? && VerifyPaymentUrl(patterns, navigation.value) then
      NavigationOutcome(Cancel, if hasDelegate then navigation else None, None)
    else if navigation.Some? && IsCustomScheme(navigation.value) then
      NavigationOutcome(Cancel, None, navigation)
    else
      NavigationOutcome(Allow, None, None)
  }

  /** The request `startAuthorizingPaymentProcess` hands to the web view. */
  datatype LoadRequest = LoadRequest(url: Url, ignoresCache: bool, timeoutSeconds: int)

  /** `startAuthorizingPaymentProcess`: refuses (loads nothing) unless there is an
      authorized URL and at least one expected return pattern. */
  function StartAuthorizingPaymentProcess(authorizedUrl: Option<Url>, patterns: seq<Components>): (r: Option<LoadRequest>)
    ensures r.Some? <==> authorizedUrl.Some? && |patterns| > 0
    ensures r.Some? ==> r.value.url == authorizedUrl.value
    ensures r.Some? ==> r.value.ignoresCache && r.value.timeoutSeconds == 60
  {
    if authorizedUrl.None? || |patterns| == 0 then None
    else Some(LoadRequest(authorizedUrl.value, true, 60))
  }

  /** With no expected patterns no URL ever matches, so no navigation completes the flow:
      the guard that refuses to start in this case loses nothing. */
  lemma EmptyPatternsNeverComplete(authorizedUrl: Option<Url>, navigation: Option<Url>, hasDelegate: bool)
    ensures navigation.Some? ==> !VerifyPaymentUrl([], navigation.value)
    ensures DecidePolicy([], navigation, hasDelegate).reported.None?
    ensures StartAuthorizingPaymentProcess(authorizedUrl, []).None?
  {
  }

  /** Adding patterns never turns a match into a non-match. */
  lemma MatchMonotoneInPatterns(patterns: seq<Components>, more: seq<Components>, url: Url)
    requires forall p :: p in patterns ==> p in more
    requires VerifyPaymentUrl(patterns, url)
    ensures VerifyPaymentUrl(more, url)
  {
    var i :| 0 <= i < |patterns| && PatternMatches(patterns[i], url.components.value);
    assert patterns[i] in more;
    var j :| 0 <= j < |more| && more[j] == patterns[i];
    assert PatternMatches(more[j], url.components.value);
  }

  /** A prefix of a string stays a prefix when characters are appended to the string. */
  lemma PrefixOfExtension(p: string, s: string, suffix: string)
    requires IsPrefix(p, s)
    ensures IsPrefix(p, s + suffix)
  {
  }

  /** Appending characters to the path of a matching URL keeps it matching. */
  lemma MatchSurvivesPathExtension(patterns: seq<Components>, url: Url, suffix: string)
    requires VerifyPaymentUrl(patterns, url)
    ensures VerifyPaymentUrl(patterns, url.(components := Some(url.components.value.(path := url.components.value.path + suffix))))
  {
    var c := url.components.value;
    var i :| 0 <= i < |patterns| && PatternMatches(patterns[i], c);
    PrefixOfExtension(patterns[i].path, c.path, suffix);
    assert PatternMatches(patterns[i], c.(path := c.path + suffix));
  }

  /** The example in the documentation of `expectedReturnURLPatterns`. */
  lemma DocumentedExample()
    ensures VerifyPaymentUrl(
              [Components(Some("https"), Some("www.example.com"), "/products/")],
              Url(Some("https"), Some(Components(Some("https"), Some("www.example.com"), "/products/12345"))))
  {
  }

  /** A matching URL is completed even when its scheme is a custom one: the completion
      branch takes precedence over the hand-off branch. */
  lemma CompletionTakesPrecedence(patterns: seq<Components>, url: Url, hasDelegate: bool)
    requires VerifyPaymentUrl(patterns, url)
    ensures DecidePolicy(patterns, Some(url), hasDelegate).policy == Cancel
    ensures DecidePolicy(patterns, Some(url), hasDelegate).handedOff.None?
    ensures hasDelegate ==> DecidePolicy(patterns, Some(url), hasDelegate).reported == Some(url)
  {
  }

  /** The web schemes are recognised whatever their letter case: a non-matching
      `HTTPS` or `Http` URL stays in the web view. */
  lemma MixedCaseWebSchemesStayInView(patterns: seq<Components>, url: Url, hasDelegate: bool)
    requires url.scheme == Some("HTTPS") || url.scheme == Some("Http")
    requires !VerifyPaymentUrl(patterns, url)
    ensures DecidePolicy(patterns, Some(url), hasDelegate) == NavigationOutcome(Allow, None, None)
  {
  }

  /** A navigation without a URL is allowed and nothing is reported or opened. */
  lemma MissingUrlIsAllowed(patterns: seq<Components>, hasDelegate: bool)
    ensures DecidePolicy(patterns, None, hasDelegate) == NavigationOutcome(Allow, None, None)
  {
  }
}
