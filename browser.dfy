/**
 * `detectBrowser` and `calculatePrefixes`: a first-match-wins rule table over
 * the user-agent string, and the table of vendor-prefixed CSS property names
 * built from its outcome.
 */
module Browser {
  import opened Wrappers
  import opened Strings

  /** `pat` occurs in `s` starting at `i`. */
  predicate Occurs(s: string, pat: string, i: nat)
  {
    i + |pat| <= |s| && s[i..i + |pat|] == pat
  }

  /** `pat` occurs in `s` at `i` and nowhere before. */
  predicate FirstOccurrence(s: string, pat: string, i: nat)
  {
    Occurs(s, pat, i) && forall j: nat :: j < i ==> !Occurs(s, pat, j)
  }

  /** The leftmost occurrence of `pat` in `s` at or after `from`. */
  function Find(s: string, pat: string, from: nat): (r: Option<nat>)
    ensures r.Some? ==> from <= r.value && Occurs(s, pat, r.value)
    ensures forall i :: from <= i && (r.None? || i < r.value) ==> !Occurs(s, pat, i)
    decreases |s| - from
  {
    if from + |pat| > |s| then None
    else if s[from..from + |pat|] == pat then Some(from)
    else Find(s, pat, from + 1)
  }

  /** The rightmost occurrence of `pat` in `s` that starts in `[lo, hi)`. */
  function FindLast(s: string, pat: string, lo: nat, hi: nat): (r: Option<nat>)
    ensures r.Some? ==> lo <= r.value < hi && Occurs(s, pat, r.value)
    ensures forall i :: lo <= i < hi && (r.None? || r.value < i) ==> !Occurs(s, pat, i)
    decreases hi
  {
    if hi <= lo then None
    else if Occurs(s, pat, hi - 1) then Some(hi - 1)
    else FindLast(s, pat, lo, hi - 1)
  }

  /** The first line terminator at or after `from`, or the end of `s`. */
  function LineEnd(s: string, from: nat): (e: nat)
    requires from <= |s|
    ensures from <= e <= |s| && (e == |s| || IsLineTerminator(s[e]))
    ensures forall i :: from <= i < e ==> !IsLineTerminator(s[i])
    decreases |s| - from
  {
    if from == |s| || IsLineTerminator(s[from]) then from else LineEnd(s, from + 1)
  }

  /**
   * `/Trident.*rv\:/` can match with `Trident` at `t` and `rv:` at `r`: the
   * `.*` between them crosses no line terminator.
   */
  predicate TridentAt(s: string, t: nat, r: nat)
  {
    && Occurs(s, "Trident", t) && t + 7 <= r && Occurs(s, "rv:", r)
    && forall i :: t + 7 <= i < r ==> !IsLineTerminator(s[i])
  }

  /** No match of `/Trident.*rv\:/` has its `Trident` at `t`. */
  ghost predicate NoTridentAt(s: string, t: nat)
  {
    forall r: nat :: !TridentAt(s, t, r)
  }

  /**
   * The match of `/Trident.*rv\:/` from `from` on: the leftmost `Trident` that
   * can match, and for it the rightmost `rv:` (the `.*` is greedy).
   */
  function TridentMatch(s: string, from: nat): (m: Option<(nat, nat)>)
    ensures m.Some? ==> from <= m.value.0 && TridentAt(s, m.value.0, m.value.1)
    ensures m.Some? ==> forall r: nat :: TridentAt(s, m.value.0, r) ==> r <= m.value.1
    ensures forall t: nat :: from <= t && (m.None? || t < m.value.0) ==> NoTridentAt(s, t)
    decreases |s| - from
  {
    match Find(s, "Trident", from)
    case None => None
    case Some(t) =>
      var last := FindLast(s, "rv:", t + 7, LineEnd(s, t + 7));
      TridentStep(s, from, t);
      if last.Some? then Some((t, last.value)) else TridentMatch(s, t + 1)
  }

  /**
   * For the leftmost `Trident` at or after `from`: the last `rv:` before its
   * line ends completes the match that takes the most, and without one no
   * match starts there.
   */
  lemma TridentStep(s: string, from: nat, t: nat)
    requires Find(s, "Trident", from) == Some(t)
    ensures var last := FindLast(s, "rv:", t + 7, LineEnd(s, t + 7));
            && (last.Some? ==> TridentAt(s, t, last.value) && forall r: nat :: TridentAt(s, t, r) ==> r <= last.value)
            && (last.None? ==> NoTridentAt(s, t))
            && forall t': nat :: from <= t' < t ==> NoTridentAt(s, t')
  {
    var e := LineEnd(s, t + 7);
    RvBeforeLineEnd(s, t, e);
  }

  /** Every `rv:` that completes a match for the `Trident` at `t` starts before that line ends. */
  lemma RvBeforeLineEnd(s: string, t: nat, e: nat)
    requires Occurs(s, "Trident", t)
    requires t + 7 <= e <= |s| && (e == |s| || IsLineTerminator(s[e]))
    ensures forall r: nat :: TridentAt(s, t, r) ==> r < e
  {
    forall r: nat | TridentAt(s, t, r)
      ensures r < e
    {
      assert s[r..r + 3] == "rv:";
      assert s[r] == 'r';
    }
  }

  /** The rules of the table, in the order they are tried. */
  datatype Rule = EdgeRule | MsieRule | TridentRule | ChromeRule | FirefoxRule | SafariRule | WebKitRule

  const Rules: seq<Rule> := [EdgeRule, MsieRule, TridentRule, ChromeRule, FirefoxRule, SafariRule, WebKitRule]

  /** The literal text a rule other than the `Trident` one looks for. */
  function Token(rule: Rule): string
  {
    match rule
    case EdgeRule => "Edge/"
    case MsieRule => "MSIE "
    case TridentRule => "Trident"
    case ChromeRule => "Chrome/"
    case FirefoxRule => "Firefox/"
    case SafariRule => "Safari/"
    case WebKitRule => "AppleWebKit"
  }

  function BrowserName(rule: Rule): string
  {
    match rule
    case EdgeRule => "edge"
    case MsieRule => "ie"
    case TridentRule => "ie"
    case ChromeRule => "chrome"
    case FirefoxRule => "firefox"
    case SafariRule => "safari"
    case WebKitRule => "webkit"
  }

  function RulePrefix(rule: Rule): string
  {
    match rule
    case EdgeRule => "-ms-"
    case MsieRule => "-ms-"
    case TridentRule => "-ms-"
    case ChromeRule => "-webkit-"
    case FirefoxRule => ""
    case SafariRule => "-webkit-"
    case WebKitRule => "-webkit-"
  }

  /** Whether the rule's pattern matches anywhere in the user agent. */
  ghost predicate Matches(ua: string, rule: Rule)
  {
    if rule == TridentRule then exists t: nat, r: nat :: TridentAt(ua, t, r)
    else exists i: nat :: Occurs(ua, Token(rule), i)
  }

  /** `browserVersion`: the captured digits, or the number 0 set by the `AppleWebKit` rule. */
  datatype Version = Digits(text: string) | Zero

  datatype Detection = Detection(browser: string, vendorPrefix: string, version: Version)

  /** What the `Trident` rule's branch assigns, when its pattern matches. */
  function ApplyTrident(ua: string): Option<Detection>
  {
    match TridentMatch(ua, 0)
    case None => None
    case Some((t, r)) => Some(Detection("ie", "-ms-", Digits(DigitRun(ua[r + 3..]))))
  }

  /**
   * The `Trident` rule fires exactly when its pattern matches, and then takes
   * the digits after the last `rv:` on the line of the first `Trident` that
   * has one.
   */
  lemma ApplyTridentMatches(ua: string)
    ensures ApplyTrident(ua).Some? <==> Matches(ua, TridentRule)
    ensures ApplyTrident(ua).Some? ==>
              exists t: nat, r: nat :: LeftmostGreedyTrident(ua, t, r)
                && ApplyTrident(ua).value.version == Digits(DigitRun(ua[r + 3..]))
  {
    var m := TridentMatch(ua, 0);
    if m.Some? {
      var (t, r) := m.value;
      assert TridentAt(ua, t, r);
      assert LeftmostGreedyTrident(ua, t, r);
    } else {
      forall t: nat, r: nat
        ensures !TridentAt(ua, t, r)
      {
        assert NoTridentAt(ua, t);
      }
    }
  }

  /**
   * The match a regular expression engine reports for `/Trident.*rv\:/`: the
   * leftmost `Trident` that can match, and for it the last `rv:`.
   */
  ghost predicate LeftmostGreedyTrident(s: string, t: nat, r: nat)
  {
    && TridentAt(s, t, r)
    && (forall t': nat :: t' < t ==> NoTridentAt(s, t'))
    && (forall r': nat :: TridentAt(s, t, r') ==> r' <= r)
  }

  /** What the branch of a rule other than the `Trident` one assigns, when its token occurs. */
  function ApplyToken(ua: string, rule: Rule): (d: Option<Detection>)
    requires rule != TridentRule
    ensures d.Some? <==> Matches(ua, rule)
    ensures d.Some? ==> d.value.browser == BrowserName(rule) && d.value.vendorPrefix == RulePrefix(rule)
  {
    match Find(ua, Token(rule), 0)
    case None => None
    case Some(i) =>
      var version := if rule == WebKitRule then Zero else Digits(DigitRun(ua[i + |Token(rule)|..]));
      Some(Detection(BrowserName(rule), RulePrefix(rule), version))
  }

  /**
   * The version a token rule assigns: the digits right after the leftmost
   * occurrence of its token, or 0 for `AppleWebKit`.
   */
  lemma ApplyTokenVersion(ua: string, rule: Rule)
    requires rule != TridentRule && ApplyToken(ua, rule).Some?
    ensures rule == WebKitRule ==> ApplyToken(ua, rule).value.version == Zero
    ensures rule != WebKitRule ==>
              exists i: nat :: FirstOccurrence(ua, Token(rule), i)
                && ApplyToken(ua, rule).value.version == Digits(DigitRun(ua[i + |Token(rule)|..]))
  {
    var t := Token(rule);
    var i := Find(ua, t, 0).value;
    assert FirstOccurrence(ua, t, i);
    if rule != WebKitRule {
      assert ApplyToken(ua, rule).value.version == Digits(DigitRun(ua[i + |t|..]));
    }
  }

  /** What one rule's branch assigns, when its pattern matches. */
  function Apply(ua: string, rule: Rule): (d: Option<Detection>)
    ensures d.Some? <==> Matches(ua, rule)
    ensures d.Some? ==> d.value.browser == BrowserName(rule) && d.value.vendorPrefix == RulePrefix(rule)
  {
    if rule == TridentRule then
      ApplyTridentMatches(ua);
      ApplyTrident(ua)
    else ApplyToken(ua, rule)
  }

  /** The given rules, tried in order; the first that matches decides. */
  function DetectIn(ua: string, rules: seq<Rule>): (r: Option<Detection>)
    ensures r.None? <==> forall k :: 0 <= k < |rules| ==> !Matches(ua, rules[k])
  {
    if rules == [] then None
    else
      var d := Apply(ua, rules[0]);
      if d.Some? then d
      else
        assert forall k :: 1 <= k < |rules| ==> rules[k] == rules[1..][k - 1];
        DetectIn(ua, rules[1..])
  }

  /** The outcome of the rule table on a user-agent string: nothing exactly when no rule matches. */
  function Detect(ua: string): (r: Option<Detection>)
    ensures r.None? <==> forall k :: 0 <= k < |Rules| ==> !Matches(ua, Rules[k])
  {
    DetectIn(ua, Rules)
  }

  /** `rules[k]` is the first of the rules that matches, and it decides the outcome. */
  ghost predicate DecidedBy(ua: string, rules: seq<Rule>, k: nat)
  {
    && k < |rules| && Matches(ua, rules[k]) && DetectIn(ua, rules) == Apply(ua, rules[k])
    && forall k' :: 0 <= k' < k ==> !Matches(ua, rules[k'])
  }

  /** The first of the rules that matches decides. */
  lemma {:induction false} DetectInFirstMatch(ua: string, rules: seq<Rule>)
    ensures DetectIn(ua, rules).Some? ==> exists k: nat :: DecidedBy(ua, rules, k)
  {
    if rules != [] {
      if Matches(ua, rules[0]) {
        assert DecidedBy(ua, rules, 0);
      } else {
        DetectInFirstMatch(ua, rules[1..]);
        if DetectIn(ua, rules).Some? {
          var k: nat :| DecidedBy(ua, rules[1..], k);
          assert rules[k + 1] == rules[1..][k];
          assert forall k' :: 1 <= k' < k + 1 ==> rules[k'] == rules[1..][k' - 1];
          assert DecidedBy(ua, rules, k + 1);
        }
      }
    }
  }

  /** The first rule of the table that matches decides, and nothing is detected when none does. */
  lemma DetectFirstMatch(ua: string)
    ensures Detect(ua).None? <==> forall k :: 0 <= k < |Rules| ==> !Matches(ua, Rules[k])
    ensures Detect(ua).Some? ==> exists k: nat :: DecidedBy(ua, Rules, k)
  {
    DetectInFirstMatch(ua, Rules);
  }

  /** A matching rule wins over every rule after it: the outcome comes from it or an earlier one. */
  lemma EarlierRuleWins(ua: string, j: nat)
    requires j < |Rules| && Matches(ua, Rules[j])
    ensures Detect(ua).Some?
    ensures exists k :: 0 <= k <= j && Detect(ua) == Apply(ua, Rules[k])
  {
    DetectFirstMatch(ua);
    var k: nat :| DecidedBy(ua, Rules, k);
    assert k <= j;
  }

  /** An `Edge/` token decides, whatever `Chrome/`, `Safari/` or `AppleWebKit` tokens the string also holds. */
  lemma EdgeTokenDecides(ua: string, i: nat)
    requires Occurs(ua, "Edge/", i)
    ensures Detect(ua).Some? && Detect(ua).value.browser == "edge" && Detect(ua).value.vendorPrefix == "-ms-"
  {
    assert Occurs(ua, Token(Rules[0]), i);
    EarlierRuleWins(ua, 0);
  }

  /** The vendor prefix follows the engine: `-ms-` for the Microsoft browsers, none for Firefox, `-webkit-` otherwise. */
  lemma PrefixFollowsEngine(ua: string)
    requires Detect(ua).Some?
    ensures var d := Detect(ua).value;
            && (d.vendorPrefix == "-ms-" <==> d.browser == "edge" || d.browser == "ie")
            && (d.vendorPrefix == "" <==> d.browser == "firefox")
            && (d.vendorPrefix == "-webkit-" <==> d.browser in {"chrome", "safari", "webkit"})
  {
    DetectFirstMatch(ua);
    var d := Detect(ua);
    var k: nat :| DecidedBy(ua, Rules, k);
    assert d.value.browser == BrowserName(Rules[k]) && d.value.vendorPrefix == RulePrefix(Rules[k]);
  }

  /** `(this.vendorPrefix && (this.vendorPrefix + name)) || name`. */
  function Prefixed(vendorPrefix: Option<string>, name: string): (r: string)
    ensures vendorPrefix.Some? && vendorPrefix.value != "" ==> r == vendorPrefix.value + name
    ensures vendorPrefix.None? || vendorPrefix.value == "" ==> r == name
  {
    if vendorPrefix.Some? && vendorPrefix.value != "" then vendorPrefix.value + name else name
  }

  /** The helper object's detection fields and its prefix table. */
  class DomHelpers {
    var browser: Option<string>
    var vendorPrefix: Option<string>
    var browserVersion: Option<Version>
    var cssPrefix: map<string, string>

    /**
     * What loading the module does: the fields start out unset, then
     * `detectBrowser()` and `calculatePrefixes(['transform', 'transform-origin'])`
     * run. `navigator` is the user-agent string, or `None` outside a browser.
     */
    constructor(navigator: Option<string>)
      ensures navigator.None? ==> browser == Some("node") && vendorPrefix.None? && browserVersion.None?
      ensures navigator.Some? && Detect(navigator.value).None? ==>
                browser.None? && vendorPrefix.None? && browserVersion.None?
      ensures navigator.Some? && Detect(navigator.value).Some? ==>
                var d := Detect(navigator.value).value;
                browser == Some(d.browser) && vendorPrefix == Some(d.vendorPrefix) && browserVersion == Some(d.version)
      ensures forall n :: n in cssPrefix <==> n in ["transform", "transform-origin"]
      ensures forall n :: n in cssPrefix ==> cssPrefix[n] == Prefixed(vendorPrefix, n)
    {
      browser, vendorPrefix, browserVersion, cssPrefix := None, None, None, map[];
      new;
      DetectBrowser(navigator);
      CalculatePrefixes(["transform", "transform-origin"]);
    }

    /**
     * `detectBrowser`: outside a browser only `browser` is set, to "node";
     * otherwise the first matching rule sets all three fields, and when no
     * rule matches nothing changes.
     */
    method DetectBrowser(navigator: Option<string>)
      modifies this
      ensures navigator.None? ==>
                browser == Some("node") && vendorPrefix == old(vendorPrefix) && browserVersion == old(browserVersion)
      ensures navigator.Some? && Detect(navigator.value).None? ==>
                browser == old(browser) && vendorPrefix == old(vendorPrefix) && browserVersion == old(browserVersion)
      ensures navigator.Some? && Detect(navigator.value).Some? ==>
                var d := Detect(navigator.value).value;
                browser == Some(d.browser) && vendorPrefix == Some(d.vendorPrefix) && browserVersion == Some(d.version)
      ensures cssPrefix == old(cssPrefix)
    {
      if navigator.None? {
        browser := Some("node");
        return;
      }
      var d := Detect(navigator.value);
      if d.Some? {
        vendorPrefix := Some(d.value.vendorPrefix);
        browserVersion := Some(d.value.version);
        browser := Some(d.value.browser);
      }
    }

    /**
     * `calculatePrefixes`: every listed name gets its prefixed form in the
     * table; entries for other names stay as they were.
     */
    method CalculatePrefixes(prefixable: seq<string>)
      modifies this
      ensures forall n :: n in cssPrefix <==> n in old(cssPrefix) || n in prefixable
      ensures forall n :: n in prefixable ==> cssPrefix[n] == Prefixed(vendorPrefix, n)
      ensures forall n :: n in old(cssPrefix) && n !in prefixable ==> cssPrefix[n] == old(cssPrefix)[n]
      ensures browser == old(browser) && vendorPrefix == old(vendorPrefix) && browserVersion == old(browserVersion)
    {
      var i := 0;
      while i < |prefixable|
        invariant 0 <= i <= |prefixable|
        invariant forall n :: n in cssPrefix <==> n in old(cssPrefix) || n in prefixable[..i]
        invariant forall n :: n in prefixable[..i] ==> cssPrefix[n] == Prefixed(vendorPrefix, n)
        invariant forall n :: n in old(cssPrefix) && n !in prefixable[..i] ==> cssPrefix[n] == old(cssPrefix)[n]
        invariant browser == old(browser) && vendorPrefix == old(vendorPrefix) && browserVersion == old(browserVersion)
      {
        assert prefixable[..i + 1] == prefixable[..i] + [prefixable[i]];
        cssPrefix := cssPrefix[prefixable[i] := Prefixed(vendorPrefix, prefixable[i])];
        i := i + 1;
      }
      assert prefixable[..i] == prefixable;
    }
  }
}
