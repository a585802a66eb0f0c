/**
 * The per-request decision of the redirect middleware: sanitise the request
 * path, pick the first rule of the table that applies to it, compute the
 * target and either redirect or pass the request on to the next stage.
 */
module Matcher {
  import opened Wrappers
  import opened Strings
  import opened Models

  /** What the middleware does with a request. */
  datatype Decision =
    | Redirect(target: string, permanent: bool)  // respond with a redirect and stop
    | FallThrough                                // invoke the next stage unchanged

  /** The target computed for a matching rule. */
  datatype Target =
    | Url(url: string)  // a (possibly empty) target string
    | NullUrl           // the rule's target URL is null
    | Threw             // computing the target raised an exception

  /** `path.Replace("//", "/")`: collapse each non-overlapping doubled slash. */
  function Sanitize(path: string): string {
    Replace(Ordinal, path, "//", "/")
  }

  /** The predicate passed to `FirstOrDefault`: does `rule` apply to the sanitised `path`? */
  predicate Matches(path: string, rule: Rule) {
    match rule.redirectUrl
    case None => false
    case Some(url) =>
      if rule.useRelative then |url| <= |path| && Equals(OrdinalIgnoreCase, path[..|url|], url)
      else Equals(OrdinalIgnoreCase, url, path)
  }

  /** The position of the first rule of `rules` that matches `path`, if any. */
  function FirstMatch(path: string, rules: seq<Rule>): (r: Option<nat>)
    ensures r.Some? ==> r.value < |rules| && Matches(path, rules[r.value])
    ensures r.Some? ==> forall j :: 0 <= j < r.value ==> !Matches(path, rules[j])
    ensures r.None? ==> forall j :: 0 <= j < |rules| ==> !Matches(path, rules[j])
  {
    if rules == [] then None
    else if Matches(path, rules[0]) then Some(0)
    else
      match FirstMatch(path, rules[1..])
      case None => None
      case Some(i) => Some(i + 1)
  }

  /**
   * The target of a selected rule. A relative rule replaces every
   * case-insensitive occurrence of its redirect URL in the path by its target
   * URL (a null target deletes them; an empty redirect URL makes `Replace`
   * throw). An exact rule's target is its target URL as is.
   */
  function ResolveTarget(path: string, rule: Rule): Target
    requires rule.redirectUrl.Some?
  {
    var url := rule.redirectUrl.value;
    if rule.useRelative then
      if url == [] then Threw
      else Url(Replace(OrdinalIgnoreCase, path, url, rule.targetUrl.GetOr("")))
    else
      match rule.targetUrl
      case None => NullUrl
      case Some(t) => Url(t)
  }

  /** The outcome once `rule` has been selected: redirect to a non-empty target, else fall through. */
  function Apply(path: string, rule: Rule): Decision
    requires rule.redirectUrl.Some?
  {
    match ResolveTarget(path, rule)
    case Url(u) => if u == [] then FallThrough else Redirect(u, rule.redirectType == 301)
    case _ => FallThrough
  }

  /** The decision for an already sanitised, non-empty path against a table. */
  function DecideSanitized(path: string, rules: seq<Rule>): Decision {
    match FirstMatch(path, rules)
    case None => FallThrough
    case Some(i) => Apply(path, rules[i])
  }

  /**
   * The whole decision of `Invoke` for a raw request path (null when absent)
   * and the cached table (null when none has been published).
   */
  function Decide(pathValue: Option<string>, table: Option<seq<Rule>>): Decision {
    match pathValue
    case None => FallThrough
    case Some(raw) =>
      var path := Sanitize(raw);
      if path == [] then FallThrough
      else
        match table
        case None => FallThrough
        case Some(rules) => DecideSanitized(path, rules)
  }

  // ---------------------------------------------------------------------------
  // Sanitising

  /** Sanitising never lengthens a path. */
  lemma SanitizeNoLonger(path: string)
    ensures |Sanitize(path)| <= |path|
  {
    ReplaceNoLonger(Ordinal, path, "//", "/");
  }

  /** A path without a doubled slash is left unchanged. */
  lemma SanitizeWithoutDoubleSlash(path: string)
    requires forall i :: 0 <= i < |path| - 1 ==> !(path[i] == '/' && path[i + 1] == '/')
    ensures Sanitize(path) == path
  {
    forall i ensures !OccursAt(Ordinal, path, "//", i) {
      if 0 <= i && i + 2 <= |path| {
        EqualsOrdinal(path[i..i + 2], "//");
        assert path[i..i + 2] != "//" by {
          assert path[i..i + 2][0] == path[i] && path[i..i + 2][1] == path[i + 1];
        }
      }
    }
    ReplaceWithoutOccurrence(Ordinal, path, "//", "/");
  }

  /** The characters of `path` other than `/`, in order. */
  function Unslashed(path: string): string {
    if path == [] then [] else (if path[0] == '/' then [] else [path[0]]) + Unslashed(path[1..])
  }

  /** Sanitising only removes slashes: every other character survives, in order. */
  lemma {:induction false} SanitizeKeepsOtherCharacters(path: string)
    ensures Unslashed(Sanitize(path)) == Unslashed(path)
    decreases |path|
  {
    SanitizeStep(path);
    if |path| >= 2 && path[0] == '/' && path[1] == '/' {
      var rest := Sanitize(path[2..]);
      assert ("/" + rest)[1..] == rest;
      assert path[1..][1..] == path[2..];
      SanitizeKeepsOtherCharacters(path[2..]);
    } else if path != [] {
      var rest := Sanitize(path[1..]);
      assert ([path[0]] + rest)[1..] == rest;
      SanitizeKeepsOtherCharacters(path[1..]);
    }
  }

  /** Sanitising empties exactly the empty path. */
  lemma SanitizeEmptyIff(path: string)
    ensures Sanitize(path) == [] <==> path == []
  {
  }

  /** One step of the pass: a leading doubled slash becomes one slash, any other first character is kept. */
  lemma SanitizeStep(path: string)
    ensures Sanitize(path) ==
      if |path| >= 2 && path[0] == '/' && path[1] == '/' then "/" + Sanitize(path[2..])
      else if path == [] then []
      else [path[0]] + Sanitize(path[1..])
  {
  }

  /** `"/a//b"` becomes `"/a/b"`. */
  lemma SanitizeExample()
    ensures Sanitize("/a//b") == "/a/b"
  {
    SanitizeStep("/a//b");
    SanitizeStep("a//b");
    SanitizeStep("//b");
    SanitizeStep("b");
    SanitizeStep("");
  }

  /** One pass only: `"///"` becomes `"//"`, which a second pass would collapse again. */
  lemma SanitizeNotIdempotent()
    ensures Sanitize("///") == "//"
    ensures Sanitize(Sanitize("///")) == "/"
  {
  }

  // ---------------------------------------------------------------------------
  // Empty paths and rules that never match

  /** A null path, or one that sanitises to the empty string, is never redirected. */
  lemma EmptyPathFallsThrough(pathValue: Option<string>, table: Option<seq<Rule>>)
    requires pathValue.None? || pathValue.value == []
    ensures Decide(pathValue, table) == FallThrough
  {
  }

  /** Without a published table every request falls through. */
  lemma NoTableFallsThrough(pathValue: Option<string>)
    ensures Decide(pathValue, None) == FallThrough
  {
  }

  /** A rule with a null redirect URL never matches. */
  lemma NullRedirectUrlNeverMatches(path: string, rule: Rule)
    requires rule.redirectUrl.None?
    ensures !Matches(path, rule)
  {
  }

  /** A relative rule whose redirect URL is longer than the path never matches. */
  lemma LongRelativeUrlNeverMatches(path: string, rule: Rule)
    requires rule.useRelative && rule.redirectUrl.Some? && |rule.redirectUrl.value| > |path|
    ensures !Matches(path, rule)
  {
  }

  // ---------------------------------------------------------------------------
  // The match predicates in terms of folded strings

  /** Exact mode: the rule matches iff its folded redirect URL is the folded path. */
  lemma ExactMatchIff(path: string, rule: Rule)
    requires !rule.useRelative && rule.redirectUrl.Some?
    ensures Matches(path, rule) <==> FoldAll(rule.redirectUrl.value) == FoldAll(path)
  {
  }

  /** Relative mode: the rule matches iff its folded redirect URL is the folded prefix of the path of the same length. */
  lemma RelativeMatchIff(path: string, rule: Rule)
    requires rule.useRelative && rule.redirectUrl.Some?
    ensures Matches(path, rule) <==>
      var url := rule.redirectUrl.value;
      |url| <= |path| && FoldAll(path[..|url|]) == FoldAll(url)
  {
  }

  // ---------------------------------------------------------------------------
  // First match wins

  /** `i` is the position of the first rule of `rules` that matches `path`. */
  predicate IsFirstMatch(path: string, rules: seq<Rule>, i: int) {
    0 <= i < |rules| && Matches(path, rules[i]) && forall j :: 0 <= j < i ==> !Matches(path, rules[j])
  }

  /** There is at most one first match, and `FirstMatch` finds it. */
  lemma FirstMatchUnique(path: string, rules: seq<Rule>, i: int)
    requires IsFirstMatch(path, rules, i)
    ensures FirstMatch(path, rules) == Some(i)
  {
  }

  /** Scanning a table: the head decides when it matches, otherwise the rest of the table does. */
  lemma DecideCons(path: string, rule: Rule, rest: seq<Rule>)
    ensures DecideSanitized(path, [rule] + rest) ==
      if Matches(path, rule) then Apply(path, rule) else DecideSanitized(path, rest)
  {
  }

  /** Once some rule of `rules` matches, rules appended after it are never consulted. */
  lemma {:induction false} LaterRulesIgnored(path: string, rules: seq<Rule>, more: seq<Rule>)
    requires FirstMatch(path, rules).Some?
    ensures DecideSanitized(path, rules + more) == DecideSanitized(path, rules)
  {
    assert rules == [rules[0]] + rules[1..];
    assert rules + more == [rules[0]] + (rules[1..] + more);
    DecideCons(path, rules[0], rules[1..] + more);
    DecideCons(path, rules[0], rules[1..]);
    if !Matches(path, rules[0]) {
      LaterRulesIgnored(path, rules[1..], more);
    }
  }

  /** Rules that do not match a path can be dropped from the front of the table. */
  lemma {:induction false} NonMatchingRulesSkipped(path: string, rules: seq<Rule>, more: seq<Rule>)
    requires FirstMatch(path, rules).None?
    ensures DecideSanitized(path, rules + more) == DecideSanitized(path, more)
  {
    if rules == [] {
      assert rules + more == more;
    } else {
      assert rules + more == [rules[0]] + (rules[1..] + more);
      DecideCons(path, rules[0], rules[1..] + more);
      assert !Matches(path, rules[0]);
      NonMatchingRulesSkipped(path, rules[1..], more);
    }
  }

  /**
   * A first match whose target is empty, null or cannot be computed ends the
   * scan: the request falls through even if a later rule would redirect it.
   */
  lemma UnusableFirstMatchStopsScan(path: string, rule: Rule, rest: seq<Rule>)
    requires Matches(path, rule) && Apply(path, rule) == FallThrough
    ensures DecideSanitized(path, [rule] + rest) == FallThrough
  {
  }

  /**
   * Rule `i` is the first match for `path`, yields the non-empty target `u`,
   * and its status code is 301 exactly when `permanent` holds.
   */
  predicate RedirectsVia(path: string, rules: seq<Rule>, i: int, u: string, permanent: bool) {
    IsFirstMatch(path, rules, i) &&
    ResolveTarget(path, rules[i]) == Url(u) && u != [] &&
    permanent == (rules[i].redirectType == 301)
  }

  /**
   * The redirect decision stated declaratively: a request is redirected to `u`
   * exactly when its sanitised path is non-empty and some rule is its first
   * match, yields the non-empty target `u` and is permanent as `permanent` says.
   */
  lemma RedirectIff(raw: string, rules: seq<Rule>, u: string, permanent: bool)
    ensures Decide(Some(raw), Some(rules)) == Redirect(u, permanent) <==>
      Sanitize(raw) != [] && exists i :: RedirectsVia(Sanitize(raw), rules, i, u, permanent)
  {
    var path := Sanitize(raw);
    if Decide(Some(raw), Some(rules)) == Redirect(u, permanent) {
      var i := FirstMatch(path, rules).value;
      assert RedirectsVia(path, rules, i, u, permanent);
    }
    if path != [] && exists i :: RedirectsVia(path, rules, i, u, permanent) {
      var i :| RedirectsVia(path, rules, i, u, permanent);
      FirstMatchUnique(path, rules, i);
    }
  }

  /** A request falls through exactly when no rule yields a redirect for it. */
  lemma FallThroughIff(raw: string, rules: seq<Rule>)
    ensures Decide(Some(raw), Some(rules)) == FallThrough <==>
      Sanitize(raw) == [] ||
      forall i :: IsFirstMatch(Sanitize(raw), rules, i) ==> Apply(Sanitize(raw), rules[i]) == FallThrough
  {
  }

  // ---------------------------------------------------------------------------
  // Targets

  /**
   * A relative rule whose redirect URL does not occur again after the matched
   * prefix redirects to its target URL followed by the rest of the path.
   */
  lemma RelativeTargetKeepsRest(path: string, rule: Rule)
    requires rule.useRelative && rule.redirectUrl.Some? && rule.redirectUrl.value != []
    requires Matches(path, rule)
    requires var url := rule.redirectUrl.value;
      forall i :: !OccursAt(OrdinalIgnoreCase, path[|url|..], url, i)
    ensures var url := rule.redirectUrl.value;
      ResolveTarget(path, rule) == Url(rule.targetUrl.GetOr("") + path[|url|..])
  {
    var url := rule.redirectUrl.value;
    ReplaceWithoutOccurrence(OrdinalIgnoreCase, path[|url|..], url, rule.targetUrl.GetOr(""));
  }

  /** A relative rule with an empty redirect URL matches every path, and as first match it makes `Replace` throw. */
  lemma EmptyRelativeUrlFallsThrough(path: string, rule: Rule, rest: seq<Rule>)
    requires rule.useRelative && rule.redirectUrl == Some("")
    ensures Matches(path, rule)
    ensures DecideSanitized(path, [rule] + rest) == FallThrough
  {
  }

  /** An exact rule redirects to its target URL as is, when that is non-null and non-empty. */
  lemma ExactTargetAsIs(path: string, rule: Rule, rest: seq<Rule>)
    requires !rule.useRelative && Matches(path, rule)
    ensures DecideSanitized(path, [rule] + rest) ==
      match rule.targetUrl
      case Some(t) => if t == [] then FallThrough else Redirect(t, rule.redirectType == 301)
      case None => FallThrough
  {
  }
}
