/** Concrete requests against small rule tables. */
module MatcherExamples {
  import opened Wrappers
  import opened Strings
  import opened Models
  import opened Matcher

  /** Exact mode compares case-insensitively: `/foo` matches a rule for `/FOO`. */
  lemma ExactCaseInsensitive()
    ensures Decide(Some("/foo"), Some([Rule(Some("/FOO"), Some("/bar"), 301, false)])) == Redirect("/bar", true)
  {
    var rule := Rule(Some("/FOO"), Some("/bar"), 301, false);
    assert Equals(OrdinalIgnoreCase, "/FOO", "/foo");
    SanitizeWithoutDoubleSlash("/foo");
    DecideCons("/foo", rule, []);
  }

  /** A doubled slash in the request is collapsed before matching. */
  lemma DoubledSlashMatchesExact()
    ensures Decide(Some("/a//b"), Some([Rule(Some("/a/b"), Some("/c"), 302, false)])) == Redirect("/c", false)
  {
    var rule := Rule(Some("/a/b"), Some("/c"), 302, false);
    SanitizeExample();
    assert Equals(OrdinalIgnoreCase, "/a/b", "/a/b");
    DecideCons("/a/b", rule, []);
  }

  /** `/old` does not occur in `/sub/page`. */
  lemma OldNotInSubPage()
    ensures forall i :: !OccursAt(OrdinalIgnoreCase, "/sub/page", "/old", i)
  {
    forall i ensures !OccursAt(OrdinalIgnoreCase, "/sub/page", "/old", i) {
      if 0 <= i && i + 4 <= 9 {
        assert !CharEquals(OrdinalIgnoreCase, "/sub/page"[i..i + 4][1], "/old"[1]);
      }
    }
  }

  /** `/old/sub/page` starts with `/old`. */
  lemma OldPrefixOfOldSubPage()
    ensures StartsWith(OrdinalIgnoreCase, "/old/sub/page", "/old")
    ensures "/old/sub/page"[4..] == "/sub/page"
  {
  }

  /** Prefix substitution keeps the rest of the path: `/old/sub/page` with `/old -> /new` goes to `/new/sub/page`. */
  lemma RelativeSubstitution()
    ensures Decide(Some("/old/sub/page"), Some([Rule(Some("/old"), Some("/new"), 301, true)])) == Redirect("/new/sub/page", true)
  {
    var rule := Rule(Some("/old"), Some("/new"), 301, true);
    var path := "/old/sub/page";
    SanitizeWithoutDoubleSlash(path);
    TargetOfOldSubPage();
    DecideCons(path, rule, []);
  }

  /** The target computed for `/old/sub/page` by the relative rule `/old -> /new`. */
  lemma TargetOfOldSubPage()
    ensures Matches("/old/sub/page", Rule(Some("/old"), Some("/new"), 301, true))
    ensures ResolveTarget("/old/sub/page", Rule(Some("/old"), Some("/new"), 301, true)) == Url("/new/sub/page")
  {
    OldPrefixOfOldSubPage();
    OldNotInSubPage();
    RelativeTargetKeepsRest("/old/sub/page", Rule(Some("/old"), Some("/new"), 301, true));
  }

  /** `/old/old` replaced with `/old -> /new` is `/new/new`. */
  lemma ReplaceOldOld()
    ensures Replace(OrdinalIgnoreCase, "/old/old", "/old", "/new") == "/new/new"
  {
  }

  /** `Replace` substitutes every occurrence, not only the matched prefix. */
  lemma RelativeReplacesEveryOccurrence()
    ensures Decide(Some("/old/old"), Some([Rule(Some("/old"), Some("/new"), 302, true)])) == Redirect("/new/new", false)
  {
    var rule := Rule(Some("/old"), Some("/new"), 302, true);
    var path := "/old/old";
    SanitizeWithoutDoubleSlash(path);
    assert path[..4] == "/old";
    assert Equals(OrdinalIgnoreCase, path[..4], "/old");
    ReplaceOldOld();
    DecideCons(path, rule, []);
  }

  /** `/old/sub` replaced with `/old -> ""` is `/sub`. */
  lemma ReplaceOldSubWithNothing()
    ensures StartsWith(OrdinalIgnoreCase, "/old/sub", "/old")
    ensures Replace(OrdinalIgnoreCase, "/old/sub", "/old", "") == "/sub"
  {
    var path := "/old/sub";
    assert path[..4] == "/old" && path[4..] == "/sub";
    assert Equals(OrdinalIgnoreCase, path[..4], "/old");
    assert !CharEquals(OrdinalIgnoreCase, "/sub"[..4][1], "/old"[1]);
    assert "/sub"[1..] == "sub";
    assert Replace(OrdinalIgnoreCase, "/sub", "/old", "") == "/sub";
  }

  /** A null target URL on a relative rule deletes the matched prefix. */
  lemma RelativeNullTargetDeletes()
    ensures Decide(Some("/old/sub"), Some([Rule(Some("/old"), None, 301, true)])) == Redirect("/sub", true)
  {
    var rule := Rule(Some("/old"), None, 301, true);
    var path := "/old/sub";
    SanitizeWithoutDoubleSlash(path);
    ReplaceOldSubWithNothing();
    DecideCons(path, rule, []);
  }

  /** `/a` against the single exact rule `/a -> /b` with status 301 is redirected permanently to `/b`. */
  lemma ExactRuleRedirects()
    ensures Decide(Some("/a"), Some([Rule(Some("/a"), Some("/b"), 301, false)])) == Redirect("/b", true)
  {
    SanitizeWithoutDoubleSlash("/a");
    assert Equals(OrdinalIgnoreCase, "/a", "/a");
    DecideCons("/a", Rule(Some("/a"), Some("/b"), 301, false), []);
  }

  /** The first matching rule has an empty target, so the second, usable rule is never tried. */
  lemma EmptyTargetEndsScan()
    ensures Decide(Some("/a"), Some([Rule(Some("/a"), Some(""), 301, false), Rule(Some("/a"), Some("/b"), 301, false)])) == FallThrough
    ensures Decide(Some("/a"), Some([Rule(Some("/a"), Some("/b"), 301, false)])) == Redirect("/b", true)
  {
    var first := Rule(Some("/a"), Some(""), 301, false);
    var second := Rule(Some("/a"), Some("/b"), 301, false);
    SanitizeWithoutDoubleSlash("/a");
    assert Equals(OrdinalIgnoreCase, "/a", "/a");
    UnusableFirstMatchStopsScan("/a", first, [second]);
    ExactRuleRedirects();
  }
}
