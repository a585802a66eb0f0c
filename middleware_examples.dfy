/** A client of the middleware class, proved from the class contracts alone. */
module MiddlewareExamples {
  import opened Wrappers
  import opened Models
  import opened Matcher
  import opened Middleware
  import MatcherExamples

  /**
   * A client scenario: the first request finds no table and starts a refresh;
   * after a successful refresh the next request is redirected; a failed
   * refresh then leaves no table at all.
   */
  method SuccessThenFailure() {
    var m := new RedirectMiddleware(None);
    var refresh, decision := m.Invoke(Some("/a"), 100);
    assert refresh && decision == FallThrough;

    var rules := [Rule(Some("/a"), Some("/b"), 301, false)];
    m.Refresh(Returned(Some(rules)), 200);
    refresh := m.IsStale(200 + CacheDuration(None));
    assert !refresh;
    refresh, decision := m.Invoke(Some("/a"), 300);
    MatcherExamples.ExactRuleRedirects();
    assert !refresh && decision == Redirect("/b", true);

    m.Refresh(Failed, 400);
    assert m.redirectData == None && m.lastFetchedTime == 400;
  }
}
