/**
 * The rule cache of the redirect middleware: the cached table, the time it
 * was last fetched and the configured lifespan, the staleness test made on
 * every request, and the step that publishes the result of a refresh.
 *
 * Times are whole ticks of 100 ns; tick 0 is `DateTime.MinValue`.
 */
module Middleware {
  import opened Wrappers
  import opened Models
  import opened Matcher

  const TICKS_PER_MINUTE: int := 600_000_000

  /** The lifespan used when `RedirectCacheLifespan_Minutes` is not configured, in minutes. */
  const DEFAULT_LIFESPAN_MINUTES: int := 5

  /** `DateTime.MinValue`, the initial last-fetched time. */
  const MIN_TIME: int := 0

  /** The abstract value of the cache. */
  datatype CacheState = CacheState(table: Option<seq<Rule>>, lastFetched: int, duration: int)

  /** The cache lifespan in ticks for the configured number of minutes, if any. */
  function CacheDuration(configuredMinutes: Option<int>): int {
    configuredMinutes.GetOr(DEFAULT_LIFESPAN_MINUTES) * TICKS_PER_MINUTE
  }

  /** The cache before any refresh has been published. */
  function Initial(configuredMinutes: Option<int>): CacheState {
    CacheState(None, MIN_TIME, CacheDuration(configuredMinutes))
  }

  /** The cache needs a refresh: no table is held, or the last fetch is more than the lifespan ago. */
  predicate Stale(s: CacheState, now: int) {
    s.table.None? || now - s.lastFetched > s.duration
  }

  /** The publish step: the fetched table, null or not, replaces the cached one, and the fetch time is stamped. */
  function Publish(s: CacheState, fetched: Option<seq<Rule>>, now: int): CacheState {
    s.(table := fetched, lastFetched := now)
  }

  /** How a fetch from the rule source ended. */
  datatype FetchOutcome =
    | NoService                          // no rule service is configured
    | Failed                             // the service threw
    | Returned(data: Option<seq<Rule>>)  // the service returned a (possibly null) table

  /** The local that the refresh publishes: null unless the service returned a table. */
  function FetchedTable(outcome: FetchOutcome): Option<seq<Rule>> {
    match outcome
    case Returned(data) => data
    case _ => None
  }

  /**
   * The middleware's cache fields. Construction leaves the cache empty; the
   * refresh it starts is fire-and-forget and is applied later through `Refresh`.
   */
  class RedirectMiddleware {
    var redirectData: Option<seq<Rule>>
    var lastFetchedTime: int
    const cacheDuration: int

    function State(): CacheState
      reads this
    {
      CacheState(redirectData, lastFetchedTime, cacheDuration)
    }

    constructor (configuredMinutes: Option<int>)
      ensures State() == Initial(configuredMinutes)
    {
      redirectData := None;
      lastFetchedTime := MIN_TIME;
      cacheDuration := CacheDuration(configuredMinutes);
    }

    /** The staleness test made at the start of every request. */
    method IsStale(now: int) returns (stale: bool)
      ensures stale == Stale(State(), now)
    {
      stale := redirectData.None? || now - lastFetchedTime > cacheDuration;
    }

    /**
     * `UpdateFromSourceAsync` as one atomic step: compute the local from the
     * fetch outcome, then publish it and the fetch time together.
     */
    method Refresh(outcome: FetchOutcome, now: int)
      modifies this
      ensures State() == Publish(old(State()), FetchedTable(outcome), now)
    {
      var newRedirectData: Option<seq<Rule>> := None;
      match outcome {
        case NoService =>
        case Failed =>
        case Returned(data) =>
          newRedirectData := data;
      }
      redirectData := newRedirectData;
      lastFetchedTime := now;
    }

    /**
     * One request: whether it starts a refresh (which the request does not
     * wait for), and the decision taken on the table held when it arrives.
     */
    method Invoke(pathValue: Option<string>, now: int) returns (refresh: bool, decision: Decision)
      ensures refresh == Stale(State(), now)
      ensures decision == Decide(pathValue, redirectData)
    {
      refresh := IsStale(now);
      decision := Decide(pathValue, redirectData);
    }
  }

  // ---------------------------------------------------------------------------
  // Properties of the cache

  /** The default lifespan is five minutes. */
  lemma DefaultDurationIsFiveMinutes()
    ensures CacheDuration(None) == 5 * 60 * 10_000_000
  {
  }

  /** A new middleware is stale at every time, so its first request starts a refresh. */
  lemma InitialIsStale(configuredMinutes: Option<int>, now: int)
    ensures Stale(Initial(configuredMinutes), now)
  {
  }

  /** Publishing replaces the table wholesale and stamps the time; the lifespan is kept. */
  lemma PublishSetsBothFields(s: CacheState, fetched: Option<seq<Rule>>, now: int)
    ensures Publish(s, fetched, now).table == fetched
    ensures Publish(s, fetched, now).lastFetched == now
    ensures Publish(s, fetched, now).duration == s.duration
  {
  }

  /** The state after a publish does not depend on the table or time it replaces. */
  lemma PublishForgetsPrevious(s: CacheState, t: CacheState, fetched: Option<seq<Rule>>, now: int)
    requires s.duration == t.duration
    ensures Publish(s, fetched, now) == Publish(t, fetched, now)
  {
  }

  /** Only the latest of two publishes is visible. */
  lemma LastPublishWins(s: CacheState, first: Option<seq<Rule>>, t1: int, second: Option<seq<Rule>>, t2: int)
    ensures Publish(Publish(s, first, t1), second, t2) == Publish(s, second, t2)
  {
  }

  /** Right after a table is published the cache is fresh, for any non-negative lifespan. */
  lemma FreshAfterPublish(s: CacheState, rules: seq<Rule>, now: int)
    requires s.duration >= 0
    ensures !Stale(Publish(s, Some(rules), now), now)
  {
  }

  /** A published table stays fresh for exactly the lifespan: stale iff more than `duration` ticks have passed. */
  lemma StaleAfterLifespan(s: CacheState, rules: seq<Rule>, fetchedAt: int, now: int)
    ensures Stale(Publish(s, Some(rules), fetchedAt), now) <==> now > fetchedAt + s.duration
  {
  }

  /** A table fetched twice the (positive) lifespan ago is stale. */
  lemma StaleAtTwiceLifespan(s: CacheState, now: int)
    requires s.duration > 0 && s.lastFetched == now - 2 * s.duration
    ensures Stale(s, now)
  {
  }

  /** Staleness persists as time goes on. */
  lemma StaleIsMonotone(s: CacheState, now: int, later: int)
    requires Stale(s, now) && now <= later
    ensures Stale(s, later)
  {
  }

  /** A missing service or a failed fetch publishes a null table. */
  lemma FailedFetchPublishesNull(outcome: FetchOutcome)
    ensures FetchedTable(outcome).None? <==> (outcome.NoService? || outcome.Failed? || outcome == Returned(None))
  {
  }

  /**
   * A failed refresh discards the table held before it, even though it still
   * stamps the time: the cache is then stale at every time, and every request
   * falls through until a later refresh succeeds.
   */
  lemma FailedRefreshDropsTable(s: CacheState, outcome: FetchOutcome, now: int, later: int, pathValue: Option<string>)
    requires outcome.NoService? || outcome.Failed?
    ensures Publish(s, FetchedTable(outcome), now).lastFetched == now
    ensures Publish(s, FetchedTable(outcome), now).table == None
    ensures Stale(Publish(s, FetchedTable(outcome), now), later)
    ensures Decide(pathValue, Publish(s, FetchedTable(outcome), now).table) == FallThrough
  {
  }
}
