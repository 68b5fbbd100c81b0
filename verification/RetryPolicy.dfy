/**
 The 401 handling around one original request (packages/client/src/api-client.ts).
 What the rest of the tab does while the request waits is left open: every token read
 and every refresh result comes from an arbitrary environment.
 */
module RetryPolicy {
  import opened Prelude

  const AUTH_PATHS: seq<string> := [
    "/auth/login", "/auth/refresh", "/auth/logout",
    "/auth/mobile/login", "/auth/mobile/refresh", "/auth/mobile/logout"
  ]

  predicate EndsWith(s: string, suffix: string) {
    |suffix| <= |s| && s[|s| - |suffix|..] == suffix
  }

  predicate IsAuthEndpoint(url: Option<string>) {
    url.Some? && exists path <- AUTH_PATHS :: EndsWith(url.value, path)
  }

  predicate IsRefresh(url: Option<string>) {
    url.Some? && EndsWith(url.value, "/refresh")
  }

  /** The requests that are never retried are those whose URL ends in one of six paths. */
  lemma AuthEndpointsExactly(url: Option<string>)
    ensures IsAuthEndpoint(url) <==>
              && url.Some?
              && exists base: string, path: string ::
                   && url.value == base + path
                   && path in {"/auth/login", "/auth/refresh", "/auth/logout",
                               "/auth/mobile/login", "/auth/mobile/refresh", "/auth/mobile/logout"}
    ensures IsRefresh(url) <==> url.Some? && exists base: string :: url.value == base + "/refresh"
  {
    if IsAuthEndpoint(url) {
      var path :| path in AUTH_PATHS && EndsWith(url.value, path);
      assert url.value == url.value[..|url.value| - |path|] + path;
    }
    if url.Some? {
      forall base: string, path: string | url.value == base + path ensures EndsWith(url.value, path) {
      }
      if IsRefresh(url) {
        assert url.value == url.value[..|url.value| - |"/refresh"|] + "/refresh";
      }
    }
    assert AUTH_PATHS[0] in AUTH_PATHS && AUTH_PATHS[1] in AUTH_PATHS && AUTH_PATHS[2] in AUTH_PATHS;
    assert AUTH_PATHS[3] in AUTH_PATHS && AUTH_PATHS[4] in AUTH_PATHS && AUTH_PATHS[5] in AUTH_PATHS;
  }

  /** The request config, with the flags the interceptor leaves on it. */
  datatype Config = Config(url: Option<string>, authorization: Option<string>, retry: bool, tokenSwapRetry: bool)

  /** How an awaited refreshAccessToken call ends. */
  datatype RefreshResult =
    | Renewed(token: string)
    | RefreshUnauthorized        // the refresh request itself was answered with 401
    | RefreshFailed              // any other failure of the refresh request
    | IdentityChanged
    | SignedOut
    | OtherError                 // no answer of the refresh request at all: a missing or unreadable credential

  /** What the interceptor does with a 401; `notify` tells whether the session is announced as expired. */
  datatype Verdict = GiveUp(notify: bool) | SendAgain | RefreshFirst

  function OnUnauthorized(c: Config, stored: Option<string>): (Config, Verdict) {
    if c.retry || IsAuthEndpoint(c.url) then
      (c, GiveUp(!IsAuthEndpoint(c.url) || IsRefresh(c.url)))
    else if !c.tokenSwapRetry && stored.Some? && c.authorization != stored then
      (c.(tokenSwapRetry := true), SendAgain)
    else
      (c.(retry := true), RefreshFirst)
  }

  /** The request of performRefresh: it goes through the same interceptor. */
  const REFRESH_CONFIG := Config(Some("/auth/refresh"), None, false, false)

  /** Announcements made by the end of a failed refresh, its own request included. */
  function RefreshNotices(r: RefreshResult, stored: Option<string>): nat {
    match r
    case RefreshUnauthorized => if OnUnauthorized(REFRESH_CONFIG, stored).1 == GiveUp(true) then 1 else 0
    case OtherError => 1
    case _ => 0
  }

  /** What the environment does around one send of the request. */
  datatype Round = Round(
    storedAtSend: Option<string>, unauthorized: bool, storedAtAnswer: Option<string>, refresh: RefreshResult)

  datatype Tally = Tally(sends: nat, refreshes: nat, notices: nat)

  function Attach(c: Config, stored: Option<string>): Config {
    if stored.Some? then c.(authorization := stored) else c
  }

  /** Everything that happens to a request; it ends early if the environment does. */
  function Drive(c: Config, rounds: seq<Round>): Tally
    decreases |rounds|
  {
    if rounds == [] then Tally(0, 0, 0)
    else
      var r := rounds[0];
      if !r.unauthorized then Tally(1, 0, 0)
      else
        var (c', verdict) := OnUnauthorized(Attach(c, r.storedAtSend), r.storedAtAnswer);
        match verdict
        case GiveUp(notify) => Tally(1, 0, if notify then 1 else 0)
        case SendAgain =>
          var rest := Drive(c', rounds[1..]);
          rest.(sends := rest.sends + 1)
        case RefreshFirst =>
          if r.refresh.Renewed? then
            var rest := Drive(c'.(authorization := Some(r.refresh.token)), rounds[1..]);
            rest.(sends := rest.sends + 1, refreshes := rest.refreshes + 1)
          else Tally(1, 1, RefreshNotices(r.refresh, r.storedAtAnswer))
  }

  /** How many more times the request can be sent again. */
  function Budget(c: Config): nat {
    if c.retry || IsAuthEndpoint(c.url) then 0 else if c.tokenSwapRetry then 1 else 2
  }

  /** Every verdict that sends again uses up budget: the retry path terminates. */
  lemma BudgetDecreases(c: Config, stored: Option<string>)
    ensures var (c', verdict) := OnUnauthorized(c, stored);
            !verdict.GiveUp? ==> Budget(c') < Budget(c) && c'.url == c.url
  {
  }

  lemma {:induction false} BoundedByBudget(c: Config, rounds: seq<Round>)
    ensures Drive(c, rounds).sends <= 1 + Budget(c)
    ensures Drive(c, rounds).refreshes <= if Budget(c) == 0 then 0 else 1
    ensures Drive(c, rounds).notices <= 1
    decreases |rounds|
  {
    if rounds != [] && rounds[0].unauthorized {
      var r := rounds[0];
      var (c', verdict) := OnUnauthorized(Attach(c, r.storedAtSend), r.storedAtAnswer);
      BudgetDecreases(Attach(c, r.storedAtSend), r.storedAtAnswer);
      BoundedByBudget(c', rounds[1..]);
      if r.refresh.Renewed? {
        BoundedByBudget(c'.(authorization := Some(r.refresh.token)), rounds[1..]);
      }
    }
  }

  /**
   For every sequence of answers, token swaps and refresh results, an original request is
   sent at most three times, asks for at most one refresh and announces expiry at most once.
   */
  lemma AtMostThreeSends(url: Option<string>, rounds: seq<Round>)
    ensures var t := Drive(Config(url, None, false, false), rounds);
            t.sends <= 3 && t.refreshes <= 1 && t.notices <= 1
  {
    BoundedByBudget(Config(url, None, false, false), rounds);
  }

  /**
   The third send happens exactly when the first 401 met a swapped token and the second
   one was followed by a successful refresh: the swap is always tried first.
   */
  lemma ThirdSendExactly(url: Option<string>, rounds: seq<Round>)
    requires |rounds| >= 3
    ensures Drive(Config(url, None, false, false), rounds).sends == 3 <==>
              && !IsAuthEndpoint(url)
              && rounds[0].unauthorized && rounds[1].unauthorized
              && rounds[0].storedAtAnswer.Some? && rounds[0].storedAtSend != rounds[0].storedAtAnswer
              && rounds[1].refresh.Renewed?
  {
    var c0 := Config(url, None, false, false);
    if !IsAuthEndpoint(url) && rounds[0].unauthorized {
      var r := rounds[0];
      var (c1, verdict) := OnUnauthorized(Attach(c0, r.storedAtSend), r.storedAtAnswer);
      if verdict.SendAgain? {
        assert rounds[1..][0] == rounds[1];
        var (c2, v2) := OnUnauthorized(Attach(c1, rounds[1].storedAtSend), rounds[1].storedAtAnswer);
        assert rounds[1].unauthorized ==> v2.RefreshFirst? && Budget(c2) == 0;
        assert rounds[1..][1..][0] == rounds[2];
        if rounds[1].unauthorized && rounds[1].refresh.Renewed? {
          var c3 := c2.(authorization := Some(rounds[1].refresh.token));
          BoundedByBudget(c3, rounds[1..][1..]);
          assert Drive(c3, rounds[1..][1..]).sends == 1;
        }
      } else if r.refresh.Renewed? {
        BoundedByBudget(c1.(authorization := Some(r.refresh.token)), rounds[1..]);
      }
    }
  }

  /** What is counted has happened: no more sends than rounds, and a refresh or a notice only after a send. */
  lemma {:induction false} CountedHasHappened(c: Config, rounds: seq<Round>)
    ensures var t := Drive(c, rounds);
            t.sends <= |rounds| && t.refreshes <= t.sends && t.notices <= t.sends
    ensures rounds != [] ==> Drive(c, rounds).sends >= 1
    decreases |rounds|
  {
    if rounds != [] && rounds[0].unauthorized {
      var r := rounds[0];
      var (c', verdict) := OnUnauthorized(Attach(c, r.storedAtSend), r.storedAtAnswer);
      CountedHasHappened(c', rounds[1..]);
      if r.refresh.Renewed? {
        CountedHasHappened(c'.(authorization := Some(r.refresh.token)), rounds[1..]);
      }
    }
  }

  /** A request to an authentication path is sent once, and only a refused refresh announces an expired session. */
  lemma AuthRequestExactly(url: Option<string>, rounds: seq<Round>)
    requires IsAuthEndpoint(url) && rounds != []
    ensures Drive(Config(url, None, false, false), rounds) ==
              Tally(1, 0, if rounds[0].unauthorized && IsRefresh(url) then 1 else 0)
  {
  }

  /** The refresh requests themselves never enter the retry path: sent once, no nested refresh. */
  lemma RefreshNeverReenters(rounds: seq<Round>)
    requires rounds != []
    ensures forall path <- ["/auth/refresh", "/auth/mobile/refresh"] ::
              var t := Drive(Config(Some(path), None, false, false), rounds);
              t.sends == 1 && t.refreshes == 0
  {
    forall path <- ["/auth/refresh", "/auth/mobile/refresh"] ensures IsAuthEndpoint(Some(path)) {
      assert path in AUTH_PATHS by {
        assert AUTH_PATHS[1] == "/auth/refresh" && AUTH_PATHS[4] == "/auth/mobile/refresh";
      }
      assert EndsWith(path, path);
    }
  }

  /** The first 401 found that the stored token had been replaced since the request went out. */
  predicate SwapsFirst(r: Round) {
    r.unauthorized && r.storedAtAnswer.Some? && r.storedAtSend != r.storedAtAnswer
  }

  /**
   A session is announced as expired exactly when a 401 is not cured by a swapped token
   and then either the refresh is itself answered with 401, or there is no credential to
   refresh with, or the request meets a 401 again with the renewed token. A network
   failure, an identity change or a sign-out in the middle never ends the session.
   */
  lemma ExpiryExactly(url: Option<string>, rounds: seq<Round>)
    requires |rounds| >= 3 && !IsAuthEndpoint(url)
    ensures var n := if SwapsFirst(rounds[0]) then 1 else 0;
            Drive(Config(url, None, false, false), rounds).notices == 1 <==>
              && rounds[0].unauthorized && rounds[n].unauthorized
              && (|| rounds[n].refresh.RefreshUnauthorized? || rounds[n].refresh.OtherError?
                  || (rounds[n].refresh.Renewed? && rounds[n + 1].unauthorized))
  {
    var c0 := Config(url, None, false, false);
    RefreshIsAuth();
    if SwapsFirst(rounds[0]) {
      var (c1, verdict) := OnUnauthorized(Attach(c0, rounds[0].storedAtSend), rounds[0].storedAtAnswer);
      assert verdict.SendAgain?;
      RefreshRound(c1, rounds[1..]);
    } else if rounds[0].unauthorized {
      RefreshRound(c0, rounds);
    }
  }

  lemma RefreshIsAuth()
    ensures IsAuthEndpoint(REFRESH_CONFIG.url) && IsRefresh(REFRESH_CONFIG.url)
  {
    assert AUTH_PATHS[1] in AUTH_PATHS && EndsWith("/auth/refresh", "/auth/refresh");
    assert "/auth/refresh"[|"/auth/refresh"| - |"/refresh"|..] == "/refresh";
  }

  /** The round of a request that goes to the refresh and, at most, one last send. */
  lemma RefreshRound(c: Config, rounds: seq<Round>)
    requires |rounds| >= 2 && !IsAuthEndpoint(c.url) && !c.retry
    requires c.tokenSwapRetry || (!SwapsFirst(rounds[0]) && c.authorization.None?)
    ensures Drive(c, rounds).notices == 1 <==>
              && rounds[0].unauthorized
              && (|| rounds[0].refresh.RefreshUnauthorized? || rounds[0].refresh.OtherError?
                  || (rounds[0].refresh.Renewed? && rounds[1].unauthorized))
  {
    RefreshIsAuth();
    var r := rounds[0];
    if r.unauthorized {
      var (c', verdict) := OnUnauthorized(Attach(c, r.storedAtSend), r.storedAtAnswer);
      assert verdict.RefreshFirst? && c'.retry;
      if r.refresh.Renewed? {
        var last := c'.(authorization := Some(r.refresh.token));
        assert rounds[1..][0] == rounds[1];
        assert OnUnauthorized(Attach(last, rounds[1].storedAtSend), rounds[1].storedAtAnswer).1 == GiveUp(true);
      }
    }
  }

  /** The interceptor's two branches over the flags it keeps on the request object. */
  class RetryableRequest {
    const url: Option<string>
    var authorization: Option<string>
    var retry: bool
    var tokenSwapRetry: bool

    function State(): Config
      reads this
    {
      Config(url, authorization, retry, tokenSwapRetry)
    }

    constructor (url: Option<string>)
      ensures State() == Config(url, None, false, false)
    {
      this.url, authorization, retry, tokenSwapRetry := url, None, false, false;
    }

    method HandleUnauthorized(currentToken: Option<string>) returns (verdict: Verdict)
      modifies this
      ensures (State(), verdict) == OnUnauthorized(old(State()), currentToken)
      ensures verdict.GiveUp? <==> old(retry) || IsAuthEndpoint(url)
      ensures verdict.GiveUp? ==> State() == old(State())
      ensures verdict.GiveUp? ==> (verdict.notify <==> !IsAuthEndpoint(url) || IsRefresh(url))
      ensures verdict.SendAgain? <==>
                && !old(retry) && !IsAuthEndpoint(url) && !old(tokenSwapRetry) && currentToken.Some?
                && currentToken != old(authorization)
      ensures verdict.SendAgain? ==> State() == old(State()).(tokenSwapRetry := true)
      ensures verdict.RefreshFirst? ==> State() == old(State()).(retry := true)
      ensures !verdict.GiveUp? ==> Budget(State()) < Budget(old(State()))
    {
      if retry || IsAuthEndpoint(url) {
        return GiveUp(!IsAuthEndpoint(url) || IsRefresh(url));
      }
      if !tokenSwapRetry && currentToken.Some? && authorization != currentToken {
        tokenSwapRetry := true;
        return SendAgain;
      }
      retry := true;
      return RefreshFirst;
    }
  }
}
