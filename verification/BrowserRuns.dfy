/**
 Every interleaving of the tabs of one browser: they share the refresh lock and the
 session channel of packages/client/src/session/refresh-coordinator.ts. `locks` and
 `channel` say which of the two browser facilities exist.
 */
module BrowserRuns {
  import opened Prelude
  import opened ClientSession

  datatype Browser = Browser(
    tabs: seq<Tab>,
    inboxes: seq<seq<Message>>,  // broadcasts on their way to each tab, oldest first
    holder: Option<nat>,         // the tab whose task holds the refresh lock
    locks: bool,
    channel: bool)

  /** Tab `tab` takes the step `action`. */
  datatype Event = Event(tab: nat, action: Action)

  predicate Possible(b: Browser, e: Event) {
    && e.tab < |b.tabs| == |b.inboxes|
    && Allowed(b.tabs[e.tab], e.action)
    && (e.action.Grant? && b.locks ==> b.holder.None?)
    && (e.action.Receive? ==> |b.inboxes[e.tab]| > 0 && b.inboxes[e.tab][0] == e.action.message)
  }

  /** When a step can happen: nothing but the lock, the queue and the task's own progress is waited for. */
  lemma PossibleExactly(b: Browser, e: Event)
    ensures Possible(b, e) <==>
              && e.tab < |b.tabs| && |b.tabs| == |b.inboxes|
              && var t, a := b.tabs[e.tab], e.action;
                 && (a.Grant? ==>
                       a.task in t.tasks && t.tasks[a.task].phase == Waiting && (b.locks ==> b.holder == None))
                 && (a.Answer? ==> a.task in t.tasks && t.tasks[a.task].phase == Requesting)
                 && (a.Finally? ==> t.promise.Some? && t.promise.value !in t.tasks)
                 && (a.Receive? ==> |b.inboxes[e.tab]| > 0 && a.message == b.inboxes[e.tab][0])
                 && (a.FinishLogout? ==> a.userId in t.logouts)
  {
  }

  function NextHolder(b: Browser, e: Event): Option<nat>
    requires Possible(b, e)
  {
    if !b.locks then None
    else if e.action.Grant? && Asks(b, e) then Some(e.tab)
    else if e.action.Answer? then None
    else b.holder
  }

  /** Grant events that send a refresh request to the server. */
  predicate Asks(b: Browser, e: Event)
    requires Possible(b, e)
  {
    e.action.Grant? && Decide(b.tabs[e.tab], b.tabs[e.tab].tasks[e.action.task]).Request?
  }

  function Inbox(b: Browser, e: Event, i: nat): seq<Message>
    requires Possible(b, e) && i < |b.tabs|
  {
    var own := b.inboxes[i];
    var kept := if i == e.tab && e.action.Receive? then own[1..] else own;
    var message := Published(b.tabs[e.tab], e.action);
    if b.channel && i != e.tab && message.Some? then kept + [message.value] else kept
  }

  function Next(b: Browser, e: Event): Browser
    requires Possible(b, e)
  {
    b.(tabs := b.tabs[e.tab := Do(b.tabs[e.tab], e.action)],
       inboxes := seq(|b.tabs|, i requires 0 <= i < |b.tabs| => Inbox(b, e, i)),
       holder := NextHolder(b, e))
  }

  /** `states[i]` takes the step `events[i]`. */
  predicate StepAt(states: seq<Browser>, events: seq<Event>, i: nat)
    requires |states| == |events| + 1 && i < |events|
  {
    Possible(states[i], events[i]) && states[i + 1] == Next(states[i], events[i])
  }

  ghost predicate Run(states: seq<Browser>, events: seq<Event>) {
    |states| == |events| + 1 && forall i | 0 <= i < |events| :: StepAt(states, events, i)
  }

  function WriteAt(b: Browser, e: Event): Option<Write>
    requires Possible(b, e)
  {
    WriteOf(b.tabs[e.tab], e.action)
  }

  /** A tab just opened or reloaded: a token may be in its session storage, everything else is new. */
  predicate JustLoaded(t: Tab) {
    t == FRESH_TAB.(token := t.token)
  }

  predicate Initial(b: Browser) {
    && |b.inboxes| == |b.tabs| && b.holder.None?
    && (forall t <- b.tabs :: JustLoaded(t)) && (forall q <- b.inboxes :: q == [])
  }

  ghost predicate Invariant(b: Browser) {
    && |b.inboxes| == |b.tabs|
    && (forall i | 0 <= i < |b.tabs| :: TabInvariant(b.tabs[i]))
    && (b.locks ==> forall i, k | 0 <= i < |b.tabs| && Requests(b.tabs[i], k) :: b.holder == Some(i))
  }

  /** Task `k` of the tab has a request in flight. */
  predicate Requests(t: Tab, k: nat) {
    k in t.tasks && t.tasks[k].phase.Requesting?
  }

  lemma InvariantStep(b: Browser, e: Event)
    requires Invariant(b) && Possible(b, e)
    ensures Invariant(Next(b, e))
  {
    var b' := Next(b, e);
    InvariantKept(b.tabs[e.tab], e.action);
    forall i | 0 <= i < |b'.tabs| ensures TabInvariant(b'.tabs[i]) {
      assert i != e.tab ==> b'.tabs[i] == b.tabs[i];
    }
    if b.locks {
      forall i, k | 0 <= i < |b'.tabs| && Requests(b'.tabs[i], k) ensures b'.holder == Some(i) {
        HolderStep(b, e, i, k);
      }
    }
  }

  lemma HolderStep(b: Browser, e: Event, i: nat, k: nat)
    requires Invariant(b) && Possible(b, e) && b.locks && i < |b.tabs|
    requires Requests(Next(b, e).tabs[i], k)
    ensures NextHolder(b, e) == Some(i)
  {
    assert TabInvariant(b.tabs[e.tab]);
    assert e.action.Answer? ==> Requests(b.tabs[e.tab], e.action.task);
    if i != e.tab {
      assert Requests(b.tabs[i], k);
    } else if Requests(b.tabs[i], k) {
    } else {
      assert e.action.Grant?;
    }
  }

  /** What a run does to one tab. */
  lemma TabStep(states: seq<Browser>, events: seq<Event>, i: nat, t: nat)
    requires Run(states, events) && i < |events| && t < |states[i].tabs|
    ensures Possible(states[i], events[i])
    ensures |states[i + 1].tabs| == |states[i].tabs| == |states[i + 1].inboxes|
    ensures events[i].tab == t ==> states[i + 1].tabs[t] == Do(states[i].tabs[t], events[i].action)
    ensures events[i].tab != t ==> states[i + 1].tabs[t] == states[i].tabs[t]
    ensures states[i + 1].inboxes[t] == Inbox(states[i], events[i], t)
  {
    assert StepAt(states, events, i);
  }

  lemma {:induction false} InvariantThroughout(states: seq<Browser>, events: seq<Event>, i: nat)
    requires Run(states, events) && Initial(states[0]) && i < |states|
    ensures Invariant(states[i]) && |states[i].tabs| == |states[0].tabs|
    ensures states[i].locks == states[0].locks && states[i].channel == states[0].channel
  {
    if i == 0 {
      assert forall t | 0 <= t < |states[0].tabs| :: states[0].tabs[t] in states[0].tabs;
    } else {
      InvariantThroughout(states, events, i - 1);
      assert StepAt(states, events, i - 1);
      InvariantStep(states[i - 1], events[i - 1]);
    }
  }

  /** In every reachable state, over all tabs together, at most one refresh request is in flight. */
  lemma OneRequestInFlight(states: seq<Browser>, events: seq<Event>, i: nat, p: nat, q: nat, k: nat, l: nat)
    requires Run(states, events) && Initial(states[0]) && states[0].locks && i < |states|
    requires p < |states[i].tabs| && q < |states[i].tabs|
    requires Requests(states[i].tabs[p], k) && Requests(states[i].tabs[q], l)
    ensures p == q && k == l
  {
    InvariantThroughout(states, events, i);
    assert TabInvariant(states[i].tabs[p]);
  }

  // ---------------------------------------------------------------------------
  // Logout dominates refresh
  // ---------------------------------------------------------------------------

  /** Tasks numbered below `bound` can no longer store anything: their epoch is over. */
  predicate Dead(t: Tab, bound: nat) {
    bound <= t.nextTask && forall k <- t.tasks :: k < bound ==> t.tasks[k].epochAtRequest < t.epoch
  }

  lemma DeadKept(t: Tab, a: Action, bound: nat)
    requires Allowed(t, a) && TabInvariant(t)
    requires Dead(t, bound) || (a.BeginLogout? && bound == t.nextTask)
    ensures Dead(Do(t, a), bound)
    ensures Dead(t, bound) && WriteOf(t, a).Some? && WriteOf(t, a).value.writer.ByRefresh?
            ==> WriteOf(t, a).value.writer.task >= bound
  {
  }

  lemma {:induction false} DeadFromLogoutOn(states: seq<Browser>, events: seq<Event>, i: nat, j: nat, t: nat)
    requires Run(states, events) && Initial(states[0])
    requires i < j < |states| && events[i] == Event(t, BeginLogout)
    ensures t < |states[i].tabs| == |states[j].tabs| && Dead(states[j].tabs[t], states[i].tabs[t].nextTask)
  {
    InvariantThroughout(states, events, i);
    InvariantThroughout(states, events, j - 1);
    assert StepAt(states, events, i);
    if j > i + 1 {
      DeadFromLogoutOn(states, events, i, j - 1, t);
    }
    TabStep(states, events, j - 1, t);
    assert TabInvariant(states[j - 1].tabs[t]);
    if events[j - 1].tab == t {
      DeadKept(states[j - 1].tabs[t], events[j - 1].action, states[i].tabs[t].nextTask);
    }
  }

  /**
   Whatever tabs, overlapping logouts and timed-out waits do in between, a refresh
   requested before a logout began stores nothing after that logout began.
   */
  lemma LogoutDominatesRefresh(states: seq<Browser>, events: seq<Event>, i: nat, j: nat, t: nat, k: nat)
    requires Run(states, events) && Initial(states[0])
    requires i < j < |events| && events[i] == Event(t, BeginLogout)
    requires t < |states[i].tabs| && k < states[i].tabs[t].nextTask
    requires events[j].tab == t
    ensures Possible(states[j], events[j])
    ensures WriteAt(states[j], events[j]).Some? ==> WriteAt(states[j], events[j]).value.writer != ByRefresh(k)
  {
    DeadFromLogoutOn(states, events, i, j, t);
    InvariantThroughout(states, events, j);
    assert TabInvariant(states[j].tabs[t]);
    TabStep(states, events, j, t);
    DeadKept(states[j].tabs[t], events[j].action, states[i].tabs[t].nextTask);
  }

  /** The steps of tab `t` that start a new session by themselves. */
  predicate Restarts(e: Event, t: nat) {
    e.tab == t && (e.action.Refresh? || e.action.SignIn? || (e.action.SetUser? && e.action.user.Some?))
  }

  /** Signed out, with nothing running that could still change it. */
  predicate SignedOut(t: Tab) {
    t.token.None? && t.expected.None? && Dead(t, t.nextTask)
  }

  lemma SignedOutKept(t: Tab, a: Action, at: nat)
    requires Allowed(t, a) && TabInvariant(t) && !Restarts(Event(at, a), at)
    requires SignedOut(t) || (Dead(t, t.nextTask) && a.FinishLogout?)
    ensures SignedOut(Do(t, a))
  {
  }

  lemma DeadToTheLastKept(t: Tab, a: Action)
    requires Allowed(t, a) && TabInvariant(t) && !a.Refresh?
    requires Dead(t, t.nextTask) || a.BeginLogout?
    ensures Dead(Do(t, a), Do(t, a).nextTask)
  {
  }

  lemma {:induction false} DeadUntilRestart(states: seq<Browser>, events: seq<Event>, i: nat, j: nat, t: nat)
    requires Run(states, events) && Initial(states[0])
    requires i < j < |states| && events[i] == Event(t, BeginLogout)
    requires forall m | i <= m < j :: !Restarts(events[m], t)
    ensures t < |states[j].tabs| && Dead(states[j].tabs[t], states[j].tabs[t].nextTask)
  {
    InvariantThroughout(states, events, i);
    InvariantThroughout(states, events, j - 1);
    assert StepAt(states, events, i);
    if j > i + 1 {
      DeadUntilRestart(states, events, i, j - 1, t);
    }
    TabStep(states, events, j - 1, t);
    assert TabInvariant(states[j - 1].tabs[t]) && !Restarts(events[j - 1], t);
    if events[j - 1].tab == t {
      DeadToTheLastKept(states[j - 1].tabs[t], events[j - 1].action);
    }
  }

  /**
   Signed out stays signed out: once a logout has finished, the tab holds no token and
   expects no user until it asks for a refresh, signs in or is given a user again. The
   refreshes still in flight from before, and all broadcasts, change nothing.
   */
  lemma {:induction false} SignedOutStays(
    states: seq<Browser>, events: seq<Event>, i: nat, f: nat, j: nat, t: nat, u: Option<UserId>)
    requires Run(states, events) && Initial(states[0])
    requires i < f < j < |states| && events[i] == Event(t, BeginLogout) && events[f] == Event(t, FinishLogout(u))
    requires forall m | i <= m < j :: !Restarts(events[m], t)
    ensures t < |states[j].tabs| && SignedOut(states[j].tabs[t])
  {
    DeadUntilRestart(states, events, i, j - 1, t);
    InvariantThroughout(states, events, j - 1);
    TabStep(states, events, j - 1, t);
    assert TabInvariant(states[j - 1].tabs[t]) && !Restarts(events[j - 1], t);
    if j > f + 1 {
      SignedOutStays(states, events, i, f, j - 1, t, u);
    }
    if events[j - 1].tab == t {
      SignedOutKept(states[j - 1].tabs[t], events[j - 1].action, t);
    }
  }

  /** `loggingOut` says exactly whether a logout of the tab is running. */
  predicate LogoutFlagExact(t: Tab) {
    t.loggingOut <==> t.logouts != multiset{}
  }

  /** A logout of tab `t` finishes while another one of its logouts is still running. */
  predicate EndsEarly(b: Browser, e: Event, t: nat) {
    e.tab == t && e.action.FinishLogout? && t < |b.tabs| && |b.tabs[t].logouts| > 1
  }

  lemma FlagAfter(t: Tab, a: Action)
    requires Allowed(t, a) && LogoutFlagExact(t)
    ensures LogoutFlagExact(Do(t, a)) <==> !(a.FinishLogout? && |t.logouts| > 1)
  {
    if a.FinishLogout? {
      var left := t.logouts - multiset{a.userId};
      assert |left| == |t.logouts| - 1;
      assert left == multiset{} <==> |left| == 0;
    }
  }

  /**
   The flag says, all the way to state `n`, whether a logout is running if and only if no
   logout of the tab finished before another one of its logouts.
   */
  lemma {:induction false} LogoutFlagExactly(states: seq<Browser>, events: seq<Event>, n: nat, t: nat)
    requires Run(states, events) && Initial(states[0]) && n < |states| && t < |states[0].tabs|
    ensures (forall j | 0 <= j <= n :: t < |states[j].tabs| && LogoutFlagExact(states[j].tabs[t])) <==>
            (forall m | 0 <= m < n :: !EndsEarly(states[m], events[m], t))
  {
    if n == 0 {
      assert JustLoaded(states[0].tabs[t]);
    } else {
      LogoutFlagExactly(states, events, n - 1, t);
      InvariantThroughout(states, events, n - 1);
      TabStep(states, events, n - 1, t);
      if events[n - 1].tab == t && LogoutFlagExact(states[n - 1].tabs[t]) {
        FlagAfter(states[n - 1].tabs[t], events[n - 1].action);
      }
    }
  }

  /**
   "Refreshes are blocked for its duration" holds under exactly that condition: then, while
   a logout of the tab is running, nothing but an explicit sign-in stores a token.
   */
  lemma RefreshBlockedDuringLogout(states: seq<Browser>, events: seq<Event>, j: nat, t: nat)
    requires Run(states, events) && Initial(states[0]) && j < |events| && t < |states[0].tabs|
    requires forall m | 0 <= m < j :: !EndsEarly(states[m], events[m], t)
    requires events[j].tab == t
    ensures t < |states[j].tabs| && Possible(states[j], events[j])
    ensures states[j].tabs[t].logouts != multiset{} && WriteAt(states[j], events[j]).Some? ==>
              WriteAt(states[j], events[j]).value.writer.BySignIn?
  {
    LogoutFlagExactly(states, events, j, t);
    TabStep(states, events, j, t);
  }

  // ---------------------------------------------------------------------------
  // The fate of one refresh
  // ---------------------------------------------------------------------------

  /** The epoch of a tab counts its logouts. */
  lemma {:induction false} EpochCounts(states: seq<Browser>, events: seq<Event>, r: nat, j: nat, t: nat)
    requires Run(states, events) && Initial(states[0]) && r <= j < |states| && t < |states[r].tabs|
    ensures t < |states[j].tabs| && states[r].tabs[t].epoch <= states[j].tabs[t].epoch
    ensures states[r].tabs[t].epoch == states[j].tabs[t].epoch <==>
              forall m | r <= m < j :: events[m] != Event(t, BeginLogout)
  {
    if j > r {
      EpochCounts(states, events, r, j - 1, t);
      TabStep(states, events, j - 1, t);
    }
  }

  /** Step `m` writes a token in tab `t`. */
  predicate WritesIn(states: seq<Browser>, events: seq<Event>, m: nat, t: nat)
    requires |states| == |events| + 1 && m < |events|
  {
    events[m].tab == t && Possible(states[m], events[m]) && WriteAt(states[m], events[m]).Some?
  }

  /** The generation of a tab counts its token writes. */
  lemma {:induction false} GenerationCounts(states: seq<Browser>, events: seq<Event>, r: nat, j: nat, t: nat)
    requires Run(states, events) && Initial(states[0]) && r <= j < |states| && t < |states[r].tabs|
    ensures t < |states[j].tabs| && states[r].tabs[t].generation <= states[j].tabs[t].generation
    ensures states[r].tabs[t].generation == states[j].tabs[t].generation <==>
              forall m | r <= m < j :: !WritesIn(states, events, m, t)
  {
    if j > r {
      GenerationCounts(states, events, r, j - 1, t);
      TabStep(states, events, j - 1, t);
      if events[j - 1].tab == t {
        WritesAreReported(states[j - 1].tabs[t], events[j - 1].action);
      }
      assert WritesIn(states, events, j - 1, t) <==> states[j].tabs[t].generation != states[j - 1].tabs[t].generation;
    }
  }

  lemma CapturedStep(t: Tab, a: Action, k: nat)
    requires Allowed(t, a) && k < t.nextTask
    ensures k < Do(t, a).nextTask
    ensures k in Do(t, a).tasks ==> k in t.tasks && Do(t, a).tasks[k] == t.tasks[k].(phase := Do(t, a).tasks[k].phase)
  {
  }

  lemma {:induction false} CapturedKept(states: seq<Browser>, events: seq<Event>, s: nat, j: nat, t: nat, k: nat)
    requires Run(states, events) && Initial(states[0]) && s <= j < |states|
    requires t < |states[s].tabs| && k < states[s].tabs[t].nextTask
    ensures t < |states[j].tabs| && k < states[j].tabs[t].nextTask
    ensures k in states[j].tabs[t].tasks ==>
              && k in states[s].tabs[t].tasks
              && states[j].tabs[t].tasks[k] == states[s].tabs[t].tasks[k].(phase := states[j].tabs[t].tasks[k].phase)
  {
    if j > s {
      CapturedKept(states, events, s, j - 1, t, k);
      TabStep(states, events, j - 1, t);
      if events[j - 1].tab == t {
        CapturedStep(states[j - 1].tabs[t], events[j - 1].action, k);
      }
    }
  }

  /** Task `k` of tab `t` is created by step `r`. */
  predicate Requested(states: seq<Browser>, events: seq<Event>, r: nat, t: nat, k: nat) {
    && r < |events| < |states| && events[r] == Event(t, Refresh) && t < |states[r].tabs|
    && states[r].tabs[t].promise.None? && states[r].tabs[t].nextTask == k
  }

  lemma CapturedAt(states: seq<Browser>, events: seq<Event>, r: nat, j: nat, t: nat, k: nat)
    requires Run(states, events) && Initial(states[0]) && Requested(states, events, r, t, k) && r < j < |states|
    ensures t < |states[j].tabs|
    ensures k in states[j].tabs[t].tasks ==>
              && states[j].tabs[t].tasks[k].epochAtRequest == states[r].tabs[t].epoch
              && states[j].tabs[t].tasks[k].generationAtRequest == states[r].tabs[t].generation
  {
    TabStep(states, events, r, t);
    CapturedKept(states, events, r + 1, j, t, k);
  }

  /**
   When exactly the answer to a refresh is stored, also for a refresh requested while a
   logout was running: the tab has not begun a logout since the request, is not logging out,
   and the answer names no other user. A logout that merely finishes in between decides nothing.
   */
  lemma RefreshStoresExactly(states: seq<Browser>, events: seq<Event>, r: nat, j: nat, t: nat, k: nat, reply: Reply)
    requires Run(states, events) && Initial(states[0]) && Requested(states, events, r, t, k)
    requires r < j < |events| && events[j] == Event(t, Answer(k, reply))
    ensures Possible(states[j], events[j]) && t < |states[j].tabs|
    ensures WriteAt(states[j], events[j]).Some? <==>
              && reply.Success? && !WrongUser(states[j].tabs[t], reply.session)
              && !states[j].tabs[t].loggingOut
              && forall m | r <= m < j :: events[m] != Event(t, BeginLogout)
    ensures t < |states[j + 1].tabs|
    ensures var was, now := states[j].tabs[t], states[j + 1].tabs[t];
            if && reply.Success? && !was.loggingOut
               && (reply.session.None? || was.expected.None? || reply.session == was.expected)
               && forall m | r <= m < j :: events[m] != Event(t, BeginLogout)
            then now.token == Some(reply.token) && now.generation == was.generation + 1
            else now.token in {was.token, None} && now.generation == was.generation
  {
    CapturedAt(states, events, r, j, t, k);
    EpochCounts(states, events, r, j, t);
    TabStep(states, events, j, t);
  }

  lemma NoTokenWithoutWrite(t: Tab, a: Action)
    requires Allowed(t, a) && t.token.None? && WriteOf(t, a).None?
    ensures Do(t, a).token.None?
  {
    WritesAreReported(t, a);
  }

  lemma {:induction false} NoTokenUntilWrite(states: seq<Browser>, events: seq<Event>, m: nat, j: nat, t: nat)
    requires Run(states, events) && Initial(states[0]) && m <= j < |states|
    requires t < |states[m].tabs| && states[m].tabs[t].token.None?
    requires forall n | m <= n < j :: !WritesIn(states, events, n, t)
    ensures t < |states[j].tabs| && states[j].tabs[t].token.None?
  {
    if j > m {
      NoTokenUntilWrite(states, events, m, j - 1, t);
      TabStep(states, events, j - 1, t);
      if events[j - 1].tab == t {
        assert !WritesIn(states, events, j - 1, t);
        NoTokenWithoutWrite(states[j - 1].tabs[t], events[j - 1].action);
      }
    }
  }

  /**
   An answer for another user signs the tab out: if the tab expects `u`, a live answer that
   names `v` leaves it without a token until the next token is written there, and tells no
   other tab anything.
   */
  lemma ForeignAnswerClearsToken(
    states: seq<Browser>, events: seq<Event>, r: nat, m: nat, j: nat, t: nat, k: nat,
    token: Token, u: UserId, v: UserId)
    requires Run(states, events) && Initial(states[0]) && Requested(states, events, r, t, k)
    requires r < m < j < |states| && events[m] == Event(t, Answer(k, Success(token, Some(v))))
    requires t < |states[m].tabs| && states[m].tabs[t].expected == Some(u) && u != v && !states[m].tabs[t].loggingOut
    requires forall n | r <= n < m :: events[n] != Event(t, BeginLogout)
    requires forall n | m < n < j :: !WritesIn(states, events, n, t)
    ensures t < |states[j].tabs| && states[j].tabs[t].token.None?
    ensures states[m + 1].inboxes == states[m].inboxes
  {
    CapturedAt(states, events, r, m, t, k);
    EpochCounts(states, events, r, m, t);
    TabStep(states, events, m, t);
    InvariantThroughout(states, events, m);
    var b, e := states[m], events[m];
    assert StepAt(states, events, m);
    assert forall i | 0 <= i < |b.tabs| :: Inbox(b, e, i) == b.inboxes[i];
    NoTokenUntilWrite(states, events, m + 1, j, t);
  }

  /** What a step announces reaches every other tab's queue, once and last; a tab takes its queue from the front. */
  lemma DeliveredToAllOthers(states: seq<Browser>, events: seq<Event>, j: nat, i: nat)
    requires Run(states, events) && Initial(states[0]) && j < |events| && i < |states[0].tabs|
    ensures i < |states[j].inboxes| && i < |states[j + 1].inboxes|
    ensures events[j].tab < |states[j].tabs| && events[j].tab < |states[j + 1].tabs|
    ensures var a, was, now := events[j].action, states[j].tabs[events[j].tab], states[j + 1].tabs[events[j].tab];
            var q, q' := states[j].inboxes[i], states[j + 1].inboxes[i];
            && (i == events[j].tab && !a.Receive? ==> q' == q)
            && (i == events[j].tab && a.Receive? ==> q == [a.message] + q')
            && (i != events[j].tab && states[0].channel && a.SignIn? && a.session.Some? ==>
                  q' == q + [Session(a.signedIn, a.session.value)])
            && (i != events[j].tab && states[0].channel && a.FinishLogout? ==> q' == q + [Logout(a.userId)])
            && (i != events[j].tab && states[0].channel && a.Answer? && a.reply.Success? && a.reply.session.Some?
                && was.generation < now.generation ==>
                  q' == q + [Session(a.reply.token, a.reply.session.value)])
            && (i != events[j].tab && !(a.SignIn? || a.FinishLogout? || a.Answer?) ==> q' == q)
  {
    InvariantThroughout(states, events, j);
    assert StepAt(states, events, j);
    TabStep(states, events, j, i);
    TabStep(states, events, j, events[j].tab);
  }

  /** A request of the tab is in flight. */
  predicate Asking(t: Tab) {
    exists k <- t.tasks :: t.tasks[k].phase.Requesting?
  }

  ghost predicate HolderAsks(b: Browser) {
    b.holder.Some? ==> b.holder.value < |b.tabs| && Asking(b.tabs[b.holder.value])
  }

  lemma HolderAsksStep(b: Browser, e: Event)
    requires Possible(b, e) && b.locks && Invariant(b) && HolderAsks(b)
    ensures HolderAsks(Next(b, e))
  {
    if e.action.Grant? && Asks(b, e) {
      assert e.action.task in Next(b, e).tabs[e.tab].tasks;
    } else if Next(b, e).holder.Some? {
      var p := b.holder.value;
      assert TabInvariant(b.tabs[p]) && TabInvariant(b.tabs[e.tab]);
      var k :| k in b.tabs[p].tasks && b.tabs[p].tasks[k].phase.Requesting?;
      assert k in Next(b, e).tabs[p].tasks;
    }
  }

  /** The refresh lock is held by the tab whose request is in flight, and by nobody else. */
  lemma {:induction false} LockHeldExactly(states: seq<Browser>, events: seq<Event>, i: nat, p: nat)
    requires Run(states, events) && Initial(states[0]) && states[0].locks && i < |states|
    ensures HolderAsks(states[i])
    ensures states[i].holder == Some(p) <==> p < |states[i].tabs| && Asking(states[i].tabs[p])
  {
    InvariantThroughout(states, events, i);
    if i > 0 {
      LockHeldExactly(states, events, i - 1, p);
      InvariantThroughout(states, events, i - 1);
      assert StepAt(states, events, i - 1);
      HolderAsksStep(states[i - 1], events[i - 1]);
    } else {
      assert p < |states[0].tabs| ==> states[0].tabs[p] in states[0].tabs;
    }
    if p < |states[i].tabs| && Asking(states[i].tabs[p]) {
      var k :| k in states[i].tabs[p].tasks && states[i].tabs[p].tasks[k].phase.Requesting?;
      assert Requests(states[i].tabs[p], k);
    }
  }

  /**
   When exactly a task that gets the lock sends a request of its own: no logout forbids it,
   and its tab has seen no token write since the request, or has no token any more.
   */
  lemma QueuedTaskAsksExactly(states: seq<Browser>, events: seq<Event>, r: nat, j: nat, t: nat, k: nat)
    requires Run(states, events) && Initial(states[0]) && Requested(states, events, r, t, k)
    requires r < j < |events| && events[j] == Event(t, Grant(k))
    ensures Possible(states[j], events[j]) && t < |states[j].tabs|
    ensures Asks(states[j], events[j]) <==>
              && !states[j].tabs[t].loggingOut
              && (forall m | r <= m < j :: events[m] != Event(t, BeginLogout))
              && (states[j].tabs[t].token.None? || forall m | r <= m < j :: !WritesIn(states, events, m, t))
    ensures t < |states[j + 1].tabs|
    ensures Asks(states[j], events[j]) <==>
              k in states[j + 1].tabs[t].tasks && states[j + 1].tabs[t].tasks[k].phase.Requesting?
    ensures states[j + 1].tabs[t] == states[j].tabs[t].(tasks := states[j + 1].tabs[t].tasks)
  {
    CapturedAt(states, events, r, j, t, k);
    EpochCounts(states, events, r, j, t);
    GenerationCounts(states, events, r, j, t);
    TabStep(states, events, j, t);
  }

  // ---------------------------------------------------------------------------
  // One rotation for many waiting tabs
  // ---------------------------------------------------------------------------

  /** Task `k` of the tab is queued for the refresh lock. */
  predicate Waits(t: Tab, k: nat) {
    k in t.tasks && t.tasks[k].phase.Waiting?
  }

  /** A session message for user `u` is among the broadcasts. */
  predicate Announced(inbox: seq<Message>, u: UserId) {
    exists m <- inbox :: m.Session? && m.user == u
  }

  /** The session on its way, or already adopted, spares task `k` its own request. */
  predicate Covered(t: Tab, inbox: seq<Message>, k: nat, u: UserId) {
    Waits(t, k) ==>
      || t.tasks[k].epochAtRequest != t.epoch
      || (&& t.logouts == multiset{} && !t.loggingOut
          && ((t.generation != t.tasks[k].generationAtRequest && t.token.Some?)
              || (t.expected == Some(u) && Announced(inbox, u))))
  }

  /** Nobody ends or re-targets tab `t`'s session by other means than a logout. */
  predicate Disturbs(e: Event, t: nat) {
    e.tab == t && (e.action.Expire? || e.action.SetUser?)
  }

  lemma CoveredStep(b: Browser, e: Event, i: nat, k: nat, u: UserId)
    requires Possible(b, e) && i < |b.tabs| && TabInvariant(b.tabs[i]) && k < b.tabs[i].nextTask
    requires Covered(b.tabs[i], b.inboxes[i], k, u) && !Disturbs(e, i)
    ensures Covered(Next(b, e).tabs[i], Next(b, e).inboxes[i], k, u)
  {
    var t, t', q, q' := b.tabs[i], Next(b, e).tabs[i], b.inboxes[i], Next(b, e).inboxes[i];
    if Waits(t', k) {
      assert Waits(t, k);
      if e.tab != i {
        assert q <= q';
        assert forall m <- q :: m in q';
      } else if e.action.Receive? {
        if Announced(q, u) {
          var m :| m in q && m.Session? && m.user == u;
          assert m == q[0] || m in q';
        }
      } else {
        assert q == q';
      }
    }
  }

  /** A broadcast reaches a tab before the tab's task gets the lock. */
  predicate DeliveredFirst(b: Browser, e: Event)
    requires Possible(b, e)
  {
    e.action.Grant? ==> b.inboxes[e.tab] == []
  }

  /** Tab `i` stands in the queue with its current token when the answer for user `u` arrives. */
  predicate Queued(b: Browser, i: nat, k: nat, u: UserId) {
    && i < |b.tabs| && Waits(b.tabs[i], k)
    && b.tabs[i].expected == Some(u) && !b.tabs[i].loggingOut && b.tabs[i].logouts == multiset{}
  }

  lemma {:induction false} CoveredThroughout(
    states: seq<Browser>, events: seq<Event>, s: nat, j: nat, i: nat, k: nat, u: UserId)
    requires Run(states, events) && Initial(states[0]) && states[0].channel && s < j < |states|
    requires |states[s].inboxes| == |states[s].tabs| && Queued(states[s], i, k, u)
    requires Possible(states[s], events[s]) && events[s].tab != i
    requires WriteAt(states[s], events[s]).Some? && WriteAt(states[s], events[s]).value.session == Some(u)
    requires !events[s].action.Receive?
    requires forall m | s <= m < j :: !Disturbs(events[m], i)
    ensures i < |states[j].tabs| == |states[j].inboxes| && k < states[j].tabs[i].nextTask
    ensures Covered(states[j].tabs[i], states[j].inboxes[i], k, u)
  {
    InvariantThroughout(states, events, s);
    InvariantThroughout(states, events, j - 1);
    assert TabInvariant(states[s].tabs[i]) && TabInvariant(states[j - 1].tabs[i]);
    TabStep(states, events, j - 1, i);
    if j == s + 1 {
      var message := Published(states[s].tabs[events[s].tab], events[s].action);
      assert message.Some? && message.value.Session? && message.value.user == u;
      assert message.value in states[j].inboxes[i];
    } else {
      CoveredThroughout(states, events, s, j - 1, i, k, u);
      assert !Disturbs(events[j - 1], i);
      CoveredStep(states[j - 1], events[j - 1], i, k, u);
    }
  }

  /**
   Once a refresh (or a sign-in) for user `u` has succeeded, no task that was queued for
   the lock then sends a request of its own, for any number of tabs: each adopts a stored
   token, or gives up because its own tab logged out. This needs every broadcast to arrive
   before the next lock holder runs.
   */
  lemma SingleRotation(
    states: seq<Browser>, events: seq<Event>, s: nat, j: nat, i: nat, k: nat, u: UserId)
    requires Run(states, events) && Initial(states[0]) && states[0].channel && s < j < |events|
    requires |states[s].inboxes| == |states[s].tabs| && Queued(states[s], i, k, u)
    requires Possible(states[s], events[s]) && events[s].tab != i && !events[s].action.Receive?
    requires WriteAt(states[s], events[s]).Some? && WriteAt(states[s], events[s]).value.session == Some(u)
    requires forall m | s <= m < j :: !Disturbs(events[m], i)
    requires Possible(states[j], events[j]) && DeliveredFirst(states[j], events[j])
    requires events[j] == Event(i, Grant(k))
    ensures !Asks(states[j], events[j])
    ensures states[j].tabs[i].epoch == states[j].tabs[i].tasks[k].epochAtRequest ==>
              Decide(states[j].tabs[i], states[j].tabs[i].tasks[k]).Adopt?
  {
    CoveredThroughout(states, events, s, j, i, k, u);
  }

  /** The tab has seen `token` since it queued up, or nothing yet, and nothing else is on its way. */
  predicate SeesOnly(t: Tab, inbox: seq<Message>, generationAtRequest: nat, token: Token) {
    && (t.generation == generationAtRequest || t.token == Some(token) || t.token.None?)
    && generationAtRequest <= t.generation
    && forall m <- inbox :: m.Session? ==> m.token == token
  }

  lemma SeesOnlyStep(b: Browser, e: Event, i: nat, g: nat, token: Token)
    requires Possible(b, e) && i < |b.tabs| && SeesOnly(b.tabs[i], b.inboxes[i], g, token)
    requires WriteAt(b, e).Some? ==> WriteAt(b, e).value.writer.ByBroadcast? || WriteAt(b, e).value.token == token
    ensures SeesOnly(Next(b, e).tabs[i], Next(b, e).inboxes[i], g, token)
  {
    if e.tab == i && e.action.Receive? {
      assert e.action.message in b.inboxes[i];
    }
  }

  lemma {:induction false} SeesOnlyThroughout(
    states: seq<Browser>, events: seq<Event>, s: nat, j: nat, i: nat, g: nat, token: Token)
    requires Run(states, events) && Initial(states[0]) && s <= j < |states|
    requires i < |states[s].tabs| == |states[s].inboxes| && SeesOnly(states[s].tabs[i], states[s].inboxes[i], g, token)
    requires forall m | s <= m < j ::
               && Possible(states[m], events[m])
               && (WriteAt(states[m], events[m]).Some? ==>
                     var w := WriteAt(states[m], events[m]).value; w.writer.ByBroadcast? || w.token == token)
    ensures i < |states[j].tabs| == |states[j].inboxes| && SeesOnly(states[j].tabs[i], states[j].inboxes[i], g, token)
  {
    InvariantThroughout(states, events, s);
    InvariantThroughout(states, events, j);
    if j > s {
      SeesOnlyThroughout(states, events, s, j - 1, i, g, token);
      TabStep(states, events, j - 1, i);
      SeesOnlyStep(states[j - 1], events[j - 1], i, g, token);
    }
  }

  lemma WaitingStep(t: Tab, a: Action, k: nat)
    requires Allowed(t, a) && k < t.nextTask
    ensures k < Do(t, a).nextTask
    ensures Waits(Do(t, a), k) ==> Waits(t, k) && Do(t, a).tasks[k] == t.tasks[k]
  {
  }

  lemma {:induction false} WaitingTaskKept(
    states: seq<Browser>, events: seq<Event>, s: nat, j: nat, i: nat, k: nat)
    requires Run(states, events) && Initial(states[0]) && s <= j < |states|
    requires i < |states[s].tabs| && k < states[s].tabs[i].nextTask
    ensures i < |states[j].tabs| && k < states[j].tabs[i].nextTask
    ensures Waits(states[j].tabs[i], k) ==>
              Waits(states[s].tabs[i], k) && states[j].tabs[i].tasks[k] == states[s].tabs[i].tasks[k]
  {
    if j > s {
      WaitingTaskKept(states, events, s, j - 1, i, k);
      TabStep(states, events, j - 1, i);
      if events[j - 1].tab == i {
        WaitingStep(states[j - 1].tabs[i], events[j - 1].action, k);
      }
    }
  }

  /** And if nothing else is written meanwhile, it is that very token every waiting tab adopts. */
  lemma WaitingTabsAdoptThatToken(
    states: seq<Browser>, events: seq<Event>, s: nat, j: nat, i: nat, k: nat, u: UserId, token: Token)
    requires Run(states, events) && Initial(states[0]) && states[0].channel && s < j < |events|
    requires |states[s].inboxes| == |states[s].tabs| && Queued(states[s], i, k, u) && states[s].inboxes[i] == []
    requires states[s].tabs[i].tasks[k].generationAtRequest == states[s].tabs[i].generation
    requires Possible(states[s], events[s]) && events[s].tab != i && !events[s].action.Receive?
    requires WriteAt(states[s], events[s]).Some? && WriteAt(states[s], events[s]).value.session == Some(u)
    requires forall m | s <= m < j ::
               && Possible(states[m], events[m])
               && (WriteAt(states[m], events[m]).Some? ==>
                     var w := WriteAt(states[m], events[m]).value; w.writer.ByBroadcast? || w.token == token)
    requires forall m | s <= m < j :: !Disturbs(events[m], i)
    requires Possible(states[j], events[j]) && DeliveredFirst(states[j], events[j])
    requires events[j] == Event(i, Grant(k)) && i < |states[j].tabs|
    requires states[j].tabs[i].epoch == states[j].tabs[i].tasks[k].epochAtRequest
    ensures Decide(states[j].tabs[i], states[j].tabs[i].tasks[k]) == Adopt(token)
  {
    SingleRotation(states, events, s, j, i, k, u);
    SeesOnlyThroughout(states, events, s, j, i, states[s].tabs[i].generation, token);
    InvariantThroughout(states, events, s);
    assert TabInvariant(states[s].tabs[i]);
    WaitingTaskKept(states, events, s, j, i, k);
  }

  /** Since `task` queued up, no token has been written in its tab. */
  predicate StillQueued(t: Tab, k: nat, task: Task) {
    k < t.nextTask && t.generation == task.generationAtRequest && (Waits(t, k) ==> t.tasks[k] == task)
  }

  lemma StillQueuedKept(t: Tab, a: Action, k: nat, task: Task)
    requires TabInvariant(t) && StillQueued(t, k, task) && Allowed(t, a) && WriteOf(t, a).None?
    ensures StillQueued(Do(t, a), k, task)
  {
  }

  lemma {:induction false} QueuedUntilWritten(
    states: seq<Browser>, events: seq<Event>, s: nat, j: nat, i: nat, k: nat, task: Task)
    requires Run(states, events) && Initial(states[0]) && s <= j < |states|
    requires i < |states[s].tabs| && StillQueued(states[s].tabs[i], k, task)
    requires forall m | s <= m < j && events[m].tab == i ::
               Possible(states[m], events[m]) && WriteAt(states[m], events[m]).None?
    ensures i < |states[j].tabs| && StillQueued(states[j].tabs[i], k, task)
  {
    InvariantThroughout(states, events, s);
    if j > s {
      QueuedUntilWritten(states, events, s, j - 1, i, k, task);
      TabStep(states, events, j - 1, i);
      InvariantThroughout(states, events, j - 1);
      assert TabInvariant(states[j - 1].tabs[i]);
      if events[j - 1].tab == i {
        StillQueuedKept(states[j - 1].tabs[i], events[j - 1].action, k, task);
      }
    }
  }

  /**
   The delivery is what matters: a queued task whose tab has seen no write since then sends
   its own request when it gets the lock, even if another tab has just refreshed.
   */
  lemma UndeliveredMeansSecondRotation(
    states: seq<Browser>, events: seq<Event>, s: nat, j: nat, i: nat, k: nat)
    requires Run(states, events) && Initial(states[0]) && s <= j < |events|
    requires i < |states[s].tabs| && Waits(states[s].tabs[i], k)
    requires states[s].tabs[i].tasks[k].generationAtRequest == states[s].tabs[i].generation
    requires forall m | s <= m < j && events[m].tab == i ::
               Possible(states[m], events[m]) && WriteAt(states[m], events[m]).None?
    requires events[j] == Event(i, Grant(k)) && i < |states[j].tabs|
    requires !states[j].tabs[i].loggingOut && states[j].tabs[i].epoch == states[s].tabs[i].tasks[k].epochAtRequest
    ensures Possible(states[j], events[j]) && Asks(states[j], events[j])
  {
    InvariantThroughout(states, events, s);
    assert TabInvariant(states[s].tabs[i]);
    QueuedUntilWritten(states, events, s, j, i, k, states[s].tabs[i].tasks[k]);
    assert StepAt(states, events, j);
  }

  // ---------------------------------------------------------------------------
  // No token of another user
  // ---------------------------------------------------------------------------

  /** The server describes a token with the session it belongs to. */
  predicate Honest(a: Action) {
    match a
    case Answer(_, Success(token, Some(u))) => u == token.owner
    case SignIn(token, Some(u)) => u == token.owner
    case _ => true
  }

  predicate HonestMessage(m: Message) {
    m.Session? ==> m.user == m.token.owner
  }

  /** Every broadcast ever on its way pairs a token with that token's own user. */
  lemma {:induction false} BroadcastsHonest(states: seq<Browser>, events: seq<Event>, j: nat, t: nat)
    requires Run(states, events) && Initial(states[0]) && j < |states| && t < |states[0].tabs|
    requires forall e <- events :: Honest(e.action)
    ensures t < |states[j].inboxes| && forall m <- states[j].inboxes[t] :: HonestMessage(m)
  {
    InvariantThroughout(states, events, j);
    if j == 0 {
      assert states[0].inboxes[t] in states[0].inboxes;
    } else {
      BroadcastsHonest(states, events, j - 1, t);
      InvariantThroughout(states, events, j - 1);
      TabStep(states, events, j - 1, t);
      assert Honest(events[j - 1].action);
    }
  }

  /**
   A broadcast, or a refresh whose answer names its session, stores a token only if it
   belongs to the user the tab expects; explicit sign-in is the only other writer.
   */
  lemma WrittenTokenBelongsToExpectedUser(states: seq<Browser>, events: seq<Event>, j: nat, u: UserId)
    requires Run(states, events) && Initial(states[0]) && j < |events|
    requires forall e <- events :: Honest(e.action)
    ensures Possible(states[j], events[j])
    ensures WriteAt(states[j], events[j]).Some? && states[j].tabs[events[j].tab].expected == Some(u) ==>
              var w := WriteAt(states[j], events[j]).value;
              w.writer.BySignIn? || w.session.None? || w.token.owner == u
  {
    assert StepAt(states, events, j);
    InvariantThroughout(states, events, j);
    BroadcastsHonest(states, events, j, events[j].tab);
    assert events[j] in events;
    if events[j].action.Receive? {
      assert events[j].action.message in states[j].inboxes[events[j].tab];
    }
  }

  /** The stored token, if there is one, is a token of user `u`. */
  predicate Holds(t: Tab, u: UserId) {
    t.token.Some? ==> t.token.value.owner == u
  }

  /** The step stores a token of another user out of an answer that names no session. */
  predicate StoresUnnamed(t: Tab, a: Action, u: UserId)
    requires Allowed(t, a)
  {
    && a.Answer? && Applies(t, t.tasks[a.task], a.reply)
    && a.reply.session.None? && a.reply.token.owner != u
  }

  lemma HoldsStep(t: Tab, a: Action, u: UserId)
    requires Allowed(t, a) && Holds(t, u) && t.expected == Some(u) && !a.SignIn? && Honest(a)
    requires a.Receive? ==> HonestMessage(a.message)
    ensures Holds(Do(t, a), u) <==> !StoresUnnamed(t, a, u)
  {
  }

  /** Step `m` does so in tab `t`. */
  predicate StoresUnnamedAt(states: seq<Browser>, events: seq<Event>, m: nat, t: nat, u: UserId)
    requires m < |events| < |states|
  {
    events[m].tab == t && Possible(states[m], events[m]) && StoresUnnamed(states[m].tabs[t], events[m].action, u)
  }

  lemma HoldsAt(states: seq<Browser>, events: seq<Event>, m: nat, t: nat, u: UserId)
    requires Run(states, events) && Initial(states[0]) && m < |events| && t < |states[0].tabs|
    requires forall e <- events :: Honest(e.action)
    requires t < |states[m].tabs| && states[m].tabs[t].expected == Some(u) && Holds(states[m].tabs[t], u)
    requires events[m].tab == t ==> !events[m].action.SignIn?
    ensures t < |states[m + 1].tabs|
    ensures Holds(states[m + 1].tabs[t], u) <==> !StoresUnnamedAt(states, events, m, t, u)
  {
    TabStep(states, events, m, t);
    BroadcastsHonest(states, events, m, t);
    if events[m].tab == t {
      var a := events[m].action;
      assert events[m] in events;
      if a.Receive? {
        assert a.message in states[m].inboxes[t];
      }
      HoldsStep(states[m].tabs[t], a, u);
    }
  }

  /**
   Over any stretch of a run in which tab `t` expects user `u` and does not sign in, whoever
   signs in or out in the other tabs: the tab holds no token of another user throughout, if
   and only if no answer without a session has stored one.
   */
  lemma {:induction false} IdentityKeptExactly(
    states: seq<Browser>, events: seq<Event>, i: nat, j: nat, t: nat, u: UserId)
    requires Run(states, events) && Initial(states[0]) && i <= j < |states| && t < |states[0].tabs|
    requires forall e <- events :: Honest(e.action)
    requires forall m | i <= m < j :: t < |states[m].tabs| && states[m].tabs[t].expected == Some(u)
    requires forall m | i <= m < j && events[m].tab == t :: !events[m].action.SignIn?
    requires t < |states[i].tabs| && Holds(states[i].tabs[t], u)
    ensures (forall m | i <= m <= j :: t < |states[m].tabs| && Holds(states[m].tabs[t], u)) <==>
            (forall m | i <= m < j :: !StoresUnnamedAt(states, events, m, t, u))
  {
    if j > i {
      IdentityKeptExactly(states, events, i, j - 1, t, u);
      InvariantThroughout(states, events, j);
      InvariantThroughout(states, events, j - 1);
      if Holds(states[j - 1].tabs[t], u) {
        HoldsAt(states, events, j - 1, t, u);
      }
    }
  }

  /** In particular when all answers to the tab's refreshes name their session. */
  lemma IdentityKept(states: seq<Browser>, events: seq<Event>, i: nat, j: nat, t: nat, u: UserId)
    requires Run(states, events) && Initial(states[0]) && i <= j < |states| && t < |states[0].tabs|
    requires forall e <- events :: Honest(e.action)
    requires forall m | i <= m < j :: t < |states[m].tabs| && states[m].tabs[t].expected == Some(u)
    requires forall m | i <= m < j && events[m].tab == t :: !events[m].action.SignIn?
    requires forall m | i <= m < j && events[m].tab == t && events[m].action.Answer? ::
               events[m].action.reply.Success? ==> events[m].action.reply.session.Some?
    requires t < |states[i].tabs| && Holds(states[i].tabs[t], u)
    ensures t < |states[j].tabs| && Holds(states[j].tabs[t], u)
  {
    IdentityKeptExactly(states, events, i, j, t, u);
  }
}
