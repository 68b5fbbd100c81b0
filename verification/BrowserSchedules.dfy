/**
 Concrete schedules of the browser model: each shows that the condition of a theorem in
 BrowserRuns can fail, in a run from the initial state.
 */
module BrowserSchedules {
  import opened Prelude
  import opened ClientSession
  import opened BrowserRuns

  /** One more step of a schedule. */
  lemma Extend(states: seq<Browser>, events: seq<Event>, e: Event)
    returns (longer: seq<Browser>, more: seq<Event>)
    requires Run(states, events) && Possible(states[|events|], e)
    ensures Run(longer, more) && longer[0] == states[0] && more == events + [e]
    ensures longer == states + [Next(states[|events|], e)]
  {
    longer, more := states + [Next(states[|events|], e)], events + [e];
    forall i | 0 <= i < |more| ensures StepAt(longer, more, i) {
      if i < |events| {
        assert StepAt(states, events, i);
        assert longer[i] == states[i] && longer[i + 1] == states[i + 1] && more[i] == events[i];
      }
    }
  }

  // ---------------------------------------------------------------------------
  // Any browser
  // ---------------------------------------------------------------------------

  /** A tab's step that announces nothing and receives nothing changes that tab and the lock only. */
  lemma SilentStep(b: Browser, t: nat, a: Action)
    requires Possible(b, Event(t, a)) && !a.Receive? && Published(b.tabs[t], a).None?
    ensures Next(b, Event(t, a)) == b.(tabs := b.tabs[t := Do(b.tabs[t], a)], holder := NextHolder(b, Event(t, a)))
  {
    assert forall i | 0 <= i < |b.tabs| :: Inbox(b, Event(t, a), i) == b.inboxes[i];
  }

  /**
   In every reachable browser: whenever the flag of a tab is down, the tab is idle and the
   lock is free, three more steps store a refreshed token there, logout running or not.
   */
  lemma RefreshGetsThrough(states: seq<Browser>, events: seq<Event>, b: Browser, t: nat, token: Token)
    returns (longer: seq<Browser>, more: seq<Event>, after: Tab)
    requires Run(states, events) && Initial(states[0]) && states[|events|] == b && t < |b.tabs|
    requires !b.tabs[t].loggingOut && b.tabs[t].promise.None? && b.holder.None?
    ensures Run(longer, more) && longer[0] == states[0] && |more| == |events| + 3
    ensures longer[|more|] == b.(tabs := b.tabs[t := after])
    ensures after.token == Some(token) && after.logouts == b.tabs[t].logouts && after.expected == b.tabs[t].expected
  {
    InvariantThroughout(states, events, |events|);
    var was := b.tabs[t];
    assert TabInvariant(was);
    var k := was.nextTask;
    var task := Task(was.generation, was.epoch, Waiting);
    var answer := Answer(k, Success(token, None));
    var asked, asking := Do(was, Refresh), Do(Do(was, Refresh), Grant(k));
    assert was.tasks == map[] && asked.tasks == map[k := task];
    after := Do(asking, answer);

    SilentStep(b, t, Refresh);
    longer, more := Extend(states, events, Event(t, Refresh));
    var b1 := b.(tabs := b.tabs[t := asked]);
    assert longer[|more|] == b1;
    SilentStep(b1, t, Grant(k));
    longer, more := Extend(longer, more, Event(t, Grant(k)));
    var b2 := Next(b1, Event(t, Grant(k)));
    assert longer[|more|] == b2 && b2.tabs[t] == asking;
    SilentStep(b2, t, answer);
    longer, more := Extend(longer, more, Event(t, answer));
  }

  // ---------------------------------------------------------------------------
  // A lone tab
  // ---------------------------------------------------------------------------

  function Alone(t: Tab, holder: Option<nat>): Browser {
    Browser([t], [[]], holder, true, true)
  }

  /** A run of a lone tab, so far. */
  ghost predicate LoneRun(states: seq<Browser>, events: seq<Event>, n: nat, t: Tab, holder: Option<nat>) {
    && Run(states, events) && Initial(states[0]) && |events| == n && states[n] == Alone(t, holder)
  }

  lemma AloneExtend(
    states: seq<Browser>, events: seq<Event>, n: nat, t: Tab, h: Option<nat>, a: Action, h': Option<nat>)
    returns (longer: seq<Browser>, more: seq<Event>)
    requires LoneRun(states, events, n, t, h)
    requires Allowed(t, a) && !a.Receive? && (a.Grant? ==> h.None?)
    requires h' == NextHolder(Alone(t, h), Event(0, a))
    ensures LoneRun(longer, more, n + 1, Do(t, a), h') && more == events + [Event(0, a)]
    ensures forall i | 0 <= i <= n :: longer[i] == states[i]
  {
    longer, more := Extend(states, events, Event(0, a));
    assert Next(Alone(t, h), Event(0, a)) == Alone(Do(t, a), h');
  }

  lemma TwoLogoutsBegin() returns (states: seq<Browser>, events: seq<Event>, t: Tab)
    ensures t == Tab(None, 0, 2, true, None, None, map[], 0, multiset{None, None})
    ensures LoneRun(states, events, 2, t, None)
  {
    states, events, t := [Alone(FRESH_TAB, None)], [], FRESH_TAB;
    assert JustLoaded(FRESH_TAB);
    states, events := AloneExtend(states, events, 0, t, None, BeginLogout, None);
    t := Do(t, BeginLogout);
    states, events := AloneExtend(states, events, 1, t, None, BeginLogout, None);
    t := Do(t, BeginLogout);
  }

  lemma FirstLogoutFinishes() returns (states: seq<Browser>, events: seq<Event>, t: Tab)
    ensures t == Tab(None, 0, 2, false, None, None, map[], 0, multiset{None})
    ensures LoneRun(states, events, 3, t, None) && EndsEarly(states[2], events[2], 0)
  {
    states, events, t := TwoLogoutsBegin();
    states, events := AloneExtend(states, events, 2, t, None, FinishLogout(None), None);
    assert states[2] == Alone(t, None) && t.logouts == multiset{None} + multiset{None};
    t := Do(t, FinishLogout(None));
  }

  /**
   Two logouts overlap: the first to finish clears `loggingOut`, and a refresh requested
   then stores its token while the second one is still running.
   */
  lemma OverlappingLogoutsLetARefreshIn(token: Token) returns (states: seq<Browser>, events: seq<Event>, t: Tab)
    ensures LoneRun(states, events, 6, t, None)
    ensures t.token == Some(token) && t.logouts == multiset{None}
  {
    states, events, t := FirstLogoutFinishes();
    var b := Alone(t, None);
    states, events, t := RefreshGetsThrough(states, events, b, 0, token);
  }

  /**
   A refresh requested while a logout runs, and granted after it has finished, stores its
   token in the signed-out tab.
   */
  lemma LateRefreshOutlivesLogout(token: Token) returns (states: seq<Browser>, events: seq<Event>, t: Tab)
    ensures LoneRun(states, events, 5, t, None)
    ensures events[..3] == [Event(0, BeginLogout), Event(0, Refresh), Event(0, FinishLogout(None))]
    ensures t.token == Some(token) && t.logouts == multiset{} && t.expected.None?
  {
    states, events, t := LogoutAroundRequest();
    states, events := AloneExtend(states, events, 3, t, None, Grant(0), Some(0));
    t := Do(t, Grant(0));
    states, events := AloneExtend(states, events, 4, t, Some(0), Answer(0, Success(token, None)), None);
    t := Do(t, Answer(0, Success(token, None)));
  }

  lemma LogoutAroundRequest() returns (states: seq<Browser>, events: seq<Event>, t: Tab)
    ensures LoneRun(states, events, 3, t, None)
    ensures events == [Event(0, BeginLogout), Event(0, Refresh), Event(0, FinishLogout(None))]
    ensures t == Tab(None, 0, 1, false, None, Some(0), map[0 := Task(0, 1, Waiting)], 1, multiset{})
  {
    states, events, t := [Alone(FRESH_TAB, None)], [], FRESH_TAB;
    assert JustLoaded(FRESH_TAB);
    states, events := AloneExtend(states, events, 0, t, None, BeginLogout, None);
    t := Do(t, BeginLogout);
    states, events := AloneExtend(states, events, 1, t, None, Refresh, None);
    t := Do(t, Refresh);
    states, events := AloneExtend(states, events, 2, t, None, FinishLogout(None), None);
    t := Do(t, FinishLogout(None));
  }

  // ---------------------------------------------------------------------------
  // Two tabs
  // ---------------------------------------------------------------------------

  function Pair(a: Tab, b: Tab, forB: seq<Message>, holder: Option<nat>): Browser {
    Browser([a, b], [[], forB], holder, true, true)
  }

  ghost predicate PairRun(
    states: seq<Browser>, events: seq<Event>, n: nat, a: Tab, b: Tab, forB: seq<Message>, holder: Option<nat>)
  {
    && Run(states, events) && Initial(states[0]) && |events| == n && states[n] == Pair(a, b, forB, holder)
  }

  lemma FirstTabSteps(
    states: seq<Browser>, events: seq<Event>, n: nat, a: Tab, b: Tab, h: Option<nat>, x: Action,
    q: seq<Message>, h': Option<nat>)
    returns (longer: seq<Browser>, more: seq<Event>)
    requires PairRun(states, events, n, a, b, [], h)
    requires Allowed(a, x) && !x.Receive? && (x.Grant? ==> h.None?)
    requires q == if Published(a, x).Some? then [Published(a, x).value] else []
    requires h' == NextHolder(Pair(a, b, [], h), Event(0, x))
    ensures PairRun(longer, more, n + 1, Do(a, x), b, q, h') && more == events + [Event(0, x)]
  {
    longer, more := Extend(states, events, Event(0, x));
    var was, e := Pair(a, b, [], h), Event(0, x);
    assert Inbox(was, e, 0) == [] && Inbox(was, e, 1) == q;
    assert Next(was, e).inboxes == [[], q];
  }

  lemma SecondTabSteps(states: seq<Browser>, events: seq<Event>, n: nat, a: Tab, b: Tab, x: Action)
    returns (longer: seq<Browser>, more: seq<Event>)
    requires PairRun(states, events, n, a, b, [], None)
    requires x.Refresh? || x.SetUser?
    ensures PairRun(longer, more, n + 1, a, Do(b, x), [], None) && more == events + [Event(1, x)]
  {
    longer, more := Extend(states, events, Event(1, x));
    assert Next(Pair(a, b, [], None), Event(1, x)) == Pair(a, Do(b, x), [], None);
  }

  lemma TwoTabsQueue(u: UserId) returns (states: seq<Browser>, events: seq<Event>, t: Tab)
    ensures t == Tab(None, 0, 0, false, Some(u), Some(0), map[0 := Task(0, 0, Waiting)], 1, multiset{})
    ensures PairRun(states, events, 4, t, t, [], None)
  {
    states, events := [Pair(FRESH_TAB, FRESH_TAB, [], None)], [];
    assert JustLoaded(FRESH_TAB);
    var known := Do(FRESH_TAB, SetUser(Some(u)));
    states, events := FirstTabSteps(states, events, 0, FRESH_TAB, FRESH_TAB, None, SetUser(Some(u)), [], None);
    states, events := SecondTabSteps(states, events, 1, known, FRESH_TAB, SetUser(Some(u)));
    t := Do(known, Refresh);
    states, events := FirstTabSteps(states, events, 2, known, known, None, Refresh, [], None);
    states, events := SecondTabSteps(states, events, 3, t, known, Refresh);
  }

  /**
   Two tabs of one user queue up; the first one's refresh succeeds and its broadcast is
   still on its way when the second gets the lock: it asks the server a second time.
   */
  lemma SecondRotationHappens(u: UserId, token: Token) returns (states: seq<Browser>, events: seq<Event>, e: Event)
    ensures Run(states, events) && Initial(states[0]) && states[0].channel && states[0].locks && |events| == 6
    ensures events[5] == Event(0, Answer(0, Success(token, Some(u)))) && e == Event(1, Grant(0))
    ensures |states[6].tabs| == |states[6].inboxes| == 2
    ensures states[6].tabs[0].token == Some(token) && states[6].inboxes[1] == [Session(token, u)]
    ensures Possible(states[6], e) && Asks(states[6], e)
  {
    var t;
    states, events, t := TwoTabsQueue(u);
    states, events := FirstTabSteps(states, events, 4, t, t, None, Grant(0), [], Some(0));
    var asking := Do(t, Grant(0));
    var answer := Answer(0, Success(token, Some(u)));
    InvariantThroughout(states, events, 0);
    states, events := FirstTabSteps(states, events, 5, asking, t, Some(0), answer, [Session(token, u)], None);
    InvariantThroughout(states, events, 6);
    e := Event(1, Grant(0));
  }
}
