/**
 The session state of one browser tab (packages/client/src/api-client.ts).

 The source runs on one thread per tab, so the code between two awaits is atomic.
 Each such stretch is an `Action`; `Do` is its effect on the tab and `Published` the
 message it announces. `ApiClient` is the same code over mutable fields.
 */
module ClientSession {
  import opened Prelude

  type UserId = string

  /** An access token; `owner` is the user the server issued it to. */
  datatype Token = Token(owner: UserId, serial: nat)

  datatype Message =
    | Session(token: Token, user: UserId)
    | Logout(caller: Option<UserId>)

  /** What `POST /auth/refresh` came back with; `session` is absent on an older server. */
  datatype Reply = Failed | Success(token: Token, session: Option<UserId>)

  datatype Phase = Waiting | Requesting

  /** A refresh closure that has not finished, with the values it captured. */
  datatype Task = Task(generationAtRequest: nat, epochAtRequest: nat, phase: Phase)

  datatype Tab = Tab(
    token: Option<Token>,
    generation: nat,
    epoch: nat,
    loggingOut: bool,
    expected: Option<UserId>,
    promise: Option<nat>,
    tasks: map<nat, Task>,
    nextTask: nat,
    logouts: multiset<Option<UserId>>)

  datatype Action =
    | Refresh                                       // refreshAccessToken is called
    | Grant(task: nat)                              // the task gets the refresh lock
    | Answer(task: nat, reply: Reply)               // its POST resolves or rejects
    | Finally                                       // refreshPromise is reset
    | Receive(message: Message)                     // a broadcast arrives
    | SignIn(signedIn: Token, session: Option<UserId>) // publishSignedInSession
    | SetUser(user: Option<UserId>)                 // setExpectedSessionUser
    | BeginLogout                                   // logoutSession up to its first await
    | FinishLogout(userId: Option<UserId>)          // its innermost finally block
    | Expire                                        // notifyAuthExpired

  /** What a refresh task decides when it starts to run. */
  datatype Decision = LoggedOut | Adopt(token: Token) | Request

  predicate Superseded(t: Tab, task: Task) {
    t.loggingOut || task.epochAtRequest != t.epoch
  }

  function Decide(t: Tab, task: Task): Decision {
    if Superseded(t, task) then LoggedOut
    else if t.generation != task.generationAtRequest && t.token.Some? then Adopt(t.token.value)
    else Request
  }

  function Store(t: Tab, token: Token): Tab {
    t.(token := Some(token), generation := t.generation + 1)
  }

  predicate WrongUser(t: Tab, session: Option<UserId>) {
    t.expected.Some? && session.Some? && session != t.expected
  }

  /** The tail of performRefresh, after the response is in and before any further await. */
  predicate Applies(t: Tab, task: Task, reply: Reply) {
    reply.Success? && !Superseded(t, task) && !WrongUser(t, reply.session)
  }

  predicate Adopts(t: Tab, m: Message) {
    t.expected.Some? && !t.loggingOut && m.Session? && t.expected == Some(m.user)
  }

  predicate Allowed(t: Tab, a: Action) {
    match a
    case Grant(k) => k in t.tasks && t.tasks[k].phase == Waiting
    case Answer(k, _) => k in t.tasks && t.tasks[k].phase == Requesting
    case Finally => t.promise.Some? && t.promise.value !in t.tasks
    case FinishLogout(u) => u in t.logouts
    case _ => true
  }

  function Do(t: Tab, a: Action): Tab
    requires Allowed(t, a)
  {
    match a
    case Refresh =>
      if t.promise.Some? then t else
        t.(promise := Some(t.nextTask),
           tasks := t.tasks[t.nextTask := Task(t.generation, t.epoch, Waiting)],
           nextTask := t.nextTask + 1)
    case Grant(k) =>
      if Decide(t, t.tasks[k]).Request?
      then t.(tasks := t.tasks[k := t.tasks[k].(phase := Requesting)])
      else t.(tasks := t.tasks - {k})
    case Answer(k, reply) =>
      var done := t.(tasks := t.tasks - {k});
      if Applies(t, t.tasks[k], reply) then Store(done, reply.token)
      else if reply.Success? && !Superseded(t, t.tasks[k]) then done.(token := None)
      else done
    case Finally => t.(promise := None)
    case Receive(m) => if Adopts(t, m) then Store(t, m.token) else t
    case SignIn(token, _) => Store(t, token)
    case SetUser(u) => t.(expected := u)
    case BeginLogout =>
      t.(loggingOut := true, epoch := t.epoch + 1, logouts := t.logouts + multiset{t.expected})
    case FinishLogout(u) =>
      t.(expected := None, token := None, loggingOut := false, logouts := t.logouts - multiset{u})
    case Expire => t.(token := None)
  }

  function Published(t: Tab, a: Action): Option<Message>
    requires Allowed(t, a)
  {
    match a
    case Answer(k, reply) =>
      if Applies(t, t.tasks[k], reply) && reply.session.Some?
      then Some(Session(reply.token, reply.session.value)) else None
    case SignIn(token, session) =>
      if session.Some? then Some(Session(token, session.value)) else None
    case FinishLogout(u) => Some(Logout(u))
    case _ => None
  }

  /** Which part of the code stored a token. */
  datatype Writer = ByRefresh(task: nat) | ByBroadcast | BySignIn

  datatype Write = Write(writer: Writer, token: Token, session: Option<UserId>)

  /** The token write an action makes, if it makes one. */
  function WriteOf(t: Tab, a: Action): Option<Write>
    requires Allowed(t, a)
  {
    match a
    case Answer(k, reply) =>
      if Applies(t, t.tasks[k], reply) then Some(Write(ByRefresh(k), reply.token, reply.session)) else None
    case Receive(m) =>
      if Adopts(t, m) then Some(Write(ByBroadcast, m.token, Some(m.user))) else None
    case SignIn(token, session) => Some(Write(BySignIn, token, session))
    case _ => None
  }

  /** A tab before anything happened in it. */
  const FRESH_TAB := Tab(None, 0, 0, false, None, None, map[], 0, multiset{})

  /** Holds of every tab in every run: live tasks are old, and only the current promise is live. */
  predicate TabInvariant(t: Tab) {
    && (forall k <- t.tasks ::
          && k < t.nextTask
          && t.promise == Some(k)
          && t.tasks[k].epochAtRequest <= t.epoch
          && t.tasks[k].generationAtRequest <= t.generation)
    && (t.promise.Some? ==> t.promise.value < t.nextTask)
  }

  lemma InvariantKept(t: Tab, a: Action)
    requires TabInvariant(t) && Allowed(t, a)
    ensures TabInvariant(Do(t, a))
  {
  }

  /** At most one refresh task is alive in a tab. */
  lemma SingleFlight(t: Tab)
    requires TabInvariant(t)
    ensures |t.tasks| <= 1
  {
    if t.promise.Some? {
      assert t.tasks.Keys <= {t.promise.value};
      assert |t.tasks.Keys| <= |{t.promise.value}| by {
        if t.tasks.Keys != {} {
          assert t.tasks.Keys == {t.promise.value};
        }
      }
    } else {
      assert t.tasks.Keys == {};
    }
  }

  /**
   `WriteOf` misses nothing and names the writer truly: a token that appears was written by a
   reported write, by the refresh, the broadcast or the sign-in that the step is.
   */
  lemma WritesAreReported(t: Tab, a: Action)
    requires Allowed(t, a)
    ensures WriteOf(t, a).Some? ==>
              match WriteOf(t, a).value.writer
              case ByRefresh(k) =>
                exists reply :: a == Answer(k, reply) && reply.Success? && reply.session == WriteOf(t, a).value.session
              case ByBroadcast =>
                a.Receive? && a.message.Session? && WriteOf(t, a).value.session == Some(a.message.user)
              case BySignIn => a.SignIn? && a.session == WriteOf(t, a).value.session
    ensures Do(t, a).generation != t.generation ==> WriteOf(t, a).Some?
    ensures WriteOf(t, a).Some? ==>
              Do(t, a).token == Some(WriteOf(t, a).value.token) && Do(t, a).generation == t.generation + 1
    ensures WriteOf(t, a).None? ==>
              (Do(t, a).token == t.token || Do(t, a).token == None) && Do(t, a).generation == t.generation
  {
  }

  lemma LogoutFinished(t: Tab, u: Option<UserId>)
    requires u in t.logouts
    ensures Allowed(t, FinishLogout(u)) && Published(t, FinishLogout(u)) == Some(Logout(u))
    ensures Do(t, FinishLogout(u)) ==
              t.(expected := None, token := None, loggingOut := false, logouts := t.logouts - multiset{u})
  {
  }

  /** The module-level variables of api-client.ts, with the closures that are still running. */
  class ApiClient {
    var storedToken: Option<Token>
    var tokenGeneration: nat
    var logoutEpoch: nat
    var loggingOut: bool
    var expectedUserId: Option<UserId>
    var refreshPromise: Option<nat>
    var running: map<nat, Task>
    var nextTask: nat
    var signingOut: multiset<Option<UserId>>

    function State(): Tab
      reads this
    {
      Tab(storedToken, tokenGeneration, logoutEpoch, loggingOut, expectedUserId,
          refreshPromise, running, nextTask, signingOut)
    }

    constructor ()
      ensures State() == FRESH_TAB
    {
      storedToken, tokenGeneration, logoutEpoch := None, 0, 0;
      loggingOut, expectedUserId, refreshPromise := false, None, None;
      running, nextTask, signingOut := map[], 0, multiset{};
    }

    method ApplySessionInfo(accessToken: Token)
      modifies this
      ensures State() == Store(old(State()), accessToken)
      ensures State() == old(State()).(token := Some(accessToken), generation := old(tokenGeneration) + 1)
    {
      storedToken := Some(accessToken);
      tokenGeneration := tokenGeneration + 1;
    }

    method RefreshAccessToken() returns (promise: nat)
      modifies this
      ensures State() == Do(old(State()), Refresh)
      ensures State().promise == Some(promise)
      ensures State() ==
              if old(refreshPromise).Some? then old(State())
              else old(State()).(
                promise := Some(old(nextTask)), nextTask := old(nextTask) + 1,
                tasks := old(running)[old(nextTask) := Task(old(tokenGeneration), old(logoutEpoch), Waiting)])
    {
      var generationAtRequest := tokenGeneration;
      var epochAtRequest := logoutEpoch;
      if refreshPromise.None? {
        running := running[nextTask := Task(generationAtRequest, epochAtRequest, Waiting)];
        refreshPromise := Some(nextTask);
        nextTask := nextTask + 1;
      }
      promise := refreshPromise.value;
    }

    method RunTask(k: nat) returns (decision: Decision)
      requires k in running && running[k].phase.Waiting?
      modifies this
      ensures State() == Do(old(State()), Grant(k))
      ensures decision == Decide(old(State()), old(State()).tasks[k])
      ensures decision.LoggedOut? <==> old(loggingOut) || old(running)[k].epochAtRequest != old(logoutEpoch)
      ensures decision.Adopt? <==>
                && !decision.LoggedOut? && old(tokenGeneration) != old(running)[k].generationAtRequest
                && old(storedToken).Some?
      ensures decision.Adopt? ==> Some(decision.token) == old(storedToken)
      ensures State() == old(State()).(
                tasks := if decision.Request? then old(running)[k := old(running)[k].(phase := Requesting)]
                         else old(running) - {k})
    {
      var task := running[k];
      if loggingOut || task.epochAtRequest != logoutEpoch {
        decision := LoggedOut;
        running := running - {k};
        return;
      }
      var adopted := storedToken;
      if tokenGeneration != task.generationAtRequest && adopted.Some? {
        decision := Adopt(adopted.value);
        running := running - {k};
        return;
      }
      decision := Request;
      running := running[k := task.(phase := Requesting)];
    }

    method FinishRefresh(k: nat, reply: Reply) returns (announced: Option<Message>)
      requires k in running && running[k].phase.Requesting?
      modifies this
      ensures State() == Do(old(State()), Answer(k, reply))
      ensures announced == Published(old(State()), Answer(k, reply))
      ensures var live := reply.Success? && !old(loggingOut) && old(running)[k].epochAtRequest == old(logoutEpoch);
              var foreign := live && old(expectedUserId).Some? && reply.session.Some?
                             && reply.session != old(expectedUserId);
              && storedToken == (if !live then old(storedToken) else if foreign then None else Some(reply.token))
              && tokenGeneration == old(tokenGeneration) + (if live && !foreign then 1 else 0)
              && announced == (if live && !foreign && reply.session.Some?
                               then Some(Session(reply.token, reply.session.value)) else None)
      ensures running == old(running) - {k}
      ensures State() == old(State()).(token := storedToken, generation := tokenGeneration, tasks := running)
    {
      var task := running[k];
      running := running - {k};
      announced := None;
      if reply.Failed? || loggingOut || task.epochAtRequest != logoutEpoch {
        return;
      }
      if expectedUserId.Some? && reply.session.Some? && reply.session.value != expectedUserId.value {
        storedToken := None;
        return;
      }
      ApplySessionInfo(reply.token);
      if reply.session.Some? {
        announced := Some(Session(reply.token, reply.session.value));
      }
    }

    method SettleRefreshPromise()
      requires refreshPromise.Some? && refreshPromise.value !in running
      modifies this
      ensures State() == Do(old(State()), Finally)
      ensures State() == old(State()).(promise := None)
    {
      refreshPromise := None;
    }

    method HandleBroadcast(message: Message)
      modifies this
      ensures State() == Do(old(State()), Receive(message))
      ensures State() ==
              if message.Session? && old(expectedUserId) == Some(message.user) && !old(loggingOut)
              then old(State()).(token := Some(message.token), generation := old(tokenGeneration) + 1)
              else old(State())
    {
      if expectedUserId.None? || loggingOut || message.Logout? {
        return;
      }
      if message.user != expectedUserId.value {
        return;
      }
      ApplySessionInfo(message.token);
    }

    method PublishSignedInSession(accessToken: Token, session: Option<UserId>)
      returns (announced: Option<Message>)
      modifies this
      ensures State() == Do(old(State()), SignIn(accessToken, session))
      ensures announced == Published(old(State()), SignIn(accessToken, session))
      ensures State() == old(State()).(token := Some(accessToken), generation := old(tokenGeneration) + 1)
      ensures announced == if session.Some? then Some(Session(accessToken, session.value)) else None
    {
      ApplySessionInfo(accessToken);
      announced := if session.Some? then Some(Session(accessToken, session.value)) else None;
    }

    method SetExpectedSessionUser(userId: Option<UserId>)
      modifies this
      ensures State() == Do(old(State()), SetUser(userId))
      ensures State() == old(State()).(expected := userId)
    {
      expectedUserId := userId;
    }

    method NotifyAuthExpired()
      modifies this
      ensures State() == Do(old(State()), Expire)
      ensures State() == old(State()).(token := None)
    {
      storedToken := None;
    }

    /** logoutSession up to its first await; the caller keeps `userId` until it finishes. */
    method StartLogout() returns (userId: Option<UserId>)
      modifies this
      ensures State() == Do(old(State()), BeginLogout)
      ensures State() == old(State()).(
                loggingOut := true, epoch := old(logoutEpoch) + 1,
                logouts := old(signingOut) + multiset{old(expectedUserId)})
      ensures userId == old(expectedUserId)
    {
      userId := expectedUserId;
      loggingOut := true;
      logoutEpoch := logoutEpoch + 1;
      signingOut := signingOut + multiset{userId};
    }

    /** The innermost finally block of logoutSession, whatever its request came to. */
    method EndLogout(userId: Option<UserId>) returns (announced: Message)
      requires userId in signingOut
      modifies this
      ensures State() == Do(old(State()), FinishLogout(userId))
      ensures Some(announced) == Published(old(State()), FinishLogout(userId))
      ensures announced == Logout(userId)
      ensures State() == old(State()).(
                token := None, expected := None, loggingOut := false, logouts := old(signingOut) - multiset{userId})
    {
      ghost var t := State();
      expectedUserId := None;
      announced := Logout(userId);
      NotifyAuthExpired();
      loggingOut := false;
      signingOut := signingOut - multiset{userId};
      LogoutFinished(t, userId);
    }
  }
}
