/** HTTPCookieAuth: sessions named by a random cookie, with a lazy sweep of old ones. */
module CookieAuth {
  import opened HttpTypes
  import opened HttpAuth
  import opened ResourceMap
  import opened Base64
  import opened UserCache
  import opened UrlCodec

  /** Seconds for which an unused session is kept. */
  const CACHE_EXPIRATION := 3600

  const RANDOM_COOKIE_BYTES := 20

  datatype Settings = Settings(access: Access, login: string, logout: string, redirect: string)

  /** What is looked at in a request: its resource, three query values and the cookie. */
  datatype Request = Request(resource: string, user: string, pass: string, url: string, cookie: string)

  /** random is what the generator yields if the request logs a user in. */
  datatype Event = Event(request: Request, now: nat, random: Random)

  datatype Answer =
    | Open                                                   // no user is needed
    | Granted(user: User)
    | LoggedIn(user: User, cookie: string, redirect: string)
    | LoggedOut(redirect: string)
    | Refused(redirect: string)

  /** What the random generator yields for a cookie. */
  type Random = s: string | AllBytes(s) && |s| == RANDOM_COOKIE_BYTES witness seq(RANDOM_COOKIE_BYTES, _ => 'A')

  predicate IsLoginPage(cfg: Settings, q: Request) {
    StripTrailingSlash(q.resource) == cfg.login || StripTrailingSlash(q.resource) == cfg.logout
  }

  /** processLogin, for the login or logout page. */
  function LoginOutcome(cfg: Settings, s: State, e: Event): (Answer, State)
  {
    var q := e.request;
    if StripTrailingSlash(q.resource) == cfg.login then
      var user := FindUser(cfg.access.users, UrlDecode(q.user), UrlDecode(q.pass));
      if user.None? then (Refused(cfg.redirect), s)
      else
        var cookie := Encode(e.random);
        (LoggedIn(user.value, cookie, UrlDecode(q.url)),
         if cookie in s.cache then s else s.(cache := s.cache[cookie := (e.now, user.value)]))
    else
      (LoggedOut(UrlDecode(q.url)), if q.cookie != "" then s.(cache := s.cache - {q.cookie}) else s)
  }

  /** The part of handleRequest that looks the cookie up. */
  function LookUp(cfg: Settings, s: State, e: Event): (Answer, State) {
    var c := e.request.cookie;
    if c != "" && c in s.cache then
      (Granted(s.cache[c].1), s.(cache := s.cache[c := (e.now, s.cache[c].1)]))
    else (Refused(cfg.redirect), s)
  }

  /** A request whose cookie decides. */
  ghost predicate IsGuarded(cfg: Settings, q: Request) {
    && !IsLoginPage(cfg, q)
    && NeedsUser(cfg.access, q.resource)
    && !(cfg.redirect != "" && cfg.redirect == q.resource)
  }

  /** handleRequest. */
  ghost function Handle(cfg: Settings, s: State, e: Event): (Answer, State)
  {
    if IsLoginPage(cfg, e.request) then LoginOutcome(cfg, s, e)
    else if IsGuarded(cfg, e.request) then LookUp(cfg, Swept(s, e.now, CACHE_EXPIRATION), e)
    else (Open, s)
  }

  // ---------------------------------------------------------------- whole runs

  datatype Step = Step(event: Event, answer: Answer)

  /** The state and the history of answers after a run from an object made at start. */
  ghost function Run(cfg: Settings, start: nat, events: seq<Event>): (r: (State, seq<Step>))
    ensures |r.1| == |events|
    ensures forall i | 0 <= i < |events| :: r.1[i].event == events[i]
  {
    if events == [] then (State(map[], start), [])
    else
      var n := |events| - 1;
      var (s, trace) := Run(cfg, start, events[..n]);
      var (answer, s') := Handle(cfg, s, events[n]);
      (s', trace + [Step(events[n], answer)])
  }

  /** The clock never runs backwards. */
  predicate ClockRuns(start: nat, events: seq<Event>) {
    && (forall i | 0 <= i < |events| :: start <= events[i].now)
    && forall i, j | 0 <= i < j < |events| :: events[i].now <= events[j].now
  }

  /** No two logins draw the same bytes. */
  predicate FreshCookies(trace: seq<Step>) {
    forall i, j | 0 <= i < j < |trace| && trace[i].answer.LoggedIn? && trace[j].answer.LoggedIn? ::
      trace[i].event.random != trace[j].event.random
  }

  /** Who a cookie stands for and when it was last used, going by the answers given. */
  function LastUse(trace: seq<Step>, cookie: string): Option<(nat, User)> {
    if trace == [] then None
    else
      var n := |trace| - 1;
      var (e, a) := (trace[n].event, trace[n].answer);
      if a.LoggedIn? && a.cookie == cookie then Some((e.now, a.user))
      else if a.Granted? && e.request.cookie == cookie then Some((e.now, a.user))
      else if a.LoggedOut? && e.request.cookie == cookie then None
      else LastUse(trace[..n], cookie)
  }

  /** The cache holds exactly the sessions whose last use the last sweep did not find
      expired. */
  ghost predicate Matches(s: State, trace: seq<Step>) {
    && (forall c :: c in s.cache <==> LastUse(trace, c).Some? && s.cleanup <= LastUse(trace, c).value.0 + CACHE_EXPIRATION)
    && (forall c | c in s.cache :: s.cache[c] == LastUse(trace, c).value)
  }

  lemma EncodeIsInjective(a: string, b: string)
    requires AllBytes(a) && AllBytes(b) && Encode(a) == Encode(b)
    ensures a == b
  {
    DecodeUndoesEncode(a);
    DecodeUndoesEncode(b);
  }

  lemma {:induction false} SweepKeepsMatch(s: State, trace: seq<Step>, now: nat)
    requires Matches(s, trace)
    ensures Matches(Swept(s, now, CACHE_EXPIRATION), trace)
  {
  }

  /** The bytes drawn for a login are not those of an earlier one. */
  predicate FreshFor(trace: seq<Step>, random: Random) {
    forall i | 0 <= i < |trace| && trace[i].answer.LoggedIn? :: trace[i].event.random != random
  }

  /** A request to the login page with a name and a password that the table has for the user. */
  predicate LogsIn(cfg: Settings, q: Request, user: User) {
    && StripTrailingSlash(q.resource) == cfg.login
    && UrlDecode(q.user) in cfg.access.users
    && cfg.access.users[UrlDecode(q.user)] == (UrlDecode(q.pass), user)
  }

  /** The login page answers by the table of users alone. */
  lemma LoggedInExactlyWhen(cfg: Settings, s: State, e: Event, user: User)
    requires StripTrailingSlash(e.request.resource) == cfg.login
    ensures var answer := Handle(cfg, s, e).0;
            && (answer == LoggedIn(user, Encode(e.random), UrlDecode(e.request.url)) <==> LogsIn(cfg, e.request, user))
            && (answer == Refused(cfg.redirect) <==> forall u :: !LogsIn(cfg, e.request, u))
  {
    hide Encode, UrlDecode;
    var name := UrlDecode(e.request.user);
    if name in cfg.access.users {
      assert LogsIn(cfg, e.request, cfg.access.users[name].1) || cfg.access.users[name].0 != UrlDecode(e.request.pass);
    }
  }

  /** A name and a password sent in their encoded form log in exactly the user that the
      table has under that name with that password. */
  lemma LoginFormReadsBack(cfg: Settings, s: State, e: Event, name: string, password: string, user: User)
    requires StripTrailingSlash(e.request.resource) == cfg.login && AllBytes(name) && AllBytes(password)
    requires e.request.user == UrlEncode(name) && e.request.pass == UrlEncode(password)
    ensures Handle(cfg, s, e).0 == LoggedIn(user, Encode(e.random), UrlDecode(e.request.url))
            <==> name in cfg.access.users && cfg.access.users[name] == (password, user)
  {
    UrlRoundTrip(name);
    UrlRoundTrip(password);
    LoggedInExactlyWhen(cfg, s, e, user);
  }

  /** The logout page sends the client on and forgets its cookie. */
  lemma LogoutForgets(cfg: Settings, s: State, e: Event, target: string)
    requires StripTrailingSlash(e.request.resource) == cfg.logout != cfg.login
    requires AllBytes(target) && e.request.url == UrlEncode(target)
    ensures var (answer, s') := Handle(cfg, s, e);
            && answer == LoggedOut(target)
            && (e.request.cookie != "" ==> e.request.cookie !in s'.cache)
            && forall c | c != e.request.cookie && c in s.cache :: c in s'.cache && s'.cache[c] == s.cache[c]
  {
    UrlRoundTrip(target);
  }

  /** A request is let through without a user exactly if it is not for the login or logout
      page, and either needs none or is for the page that the others are sent to. */
  lemma OpenExactlyWhen(cfg: Settings, s: State, e: Event)
    ensures var page := StripTrailingSlash(e.request.resource);
            Handle(cfg, s, e).0 == Open <==>
            && page != cfg.login && page != cfg.logout
            && (NeedsUser(cfg.access, e.request.resource) ==> e.request.resource == cfg.redirect != "")
  {
    hide NeedsUser, StripTrailingSlash, FindUser, UrlDecode, Encode;
  }

  predicate LoginsAreGenuine(cfg: Settings, trace: seq<Step>) {
    forall i | 0 <= i < |trace| && trace[i].answer.LoggedIn? ::
      && trace[i].answer.cookie == Encode(trace[i].event.random) != ""
      && LogsIn(cfg, trace[i].event.request, trace[i].answer.user)
  }

  /** A session goes back to a login, with the user's name and password, that issued its
      cookie, with no logout since. */
  ghost predicate IssuedAt(cfg: Settings, trace: seq<Step>, cookie: string, user: User, j: nat) {
    && j < |trace| && LogsIn(cfg, trace[j].event.request, user)
    && trace[j].answer.LoggedIn? && trace[j].answer.cookie == cookie && trace[j].answer.user == user
    && forall k | j < k < |trace| :: !(trace[k].answer.LoggedOut? && trace[k].event.request.cookie == cookie)
  }

  /** Access is granted only to cookies in use, and to the user they stand for. */
  predicate GrantsAreKnown(trace: seq<Step>) {
    forall i | 0 <= i < |trace| && trace[i].answer.Granted? ::
      var use := LastUse(trace[..i], trace[i].event.request.cookie);
      use.Some? && use.value.1 == trace[i].answer.user
  }

  lemma KnownBefore(cfg: Settings, trace: seq<Step>)
    requires trace != [] && LoginsAreGenuine(cfg, trace) && GrantsAreKnown(trace)
    ensures LoginsAreGenuine(cfg, trace[..|trace| - 1]) && GrantsAreKnown(trace[..|trace| - 1])
  {
    var n := |trace| - 1;
    assert forall i | 0 <= i < n :: trace[..n][i] == trace[i] && trace[..n][..i] == trace[..i];
  }

  lemma {:induction false} UseGoesBackToLogin(cfg: Settings, trace: seq<Step>, cookie: string)
    requires LoginsAreGenuine(cfg, trace) && GrantsAreKnown(trace) && LastUse(trace, cookie).Some?
    ensures cookie != "" && exists j: nat :: IssuedAt(cfg, trace, cookie, LastUse(trace, cookie).value.1, j)
  {
    var n := |trace| - 1;
    var (e, a) := (trace[n].event, trace[n].answer);
    if a.LoggedIn? && a.cookie == cookie {
      assert IssuedAt(cfg, trace, cookie, a.user, n);
    } else {
      var before := trace[..n];
      assert LastUse(before, cookie).Some? && LastUse(before, cookie).value.1 == LastUse(trace, cookie).value.1;
      KnownBefore(cfg, trace);
      UseGoesBackToLogin(cfg, before, cookie);
      var user := LastUse(before, cookie).value.1;
      var j: nat :| IssuedAt(cfg, before, cookie, user, j);
      IssuedBefore(cfg, trace, cookie, user, j);
    }
  }

  lemma IssuedBefore(cfg: Settings, trace: seq<Step>, cookie: string, user: User, j: nat)
    requires trace != [] && IssuedAt(cfg, trace[..|trace| - 1], cookie, user, j)
    requires var last := trace[|trace| - 1]; !(last.answer.LoggedOut? && last.event.request.cookie == cookie)
    ensures IssuedAt(cfg, trace, cookie, user, j)
  {
    var n := |trace| - 1;
    assert forall k | 0 <= k < n :: trace[..n][k] == trace[k];
  }

  lemma FreshCookieIsUnused(cfg: Settings, trace: seq<Step>, random: Random)
    requires LoginsAreGenuine(cfg, trace) && GrantsAreKnown(trace) && FreshFor(trace, random)
    ensures LastUse(trace, Encode(random)) == None
  {
    var c := Encode(random);
    if LastUse(trace, c).Some? {
      UseGoesBackToLogin(cfg, trace, c);
      var j: nat :| IssuedAt(cfg, trace, c, LastUse(trace, c).value.1, j);
      EncodeIsInjective(trace[j].event.random, random);
    }
  }

  lemma {:induction false} LastUseNext(trace: seq<Step>, e: Event, a: Answer, c: string)
    ensures LastUse(trace + [Step(e, a)], c) ==
            if (a.LoggedIn? && a.cookie == c) || (a.Granted? && e.request.cookie == c) then Some((e.now, a.user))
            else if a.LoggedOut? && e.request.cookie == c then None
            else LastUse(trace, c)
  {
    assert (trace + [Step(e, a)])[..|trace|] == trace;
  }

  lemma {:induction false} KnownNext(trace: seq<Step>, e: Event, a: Answer)
    requires GrantsAreKnown(trace)
    requires a.Granted? ==> var use := LastUse(trace, e.request.cookie); use.Some? && use.value.1 == a.user
    ensures GrantsAreKnown(trace + [Step(e, a)])
  {
    var trace' := trace + [Step(e, a)];
    assert trace'[..|trace|] == trace;
    assert forall i | 0 <= i < |trace| :: trace'[..i] == trace[..i] && trace'[i] == trace[i];
  }

  lemma {:induction false} StepKeepsMatch(cfg: Settings, s: State, trace: seq<Step>, e: Event)
    requires Matches(s, trace) && LoginsAreGenuine(cfg, trace) && GrantsAreKnown(trace) && s.cleanup <= e.now
    requires Handle(cfg, s, e).0.LoggedIn? ==> FreshFor(trace, e.random)
    ensures var (a, s') := Handle(cfg, s, e);
            var trace' := trace + [Step(e, a)];
            Matches(s', trace') && LoginsAreGenuine(cfg, trace') && GrantsAreKnown(trace') && s.cleanup <= s'.cleanup <= e.now
  {
    hide Encode, UrlDecode, NeedsUser, StripTrailingSlash, LastUse, GrantsAreKnown;
    var (a, s') := Handle(cfg, s, e);
    var trace' := trace + [Step(e, a)];
    SweepKeepsMatch(s, trace, e.now);
    EncodedLength(e.random);
    if a.LoggedIn? {
      FreshCookieIsUnused(cfg, trace, e.random);
    }
    KnownNext(trace, e, a);
    forall c ensures LastUse(trace', c) ==
            if (a.LoggedIn? && a.cookie == c) || (a.Granted? && e.request.cookie == c) then Some((e.now, a.user))
            else if a.LoggedOut? && e.request.cookie == c then None
            else LastUse(trace, c)
    {
      LastUseNext(trace, e, a, c);
    }
    EmptyIsNotIssued(cfg, trace);
  }

  lemma EmptyIsNotIssued(cfg: Settings, trace: seq<Step>)
    requires LoginsAreGenuine(cfg, trace) && GrantsAreKnown(trace)
    ensures LastUse(trace, "") == None
  {
    if LastUse(trace, "").Some? {
      UseGoesBackToLogin(cfg, trace, "");
    }
  }

  lemma {:induction false} RunMatches(cfg: Settings, start: nat, events: seq<Event>)
    requires ClockRuns(start, events) && FreshCookies(Run(cfg, start, events).1)
    ensures var (s, trace) := Run(cfg, start, events);
            && Matches(s, trace) && LoginsAreGenuine(cfg, trace) && GrantsAreKnown(trace)
            && start <= s.cleanup <= if events == [] then start else events[|events| - 1].now
  {
    if events != [] {
      var n := |events| - 1;
      var (s, trace) := Run(cfg, start, events[..n]);
      var whole := Run(cfg, start, events).1;
      assert trace == whole[..n];
      RunMatches(cfg, start, events[..n]);
      assert n > 0 ==> events[n - 1].now <= events[n].now;
      if Handle(cfg, s, events[n]).0.LoggedIn? {
        assert forall i | 0 <= i < n :: whole[i] == trace[i];
      }
      StepKeepsMatch(cfg, s, trace, events[n]);
    }
  }

  /** What decides about a guarded request at the end of a run: the cookie goes back to
      a login and has not been used for a logout since, and its last use was not found
      expired by a sweep. An accepted one was used at most twice the expiration time
      ago; one used within the expiration time is always accepted. */
  lemma {:induction false} SessionLifetime(cfg: Settings, start: nat, events: seq<Event>, e: Event)
    requires ClockRuns(start, events + [e]) && IsGuarded(cfg, e.request)
    requires FreshCookies(Run(cfg, start, events).1)
    ensures var (s, trace) := Run(cfg, start, events);
            var answer := Handle(cfg, s, e).0;
            var use := LastUse(trace, e.request.cookie);
            && (answer.Granted? <==> use.Some? && Swept(s, e.now, CACHE_EXPIRATION).cleanup <= use.value.0 + CACHE_EXPIRATION)
            && (answer.Granted? ==>
                  && answer.user == use.value.1
                  && e.now <= use.value.0 + 2 * CACHE_EXPIRATION
                  && exists j: nat :: IssuedAt(cfg, trace, e.request.cookie, answer.user, j))
            && (use.Some? && e.now <= use.value.0 + CACHE_EXPIRATION ==> answer == Granted(use.value.1))
  {
    var (s, trace) := Run(cfg, start, events);
    assert forall i | 0 <= i < |events| :: (events + [e])[i] == events[i];
    assert (events + [e])[|events|] == e;
    RunMatches(cfg, start, events);
    SweepKeepsMatch(s, trace, e.now);
    if LastUse(trace, e.request.cookie).Some? {
      UseGoesBackToLogin(cfg, trace, e.request.cookie);
    }
  }

  /** After a logout the cookie is refused until a login issues it again. */
  lemma {:induction false} LoggedOutIsRefused(cfg: Settings, start: nat, events: seq<Event>, e: Event)
    requires ClockRuns(start, events + [e]) && IsGuarded(cfg, e.request)
    requires FreshCookies(Run(cfg, start, events).1) && LastUse(Run(cfg, start, events).1, e.request.cookie) == None
    ensures Handle(cfg, Run(cfg, start, events).0, e).0 == Refused(cfg.redirect)
  {
    SessionLifetime(cfg, start, events, e);
  }

  /** The bound is reached: a session last used one second after the object was made is
      still accepted at twice the expiration time, if the one sweep since then came just
      before it would have expired. */
  lemma {:induction false} BoundIsReached(cfg: Settings, start: nat, login: Event, other: Event, late: Event)
    requires login.now == start + 1 && other.now == login.now + CACHE_EXPIRATION
    requires late.now == login.now + 2 * CACHE_EXPIRATION
    requires Handle(cfg, State(map[], start), login).0.LoggedIn?
    requires IsGuarded(cfg, other.request) && other.request.cookie == ""
    requires IsGuarded(cfg, late.request) && late.request.cookie == Encode(login.random)
    ensures Handle(cfg, Run(cfg, start, [login, other]).0, late).0 == Granted(Handle(cfg, State(map[], start), login).0.user)
  {
    hide IsGuarded;
    var s0 := State(map[], start);
    assert [login, other][..1] == [login] && [login][..0] == [];
    var s1 := Handle(cfg, s0, login).1;
    assert Run(cfg, start, [login]).0 == s1;
    assert Run(cfg, start, [login, other]).0 == Handle(cfg, s1, other).1;
    EncodedLength(login.random);
    assert !IsLoginPage(cfg, other.request) && !IsLoginPage(cfg, late.request) by {
      GuardedIsNoLogin(cfg, other.request);
      GuardedIsNoLogin(cfg, late.request);
    }
  }

  lemma {:induction false} GuardedIsNoLogin(cfg: Settings, q: Request)
    requires IsGuarded(cfg, q)
    ensures !IsLoginPage(cfg, q)
  {
  }

  // ------------------------------------------------------------------ the object

  class HttpCookieAuth {
    const auth: HttpAuth
    const login: string
    const logout: string
    const redirect: string
    var userCache: Cache
    var cacheCleanupTime: nat

    ghost predicate Valid()
      reads this, auth
    {
      auth.Valid()
    }

    ghost function Cfg(): Settings
      reads this, auth
    {
      Settings(auth.Settings(), login, logout, redirect)
    }

    ghost function View(): State
      reads this
    {
      State(userCache, cacheCleanupTime)
    }

    constructor (auth: HttpAuth, login: string, logout: string, redirect: string, now: nat)
      ensures this.auth == auth && Cfg() == Settings(auth.Settings(), login, logout, redirect)
      ensures View() == State(map[], now)
    {
      this.auth, this.login, this.logout, this.redirect := auth, login, logout, redirect;
      userCache, cacheCleanupTime := map[], now;
    }

    method ExpireCache(now: nat)
      modifies this`userCache, this`cacheCleanupTime
      ensures View() == Swept(old(View()), now, CACHE_EXPIRATION)
    {
      if now > cacheCleanupTime + CACHE_EXPIRATION {
        userCache := RemoveExpired(userCache, now, CACHE_EXPIRATION);
        cacheCleanupTime := now;
      }
    }

    method ProcessLogin(q: Request, now: nat, random: Random) returns (processed: bool, answer: Answer)
      requires Valid()
      modifies this`userCache
      ensures processed <==> IsLoginPage(Cfg(), q)
      ensures processed ==> (answer, View()) == LoginOutcome(Cfg(), old(View()), Event(q, now, random))
      ensures !processed ==> View() == old(View())
    {
      answer := Open;
      var resource := StripTrailingSlash(q.resource);
      if resource != login && resource != logout {
        return false, answer;
      }
      if resource == login {
        var user := FindUser(auth.users, UrlDecode(q.user), UrlDecode(q.pass));
        if user == None {
          return true, Refused(redirect);
        }
        var newCookie := EncodeBase64(random);
        if newCookie !in userCache {
          userCache := userCache[newCookie := (now, user.value)];
        }
        answer := LoggedIn(user.value, newCookie, UrlDecode(q.url));
      } else {
        assert q.cookie !in userCache ==> userCache - {q.cookie} == userCache;
        if q.cookie != "" && q.cookie in userCache {
          userCache := userCache - {q.cookie};
        }
        answer := LoggedOut(UrlDecode(q.url));
      }
      processed := true;
    }

    method HandleRequest(q: Request, now: nat, random: Random) returns (answer: Answer)
      requires Valid()
      modifies this`userCache, this`cacheCleanupTime
      ensures (answer, View()) == Handle(Cfg(), old(View()), Event(q, now, random))
    {
      var processed;
      processed, answer := ProcessLogin(q, now, random);
      if processed {
        return;
      }
      var needed := auth.NeedAuthentication(q.resource);
      if !needed || (redirect != "" && redirect == q.resource) {
        return Open;
      }
      ExpireCache(now);
      if q.cookie != "" && q.cookie in userCache {
        answer := Granted(userCache[q.cookie].1);
        userCache := userCache[q.cookie := (now, userCache[q.cookie].1)];
      } else {
        answer := Refused(redirect);
      }
    }
  }
}
