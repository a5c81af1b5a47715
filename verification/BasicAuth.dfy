/** HTTPBasicAuth: user names and passwords in the Authorization header, remembered in a
    cache that is keyed by the encoded credentials. */
module BasicAuth {
  import opened HttpTypes
  import opened HttpAuth
  import opened Base64
  import opened UserCache

  const CACHE_EXPIRATION := 300

  datatype Event = Event(resource: string, authorization: string, now: nat)

  datatype Answer = Open | Granted(user: User) | Refused

  function ParseAuthorization(authorization: string): Option<string> {
    if "Basic " <= authorization && |authorization| > 6 then Some(authorization[6..]) else None
  }

  /** std::string::find; the length of s if there is no such character. */
  function Find(s: string, c: char): (i: nat)
    ensures i <= |s| && (i < |s| ==> s[i] == c)
    ensures forall j | 0 <= j < i :: s[j] != c
  {
    if s == [] || s[0] == c then 0 else 1 + Find(s[1..], c)
  }

  function ParseCredentials(credentials: string): Option<(string, string)> {
    var d := Decode(credentials);
    if !d.ok then None
    else
      var i := Find(d.bytes, ':');
      if i == 0 || i == |d.bytes| then None else Some((d.bytes[..i], d.bytes[i + 1..]))
  }

  /** What a client sends for a name and a password. */
  function Authorization(name: string, password: string): string
    requires AllBytes(name) && AllBytes(password)
  {
    "Basic " + Encode(name + ":" + password)
  }

  /** A header made for a name and a password is read as that name and that password
      exactly when the name is not empty and has no colon. */
  lemma CredentialsReadBack(name: string, password: string)
    requires AllBytes(name) && AllBytes(password)
    ensures var c := ParseAuthorization(Authorization(name, password));
            (c.Some? && ParseCredentials(c.value) == Some((name, password))) <==> name != "" && ':' !in name
  {
    hide Decode, Encode;
    var text := name + ":" + password;
    var header := Authorization(name, password);
    DecodeUndoesEncode(text);
    EncodedLength(text);
    assert header[6..] == Encode(text);
    var i := Find(text, ':');
    assert text[|name|] == ':';
    if ':' in name {
      var k :| 0 <= k < |name| && name[k] == ':';
      assert text[k] == ':';
    } else {
      assert text[..i] == name && text[i + 1..] == password;
    }
  }

  /** Decoding the credentials and asking the user manager, without a cache. */
  function Check(users: map<string, (string, User)>, credentials: string): Option<User> {
    var p := ParseCredentials(credentials);
    if p.None? then None else FindUser(users, p.value.0, p.value.1)
  }

  ghost function HandleUncached(access: Access, e: Event): Answer {
    if !NeedsUser(access, e.resource) then Open
    else
      var c := ParseAuthorization(e.authorization);
      if c.None? || Check(access.users, c.value).None? then Refused else Granted(Check(access.users, c.value).value)
  }

  /** handleRequest after the sweep. */
  function LookUp(users: map<string, (string, User)>, s: State, e: Event): (Answer, State) {
    var c := ParseAuthorization(e.authorization);
    if c.None? then (Refused, s)
    else if c.value in s.cache then
      (Granted(s.cache[c.value].1), s.(cache := s.cache[c.value := (e.now, s.cache[c.value].1)]))
    else
      var user := Check(users, c.value);
      if user.None? then (Refused, s)
      else (Granted(user.value), s.(cache := s.cache[c.value := (e.now, user.value)]))
  }

  /** handleRequest. */
  ghost function Handle(access: Access, s: State, e: Event): (Answer, State) {
    if !NeedsUser(access, e.resource) then (Open, s) else LookUp(access.users, Swept(s, e.now, CACHE_EXPIRATION), e)
  }

  ghost function Answers(access: Access, s: State, events: seq<Event>): seq<Answer>
    decreases |events|
  {
    if events == [] then []
    else
      var (answer, s') := Handle(access, s, events[0]);
      [answer] + Answers(access, s', events[1..])
  }

  ghost function AnswersUncached(access: Access, events: seq<Event>): seq<Answer> {
    if events == [] then [] else [HandleUncached(access, events[0])] + AnswersUncached(access, events[1..])
  }

  /** Cached credentials still name the user they are cached with. */
  ghost predicate Genuine(users: map<string, (string, User)>, s: State) {
    forall c | c in s.cache :: Check(users, c) == Some(s.cache[c].1)
  }

  lemma {:induction false} HandleAgrees(access: Access, s: State, e: Event)
    requires Genuine(access.users, s)
    ensures Handle(access, s, e).0 == HandleUncached(access, e)
    ensures Genuine(access.users, Handle(access, s, e).1)
  {
    hide ParseAuthorization, Check, NeedsUser;
  }

  /** The cache changes no answer, over any run of requests with the same users, however
      the clock behaves. */
  lemma {:induction false} CacheIsTransparent(access: Access, s: State, events: seq<Event>)
    requires Genuine(access.users, s)
    ensures Answers(access, s, events) == AnswersUncached(access, events)
    decreases |events|
  {
    if events != [] {
      HandleAgrees(access, s, events[0]);
      CacheIsTransparent(access, Handle(access, s, events[0]).1, events[1..]);
    }
  }

  /** The header presents a name and a password: it holds their encoded form. */
  ghost predicate Presents(authorization: string, name: string, password: string) {
    && name != "" && ':' !in name
    && "Basic " < authorization && Decode(authorization[6..]) == Decoded(true, name + ":" + password)
  }

  lemma PresentedIsParsed(authorization: string, name: string, password: string)
    ensures Presents(authorization, name, password) <==>
            var c := ParseAuthorization(authorization); c.Some? && ParseCredentials(c.value) == Some((name, password))
  {
    hide Decode;
    var c := ParseAuthorization(authorization);
    if c.Some? && Decode(c.value).ok {
      var text := Decode(c.value).bytes;
      var i := Find(text, ':');
      if i < |text| {
        assert text == text[..i] + ":" + text[i + 1..];
      }
      if text == name + ":" + password && ':' !in name {
        assert text[|name|] == ':' && text[i] == ':' && forall j | 0 <= j < |name| :: text[j] == name[j];
        assert text[..i] == name && text[i + 1..] == password;
      }
    }
  }

  /** In every run from an empty cache a guarded request is granted to a user exactly if its
      header presents a name and the password that the table has for it; any other guarded
      request is refused. */
  lemma {:induction false} GrantedExactlyWhen(access: Access, start: nat, events: seq<Event>, i: nat, user: User)
    requires i < |events| && NeedsUser(access, events[i].resource)
    ensures |Answers(access, State(map[], start), events)| == |events|
    ensures var answer := Answers(access, State(map[], start), events)[i];
            && (answer == Granted(user) <==>
                exists name | name in access.users ::
                  access.users[name].1 == user && Presents(events[i].authorization, name, access.users[name].0))
            && (answer.Granted? || answer == Refused)
  {
    hide ParseAuthorization, ParseCredentials, NeedsUser, Presents;
    var e := events[i];
    CacheIsTransparent(access, State(map[], start), events);
    UncachedAnswers(access, events, i);
    var c := ParseAuthorization(e.authorization);
    forall name | name in access.users
      ensures Presents(e.authorization, name, access.users[name].0) <==>
              c.Some? && ParseCredentials(c.value) == Some((name, access.users[name].0))
    {
      PresentedIsParsed(e.authorization, name, access.users[name].0);
    }
  }

  lemma {:induction false} UncachedAnswers(access: Access, events: seq<Event>, i: nat)
    requires i < |events|
    ensures |AnswersUncached(access, events)| == |events|
    ensures AnswersUncached(access, events)[i] == HandleUncached(access, events[i])
  {
    if i > 0 {
      UncachedAnswers(access, events[1..], i - 1);
    } else if |events| > 1 {
      UncachedAnswers(access, events[1..], 0);
    }
  }

  /** The header that a client makes for a name and a password opens a guarded resource
      exactly to the user that the table has under that name with that password. */
  lemma {:induction false} PasswordsDecide(access: Access, start: nat, events: seq<Event>, i: nat,
                                           name: string, password: string, user: User)
    requires i < |events| && NeedsUser(access, events[i].resource) && AllBytes(name) && AllBytes(password)
    requires name != "" && ':' !in name && events[i].authorization == Authorization(name, password)
    ensures |Answers(access, State(map[], start), events)| == |events|
    ensures var answer := Answers(access, State(map[], start), events)[i];
            && (answer == Granted(user) <==> name in access.users && access.users[name] == (password, user))
            && (answer.Granted? || answer == Refused)
  {
    hide ParseAuthorization, ParseCredentials, NeedsUser, Presents, Authorization, Answers;
    var e := events[i];
    GrantedExactlyWhen(access, start, events, i, user);
    CredentialsReadBack(name, password);
    PresentedIsParsed(e.authorization, name, password);
    forall n, p ensures Presents(e.authorization, n, p) <==> (n, p) == (name, password) {
      PresentedIsParsed(e.authorization, n, p);
    }
  }

  class HttpBasicAuth {
    const auth: HttpAuth
    var userCache: Cache
    var cacheCleanupTime: nat

    ghost function View(): State
      reads this
    {
      State(userCache, cacheCleanupTime)
    }

    constructor (auth: HttpAuth, now: nat)
      ensures this.auth == auth && View() == State(map[], now) && Genuine(auth.users, View())
    {
      this.auth, userCache, cacheCleanupTime := auth, map[], now;
    }

    method ExpireCache(now: nat)
      modifies this`userCache, this`cacheCleanupTime
      ensures View() == Swept(old(View()), now, CACHE_EXPIRATION)
    {
      if now > cacheCleanupTime + CACHE_EXPIRATION {
        userCache := RemoveExpired(userCache, now, CACHE_EXPIRATION);
        cacheCleanupTime := now;
      }
    }

    method HandleRequest(e: Event) returns (answer: Answer)
      requires auth.Valid()
      modifies this`userCache, this`cacheCleanupTime
      ensures (answer, View()) == Handle(auth.Settings(), old(View()), e)
      ensures old(Genuine(auth.users, View())) ==> answer == HandleUncached(auth.Settings(), e) && Genuine(auth.users, View())
    {
      hide ParseAuthorization, Check, NeedsUser;
      ghost var access, s := auth.Settings(), View();
      if Genuine(auth.users, s) {
        HandleAgrees(access, s, e);
      }
      var needed := auth.NeedAuthentication(e.resource);
      if !needed {
        return Open;
      }
      ExpireCache(e.now);
      answer := Authorize(e);
    }

    method Authorize(e: Event) returns (answer: Answer)
      modifies this`userCache
      ensures (answer, View()) == LookUp(auth.users, old(View()), e)
    {
      var credentials := ParseAuthorization(e.authorization);
      if credentials == None {
        return Refused;
      }
      if credentials.value in userCache {
        answer := Granted(userCache[credentials.value].1);
        userCache := userCache[credentials.value := (e.now, userCache[credentials.value].1)];
        return;
      }
      var pair := ReadCredentials(credentials.value);
      if pair.Some? {
        var user := FindUser(auth.users, pair.value.0, pair.value.1);
        if user.Some? {
          userCache := userCache[credentials.value := (e.now, user.value)];
          return Granted(user.value);
        }
      }
      return Refused;
    }

    /** parseCredentials. */
    method ReadCredentials(credentials: string) returns (pair: Option<(string, string)>)
      ensures pair == ParseCredentials(credentials)
    {
      var ok, userPassword := DecodeBase64(credentials);
      if !ok {
        return None;
      }
      var i := Find(userPassword, ':');
      if i == 0 || i == |userPassword| {
        return None;
      }
      return Some((userPassword[..i], userPassword[i + 1..]));
    }
  }
}
