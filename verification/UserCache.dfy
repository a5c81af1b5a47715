/** The table of remembered users that both authentication objects keep, and its sweep. */
module UserCache {
  import opened HttpAuth

  type Cache = map<string, (nat, User)>

  /** The table, and the time of the last sweep. */
  datatype State = State(cache: Cache, cleanup: nat)

  predicate Expired(entry: (nat, User), now: nat, expiration: nat) { now > entry.0 + expiration }

  /** At most one sweep per expiration time. */
  function Swept(s: State, now: nat, expiration: nat): State {
    if now > s.cleanup + expiration then
      State(map c | c in s.cache && !Expired(s.cache[c], now, expiration) :: s.cache[c], now)
    else s
  }

  method RemoveExpired(cache: Cache, now: nat, expiration: nat) returns (kept: Cache)
    ensures kept == map c | c in cache && !Expired(cache[c], now, expiration) :: cache[c]
  {
    kept := cache;
    var next := cache.Keys;
    while next != {}
      invariant next <= cache.Keys
      invariant kept == map c | c in cache && (c in next || !Expired(cache[c], now, expiration)) :: cache[c]
    {
      var i :| i in next;
      next := next - {i};
      if now > kept[i].0 + expiration {
        kept := kept - {i};
      }
    }
  }
}
