/** HTTPAuth: which requests need a user, decided by two sets of resources. */
module HttpAuth {
  import opened HttpTypes
  import opened ResourceMap

  /** A user record, by number. */
  type User = nat

  /** The settings of an authentication object: its users by name and password, and its
      lists of restricted and freely accessible resources. */
  datatype Access = Access(users: map<string, (string, User)>, restricted: set<string>, permitted: set<string>)

  /** PionUserManager::getUser. */
  function FindUser(users: map<string, (string, User)>, name: string, password: string): Option<User> {
    if name in users && users[name].0 == password then Some(users[name].1) else None
  }

  ghost predicate Listed(resources: set<string>, request: string) {
    exists r <- resources :: Covers(r, request)
  }

  /** A request needs a user if users exist, it is under a restricted resource and it is
      not under a permitted one. */
  ghost predicate NeedsUser(a: Access, request: string) {
    && a.users != map[]
    && Listed(a.restricted, StripTrailingSlash(request))
    && !Listed(a.permitted, StripTrailingSlash(request))
  }

  /** The request is for a resource of the list or for something below one. */
  lemma ListedExactlyWhen(resources: set<string>, request: string)
    ensures Listed(resources, request) <==>
            request in resources || exists r <- resources :: r + "/" <= request
  {
    forall r <- resources ensures Covers(r, request) <==> request == r || r + "/" <= request {
      if Covers(r, request) && request != r {
        assert request[..|r| + 1] == r + "/";
      }
    }
  }

  /** Who is let in without a user: everybody as long as there are no users; else what is
      not restricted, and what is permitted again. With or without a slash at its end, a
      resource is the same. */
  lemma NeedsUserExactlyWhen(a: Access, path: string)
    requires path == "" || path[|path| - 1] != '/'
    ensures NeedsUser(a, path + "/") == NeedsUser(a, path)
    ensures NeedsUser(a, path) <==>
            && |a.users| > 0
            && (path in a.restricted || exists r <- a.restricted :: r + "/" <= path)
            && path !in a.permitted && forall r <- a.permitted :: !(r + "/" <= path)
  {
    hide Listed;
    TrailingSlashIsIgnored(path);
    ListedExactlyWhen(a.restricted, path);
    ListedExactlyWhen(a.permitted, path);
  }

  /** The elements of an ordered set. */
  ghost function Members(keys: seq<string>): set<string> { set k | k in keys }

  function InsertKey(keys: seq<string>, key: string): seq<string> {
    if key in keys then keys
    else
      var n := UpperBound(keys, key);
      keys[..n] + [key] + keys[n..]
  }

  lemma InsertKeyInserts(keys: seq<string>, key: string)
    requires Ascending(keys)
    ensures Ascending(InsertKey(keys, key)) && Members(InsertKey(keys, key)) == Members(keys) + {key}
  {
    hide Less, UpperBound, Ascending;
    if key !in keys {
      var n := UpperBound(keys, key);
      forall i | 0 <= i < n ensures Less(keys[i], key) {
        LessIsTotal(keys[i], key);
      }
      forall i | n <= i < |keys| ensures Less(key, keys[i]) {
        AboveUpperBound(keys, key, i);
      }
      AscendingAround(keys, n, key);
      assert keys == keys[..n] + keys[n..];
      assert forall k :: k in InsertKey(keys, key) <==> k in keys || k == key;
    }
  }

  class HttpAuth {
    const users: map<string, (string, User)>
    var restrictList: seq<string>
    var whiteList: seq<string>

    ghost predicate Valid()
      reads this
    {
      Ascending(restrictList) && Ascending(whiteList)
    }

    ghost function Settings(): Access
      reads this
    {
      Access(users, Members(restrictList), Members(whiteList))
    }

    constructor (users: map<string, (string, User)>)
      ensures Valid() && Settings() == Access(users, {}, {})
    {
      this.users, restrictList, whiteList := users, [], [];
    }

    method AddRestrict(resource: string)
      requires Valid()
      modifies this`restrictList
      ensures Valid()
      ensures Settings() == old(Settings()).(restricted := old(Settings()).restricted + {StripTrailingSlash(resource)})
    {
      InsertKeyInserts(restrictList, StripTrailingSlash(resource));
      restrictList := InsertKey(restrictList, StripTrailingSlash(resource));
    }

    method AddPermit(resource: string)
      requires Valid()
      modifies this`whiteList
      ensures Valid()
      ensures Settings() == old(Settings()).(permitted := old(Settings()).permitted + {StripTrailingSlash(resource)})
    {
      InsertKeyInserts(whiteList, StripTrailingSlash(resource));
      whiteList := InsertKey(whiteList, StripTrailingSlash(resource));
    }

    method FindListed(keys: seq<string>, request: string) returns (found: bool)
      requires Ascending(keys)
      ensures found <==> Listed(Members(keys), request)
    {
      found := FindResource(keys, request);
      assert forall k :: k in Members(keys) <==> k in keys;
    }

    /** needAuthentication. */
    method NeedAuthentication(request: string) returns (needed: bool)
      requires Valid()
      ensures needed <==> NeedsUser(Settings(), request)
    {
      if users == map[] {
        return false;
      }
      var resource := StripTrailingSlash(request);
      if restrictList == [] {
        return false;
      }
      var restricted := FindListed(restrictList, resource);
      if restricted {
        if whiteList == [] {
          return true;
        }
        var permitted := FindListed(whiteList, resource);
        return !permitted;
      }
      return false;
    }
  }
}
