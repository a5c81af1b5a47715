/** HTTPServer: registered resources, redirects and the choice of a request handler. */
module HttpServer {
  import opened HttpTypes
  import opened ResourceMap

  const MAX_REDIRECTS := 10

  /** The resource after n redirects; it stays once there is no further redirect. */
  function Redirected(redirects: map<string, string>, resource: string, n: nat): string
    decreases n
  {
    if n == 0 || resource !in redirects then resource
    else Redirected(redirects, redirects[resource], n - 1)
  }

  lemma {:induction false} RedirectedOnce(redirects: map<string, string>, resource: string, n: nat)
    requires Redirected(redirects, resource, n) in redirects
    ensures Redirected(redirects, resource, n + 1) == redirects[Redirected(redirects, resource, n)]
    decreases n
  {
    if n > 0 && resource in redirects {
      RedirectedOnce(redirects, redirects[resource], n - 1);
    }
  }

  lemma {:induction false} RedirectsEnd(redirects: map<string, string>, resource: string, m: nat, n: nat)
    requires m <= n && Redirected(redirects, resource, m) !in redirects
    ensures Redirected(redirects, resource, n) == Redirected(redirects, resource, m)
    decreases m
  {
    if m > 0 && resource in redirects {
      RedirectsEnd(redirects, redirects[resource], m - 1, n - 1);
    }
  }

  /** A redirect cycle is always refused: from a resource on it, no number of steps
      leads out. */
  lemma {:induction false} CyclesAreRefused(redirects: map<string, string>, resource: string, period: nat, n: nat)
    requires period > 0 && resource in redirects && Redirected(redirects, resource, period) == resource
    ensures Redirected(redirects, resource, n) in redirects
    decreases n
  {
    if n < period {
      if Redirected(redirects, resource, n) !in redirects {
        RedirectsEnd(redirects, resource, n, period);
      }
    } else {
      RedirectedSum(redirects, resource, period, n - period);
      CyclesAreRefused(redirects, resource, period, n - period);
    }
  }

  lemma {:induction false} RedirectedSum(redirects: map<string, string>, resource: string, m: nat, n: nat)
    ensures Redirected(redirects, resource, m + n) == Redirected(redirects, Redirected(redirects, resource, m), n)
    decreases m
  {
    if m > 0 && resource in redirects {
      RedirectedSum(redirects, redirects[resource], m - 1, n);
    }
  }

  class HttpServer<Handler(!new)> {
    /** The resource map, in key order. */
    var resources: seq<(string, Handler)>
    var redirects: map<string, string>

    ghost predicate Valid()
      reads this
    {
      Ascending(Keys(resources))
    }

    constructor ()
      ensures Valid() && resources == [] && redirects == map[]
    {
      resources, redirects := [], map[];
    }

    method AddResource(resource: string, handler: Handler)
      requires Valid()
      modifies this`resources
      ensures Valid()
      ensures forall r, h :: Holds(resources, r, h) <==>
              old(Holds(resources, r, h)) ||
              (r == StripTrailingSlash(resource) && h == handler && !Has(old(resources), StripTrailingSlash(resource)))
    {
      var clean := StripTrailingSlash(resource);
      InsertKeepsOrder(resources, clean, handler);
      forall r, h {
        InsertInserts(resources, clean, handler, r, h);
      }
      resources := Insert(resources, clean, handler);
    }

    method RemoveResource(resource: string)
      requires Valid()
      modifies this`resources
      ensures Valid()
      ensures forall r, h :: Holds(resources, r, h) <==> old(Holds(resources, r, h)) && r != StripTrailingSlash(resource)
    {
      EraseKeepsOrder(resources, StripTrailingSlash(resource));
      forall r, h {
        EraseErases(resources, StripTrailingSlash(resource), r, h);
      }
      resources := Erase(resources, StripTrailingSlash(resource));
    }

    /** insert() does not replace a redirect that is there already. */
    method AddRedirect(requested: string, target: string)
      modifies this`redirects
      ensures redirects == old(map[StripTrailingSlash(requested) := StripTrailingSlash(target)] + redirects)
    {
      var clean := StripTrailingSlash(requested);
      if clean !in redirects {
        redirects := redirects[clean := StripTrailingSlash(target)];
      }
    }

    /** The handler of the longest registered resource that covers the request. */
    method FindRequestHandler(request: string) returns (handler: Option<Handler>)
      requires Valid()
      ensures handler.None? <==> forall i | 0 <= i < |resources| :: !Covers(resources[i].0, request)
      ensures handler.Some? ==> exists k | 0 <= k < |resources| ::
                handler.value == resources[k].1 && IsLongestCover(Keys(resources), request, k)
    {
      if resources == [] {
        return None;
      }
      var i := UpperBound(Keys(resources), request);
      while i != 0
        invariant 0 <= i <= UpperBound(Keys(resources), request)
        invariant forall j | i <= j < UpperBound(Keys(resources), request) :: !Covers(resources[j].0, request)
      {
        i := i - 1;
        if resources[i].0 == [] || resources[i].0 <= request {
          if |request| == |resources[i].0| || request[|resources[i].0|] == '/' {
            LastCoverIsLongest(Keys(resources), request, i);
            return Some(resources[i].1);
          }
        }
      }
      NoCoverAtAll(Keys(resources), request);
      assert forall j | 0 <= j < |resources| :: Keys(resources)[j] == resources[j].0;
      return None;
    }

    /** The redirect loop of handleRequest: None when more than MAX_REDIRECTS would be
        followed, otherwise the resource that the last redirect leads to. */
    method FollowRedirects(request: string) returns (resource: Option<string>)
      ensures var start := StripTrailingSlash(request);
              var last := Redirected(redirects, start, MAX_REDIRECTS);
              resource == if last in redirects then None else Some(last)
    {
      var requested := StripTrailingSlash(request);
      var numRedirects := 0;
      while requested in redirects
        invariant numRedirects <= MAX_REDIRECTS
        invariant requested == Redirected(redirects, StripTrailingSlash(request), numRedirects)
        invariant numRedirects > 0 ==> Redirected(redirects, StripTrailingSlash(request), numRedirects - 1) in redirects
        decreases MAX_REDIRECTS - numRedirects
      {
        numRedirects := numRedirects + 1;
        if numRedirects > MAX_REDIRECTS {
          return None;
        }
        RedirectedOnce(redirects, StripTrailingSlash(request), numRedirects - 1);
        requested := redirects[requested];
      }
      RedirectsEnd(redirects, StripTrailingSlash(request), numRedirects, MAX_REDIRECTS);
      return Some(requested);
    }
  }
}
