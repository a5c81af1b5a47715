/** Ordered maps and sets of resources, and the backward scan that finds the registered
    resource a request belongs to. */
module ResourceMap {
  /** std::string's operator<. */
  predicate Less(a: string, b: string) {
    b != [] && (a == [] || a[0] < b[0] || (a[0] == b[0] && Less(a[1..], b[1..])))
  }

  lemma {:induction false} LessIsTotal(a: string, b: string)
    ensures Less(a, b) || Less(b, a) || a == b
    ensures !(Less(a, b) && Less(b, a)) && !Less(a, a)
  {
    if a != [] && b != [] {
      LessIsTotal(a[1..], b[1..]);
      assert a == [a[0]] + a[1..] && b == [b[0]] + b[1..];
    }
    if a != [] {
      LessIsTotal(a[1..], a[1..]);
    }
  }

  lemma {:induction false} LessIsTransitive(a: string, b: string, c: string)
    requires Less(a, b) && Less(b, c)
    ensures Less(a, c)
  {
    if a != [] && a[0] == b[0] == c[0] {
      LessIsTransitive(a[1..], b[1..], c[1..]);
    }
  }

  lemma {:induction false} PrefixIsLess(a: string, b: string)
    requires a <= b && a != b
    ensures Less(a, b)
  {
    if a != [] {
      assert a == [a[0]] + a[1..] && b == [b[0]] + b[1..];
      PrefixIsLess(a[1..], b[1..]);
    }
  }

  predicate Ascending(keys: seq<string>) {
    forall i, j | 0 <= i < j < |keys| :: Less(keys[i], keys[j])
  }

  /** upper_bound: the number of keys up to and including x. */
  function UpperBound(keys: seq<string>, x: string): (n: nat)
    ensures n <= |keys|
    ensures n < |keys| ==> Less(x, keys[n])
    ensures forall i | 0 <= i < n :: !Less(x, keys[i])
  {
    if keys == [] || Less(x, keys[0]) then 0 else 1 + UpperBound(keys[1..], x)
  }

  lemma AboveUpperBound(keys: seq<string>, x: string, i: nat)
    requires Ascending(keys) && UpperBound(keys, x) <= i < |keys|
    ensures Less(x, keys[i])
  {
    var n := UpperBound(keys, x);
    if n < i {
      LessIsTransitive(x, keys[n], keys[i]);
    }
  }

  /** The request is for the registered resource or for something below it. */
  predicate Covers(resource: string, request: string) {
    resource <= request && (|request| == |resource| || request[|resource|] == '/')
  }

  lemma CoversExactlyWhen(resource: string, request: string)
    ensures Covers(resource, request) <==> request == resource || exists below :: request == resource + "/" + below
  {
    if Covers(resource, request) && |request| > |resource| {
      assert request == resource + "/" + request[|resource| + 1..];
    }
  }

  lemma CoveringIsBelowUpperBound(keys: seq<string>, request: string, i: nat)
    requires Ascending(keys) && i < |keys| && keys[i] <= request
    ensures i < UpperBound(keys, request)
  {
    if UpperBound(keys, request) <= i {
      AboveUpperBound(keys, request, i);
      LessIsTotal(keys[i], request);
      if keys[i] != request {
        PrefixIsLess(keys[i], request);
      }
    }
  }

  /** Among the prefixes of one string, a later key is a longer one. */
  lemma LaterPrefixIsLonger(keys: seq<string>, request: string, i: nat, j: nat)
    requires Ascending(keys) && i < j < |keys| && keys[i] <= request && keys[j] <= request
    ensures |keys[i]| < |keys[j]|
  {
    if |keys[j]| <= |keys[i]| {
      assert keys[j] == request[..|keys[j]|] && keys[i] == request[..|keys[i]|];
      assert keys[j] <= keys[i];
      LessIsTotal(keys[i], keys[j]);
      if keys[i] != keys[j] {
        PrefixIsLess(keys[j], keys[i]);
      }
    }
  }

  /** The longest registered resource that covers the request. */
  predicate IsLongestCover(keys: seq<string>, request: string, k: nat) {
    && k < |keys| && Covers(keys[k], request)
    && forall i | 0 <= i < |keys| && i != k :: Covers(keys[i], request) ==> |keys[i]| < |keys[k]|
  }

  lemma LastCoverIsLongest(keys: seq<string>, request: string, k: nat)
    requires Ascending(keys) && k < UpperBound(keys, request) && Covers(keys[k], request)
    requires forall i | k < i < UpperBound(keys, request) :: !Covers(keys[i], request)
    ensures IsLongestCover(keys, request, k)
  {
    forall i | 0 <= i < |keys| && i != k && Covers(keys[i], request) ensures |keys[i]| < |keys[k]| {
      CoveringIsBelowUpperBound(keys, request, i);
      LaterPrefixIsLonger(keys, request, i, k);
    }
  }

  lemma NoCoverAtAll(keys: seq<string>, request: string)
    requires Ascending(keys)
    requires forall i | 0 <= i < UpperBound(keys, request) :: !Covers(keys[i], request)
    ensures forall i | 0 <= i < |keys| :: !Covers(keys[i], request)
  {
    forall i | 0 <= i < |keys| && Covers(keys[i], request) ensures false {
      CoveringIsBelowUpperBound(keys, request, i);
    }
  }

  /** HTTPServer::stripTrailingSlash. */
  function StripTrailingSlash(s: string): string {
    if s != [] && s[|s| - 1] == '/' then s[..|s| - 1] else s
  }

  /** A resource is the same with and without a slash at its end. */
  lemma TrailingSlashIsIgnored(s: string)
    requires s == "" || s[|s| - 1] != '/'
    ensures StripTrailingSlash(s) == s == StripTrailingSlash(s + "/")
  {
  }

  /** HTTPAuth::findResource. */
  method FindResource(keys: seq<string>, request: string) returns (found: bool)
    requires Ascending(keys)
    ensures found <==> exists i | 0 <= i < |keys| :: Covers(keys[i], request)
  {
    var i := UpperBound(keys, request);
    while i != 0
      invariant 0 <= i <= UpperBound(keys, request)
      invariant forall j | i <= j < UpperBound(keys, request) :: !Covers(keys[j], request)
    {
      i := i - 1;
      if keys[i] == [] || keys[i] <= request {
        if |request| == |keys[i]| || request[|keys[i]|] == '/' {
          return true;
        }
      }
    }
    NoCoverAtAll(keys, request);
    return false;
  }

  // ------------------------------------------------------- insertion and removal

  function Keys<V>(entries: seq<(string, V)>): (keys: seq<string>)
    ensures |keys| == |entries| && forall i | 0 <= i < |entries| :: keys[i] == entries[i].0
  {
    seq(|entries|, i requires 0 <= i < |entries| => entries[i].0)
  }

  function Has<V>(entries: seq<(string, V)>, key: string): bool {
    exists i | 0 <= i < |entries| :: entries[i].0 == key
  }

  ghost predicate Holds<V(!new)>(entries: seq<(string, V)>, key: string, value: V) {
    exists i | 0 <= i < |entries| :: entries[i] == (key, value)
  }

  /** std::map::insert: an existing key keeps its value. */
  function Insert<V>(entries: seq<(string, V)>, key: string, value: V): seq<(string, V)> {
    if Has(entries, key) then entries
    else
      var n := UpperBound(Keys(entries), key);
      entries[..n] + [(key, value)] + entries[n..]
  }

  /** A key put in between smaller and larger ones. */
  lemma AscendingAround(keys: seq<string>, n: nat, key: string)
    requires Ascending(keys) && n <= |keys|
    requires (forall i | 0 <= i < n :: Less(keys[i], key)) && forall i | n <= i < |keys| :: Less(key, keys[i])
    ensures Ascending(keys[..n] + [key] + keys[n..])
  {
    hide Less;
    var after := keys[..n] + [key] + keys[n..];
    forall i, j | 0 <= i < j < |after| ensures Less(after[i], after[j]) {
      var (k, l) := (if i < n then i else i - 1, if j < n then j else j - 1);
      assert i != n && j != n ==> after[i] == keys[k] && after[j] == keys[l];
    }
  }

  lemma InsertKnown<V>(entries: seq<(string, V)>, key: string, value: V)
    ensures Has(entries, key) ==> Insert(entries, key, value) == entries
  {
  }

  lemma KeysOfInsert<V>(entries: seq<(string, V)>, key: string, value: V)
    requires !Has(entries, key)
    ensures var (keys, n) := (Keys(entries), UpperBound(Keys(entries), key));
            Keys(Insert(entries, key, value)) == keys[..n] + [key] + keys[n..]
  {
    hide UpperBound;
  }

  lemma InsertKeepsOrder<V>(entries: seq<(string, V)>, key: string, value: V)
    requires Ascending(Keys(entries))
    ensures Ascending(Keys(Insert(entries, key, value)))
  {
    hide Less, UpperBound, Ascending, Insert;
    InsertKnown(entries, key, value);
    if !Has(entries, key) {
      var keys := Keys(entries);
      var n := UpperBound(keys, key);
      forall i | 0 <= i < n ensures Less(keys[i], key) {
        assert entries[i].0 == keys[i];
        LessIsTotal(keys[i], key);
      }
      forall i | n <= i < |keys| ensures Less(key, keys[i]) {
        AboveUpperBound(keys, key, i);
      }
      AscendingAround(keys, n, key);
      KeysOfInsert(entries, key, value);
    }
  }

  lemma InsertInserts<V(!new)>(entries: seq<(string, V)>, key: string, value: V, k: string, v: V)
    ensures Holds(Insert(entries, key, value), k, v) <==>
            Holds(entries, k, v) || (k == key && v == value && !Has(entries, key))
  {
    hide Less, UpperBound, Keys, Holds;
    HoldsNothing(k, v);
    if !Has(entries, key) {
      var n := UpperBound(Keys(entries), key);
      assert entries == entries[..n] + entries[n..];
      HoldsConcat(entries[..n], entries[n..], k, v);
      HoldsConcat(entries[..n] + [(key, value)], entries[n..], k, v);
      HoldsConcat(entries[..n], [(key, value)], k, v);
      HoldsSplit([(key, value)], k, v);
      assert [(key, value)][1..] == [];
    }
  }

  lemma HoldsConcat<V(!new)>(a: seq<(string, V)>, b: seq<(string, V)>, k: string, v: V)
    ensures Holds(a + b, k, v) <==> Holds(a, k, v) || Holds(b, k, v)
  {
    if Holds(a, k, v) {
      var i :| 0 <= i < |a| && a[i] == (k, v);
      assert (a + b)[i] == (k, v);
    }
    if Holds(b, k, v) {
      var i :| 0 <= i < |b| && b[i] == (k, v);
      assert (a + b)[|a| + i] == (k, v);
    }
    if Holds(a + b, k, v) {
      var i :| 0 <= i < |a + b| && (a + b)[i] == (k, v);
      assert i < |a| ==> a[i] == (k, v);
      assert i >= |a| ==> b[i - |a|] == (k, v);
    }
  }

  /** std::map::erase. */
  function Erase<V>(entries: seq<(string, V)>, key: string): seq<(string, V)> {
    if entries == [] then []
    else if entries[0].0 == key then entries[1..]
    else [entries[0]] + Erase(entries[1..], key)
  }

  /** Every entry left by an erasure was there before. */
  lemma {:induction false} EraseOnlyRemoves<V>(entries: seq<(string, V)>, key: string)
    ensures forall i | 0 <= i < |Erase(entries, key)| :: Erase(entries, key)[i] in entries
  {
    if entries != [] {
      EraseOnlyRemoves(entries[1..], key);
    }
  }

  lemma AscendingTail(keys: seq<string>)
    requires Ascending(keys) && keys != []
    ensures Ascending(keys[1..]) && forall i | 0 < i < |keys| :: Less(keys[0], keys[i])
  {
    hide Less;
  }

  lemma AscendingCons(first: string, keys: seq<string>)
    requires Ascending(keys) && forall i | 0 <= i < |keys| :: Less(first, keys[i])
    ensures Ascending([first] + keys)
  {
    hide Less;
  }

  lemma {:induction false} EraseKeepsOrder<V>(entries: seq<(string, V)>, key: string)
    requires Ascending(Keys(entries))
    ensures Ascending(Keys(Erase(entries, key)))
  {
    hide Less, Ascending;
    if entries != [] {
      var (keys, tail) := (Keys(entries), entries[1..]);
      assert Keys(tail) == keys[1..];
      AscendingTail(keys);
      if entries[0].0 != key {
        EraseKeepsOrder(tail, key);
        EraseOnlyRemoves(tail, key);
        var erased := Erase(tail, key);
        forall i | 0 <= i < |erased| ensures Less(keys[0], Keys(erased)[i]) {
          var j :| 0 <= j < |tail| && tail[j] == erased[i];
          assert keys[j + 1] == erased[i].0;
        }
        AscendingCons(keys[0], Keys(erased));
        assert Keys(Erase(entries, key)) == [keys[0]] + Keys(erased);
      }
    }
  }

  lemma {:induction false} EraseErases<V(!new)>(entries: seq<(string, V)>, key: string, k: string, v: V)
    requires Ascending(Keys(entries))
    ensures Holds(Erase(entries, key), k, v) <==> Holds(entries, k, v) && k != key
  {
    hide Less, Holds;
    HoldsNothing(k, v);
    if entries != [] {
      var (keys, tail) := (Keys(entries), entries[1..]);
      assert Keys(tail) == keys[1..];
      HoldsSplit(entries, k, v);
      if entries[0].0 == key {
        NotHeldLater(entries, v);
      } else {
        EraseErases(tail, key, k, v);
        assert Erase(entries, key)[1..] == Erase(tail, key);
        HoldsSplit(Erase(entries, key), k, v);
      }
    }
  }

  lemma HoldsNothing<V(!new)>(k: string, v: V)
    ensures !Holds([], k, v)
  {
  }

  lemma NotHeldLater<V(!new)>(entries: seq<(string, V)>, v: V)
    requires Ascending(Keys(entries)) && entries != []
    ensures !Holds(entries[1..], entries[0].0, v)
  {
    hide Less;
    if Holds(entries[1..], entries[0].0, v) {
      var i :| 0 <= i < |entries[1..]| && entries[1..][i] == (entries[0].0, v);
      assert Less(Keys(entries)[0], Keys(entries)[i + 1]);
      LessIsTotal(entries[0].0, entries[0].0);
    }
  }

  lemma HoldsSplit<V(!new)>(entries: seq<(string, V)>, k: string, v: V)
    requires entries != []
    ensures Holds(entries, k, v) <==> entries[0] == (k, v) || Holds(entries[1..], k, v)
  {
    if Holds(entries[1..], k, v) {
      var i :| 0 <= i < |entries[1..]| && entries[1..][i] == (k, v);
      assert entries[i + 1] == (k, v);
    }
    if Holds(entries, k, v) {
      var i :| 0 <= i < |entries| && entries[i] == (k, v);
      assert i > 0 ==> entries[1..][i - 1] == (k, v);
    }
  }
}
