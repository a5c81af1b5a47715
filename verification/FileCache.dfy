/** The file cache of FileService: how a GET or HEAD request is answered from memory or
    from disk, over runs in which files appear and change. */
module FileCache {
  import opened HttpTypes

  type Path = string

  /** A file on disk: its bytes and the time of its last change. */
  datatype OnDisk = OnDisk(content: string, modified: nat)

  type Disk = map<Path, OnDisk>

  /** The options of the service; date prints a time stamp. */
  datatype Options = Options(cache: nat, scan: nat, maxCacheSize: nat, date: nat -> string)
  {
    /** start() turns caching on when the cache is to be filled in advance. */
    function Cache(): nat { if cache == 0 && scan > 1 then 1 else cache }

    predicate Caches(size: nat) { maxCacheSize == 0 || size <= maxCacheSize }
  }

  /** DiskFile: the file's bytes unless they are not held in memory. A time stamp of zero
      marks an entry that has never been read. */
  datatype Entry = Entry(content: Option<string>, size: nat, modified: nat)

  const PLACEHOLDER := Entry(None, 0, 0)

  datatype Request = Request(path: Path, head: bool, ifModifiedSince: string)

  datatype Response =
    | NotFound
    | NotModified(modified: nat)
    | HeadOk(modified: nat)
    | FileOk(modified: nat, body: string)
    | ServerError

  /** update() without read(). */
  function Stat(f: OnDisk): Entry { Entry(None, |f.content|, f.modified) }

  /** read(), for an entry whose size and time are up to date. */
  function WithContent(e: Entry, f: OnDisk): Entry { e.(content := Some(f.content)) }

  /** What DiskFileSender sends for an entry. */
  function Body(e: Entry, f: OnDisk): string {
    if e.content.Some? then e.content.value[..Min(e.size, |e.content.value|)] else f.content[..Min(e.size, |f.content|)]
  }

  function Reply(o: Options, q: Request, e: Entry, f: OnDisk): Response {
    if o.date(e.modified) == q.ifModifiedSince then NotModified(e.modified)
    else if q.head then HeadOk(e.modified)
    else FileOk(e.modified, Body(e, f))
  }

  /** The entry for a request that finds one in the cache. */
  function Refreshed(o: Options, e: Entry, f: OnDisk): Entry {
    if e.modified == 0 then
      if o.Caches(|f.content|) then WithContent(Stat(f), f) else Stat(f)
    else if o.Cache() == 1 && !(f.modified == e.modified && |f.content| == e.size) then
      WithContent(Stat(f), f)
    else e
  }

  /** The cache branch of operator(): the response, and the cache afterwards. */
  function Serve(o: Options, disk: Disk, cache: map<Path, Entry>, q: Request): (Response, map<Path, Entry>) {
    if (o.Cache() > 0 || o.scan > 0) && q.path in cache then
      if q.path !in disk then (ServerError, cache)  // the source throws
      else if o.Cache() == 0 then (Reply(o, q, Stat(disk[q.path]), disk[q.path]), cache)
      else
        var e := Refreshed(o, cache[q.path], disk[q.path]);
        (Reply(o, q, e, disk[q.path]), cache[q.path := e])
    else if o.scan == 1 || o.scan == 3 then (NotFound, cache)
    else if q.path !in disk then (NotFound, cache)
    else
      var f := disk[q.path];
      var r := Reply(o, q, Stat(f), f);
      if r.FileOk? && o.Cache() != 0 then
        var e := if o.Caches(|f.content|) then WithContent(Stat(f), f) else Stat(f);
        (Reply(o, q, e, f), cache[q.path := e])
      else (r, cache)
  }

  /** addCacheEntry(): what is inserted for a file. */
  function NewEntry(o: Options, f: OnDisk): Entry {
    if o.scan == 1 then PLACEHOLDER
    else if o.Caches(|f.content|) then WithContent(Stat(f), f)
    else Stat(f)
  }

  /** start(): entries for all files, read at once unless the scan setting is 1. */
  function Start(o: Options, disk: Disk): map<Path, Entry> {
    if o.scan == 0 then map[] else map p | p in disk :: NewEntry(o, disk[p])
  }

  // ------------------------------------------------------------------ runs

  datatype Event = Asked(request: Request) | Changed(path: Path, file: OnDisk)

  function Responses(o: Options, disk: Disk, cache: map<Path, Entry>, events: seq<Event>): seq<Response>
    decreases |events|
  {
    if events == [] then []
    else
      match events[0]
      case Changed(p, f) => Responses(o, disk[p := f], cache, events[1..])
      case Asked(q) =>
        var (r, cache1) := Serve(o, disk, cache, q);
        [r] + Responses(o, disk, cache1, events[1..])
  }

  /** Size and time determine the bytes of every version of a file. */
  ghost predicate Stamped(version: (Path, nat, nat) -> string, p: Path, f: OnDisk) {
    f.content == version(p, |f.content|, f.modified)
  }

  ghost predicate DiskStamped(version: (Path, nat, nat) -> string, disk: Disk) {
    forall p <- disk :: Stamped(version, p, disk[p])
  }

  ghost predicate EventsStamped(version: (Path, nat, nat) -> string, events: seq<Event>) {
    forall i | 0 <= i < |events| :: events[i].Changed? ==> Stamped(version, events[i].path, events[i].file)
  }

  /** Every cached file exists, and bytes in memory belong to the entry's size and time. */
  ghost predicate CacheInv(version: (Path, nat, nat) -> string, disk: Disk, cache: map<Path, Entry>) {
    && cache.Keys <= disk.Keys
    && forall p <- cache :: cache[p].content.Some? ==>
         cache[p].content.value == version(p, cache[p].size, cache[p].modified) && |cache[p].content.value| == cache[p].size
  }

  /** The two caches hold the same paths when only those may be served. */
  ghost predicate SamePaths(o: Options, cache: map<Path, Entry>, cache': map<Path, Entry>) {
    o.scan > 0 ==> cache.Keys == cache'.Keys
  }

  lemma {:induction false} ServeAgrees(version: (Path, nat, nat) -> string, o: Options, disk: Disk,
                    cache: map<Path, Entry>, plain: map<Path, Entry>, q: Request)
    requires o.scan <= 1 && DiskStamped(version, disk)
    requires CacheInv(version, disk, cache) && CacheInv(version, disk, plain) && SamePaths(o, cache, plain)
    requires o.scan == 0 ==> plain == map[]
    ensures var on := Serve(o.(cache := 1), disk, cache, q);
            var off := Serve(o.(cache := 0), disk, plain, q);
            && on.0 == off.0 && off.1 == plain && !off.0.ServerError?
            && CacheInv(version, disk, on.1) && SamePaths(o, on.1, plain)
  {
    if q.path in disk {
      assert Stamped(version, q.path, disk[q.path]);
      var f := disk[q.path];
      assert f.content[..|f.content|] == f.content;
    }
  }

  /** Turning the cache on changes no response: neither status nor body, over any run of
      requests and changes in which no file is deleted. */
  lemma {:induction false} RunsAgree(version: (Path, nat, nat) -> string, o: Options, disk: Disk,
                                     cache: map<Path, Entry>, plain: map<Path, Entry>, events: seq<Event>)
    requires o.scan <= 1 && DiskStamped(version, disk) && EventsStamped(version, events)
    requires CacheInv(version, disk, cache) && CacheInv(version, disk, plain) && SamePaths(o, cache, plain)
    requires o.scan == 0 ==> plain == map[]
    ensures Responses(o.(cache := 1), disk, cache, events) == Responses(o.(cache := 0), disk, plain, events)
    decreases |events|
  {
    if events != [] {
      assert EventsStamped(version, events[1..]);
      match events[0] {
        case Changed(p, f) =>
          RunsAgree(version, o, disk[p := f], cache, plain, events[1..]);
        case Asked(q) =>
          ServeAgrees(version, o, disk, cache, plain, q);
          RunsAgree(version, o, disk, Serve(o.(cache := 1), disk, cache, q).1, plain, events[1..]);
      }
    }
  }

  lemma {:induction false} CacheIsTransparent(version: (Path, nat, nat) -> string, o: Options, disk: Disk, events: seq<Event>)
    requires DiskStamped(version, disk) && EventsStamped(version, events)
    ensures var on, off := o.(cache := 1), o.(cache := 0);
            Responses(on, disk, Start(on, disk), events) == Responses(off, disk, Start(off, disk), events)
  {
    var on, off := o.(cache := 1), o.(cache := 0);
    if o.scan <= 1 {
      RunsAgree(version, o, disk, Start(on, disk), Start(off, disk), events);
    } else {
      assert Start(on, disk) == Start(off, disk);
      SameOptions(on, off, disk, Start(on, disk), events);
    }
  }

  /** With a scan that fills the cache, the cache setting 0 means 1. */
  lemma {:induction false} SameOptions(on: Options, off: Options, disk: Disk, cache: map<Path, Entry>, events: seq<Event>)
    requires on.cache == 1 && off == on.(cache := 0) && on.scan > 1
    ensures Responses(on, disk, cache, events) == Responses(off, disk, cache, events)
    decreases |events|
  {
    if events != [] {
      match events[0] {
        case Changed(p, f) => SameOptions(on, off, disk[p := f], cache, events[1..]);
        case Asked(q) => SameOptions(on, off, disk, Serve(on, disk, cache, q).1, events[1..]);
      }
    }
  }

  function CacheAfter(o: Options, disk: Disk, cache: map<Path, Entry>, events: seq<Event>): map<Path, Entry>
    decreases |events|
  {
    if events == [] then cache
    else
      match events[0]
      case Changed(p, f) => CacheAfter(o, disk[p := f], cache, events[1..])
      case Asked(q) => CacheAfter(o, disk, Serve(o, disk, cache, q).1, events[1..])
  }

  /** The answer that a file deserves: not modified exactly if its date is the one the client
      names, and else its bytes, unless only the headers are asked for. */
  ghost predicate Deserved(o: Options, f: OnDisk, q: Request, r: Response) {
    var date := o.date(f.modified);
    && (r.NotModified? <==> date == q.ifModifiedSince)
    && (r.HeadOk? <==> date != q.ifModifiedSince && q.head)
    && (r.FileOk? <==> date != q.ifModifiedSince && !q.head)
    && (r.NotModified? || r.HeadOk? || r.FileOk? ==> r.modified == f.modified)
    && (r.FileOk? ==> r.body == f.content)
  }

  /** Every request is answered for the file as it is on disk at that time; with scan
      setting 1 or 3, only if the file was listed at the start. */
  ghost predicate Current(o: Options, disk: Disk, listed: set<Path>, events: seq<Event>, rs: seq<Response>)
    decreases |events|
  {
    if events == [] then rs == []
    else
      match events[0]
      case Changed(p, f) => Current(o, disk[p := f], listed, events[1..], rs)
      case Asked(q) =>
        && rs != []
        && (if q.path in disk && (o.scan == 1 || o.scan == 3 ==> q.path in listed) then Deserved(o, disk[q.path], q, rs[0])
            else rs[0] == NotFound)
        && Current(o, disk, listed, events[1..], rs[1..])
  }

  lemma {:induction false} ServeIsCurrent(version: (Path, nat, nat) -> string, o: Options, disk: Disk,
                                          cache: map<Path, Entry>, q: Request)
    requires o.Cache() <= 1 && DiskStamped(version, disk) && CacheInv(version, disk, cache)
    ensures var (r, cache1) := Serve(o, disk, cache, q);
            && (if q.path in disk && (o.scan == 1 || o.scan == 3 ==> q.path in cache) then Deserved(o, disk[q.path], q, r)
                else r == NotFound)
            && CacheInv(version, disk, cache1) && (o.scan == 1 || o.scan == 3 ==> cache1.Keys == cache.Keys)
  {
    if q.path in disk {
      assert Stamped(version, q.path, disk[q.path]);
      var f := disk[q.path];
      assert f.content[..|f.content|] == f.content;
    }
  }

  /** From the start of the service on, with cache setting 0 or 1, every answer over any run
      is the one that the file on disk deserves at that time. */
  lemma {:induction false} AnswersAreCurrent(version: (Path, nat, nat) -> string, o: Options, disk: Disk, events: seq<Event>)
    requires o.cache <= 1 && DiskStamped(version, disk) && EventsStamped(version, events)
    ensures Current(o, disk, disk.Keys, events, Responses(o, disk, Start(o, disk), events))
  {
    RunIsCurrent(version, o, disk, Start(o, disk), disk.Keys, events);
  }

  lemma {:induction false} RunIsCurrent(version: (Path, nat, nat) -> string, o: Options, disk: Disk,
                                        cache: map<Path, Entry>, listed: set<Path>, events: seq<Event>)
    requires o.cache <= 1 && DiskStamped(version, disk) && EventsStamped(version, events) && CacheInv(version, disk, cache)
    requires o.scan == 1 || o.scan == 3 ==> cache.Keys == listed
    ensures Current(o, disk, listed, events, Responses(o, disk, cache, events))
    decreases |events|
  {
    hide Deserved, Stamped, CacheInv;
    if events != [] {
      EventsStampedParts(version, events);
      match events[0] {
        case Changed(p, f) =>
          ChangeKeepsCache(version, disk, cache, p, f);
          RunIsCurrent(version, o, disk[p := f], cache, listed, events[1..]);
        case Asked(q) =>
          ServeIsCurrent(version, o, disk, cache, q);
          RunIsCurrent(version, o, disk, Serve(o, disk, cache, q).1, listed, events[1..]);
          assert Responses(o, disk, cache, events)[1..] == Responses(o, disk, Serve(o, disk, cache, q).1, events[1..]);
      }
    }
  }

  lemma EventsStampedParts(version: (Path, nat, nat) -> string, events: seq<Event>)
    requires events != [] && EventsStamped(version, events)
    ensures EventsStamped(version, events[1..])
    ensures events[0].Changed? ==> Stamped(version, events[0].path, events[0].file)
  {
  }

  lemma {:induction false} ChangeKeepsCache(version: (Path, nat, nat) -> string, disk: Disk, cache: map<Path, Entry>, p: Path, f: OnDisk)
    requires CacheInv(version, disk, cache)
    ensures CacheInv(version, disk[p := f], cache)
  {
  }

  /** With cache setting 2 a file that is held in memory stays as it was read: whatever
      happens on disk, it is what requests for it are answered with. */
  lemma {:induction false} HeldForGood(o: Options, disk: Disk, cache: map<Path, Entry>, events: seq<Event>, q: Request)
    requires o.cache > 1 && q.path in cache && q.path in disk
    requires var e := cache[q.path]; e.modified != 0 && e.content.Some? && |e.content.value| == e.size
    ensures var (disk1, cache1) := (DiskAfter(disk, events), CacheAfter(o, disk, cache, events));
            && q.path in disk1 && q.path in cache1 && cache1[q.path] == cache[q.path]
            && Deserved(o, OnDisk(cache[q.path].content.value, cache[q.path].modified), q, Serve(o, disk1, cache1, q).0)
    decreases |events|
  {
    if events == [] {
      var text := cache[q.path].content.value;
      assert text[..|text|] == text;
    } else {
      hide Deserved;
      match events[0] {
        case Changed(p, f) => HeldForGood(o, disk[p := f], cache, events[1..], q);
        case Asked(other) => HeldForGood(o, disk, Serve(o, disk, cache, other).1, events[1..], q);
      }
    }
  }

  function DiskAfter(disk: Disk, events: seq<Event>): Disk
    decreases |events|
  {
    if events == [] then disk
    else DiskAfter(match events[0] case Changed(p, f) => disk[p := f] case Asked(_) => disk, events[1..])
  }

  /** What start() reads: nothing with scan setting 1, else every file within the limit. */
  lemma {:induction false} StartReads(o: Options, disk: Disk, p: Path)
    requires o.scan > 0 && p in disk
    ensures p in Start(o, disk)
    ensures Start(o, disk)[p].content ==
            if o.scan > 1 && (o.maxCacheSize == 0 || |disk[p].content| <= o.maxCacheSize) then Some(disk[p].content) else None
  {
  }

  ghost predicate WithinLimit(o: Options, cache: map<Path, Entry>) {
    forall p | p in cache && cache[p].content.Some? :: |cache[p].content.value| <= o.maxCacheSize
  }

  /** Unless changed files are read again, no file above the limit is ever held. */
  lemma {:induction false} LimitIsKept(o: Options, disk: Disk, cache: map<Path, Entry>, events: seq<Event>)
    requires o.Cache() != 1 && o.maxCacheSize > 0 && WithinLimit(o, cache)
    ensures WithinLimit(o, CacheAfter(o, disk, cache, events))
    decreases |events|
  {
    if events != [] {
      match events[0] {
        case Changed(p, f) => LimitIsKept(o, disk[p := f], cache, events[1..]);
        case Asked(q) => LimitIsKept(o, disk, Serve(o, disk, cache, q).1, events[1..]);
      }
    }
  }

  /** A request with cache setting 1 holds a file above the limit exactly if it held it
      before, or the file has changed since it was first read. */
  lemma {:induction false} LimitIsPassedExactlyWhen(o: Options, disk: Disk, cache: map<Path, Entry>, q: Request)
    requires o.Cache() == 1 && o.maxCacheSize > 0 && q.path in disk && q.path in cache
    ensures var (e, f, e') := (cache[q.path], disk[q.path], Serve(o, disk, cache, q).1[q.path]);
            e'.content.Some? && |e'.content.value| > o.maxCacheSize <==>
            e.modified != 0 && if (f.modified, |f.content|) == (e.modified, e.size)
                               then e.content.Some? && |e.content.value| > o.maxCacheSize else |f.content| > o.maxCacheSize
  {
  }

  /** With scan setting 1 or 3 no path is ever added after the start. */
  lemma {:induction false} PathsAreFixed(o: Options, disk: Disk, cache: map<Path, Entry>, events: seq<Event>)
    requires o.scan == 1 || o.scan == 3
    ensures CacheAfter(o, disk, cache, events).Keys == cache.Keys
    decreases |events|
  {
    if events != [] {
      match events[0] {
        case Changed(p, f) => PathsAreFixed(o, disk[p := f], cache, events[1..]);
        case Asked(q) => PathsAreFixed(o, disk, Serve(o, disk, cache, q).1, events[1..]);
      }
    }
  }

  /** Exactly when a request that finds a file in memory is answered as from disk: the
      file's size or time has changed since, or its bytes have not. */
  lemma {:induction false} HitIsRightExactlyWhen(o: Options, disk: Disk, cache: map<Path, Entry>, q: Request)
    requires o.scan <= 1 && q.path in cache && q.path in disk && !q.head
    requires var e := cache[q.path]; e.modified != 0 && e.content.Some? && |e.content.value| == e.size
    requires o.date(disk[q.path].modified) != q.ifModifiedSince
    ensures Serve(o.(cache := 1), disk, cache, q).0 == Serve(o.(cache := 0), disk, map[q.path := PLACEHOLDER], q).0
            <==> var e, f := cache[q.path], disk[q.path];
                 f.modified != e.modified || |f.content| != e.size || f.content == e.content.value
  {
    var e, f := cache[q.path], disk[q.path];
    assert f.content[..|f.content|] == f.content;
    assert e.content.value[..e.size] == e.content.value;
    var plain := map[q.path := PLACEHOLDER];
    assert o.scan == 0 ==> Serve(o.(cache := 0), disk, plain, q).0 == Reply(o, q, Stat(f), f);
  }

  /** A file is asked for, replaced and asked for again. */
  function Replaced(q: Request, f: OnDisk): seq<Event> { [Asked(q), Changed(q.path, f), Asked(q)] }

  /** The answer that the file on disk deserves. */
  function Fresh(o: Options, disk: Disk, q: Request): Response
    requires q.path in disk
  {
    Reply(o, q, Stat(disk[q.path]), disk[q.path])
  }

  lemma {:induction false} AnswersToReplaced(o: Options, disk: Disk, cache: map<Path, Entry>, q: Request, f: OnDisk)
    ensures var (first, cache1) := Serve(o, disk, cache, q);
            Responses(o, disk, cache, Replaced(q, f)) == [first, Serve(o, disk[q.path := f], cache1, q).0]
  {
    var (events, (first, cache1)) := (Replaced(q, f), Serve(o, disk, cache, q));
    assert events[1..] == [Changed(q.path, f), Asked(q)] && events[1..][1..] == [Asked(q)];
    assert Responses(o, disk, cache1, events[1..]) == Responses(o, disk[q.path := f], cache1, [Asked(q)]);
    assert Responses(o, disk[q.path := f], cache1, [Asked(q)]) == [Serve(o, disk[q.path := f], cache1, q).0];
  }

  /** Where the assumption of CacheIsTransparent is needed, for every scan setting: after a
      start with cache setting 1 the second answer is stale exactly if the old bytes were
      held in memory and the new file has their size and time but other bytes. */
  lemma {:induction false} StaleExactlyWhen(o: Options, disk: Disk, q: Request, f: OnDisk)
    requires o.Cache() == 1 && q.path in disk && !q.head
    requires o.date(disk[q.path].modified) != q.ifModifiedSince && o.date(f.modified) != q.ifModifiedSince
    ensures Responses(o, disk, Start(o, disk), Replaced(q, f)) == [Fresh(o, disk, q), Fresh(o, disk[q.path := f], q)] <==>
            var was := disk[q.path];
            || was.modified == 0 || !o.Caches(|was.content|)
            || f.modified != was.modified || |f.content| != |was.content| || f.content == was.content
  {
    var was := disk[q.path];
    AnswersToReplaced(o, disk, Start(o, disk), q, f);
    assert was.content[..|was.content|] == was.content && f.content[..|f.content|] == f.content;
  }

  /** With cache setting 0 both answers are always fresh. */
  lemma {:induction false} UncachedIsFresh(o: Options, disk: Disk, q: Request, f: OnDisk)
    requires o.Cache() == 0 && q.path in disk
    ensures Responses(o, disk, Start(o, disk), Replaced(q, f)) == [Fresh(o, disk, q), Fresh(o, disk[q.path := f], q)]
  {
    AnswersToReplaced(o, disk, Start(o, disk), q, f);
  }
}
