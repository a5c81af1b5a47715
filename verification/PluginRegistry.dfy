/** Shared plug-in libraries and the handles that point to them, as values. Each operation
    below is one that PionPlugin performs under its mutex. */
module PluginRegistry {
  import opened HttpTypes

  datatype Library = Library(isStatic: bool, references: nat)

  /** Libraries by name, and for each handle the library it points to. */
  datatype Registry<!H> = Registry(libraries: map<string, Library>, handles: map<H, Option<string>>)

  function Users<H>(r: Registry<H>, name: string): set<H> {
    set h | h in r.handles && r.handles[h] == Some(name)
  }

  /** Every count is the number of handles that point to the library, every library
      pointed to is registered under its name, and only a static library stays
      registered when nothing points to it. */
  ghost predicate Consistent<H>(r: Registry<H>) {
    && (forall h | h in r.handles && r.handles[h].Some? :: r.handles[h].value in r.libraries)
    && (forall n | n in r.libraries :: r.libraries[n].references == |Users(r, n)|)
    && (forall n | n in r.libraries && r.libraries[n].references == 0 :: r.libraries[n].isStatic)
  }

  /** Why an operation has failed; PluginNotFound leaves the handle as it was. */
  datatype Outcome = Success | PluginNotFound | LoadFailed

  /** A handle that points to nothing comes into being. */
  function Create<H>(r: Registry<H>, h: H): Registry<H>
    requires h !in r.handles
  {
    r.(handles := r.handles[h := None])
  }

  /** releaseData. */
  function Release<H>(r: Registry<H>, h: H): Registry<H>
    requires h in r.handles && (r.handles[h].Some? ==> r.handles[h].value in r.libraries)
    requires r.handles[h].Some? ==> r.libraries[r.handles[h].value].references > 0
  {
    if r.handles[h].None? then r
    else
      var n := r.handles[h].value;
      var lib := r.libraries[n].(references := r.libraries[n].references - 1);
      Registry(if lib.references == 0 && !lib.isStatic then r.libraries - {n} else r.libraries[n := lib],
               r.handles[h := None])
  }

  /** The handle takes a reference. */
  function Attach<H>(r: Registry<H>, h: H, name: string): Registry<H>
    requires h in r.handles && name in r.libraries
  {
    var lib := r.libraries[name];
    Registry(r.libraries[name := lib.(references := lib.references + 1)], r.handles[h := Some(name)])
  }

  predicate CanRelease<H>(r: Registry<H>, h: H) {
    && h in r.handles
    && (r.handles[h].Some? ==>
          r.handles[h].value in r.libraries && r.libraries[r.handles[h].value].references > 0)
  }

  /** openFile; loads says whether the file is a plug-in library. */
  function OpenFile<H>(r: Registry<H>, h: H, name: string, loads: bool): (Outcome, Registry<H>)
    requires CanRelease(r, h)
  {
    var r1 := Release(r, h);
    if name in r1.libraries then (Success, Attach(r1, h, name))
    else if !loads then (LoadFailed, r1)
    else (Success, Attach(r1.(libraries := r1.libraries[name := Library(false, 0)]), h, name))
  }

  /** open; found is the plug-in name of the library file that a search for the given
      name comes up with. A handle that is not empty may only ask for a name that is not
      registered: the source would wait for its own mutex otherwise. */
  function Open<H>(r: Registry<H>, h: H, name: string, found: Option<string>, loads: bool): (Outcome, Registry<H>)
    requires CanRelease(r, h) && (r.handles[h].Some? ==> name !in r.libraries)
  {
    if name in r.libraries then (Success, Attach(r, h, name))
    else if found.None? then (PluginNotFound, r)
    else OpenFile(r, h, found.value, loads)
  }

  /** grabData: copies what another handle points to. Grabbing from itself releases the
      library and leaves the handle empty. */
  function Grab<H>(r: Registry<H>, h: H, from: H): Registry<H>
    requires CanRelease(r, h) && from in r.handles
    requires var r1 := Release(r, h); r1.handles[from].Some? ==> r1.handles[from].value in r1.libraries
  {
    var r1 := Release(r, h);
    if r1.handles[from].None? then r1 else Attach(r1, h, r1.handles[from].value)
  }

  /** addStaticEntryPoint. */
  function AddStatic<H>(r: Registry<H>, name: string): Registry<H> {
    if name in r.libraries then r else r.(libraries := r.libraries[name := Library(true, 0)])
  }

  /** The handle is destroyed. */
  function Destroy<H>(r: Registry<H>, h: H): Registry<H>
    requires CanRelease(r, h)
  {
    var r1 := Release(r, h);
    r1.(handles := r1.handles - {h})
  }

  // ------------------------------------------------------------ every operation

  lemma UsersOfOther<H>(r: Registry<H>, h: H, to: Option<string>, name: string)
    requires h in r.handles
    ensures var s := r.(handles := r.handles[h := to]);
            Users(s, name) == if to == Some(name) then Users(r, name) + {h} else Users(r, name) - {h}
  {
  }

  lemma ConsistentCanRelease<H>(r: Registry<H>, h: H)
    requires Consistent(r) && h in r.handles
    ensures CanRelease(r, h)
  {
    if r.handles[h].Some? {
      assert h in Users(r, r.handles[h].value);
    }
  }

  lemma TargetsExist<H>(r: Registry<H>)
    requires Consistent(r)
    ensures forall h | h in r.handles && r.handles[h].Some? :: r.handles[h].value in r.libraries
  {
  }

  lemma ReleaseKeeps<H>(r: Registry<H>, h: H)
    requires Consistent(r) && h in r.handles
    ensures (ConsistentCanRelease(r, h); Consistent(Release(r, h)))
  {
    ConsistentCanRelease(r, h);
    var s := Release(r, h);
    if r.handles[h].Some? {
      forall n ensures Users(s, n) == Users(r, n) - {h} {
        UsersOfOther(r, h, None, n);
      }
      var name := r.handles[h].value;
      assert h in Users(r, name);
      assert r.libraries[name].references == |Users(r, name)| == |Users(s, name)| + 1;
      forall g | g in s.handles && s.handles[g].Some? ensures s.handles[g].value in s.libraries {
        assert g in Users(s, s.handles[g].value);
      }
    }
  }

  /** Consistent, except that the library may be newly loaded. */
  lemma AttachKeeps<H>(r: Registry<H>, h: H, name: string)
    requires h in r.handles && r.handles[h].None? && name in r.libraries
    requires Consistent(r.(libraries := r.libraries[name := r.libraries[name].(isStatic := true)]))
    ensures Consistent(Attach(r, h, name))
  {
    var s := Attach(r, h, name);
    var loaded := r.(libraries := r.libraries[name := r.libraries[name].(isStatic := true)]);
    forall n ensures Users(s, n) == if n == name then Users(r, n) + {h} else Users(r, n) {
      UsersOfOther(r, h, Some(name), n);
    }
    assert forall n :: Users(loaded, n) == Users(r, n);
    assert h !in Users(r, name);
    forall n | n in s.libraries ensures s.libraries[n].references == |Users(s, n)| {
      assert loaded.libraries[n].references == |Users(loaded, n)|;
    }
    forall n | n in s.libraries && s.libraries[n].references == 0 ensures s.libraries[n].isStatic {
      assert n in loaded.libraries;
    }
    forall g | g in s.handles && s.handles[g].Some? ensures s.handles[g].value in s.libraries {
      if g != h {
        assert loaded.handles[g].value in loaded.libraries;
      }
    }
  }

  lemma LibraryLoaded<H>(r: Registry<H>, name: string)
    requires Consistent(r) && name !in r.libraries
    ensures Consistent(r.(libraries := r.libraries[name := Library(true, 0)]))
  {
    var s := r.(libraries := r.libraries[name := Library(true, 0)]);
    assert forall n :: Users(s, n) == Users(r, n);
    assert Users(r, name) == {};
  }

  /** Grabbing copies what the other handle points to exactly if that is another handle,
      or there is nothing to lose. */
  lemma GrabCopiesExactlyWhen<H>(r: Registry<H>, h: H, from: H)
    requires Consistent(r) && h in r.handles && from in r.handles
    ensures (ConsistentCanRelease(r, h); ReleaseKeeps(r, h);
             Grab(r, h, from).handles[h] == r.handles[from] <==> from != h || r.handles[h].None?)
  {
    ConsistentCanRelease(r, h);
    ReleaseKeeps(r, h);
    ReleaseEmpties(r, h);
  }

  // ----------------------------------------------------------------- whole runs

  datatype Event<H> =
    | Created(h: H)
    | Opened(h: H, name: string, found: Option<string>, loads: bool)
    | FileOpened(h: H, name: string, loads: bool)
    | Grabbed(h: H, from: H)
    | Released(h: H)
    | Registered(name: string)
    | Destroyed(h: H)

  /** What callers have to see to: handles exist while they are used, and open() of a
      registered name is called on an empty handle. */
  predicate Allowed<H>(r: Registry<H>, e: Event<H>) {
    match e
    case Created(h) => h !in r.handles
    case Opened(h, name, _, _) => h in r.handles && (r.handles[h].Some? ==> name !in r.libraries)
    case Grabbed(h, from) => h in r.handles && from in r.handles
    case Registered(_) => true
    case _ => e.h in r.handles
  }

  ghost function Apply<H>(r: Registry<H>, e: Event<H>): Registry<H>
    requires Consistent(r) && Allowed(r, e)
  {
    if !e.Registered? && !e.Created? then
      ConsistentCanRelease(r, e.h);
      ReleaseKeeps(r, e.h);
      match e
      case Opened(h, name, found, loads) => Open(r, h, name, found, loads).1
      case FileOpened(h, name, loads) => OpenFile(r, h, name, loads).1
      case Grabbed(h, from) => Grab(r, h, from)
      case Released(h) => Release(r, h)
      case Destroyed(h) => Destroy(r, h)
    else if e.Registered? then AddStatic(r, e.name)
    else Create(r, e.h)
  }

  lemma AttachKnownKeeps<H>(r: Registry<H>, h: H, name: string)
    requires Consistent(r) && h in r.handles && r.handles[h].None? && name in r.libraries
    ensures Consistent(Attach(r, h, name))
  {
    var s := r.(libraries := r.libraries[name := r.libraries[name].(isStatic := true)]);
    assert forall n :: Users(s, n) == Users(r, n);
    AttachKeeps(r, h, name);
  }

  lemma OpenFileKeeps<H>(r: Registry<H>, h: H, name: string, loads: bool)
    requires Consistent(r) && h in r.handles
    ensures (ConsistentCanRelease(r, h); Consistent(OpenFile(r, h, name, loads).1))
  {
    ConsistentCanRelease(r, h);
    ReleaseKeeps(r, h);
    var r1 := Release(r, h);
    if name in r1.libraries {
      AttachKnownKeeps(r1, h, name);
    } else if loads {
      LibraryLoaded(r1, name);
      var r2 := r1.(libraries := r1.libraries[name := Library(false, 0)]);
      assert r2.(libraries := r2.libraries[name := Library(true, 0)])
          == r1.(libraries := r1.libraries[name := Library(true, 0)]);
      AttachKeeps(r2, h, name);
    }
  }

  lemma ApplyKeeps<H>(r: Registry<H>, e: Event<H>)
    requires Consistent(r) && Allowed(r, e)
    ensures Consistent(Apply(r, e))
  {
    match e
    case Created(h) => CreateKeeps(r, h);
    case Opened(h, name, found, loads) =>
      ConsistentCanRelease(r, h);
      if name in r.libraries {
        AttachKnownKeeps(r, h, name);
      } else if found.Some? {
        OpenFileKeeps(r, h, found.value, loads);
      }
    case FileOpened(h, name, loads) => OpenFileKeeps(r, h, name, loads);
    case Grabbed(h, from) =>
      ConsistentCanRelease(r, h);
      ReleaseKeeps(r, h);
      if Release(r, h).handles[from].Some? {
        AttachKnownKeeps(Release(r, h), h, Release(r, h).handles[from].value);
      }
    case Released(h) => ReleaseKeeps(r, h);
    case Registered(name) => AddStaticKeeps(r, name);
    case Destroyed(h) =>
      ConsistentCanRelease(r, h);
      ReleaseKeeps(r, h);
      RemoveKeeps(Release(r, h), h);
  }

  lemma AddStaticKeeps<H>(r: Registry<H>, name: string)
    requires Consistent(r)
    ensures Consistent(AddStatic(r, name))
  {
    if name !in r.libraries {
      LibraryLoaded(r, name);
    }
  }

  lemma CreateKeeps<H>(r: Registry<H>, h: H)
    requires Consistent(r) && h !in r.handles
    ensures Consistent(Create(r, h))
  {
    assert forall n :: Users(Create(r, h), n) == Users(r, n);
  }

  lemma RemoveKeeps<H>(r: Registry<H>, h: H)
    requires Consistent(r) && h in r.handles && r.handles[h].None?
    ensures Consistent(r.(handles := r.handles - {h}))
  {
    assert forall n :: Users(r.(handles := r.handles - {h}), n) == Users(r, n);
  }

  ghost predicate Run<H>(r: Registry<H>, events: seq<Event<H>>, r': Registry<H>)
    decreases |events|
  {
    if events == [] then r' == r
    else Consistent(r) && Allowed(r, events[0]) && Run(Apply(r, events[0]), events[1..], r')
  }

  /** However the operations of any number of handles interleave, starting from an empty
      registry, the counts are right, nothing that is pointed to is missing, and once no
      handle points anywhere only static libraries remain. */
  lemma CountsAreRight<H>(events: seq<Event<H>>, r: Registry<H>)
    requires Run(Registry(map[], map[]), events, r)
    ensures Consistent(r)
    ensures (forall h | h in r.handles :: r.handles[h].None?) ==>
              forall n | n in r.libraries :: r.libraries[n] == Library(true, 0)
  {
    RunKeeps(Registry(map[], map[]), events, r);
    if forall h | h in r.handles :: r.handles[h].None? {
      forall n | n in r.libraries ensures r.libraries[n] == Library(true, 0) {
        assert Users(r, n) == {};
      }
    }
  }

  lemma {:induction false} RunKeeps<H>(r: Registry<H>, events: seq<Event<H>>, r': Registry<H>)
    requires Consistent(r) && Run(r, events, r')
    ensures Consistent(r')
    decreases |events|
  {
    if events != [] {
      ApplyKeeps(r, events[0]);
      RunKeeps(Apply(r, events[0]), events[1..], r');
    }
  }

  /** What g points to, if anything, is the same library in both registries. */
  ghost predicate Unmoved<H>(r: Registry<H>, s: Registry<H>, g: H) {
    && g in r.handles && g in s.handles && s.handles[g] == r.handles[g]
    && (r.handles[g].Some? ==>
          && r.handles[g].value in r.libraries && r.handles[g].value in s.libraries
          && s.libraries[r.handles[g].value].isStatic == r.libraries[r.handles[g].value].isStatic)
  }

  lemma ReleaseLeavesOthers<H>(r: Registry<H>, h: H, g: H)
    requires Consistent(r) && h in r.handles && g in r.handles && g != h
    ensures (ConsistentCanRelease(r, h); Unmoved(r, Release(r, h), g))
  {
    ConsistentCanRelease(r, h);
    ReleaseKeeps(r, h);
  }

  lemma OpenFileLeavesOthers<H>(r: Registry<H>, h: H, g: H, name: string, loads: bool)
    requires Consistent(r) && h in r.handles && g in r.handles && g != h
    ensures (ConsistentCanRelease(r, h); Unmoved(r, OpenFile(r, h, name, loads).1, g))
  {
    hide Release, Consistent;
    ConsistentCanRelease(r, h);
    ReleaseLeavesOthers(r, h, g);
    ReleaseEmpties(r, h);
  }

  /** What is left of the libraries after a release, name by name. */
  lemma ReleasedLibraries<H>(r: Registry<H>, h: H, after: map<string, Library>)
    requires CanRelease(r, h) && r.handles[h].Some?
    requires var name := r.handles[h].value;
             var lib := r.libraries[name].(references := r.libraries[name].references - 1);
             && after.Keys == (if lib.references == 0 && !lib.isStatic then r.libraries.Keys - {name} else r.libraries.Keys)
             && (name in after ==> after[name] == lib)
             && forall n | n in after && n != name :: after[n] == r.libraries[n]
    ensures after == Release(r, h).libraries
  {
  }

  lemma ReleaseNothing<H>(r: Registry<H>, h: H)
    requires CanRelease(r, h) && r.handles[h].None?
    ensures Release(r, h) == r
  {
  }

  lemma ReleaseEmpties<H>(r: Registry<H>, h: H)
    requires CanRelease(r, h)
    ensures Release(r, h).handles == r.handles[h := None]
  {
  }

  /** No operation changes what another handle points to, or unloads it. */
  lemma OthersKeepTheirLibrary<H>(r: Registry<H>, e: Event<H>, g: H)
    requires Consistent(r) && Allowed(r, e) && g in r.handles && (e.Registered? || g != e.h)
    ensures Unmoved(r, Apply(r, e), g)
  {
    hide Release, OpenFile, CanRelease;
    assert r.handles[g].Some? ==> r.handles[g].value in r.libraries;
    if !e.Registered? && !e.Created? {
      ConsistentCanRelease(r, e.h);
      ReleaseLeavesOthers(r, e.h, g);
      match e {
        case Opened(h, name, found, loads) =>
          if found.Some? {
            OpenFileLeavesOthers(r, h, g, found.value, loads);
          }
        case FileOpened(h, name, loads) => OpenFileLeavesOthers(r, h, g, name, loads);
        case _ =>
      }
    }
  }

  // ------------------------------------------------- the same without counts

  /** Who points where, and the static libraries; nothing is counted or loaded. */
  datatype Plain<!H> = Plain(statics: set<string>, handles: map<H, Option<string>>)

  /** A library is there if it is static or somebody points to it. */
  ghost predicate InPlace<H>(p: Plain<H>, name: string) {
    name in p.statics || exists h :: h in p.handles && p.handles[h] == Some(name)
  }

  function Point<H>(p: Plain<H>, h: H, to: Option<string>): Plain<H> {
    p.(handles := p.handles[h := to])
  }

  ghost function PlainOpenFile<H>(p: Plain<H>, h: H, name: string, loads: bool): (Outcome, Plain<H>) {
    if InPlace(Point(p, h, None), name) || loads then (Success, Point(p, h, Some(name))) else (LoadFailed, Point(p, h, None))
  }

  ghost function PlainOpen<H>(p: Plain<H>, h: H, name: string, found: Option<string>, loads: bool): (Outcome, Plain<H>) {
    if InPlace(p, name) then (Success, Point(p, h, Some(name)))
    else if found.None? then (PluginNotFound, p)
    else PlainOpenFile(p, h, found.value, loads)
  }

  ghost function PlainStep<H>(p: Plain<H>, e: Event<H>): Plain<H> {
    match e
    case Created(h) => Point(p, h, None)
    case Opened(h, name, found, loads) => PlainOpen(p, h, name, found, loads).1
    case FileOpened(h, name, loads) => PlainOpenFile(p, h, name, loads).1
    case Grabbed(h, from) => Point(p, h, if from != h && from in p.handles then p.handles[from] else None)
    case Released(h) => Point(p, h, None)
    case Registered(name) => if InPlace(p, name) then p else p.(statics := p.statics + {name})
    case Destroyed(h) => p.(handles := p.handles - {h})
  }

  ghost function PlainRun<H>(p: Plain<H>, events: seq<Event<H>>): Plain<H>
    decreases |events|
  {
    if events == [] then p else PlainRun(PlainStep(p, events[0]), events[1..])
  }

  ghost function Abstract<H>(r: Registry<H>): Plain<H> {
    Plain((set n | n in r.libraries && r.libraries[n].isStatic), r.handles)
  }

  /** The registry holds the libraries that are in place, each with the number of the
      handles that point to it, and nothing else. */
  ghost predicate Counts<H>(r: Registry<H>, p: Plain<H>) {
    && r.handles == p.handles
    && (forall n :: n in r.libraries <==> InPlace(p, n))
    && (forall n | n in r.libraries :: r.libraries[n] == Library(n in p.statics, |Users(r, n)|))
  }

  lemma {:induction false} ConsistentCounts<H>(r: Registry<H>)
    requires Consistent(r)
    ensures Counts(r, Abstract(r))
  {
    forall n ensures n in r.libraries <==> InPlace(Abstract(r), n) {
      if n in r.libraries && !r.libraries[n].isStatic {
        assert |Users(r, n)| > 0;
        var h :| h in Users(r, n);
      }
    }
  }

  lemma {:induction false} ReleasePoints<H>(r: Registry<H>, h: H)
    requires Consistent(r) && h in r.handles
    ensures (ConsistentCanRelease(r, h); Abstract(Release(r, h)) == Point(Abstract(r), h, None))
  {
    hide Consistent, Users;
    ConsistentCanRelease(r, h);
    ReleaseEmpties(r, h);
  }

  lemma AttachPoints<H>(r: Registry<H>, h: H, name: string)
    requires h in r.handles && name in r.libraries
    ensures Abstract(Attach(r, h, name)) == Point(Abstract(r), h, Some(name))
  {
  }

  /** openFile succeeds exactly if the library is still in place once the handle has let go
      of its own, or can be loaded; the handle then points to it, and to nothing otherwise. */
  lemma {:induction false} OpenFileSucceedsExactlyWhen<H>(r: Registry<H>, h: H, name: string, loads: bool)
    requires Consistent(r) && h in r.handles
    ensures (ConsistentCanRelease(r, h);
             var (outcome, s) := OpenFile(r, h, name, loads);
             (outcome, Abstract(s)) == PlainOpenFile(Abstract(r), h, name, loads) && Counts(s, Abstract(s)))
  {
    hide Consistent, Release, Attach, Counts;
    ConsistentCanRelease(r, h);
    ReleaseKeeps(r, h);
    ReleasePoints(r, h);
    ReleaseEmpties(r, h);
    var r1 := Release(r, h);
    assert r.handles[h := None][h := Some(name)] == r.handles[h := Some(name)];
    ConsistentCounts(r1);
    InPlaceIsRegistered(r1, name);
    if name in r1.libraries {
      AttachPoints(r1, h, name);
    } else if loads {
      var r2 := r1.(libraries := r1.libraries[name := Library(false, 0)]);
      assert Abstract(r2) == Abstract(r1);
      AttachPoints(r2, h, name);
    }
    OpenFileKeeps(r, h, name, loads);
    ConsistentCounts(OpenFile(r, h, name, loads).1);
  }

  lemma InPlaceIsRegistered<H>(r: Registry<H>, name: string)
    requires Consistent(r)
    ensures name in r.libraries <==> InPlace(Abstract(r), name)
  {
    ConsistentCounts(r);
  }

  /** open succeeds exactly if the name is in place, or a file is found for it that openFile
      succeeds with; if no file is found, nothing has changed. */
  lemma {:induction false} OpenSucceedsExactlyWhen<H>(r: Registry<H>, h: H, name: string, found: Option<string>, loads: bool)
    requires Consistent(r) && h in r.handles && (r.handles[h].Some? ==> name !in r.libraries)
    ensures (ConsistentCanRelease(r, h);
             var (outcome, s) := Open(r, h, name, found, loads);
             && (outcome, Abstract(s)) == PlainOpen(Abstract(r), h, name, found, loads) && Counts(s, Abstract(s))
             && (outcome.PluginNotFound? ==> s == r))
  {
    hide Consistent, Release, Attach, Counts, OpenFile;
    ConsistentCanRelease(r, h);
    InPlaceIsRegistered(r, name);
    if name in r.libraries {
      AttachPoints(r, h, name);
      AttachKnownKeeps(r, h, name);
      ConsistentCounts(Attach(r, h, name));
    } else if found.Some? {
      OpenFileSucceedsExactlyWhen(r, h, found.value, loads);
    } else {
      ConsistentCounts(r);
    }
  }

  lemma {:induction false} ApplyIsPlain<H>(r: Registry<H>, e: Event<H>)
    requires Consistent(r) && Allowed(r, e)
    ensures Abstract(Apply(r, e)) == PlainStep(Abstract(r), e)
  {
    hide Consistent, Release, Attach, Open, OpenFile, Counts, InPlace, PlainOpen, PlainOpenFile;
    if !e.Registered? && !e.Created? {
      ConsistentCanRelease(r, e.h);
      ReleaseKeeps(r, e.h);
      ReleasePoints(r, e.h);
      ReleaseEmpties(r, e.h);
    }
    match e {
      case Opened(h, name, found, loads) => OpenSucceedsExactlyWhen(r, h, name, found, loads);
      case FileOpened(h, name, loads) => OpenFileSucceedsExactlyWhen(r, h, name, loads);
      case Grabbed(h, from) => GrabPoints(r, h, from);
      case Destroyed(h) => assert r.handles[h := None] - {h} == r.handles - {h};
      case Registered(name) => InPlaceIsRegistered(r, name);
      case _ =>
    }
  }

  lemma {:induction false} GrabPoints<H>(r: Registry<H>, h: H, from: H)
    requires Consistent(r) && h in r.handles && from in r.handles
    ensures (ConsistentCanRelease(r, h); ReleaseKeeps(r, h);
             Abstract(Grab(r, h, from)) == Point(Abstract(r), h, if from != h then r.handles[from] else None))
  {
    hide Release, Attach;
    ConsistentCanRelease(r, h);
    ReleaseKeeps(r, h);
    ReleasePoints(r, h);
    ReleaseEmpties(r, h);
    var r1 := Release(r, h);
    if r1.handles[from].Some? {
      AttachPoints(r1, h, r1.handles[from].value);
    }
  }

  /** Counting references gets every run right: each handle points where it would if
      nothing were counted, and the libraries that are loaded are those in place. */
  lemma {:induction false} RunIsPlain<H>(events: seq<Event<H>>, r: Registry<H>)
    requires Run(Registry(map[], map[]), events, r)
    ensures Counts(r, PlainRun(Plain({}, map[]), events))
  {
    hide Counts;
    var r0: Registry<H> := Registry(map[], map[]);
    assert Abstract(r0) == Plain({}, map[]);
    RunFollows(r0, events, r);
    RunKeeps(r0, events, r);
    ConsistentCounts(r);
  }

  lemma {:induction false} RunFollows<H>(r: Registry<H>, events: seq<Event<H>>, r': Registry<H>)
    requires Consistent(r) && Run(r, events, r')
    ensures Abstract(r') == PlainRun(Abstract(r), events)
    decreases |events|
  {
    hide Apply, Abstract, PlainStep;
    if events != [] {
      ApplyKeeps(r, events[0]);
      ApplyIsPlain(r, events[0]);
      RunFollows(Apply(r, events[0]), events[1..], r');
    }
  }
}
