/** FileService with its map of cached files. A copy of an entry shares the entry's
    buffer; reading a file anew allocates a new buffer and leaves the old one to the
    responses that still send from it. */
module FileService {
  import opened HttpTypes
  import opened FileCache

  datatype DiskFile = DiskFile(content: array?<char>, size: nat, modified: nat)

  ghost function ViewOf(d: DiskFile): Entry
    reads if d.content == null then {} else {d.content}
  {
    Entry(if d.content == null then None else Some(d.content[..]), d.size, d.modified)
  }

  /** DiskFile::read. */
  method ReadContent(d: DiskFile, f: OnDisk) returns (r: DiskFile)
    requires d.size == |f.content|
    ensures r.content != null && fresh(r.content) && r.size == d.size && r.modified == d.modified
    ensures r.content[..] == f.content
  {
    var buffer := new char[|f.content|](i requires 0 <= i < |f.content| => f.content[i]);
    assert buffer[..] == f.content;
    r := d.(content := buffer);
  }

  /** DiskFile::update. */
  function Updated(d: DiskFile, f: OnDisk): DiskFile { d.(size := |f.content|, modified := f.modified) }

  ghost predicate Served(r: Response, cache': map<Path, Entry>, o: Options, disk: Disk, cache: map<Path, Entry>, q: Request) {
    (r, cache') == Serve(o, disk, cache, q)
  }

  class FileService {
    const options: Options
    var cacheMap: map<Path, DiskFile>

    constructor (options: Options)
      ensures this.options == options && cacheMap == map[]
    {
      this.options, cacheMap := options, map[];
    }

    ghost function Buffers(): set<object>
      reads this
    {
      set p | p in cacheMap && cacheMap[p].content != null :: cacheMap[p].content
    }

    ghost function View(): map<Path, Entry>
      reads this, Buffers()
    {
      map p | p in cacheMap :: ViewOf(cacheMap[p])
    }

    /** addCacheEntry(); an entry that exists already stays. */
    method AddCacheEntry(path: Path, f: OnDisk)
      modifies this`cacheMap
      ensures View() == if path in old(View()) then old(View()) else old(View())[path := NewEntry(options, f)]
    {
      var d := DiskFile(null, 0, 0);
      if options.scan != 1 {
        d := Updated(d, f);
        if options.Caches(d.size) {
          d := ReadContent(d, f);
        }
      }
      if path !in cacheMap {
        cacheMap := cacheMap[path := d];
      }
    }

    /** start(); files lists what the walk over the directories comes across. */
    method StartUp(files: seq<Path>, disk: Disk)
      requires cacheMap == map[] && (set p | p in files) == disk.Keys
      modifies this`cacheMap
      ensures View() == Start(options, disk)
    {
      if options.scan != 0 {
        for i := 0 to |files|
          invariant View() == map p | p in files[..i] :: NewEntry(options, disk[p])
        {
          assert files[i] in disk.Keys;
          assert files[..i + 1] == files[..i] + [files[i]];
          AddCacheEntry(files[i], disk[files[i]]);
        }
        assert files[..|files|] == files;
        assert forall p :: p in disk <==> p in files;
      }
    }

    /** Brings the entry of a request up to date: read for the first time, or again if
        the file has changed, or used as it is. */
    method Refresh(path: Path, f: OnDisk)
      requires path in cacheMap
      modifies this`cacheMap
      ensures cacheMap.Keys == old(cacheMap.Keys)
      ensures View() == old(View())[path := Refreshed(options, old(View())[path], f)]
    {
      var d := cacheMap[path];
      if d.modified == 0 {
        d := Updated(d, f);
        if options.Caches(d.size) {
          d := ReadContent(d, f);
        } else {
          d := d.(content := null);
        }
        cacheMap := cacheMap[path := d];
      } else if options.Cache() == 1 && !(f.modified == d.modified && |f.content| == d.size) {
        d := Updated(d, f);
        d := ReadContent(d, f);
        cacheMap := cacheMap[path := d];
      }
    }

    /** A request for a path in the cache. file is the copy of the entry that a sender
        works from; its buffer stays as it is whatever is asked later. */
    method HandleCached(q: Request, disk: Disk) returns (r: Response, file: DiskFile)
      requires (options.Cache() > 0 || options.scan > 0) && q.path in cacheMap
      modifies this`cacheMap
      ensures Served(r, View(), options, disk, old(View()), q)
      ensures r.FileOk? ==> q.path in disk && r.body == Body(ViewOf(file), disk[q.path])
    {
      ghost var cache := View();
      file := DiskFile(null, 0, 0);
      if q.path !in disk {
        r := ServerError;
        assert View() == cache;
        assert Served(r, View(), options, disk, cache, q);
      } else if options.Cache() == 0 {
        file := Updated(file, disk[q.path]);
        r := Respond(q, file, disk[q.path]);
        assert r == Reply(options, q, Stat(disk[q.path]), disk[q.path]);
        assert View() == cache;
        assert Served(r, View(), options, disk, cache, q);
      } else {
        Refresh(q.path, disk[q.path]);
        file := cacheMap[q.path];
        assert View()[q.path] == ViewOf(file);
        r := Respond(q, file, disk[q.path]);
        assert r == Reply(options, q, View()[q.path], disk[q.path]);
        assert View() == cache[q.path := Refreshed(options, cache[q.path], disk[q.path])];
        assert Served(r, View(), options, disk, cache, q);
      }
    }

    /** A request for a path that is looked up on disk. */
    method HandleUncached(q: Request, disk: Disk) returns (r: Response, file: DiskFile)
      requires !((options.Cache() > 0 || options.scan > 0) && q.path in cacheMap) && options.scan != 1 && options.scan != 3
      modifies this`cacheMap
      ensures Served(r, View(), options, disk, old(View()), q)
      ensures r.FileOk? ==> q.path in disk && r.body == Body(ViewOf(file), disk[q.path])
    {
      file := DiskFile(null, 0, 0);
      if q.path !in disk {
        r := NotFound;
      } else {
        file := Updated(file, disk[q.path]);
        r := Respond(q, file, disk[q.path]);
        if r.FileOk? && options.Cache() != 0 {
          if options.Caches(file.size) {
            file := ReadContent(file, disk[q.path]);
            assert disk[q.path].content[..file.size] == disk[q.path].content;
            assert file.content[..][..file.size] == file.content[..];
          }
          cacheMap := cacheMap[q.path := file];
          assert View() == old(View())[q.path := ViewOf(file)];
        } else {
          assert View() == old(View());
        }
      }
    }

    /** operator(), for one request that names a file. */
    method Handle(q: Request, disk: Disk) returns (r: Response, file: DiskFile)
      modifies this`cacheMap
      ensures Served(r, View(), options, disk, old(View()), q)
      ensures r.FileOk? ==> q.path in disk && r.body == Body(ViewOf(file), disk[q.path])
      ensures forall p <- old(cacheMap) :: ViewOf(old(cacheMap)[p]) == old(View())[p]
    {
      if (options.Cache() > 0 || options.scan > 0) && q.path in cacheMap {
        r, file := HandleCached(q, disk);
      } else if options.scan == 1 || options.scan == 3 {
        r, file := NotFound, DiskFile(null, 0, 0);
      } else {
        r, file := HandleUncached(q, disk);
      }
    }

    method Respond(q: Request, file: DiskFile, f: OnDisk) returns (r: Response)
      ensures r == Reply(options, q, ViewOf(file), f)
    {
      if options.date(file.modified) == q.ifModifiedSince {
        r := NotModified(file.modified);
      } else if q.head {
        r := HeadOk(file.modified);
      } else if file.content != null {
        r := FileOk(file.modified, file.content[..Min(file.size, file.content.Length)]);
        assert file.content[..][..Min(file.size, file.content.Length)] == r.body;
      } else {
        r := FileOk(file.modified, f.content[..Min(file.size, |f.content|)]);
      }
    }
  }
}
