/** PionPlugin: handles that share library objects through a map with reference counts. */
module PionPlugin {
  import opened HttpTypes
  import opened PluginRegistry

  /** libHandle is zero for a library that is linked statically. */
  class PionPluginData {
    var libHandle: nat
    const pluginName: string
    var references: nat

    constructor (pluginName: string, libHandle: nat)
      ensures this.pluginName == pluginName && this.libHandle == libHandle && references == 0
    {
      this.pluginName, this.libHandle, references := pluginName, libHandle, 0;
    }

    ghost function View(): Library
      reads this
    {
      Library(libHandle == 0, references)
    }
  }

  class PionPluginConfig {
    var pluginMap: map<string, PionPluginData>
    ghost var handles: set<PionPlugin>

    constructor ()
      ensures Valid() && View() == Registry(map[], map[])
    {
      pluginMap, handles := map[], {};
    }

    ghost function Parts(): set<object>
      reads this
    {
      pluginMap.Values + handles
    }

    /** Libraries are filed under their own names, and handles point into the map. */
    ghost predicate Valid()
      reads this, Parts()
    {
      Filed() && Linked() && Consistent(View())
    }

    ghost predicate Filed()
      reads this
    {
      forall n | n in pluginMap :: pluginMap[n].pluginName == n
    }

    ghost predicate Linked()
      reads this, handles
    {
      forall h | h in handles && h.pluginData != null ::
        h.pluginData.pluginName in pluginMap && pluginMap[h.pluginData.pluginName] == h.pluginData
    }

    ghost function View(): Registry<PionPlugin>
      reads this, Parts()
    {
      Registry(map n | n in pluginMap :: pluginMap[n].View(), map h | h in handles :: h.Target())
    }

    /** addStaticEntryPoint. */
    method AddStaticEntryPoint(name: string)
      requires Valid()
      modifies this`pluginMap
      ensures Valid() && View() == AddStatic(old(View()), name)
      ensures fresh(Parts() - old(Parts())) && handles == old(handles)
    {
      hide Consistent, Users;
      ghost var before := View();
      AddStaticKeeps(before, name);
      if name !in pluginMap {
        var data := new PionPluginData(name, 0);
        pluginMap := pluginMap[name := data];
        assert Filed() && Linked();
        assert View().handles == before.handles;
        assert View().libraries == before.libraries[name := Library(true, 0)];
      } else {
        assert View() == before;
      }
    }
  }

  class PionPlugin {
    const config: PionPluginConfig
    var pluginData: PionPluginData?

    constructor (config: PionPluginConfig)
      requires config.Valid()
      modifies config`handles
      ensures this.config == config && pluginData == null && this in config.handles
      ensures this !in old(config.handles) && config.Valid() && config.View() == Create(old(config.View()), this)
    {
      hide Consistent;
      ghost var before := config.View();
      this.config, pluginData := config, null;
      new;
      CreateKeeps(before, this);
      config.handles := config.handles + {this};
      assert config.View() == Create(before, this);
    }

    ghost function Target(): Option<string>
      reads this
    {
      if pluginData == null then None else Some(pluginData.pluginName)
    }

    ghost predicate Ready()
      reads this, config, config.Parts()
    {
      this in config.handles && config.Valid()
    }

    method ReleaseData()
      requires Ready()
      modifies this`pluginData, config`pluginMap, pluginData
      ensures Ready() && pluginData == null
      ensures (ConsistentCanRelease(old(config.View()), this); config.View() == Release(old(config.View()), this))
      ensures forall n | n in config.pluginMap :: n in old(config.pluginMap) && config.pluginMap[n] == old(config.pluginMap)[n]
    {
      hide Consistent, Release;
      ConsistentCanRelease(config.View(), this);
      ReleaseKeeps(config.View(), this);
      if pluginData != null {
        DropReference();
      } else {
        ReleaseNothing(config.View(), this);
      }
    }

    /** The destructor. */
    method Destroy()
      requires Ready()
      modifies this`pluginData, config`pluginMap, config`handles, pluginData
      ensures this !in config.handles && config.Valid()
      ensures (ConsistentCanRelease(old(config.View()), this);
               config.View() == PluginRegistry.Destroy(old(config.View()), this))
    {
      hide Consistent, Release;
      ReleaseData();
      ghost var released := config.View();
      RemoveKeeps(released, this);
      config.handles := config.handles - {this};
      assert config.View() == released.(handles := released.handles - {this});
    }

    method DropReference()
      requires config.Filed() && config.Linked() && this in config.handles && pluginData != null
      requires CanRelease(config.View(), this) && Consistent(Release(config.View(), this))
      modifies this`pluginData, config`pluginMap, pluginData
      ensures config.Filed() && config.Linked() && pluginData == null
      ensures config.View() == Release(old(config.View()), this)
      ensures forall n | n in config.pluginMap :: n in old(config.pluginMap) && config.pluginMap[n] == old(config.pluginMap)[n]
    {
      hide Consistent, Release, Users, CanRelease;
      ghost var before, data := config.View(), pluginData;
      DataIsTarget();
      OthersStayLinked();
      DecrementReferences();
      pluginData := null;
      HandlesReleased();
      LibrariesReleased(data);
      ReleaseEmpties(before, this);
      assert config.pluginMap.Keys == Release(before, this).libraries.Keys;
    }

    lemma DataIsTarget()
      requires config.Linked() && this in config.handles && pluginData != null && CanRelease(config.View(), this)
      ensures pluginData.references > 0 && pluginData.pluginName in config.pluginMap
    {
      assert config.View().handles[this] == Some(pluginData.pluginName);
      assert config.View().libraries[pluginData.pluginName] == pluginData.View();
    }

    twostate lemma HandlesReleased()
      requires this in config.handles && config.handles == old(config.handles) && pluginData == null
      requires forall h | h in config.handles && h != this :: h.pluginData == old(h.pluginData)
      ensures config.View().handles == old(config.View()).handles[this := None]
    {
    }

    twostate lemma LibrariesReleased(data: PionPluginData)
      requires old(config.Filed() && config.Linked()) && this in old(config.handles) && data == old(pluginData)
      requires old(CanRelease(config.View(), this))
      requires data.references == old(data.references) - 1 && data.libHandle == old(data.libHandle)
      requires config.pluginMap == if data.references == 0 && data.libHandle != 0 then old(config.pluginMap) - {data.pluginName}
                                   else old(config.pluginMap)
      requires forall n | n in config.pluginMap && config.pluginMap[n] != data ::
                 config.pluginMap[n].View() == old(config.pluginMap[n].View())
      ensures config.View().libraries == Release(old(config.View()), this).libraries
    {
      hide Release;
      var (before, after, name) := (old(config.View()), config.View(), data.pluginName);
      assert before.handles[this] == Some(name) && before.libraries[name] == old(data.View());
      assert forall n | n in after.libraries && n != name :: after.libraries[n] == config.pluginMap[n].View() == before.libraries[n];
      ReleasedLibraries(before, this, after.libraries);
    }

    /** One reference less; a dynamic library without any leaves the map. */
    method DecrementReferences()
      requires pluginData != null && pluginData.references > 0
      modifies config`pluginMap, pluginData`references
      ensures pluginData.references == old(pluginData.references) - 1
      ensures config.pluginMap ==
              if pluginData.references == 0 && pluginData.libHandle != 0 then old(config.pluginMap) - {pluginData.pluginName}
              else old(config.pluginMap)
    {
      pluginData.references := pluginData.references - 1;
      if pluginData.references == 0 {
        if pluginData.libHandle != 0 {
          if pluginData.pluginName in config.pluginMap {
            config.pluginMap := config.pluginMap - {pluginData.pluginName};
          } else {
            assert config.pluginMap - {pluginData.pluginName} == config.pluginMap;
          }
        }
      }
    }

    /** The libraries that other handles point to survive the release. */
    lemma OthersStayLinked()
      requires config.Linked() && this in config.handles
      requires CanRelease(config.View(), this) && Consistent(Release(config.View(), this))
      ensures forall h | h in config.handles && h != this && h.pluginData != null ::
                h.pluginData.pluginName in Release(config.View(), this).libraries
    {
      hide Consistent, Release;
      ReleaseEmpties(config.View(), this);
      TargetsExist(Release(config.View(), this));
      forall h | h in config.handles && h != this && h.pluginData != null
        ensures h.pluginData.pluginName in Release(config.View(), this).libraries
      {
        assert Release(config.View(), this).handles[h] == h.Target();
      }
    }

    /** Points the empty handle to a library in the map and counts the reference. */
    method TakeReference(data: PionPluginData)
      requires config.Filed() && config.Linked() && this in config.handles && pluginData == null
      requires data.pluginName in config.pluginMap && config.pluginMap[data.pluginName] == data
      modifies this`pluginData, data`references
      ensures config.Filed() && config.Linked() && pluginData == data
      ensures config.View() == Attach(old(config.View()), this, data.pluginName)
    {
      hide Consistent;
      ghost var before := config.View();
      pluginData := data;
      pluginData.references := pluginData.references + 1;
      ghost var after := config.View();
      assert after.handles == before.handles[this := Some(data.pluginName)];
      assert forall n | n in after.libraries && n != data.pluginName :: after.libraries[n] == config.pluginMap[n].View() == before.libraries[n];
      assert after.libraries == Attach(before, this, data.pluginName).libraries;
    }

    method InsertLibrary(name: string, library: nat)
      requires config.Filed() && config.Linked() && library != 0 && name !in config.pluginMap
      modifies config`pluginMap
      ensures config.Filed() && config.Linked() && name in config.pluginMap && fresh(config.pluginMap[name])
      ensures config.View() == old(config.View()).(libraries := old(config.View()).libraries[name := Library(false, 0)])
    {
      ghost var before := config.View();
      var data := new PionPluginData(name, library);
      config.pluginMap := config.pluginMap[name := data];
      assert config.View().libraries == before.libraries[name := Library(false, 0)];
    }

    /** openFile; name is the plug-in name of the file and library the handle that
        loading it yields, if it is a plug-in library. */
    method OpenFile(name: string, library: Option<nat>) returns (outcome: Outcome)
      requires Ready() && (library.Some? ==> library.value != 0)
      modifies this`pluginData, config`pluginMap, pluginData, config.pluginMap.Values
      ensures Ready()
      ensures (ConsistentCanRelease(old(config.View()), this);
               (outcome, config.View()) == PluginRegistry.OpenFile(old(config.View()), this, name, library.Some?))
    {
      hide Consistent, Release, Attach, Users;
      ghost var before := config.View();
      ConsistentCanRelease(before, this);
      OpenFileKeeps(before, this, name, library.Some?);
      ReleaseData();
      ghost var released := config.View();
      if name !in config.pluginMap {
        if library == None {
          return LoadFailed;
        }
        InsertLibrary(name, library.value);
        assert config.View().libraries == released.libraries[name := Library(false, 0)];
        TakeReference(config.pluginMap[name]);
      } else {
        TakeReference(config.pluginMap[name]);
      }
      outcome := Success;
    }

    /** open; found is the plug-in name of the file that findPluginFile comes up with. */
    method Open(name: string, found: Option<string>, library: Option<nat>) returns (outcome: Outcome)
      requires Ready() && (library.Some? ==> library.value != 0)
      requires pluginData != null ==> name !in config.pluginMap
      modifies this`pluginData, config`pluginMap, pluginData, config.pluginMap.Values
      ensures Ready()
      ensures (ConsistentCanRelease(old(config.View()), this);
               (outcome, config.View()) == PluginRegistry.Open(old(config.View()), this, name, found, library.Some?))
    {
      hide Consistent, Release, Attach, PluginRegistry.OpenFile;
      ghost var before := config.View();
      ConsistentCanRelease(before, this);
      ApplyKeeps(before, Opened(this, name, found, library.Some?));
      if name in config.pluginMap {
        TakeReference(config.pluginMap[name]);
        return Success;
      }
      if found == None {
        return PluginNotFound;
      }
      outcome := OpenFile(found.value, library);
    }

    /** grabData. */
    method GrabData(p: PionPlugin)
      requires Ready() && p in config.handles && p.config == config
      modifies this`pluginData, config`pluginMap, pluginData, config.pluginMap.Values
      ensures Ready()
      ensures Grabs(old(config.View()), config.View(), this, p)
    {
      hide Consistent, Release, Attach;
      ghost var before := config.View();
      ConsistentCanRelease(before, this);
      ReleaseKeeps(before, this);
      ApplyKeeps(before, Grabbed(this, p));
      ReleaseData();
      TargetsExist(config.View());
      assert config.View().handles[p] == p.Target();
      if p.pluginData != null {
        TakeReference(p.pluginData);
      }
    }
  }

  ghost predicate Grabs(r: Registry<PionPlugin>, r': Registry<PionPlugin>, h: PionPlugin, p: PionPlugin) {
    && Consistent(r) && Allowed(r, Grabbed(h, p))
    && r' == Apply(r, Grabbed(h, p))
  }
}
