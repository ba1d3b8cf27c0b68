/**
 * The CacheManager object: its two fields, updated in place by saveObject,
 * its two initialisers, saveToDevice, and the shared instance. Every method
 * is proved against the functions of module CacheIndex.
 */
module Manager {
  import opened Wrappers
  import opened Storage
  import opened CacheIndex

  class CacheManager {
    /** The current highest object id. */
    var objectMaxId: int
    /** The unique filename attached to each object identifier. */
    var filenameFromIdDico: map<string, string>

    /** The index these fields hold. */
    function State(): IndexState
      reads this
    {
      IndexState(objectMaxId, filenameFromIdDico)
    }

    ghost predicate Valid()
      reads this
    {
      CacheIndex.Valid(State())
    }

    /** `init()`: the manager used when none was found on the device. */
    constructor ()
      ensures State() == Fresh && Valid()
    {
      objectMaxId := 0;
      filenameFromIdDico := map[];
      new;
      FreshIsValid();
    }

    /** `init(coder:)`: the fields read back from an archived record. */
    constructor FromCoder(coder: Coder)
      ensures State() == Decode(coder)
    {
      objectMaxId := DecodeInteger(coder, MaxIdKey);
      filenameFromIdDico := map[];
      if DicoKey in coder && coder[DicoKey].DicoValue? {
        filenameFromIdDico := coder[DicoKey].d;
      }
    }

    /** `saveToDevice`: archive this index as "cachemanager" in the document directory. */
    method SaveToDevice<V>(disk: FileSystem<V>, searchPaths: seq<string>)
      modifies disk
      ensures disk.files == Persist(old(disk.files), searchPaths, State())
    {
      var path := PathInDocDirectory(searchPaths, CacheManagerName);
      if path.Some? {
        disk.Write(path.value, Manager(Encode(State())));
      }
    }

    /**
     * `saveObject(object, identifier)`: the fields and files become what
     * Save describes, and the index invariant is kept.
     */
    method SaveObject<V>(disk: FileSystem<V>, searchPaths: seq<string>, value: V, identifier: string)
      returns (ok: bool)
      modifies this, disk
      ensures ok == Save(old(State()), old(disk.files), searchPaths, identifier, value).ok
      ensures State() == Save(old(State()), old(disk.files), searchPaths, identifier, value).index
      ensures disk.files == Save(old(State()), old(disk.files), searchPaths, identifier, value).files
      ensures old(Valid()) ==> Valid()
    {
      if identifier == "" {
        return false;
      }
      ghost var before := State();
      var filename: string;
      if identifier in filenameFromIdDico {
        filename := filenameFromIdDico[identifier];
      } else {
        objectMaxId := objectMaxId + 1;
        filename := ObjectFilename(objectMaxId);
        filenameFromIdDico := filenameFromIdDico[identifier := filename];
      }
      assert Resolution(State(), filename) == Resolve(before, identifier);
      ok := false;
      var filepath := PathInDocDirectory(searchPaths, filename);
      if filepath.Some? {
        disk.Write(filepath.value, Object(value));
        ok := true;
      }
      SaveToDevice(disk, searchPaths);
      if CacheIndex.Valid(before) {
        ResolvePreservesValid(before, identifier);
      }
    }

    /** `loadObject(identifier)`: reads the file the identifier's filename names, if any. */
    method LoadObject<V>(disk: FileSystem<V>, searchPaths: seq<string>, identifier: string)
      returns (r: Option<Archive<V>>)
      ensures r == Load(State(), disk.files, searchPaths, identifier)
    {
      r := None;
      if identifier in filenameFromIdDico {
        var filepath := PathInDocDirectory(searchPaths, filenameFromIdDico[identifier]);
        if filepath.Some? && filepath.value in disk.files {
          r := Some(disk.files[filepath.value]);
        }
      }
    }
  }

  /** The static storage behind `sharedInstance`. */
  class SharedInstance {
    var instance: CacheManager?

    constructor ()
      ensures instance == null
    {
      instance := null;
    }

    /**
     * `sharedInstance`: on first use, the manager archived in the document
     * directory if one can be read, otherwise a fresh one; afterwards, always
     * that same object.
     */
    method Get<V>(disk: FileSystem<V>, searchPaths: seq<string>) returns (mgr: CacheManager)
      modifies this
      ensures instance == mgr
      ensures old(instance) != null ==> mgr == old(instance)
      ensures old(instance) == null ==> fresh(mgr) && mgr.State() == LoadIndex(disk.files, searchPaths)
    {
      if instance == null {
        var filepath := PathInDocDirectory(searchPaths, CacheManagerName);
        if filepath.Some? && filepath.value in disk.files && disk.files[filepath.value].Manager? {
          instance := new CacheManager.FromCoder(disk.files[filepath.value].coder);
        }
        if instance == null {
          instance := new CacheManager();
        }
      }
      mgr := instance;
    }
  }

  /**
   * A client: two saves into a fresh manager, then loads of a saved and of
   * a never-saved identifier.
   */
  method Scenario<V>(docDir: string, a: V, b: V)
  {
    var disk := new FileSystem<V>(map[]);
    var searchPaths := [docDir];
    var mgr := new CacheManager();

    ghost var s0, f0 := mgr.State(), disk.files;
    var ok := mgr.SaveObject(disk, searchPaths, a, "user:42");
    assert ok;
    LoadAfterSave(s0, f0, searchPaths, "user:42", a);

    ghost var s1, f1 := mgr.State(), disk.files;
    ok := mgr.SaveObject(disk, searchPaths, b, "user:7");
    assert ok;
    SaveKeepsOtherLoads(s1, f1, searchPaths, "user:7", b, "user:42");

    var got := mgr.LoadObject(disk, searchPaths, "user:42");
    assert got == Some(Object(a));
    got := mgr.LoadObject(disk, searchPaths, "missing");
    assert got == None;
  }

  /**
   * A client: a save, an overwrite under the same identifier, and a restart
   * whose shared instance reads the index back from the device.
   */
  method RestartScenario<V>(docDir: string, a: V, b: V)
  {
    var disk := new FileSystem<V>(map[]);
    var searchPaths := [docDir];
    var mgr := new CacheManager();
    var ok := mgr.SaveObject(disk, searchPaths, a, "user:42");
    assert ok && mgr.objectMaxId == 1;

    ghost var s1, f1 := mgr.State(), disk.files;
    SaveIndexPreservesValid(Fresh, "user:42");
    ok := mgr.SaveObject(disk, searchPaths, b, "user:42");
    assert ok && mgr.State() == s1;
    LoadAfterRestart(s1, f1, searchPaths, "user:42", b);

    var restarted := new SharedInstance();
    var mgr2 := restarted.Get(disk, searchPaths);
    assert mgr2.State() == mgr.State();
    var got := mgr2.LoadObject(disk, searchPaths, "user:42");
    assert got == Some(Object(b));
  }

}
