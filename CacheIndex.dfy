/**
 * The cache index of CacheManager as values: the counter `objectMaxId`, the
 * map from identifier to filename, how a filename is resolved or minted, how
 * the index is archived and read back, and what a save and a load do to and
 * with the files on the device. The class in module Manager is proved
 * against these functions.
 */
module CacheIndex {
  import opened Wrappers
  import opened Decimal
  import opened Storage

  /** The file the index itself is archived under. */
  const CacheManagerName: string := "cachemanager"
  /** The keys of the archived index record. */
  const MaxIdKey: string := "objectMaxId"
  const DicoKey: string := "filenameFromUrlDic"

  /**
   * `pathInDocDirectory`: the first document directory the platform search
   * returns (searchPaths), joined to filename with '/'; none if the search
   * found no directory.
   */
  function PathInDocDirectory(searchPaths: seq<string>, filename: string): (r: Option<string>)
    ensures r.Some? <==> |searchPaths| > 0
  {
    if |searchPaths| > 0 then Some(searchPaths[0] + "/" + filename) else None
  }

  /** Two filenames in the same directory give the same path only if they are the same name. */
  lemma PathInDocDirectoryInjective(searchPaths: seq<string>, f: string, g: string)
    requires |searchPaths| > 0
    requires PathInDocDirectory(searchPaths, f) == PathInDocDirectory(searchPaths, g)
    ensures f == g
  {
    var dir := searchPaths[0] + "/";
    assert (dir + f)[|dir|..] == f;
    assert (dir + g)[|dir|..] == g;
  }

  /** The filename minted for the n-th object: `"object." + String(n)`. */
  function ObjectFilename(n: int): (f: string)
    ensures f != CacheManagerName
  {
    var f := "object." + IntToDecimal(n);
    assert f[0] != CacheManagerName[0];
    f
  }

  lemma ObjectFilenameInjective(m: int, n: int)
    requires ObjectFilename(m) == ObjectFilename(n)
    ensures m == n
  {
    assert ObjectFilename(m)[7..] == IntToDecimal(m);
    assert ObjectFilename(n)[7..] == IntToDecimal(n);
    IntToDecimalInjective(m, n);
  }

  /** The two stored fields of a CacheManager. */
  datatype IndexState = IndexState(objectMaxId: int, filenameFromId: map<string, string>)

  /** The index `CacheManager()` starts with. */
  const Fresh := IndexState(0, map[])

  /** f is one of the names minted while the counter went from 1 up to maxId. */
  ghost predicate MintedWithin(f: string, maxId: int) {
    exists n :: 1 <= n <= maxId && f == ObjectFilename(n)
  }

  /**
   * The index invariant: the counter is not negative, every filename is
   * `"object." + String(n)` for some 1 <= n <= objectMaxId, and no two
   * identifiers share a filename.
   */
  ghost predicate Valid(s: IndexState) {
    && s.objectMaxId >= 0
    && (forall id | id in s.filenameFromId :: MintedWithin(s.filenameFromId[id], s.objectMaxId))
    && (forall a, b | a in s.filenameFromId && b in s.filenameFromId && a != b ::
          s.filenameFromId[a] != s.filenameFromId[b])
  }

  /** t keeps every entry of s unchanged and a counter at least as large. */
  predicate Extends(s: IndexState, t: IndexState) {
    && s.objectMaxId <= t.objectMaxId
    && (forall id | id in s.filenameFromId ::
          id in t.filenameFromId && t.filenameFromId[id] == s.filenameFromId[id])
  }

  /** `encodeWithCoder`: the fields under their two keys. */
  function Encode(s: IndexState): (c: Coder)
    ensures Decode(c) == s
  {
    map[MaxIdKey := IntValue(s.objectMaxId), DicoKey := DicoValue(s.filenameFromId)]
  }

  /** `decodeIntegerForKey`: 0 when the key holds no integer. */
  function DecodeInteger(c: Coder, key: string): int {
    if key in c && c[key].IntValue? then c[key].i else 0
  }

  /** `init(coder:)`: a record without a dictionary of strings decodes to an empty map. */
  function Decode(c: Coder): (s: IndexState)
    ensures (DicoKey !in c || !c[DicoKey].DicoValue?) ==> s.filenameFromId == map[]
    ensures MaxIdKey !in c ==> s.objectMaxId == 0
  {
    IndexState(DecodeInteger(c, MaxIdKey),
               if DicoKey in c && c[DicoKey].DicoValue? then c[DicoKey].d else map[])
  }

  /** The index after the critical section of `saveObject`, and the filename it chose. */
  datatype Resolution = Resolution(index: IndexState, filename: string)

  /**
   * The critical section of `saveObject`: reuse the identifier's filename, or
   * bump the counter and mint `"object." + String(counter)` for it.
   */
  function Resolve(s: IndexState, identifier: string): (r: Resolution)
    ensures identifier in r.index.filenameFromId && r.index.filenameFromId[identifier] == r.filename
    ensures r.index.filenameFromId.Keys == s.filenameFromId.Keys + {identifier}
    ensures Extends(s, r.index)
    ensures r.index.objectMaxId - s.objectMaxId == |r.index.filenameFromId| - |s.filenameFromId| <= 1
    ensures identifier in s.filenameFromId ==> r.index == s
    ensures identifier !in s.filenameFromId ==> r.filename == ObjectFilename(r.index.objectMaxId)
  {
    if identifier in s.filenameFromId then
      Resolution(s, s.filenameFromId[identifier])
    else
      var id := s.objectMaxId + 1;
      var filename := ObjectFilename(id);
      var m := s.filenameFromId[identifier := filename];
      assert m.Keys == s.filenameFromId.Keys + {identifier};
      Resolution(IndexState(id, m), filename)
  }

  /** The index after `saveObject(_, identifier)`: unchanged for an empty identifier. */
  function SaveIndex(s: IndexState, identifier: string): (t: IndexState)
    ensures Extends(s, t)
    ensures identifier == "" ==> t == s
    ensures t.filenameFromId.Keys == s.filenameFromId.Keys + (if identifier == "" then {} else {identifier})
  {
    if identifier == "" then s else Resolve(s, identifier).index
  }

  /** Archive a into the file filename of the document directory, if there is one. */
  function WriteArchive<V>(files: map<string, Archive<V>>, searchPaths: seq<string>,
                           filename: string, a: Archive<V>): (r: map<string, Archive<V>>)
    ensures |searchPaths| == 0 ==> r == files
  {
    match PathInDocDirectory(searchPaths, filename)
    case Some(p) => files[p := a]
    case None => files
  }

  /** `saveToDevice`: the index archived under "cachemanager". */
  function Persist<V>(files: map<string, Archive<V>>, searchPaths: seq<string>,
                      s: IndexState): map<string, Archive<V>>
  {
    WriteArchive(files, searchPaths, CacheManagerName, Manager(Encode(s)))
  }

  /** What `saveObject` returns and the index and files it leaves behind. */
  datatype SaveOutcome<V> = SaveOutcome(ok: bool, index: IndexState, files: map<string, Archive<V>>)

  /**
   * `saveObject(object, identifier)`: reject an empty identifier with no
   * change; otherwise resolve the filename, archive the object there, and
   * re-persist the index whether or not the object could be written.
   */
  function Save<V>(s: IndexState, files: map<string, Archive<V>>, searchPaths: seq<string>,
                   identifier: string, value: V): (r: SaveOutcome<V>)
    ensures r.ok <==> identifier != "" && |searchPaths| > 0
    ensures r.index == SaveIndex(s, identifier)
    ensures identifier == "" || |searchPaths| == 0 ==> r.files == files
  {
    if identifier == "" then
      SaveOutcome(false, s, files)
    else
      var res := Resolve(s, identifier);
      var written := WriteArchive(files, searchPaths, res.filename, Object(value));
      SaveOutcome(|searchPaths| > 0, res.index, Persist(written, searchPaths, res.index))
  }

  /** `loadObject(identifier)`: nothing for an unmapped identifier, a missing directory or a missing file. */
  function Load<V>(s: IndexState, files: map<string, Archive<V>>, searchPaths: seq<string>,
                   identifier: string): (r: Option<Archive<V>>)
    ensures identifier !in s.filenameFromId || |searchPaths| == 0 ==> r == None
  {
    if identifier in s.filenameFromId then
      match PathInDocDirectory(searchPaths, s.filenameFromId[identifier])
      case Some(p) => if p in files then Some(files[p]) else None
      case None => None
    else
      None
  }

  /**
   * The index `sharedInstance` starts with: the archived CacheManager in the
   * document directory if there is one, otherwise a fresh index.
   */
  function LoadIndex<V>(files: map<string, Archive<V>>, searchPaths: seq<string>): (s: IndexState)
    ensures |searchPaths| == 0 ==> s == Fresh
    ensures |searchPaths| > 0 ==>
              var p := searchPaths[0] + "/" + CacheManagerName;
              if p in files && files[p].Manager? then s == Decode(files[p].coder) else s == Fresh
  {
    match PathInDocDirectory(searchPaths, CacheManagerName)
    case Some(p) => if p in files && files[p].Manager? then Decode(files[p].coder) else Fresh
    case None => Fresh
  }

  // ---------------------------------------------------------------------------
  // Properties of the index

  lemma FreshIsValid()
    ensures Valid(Fresh)
  {
  }

  /** Resolving keeps the filenames minted, in range and pairwise distinct. */
  lemma ResolvePreservesValid(s: IndexState, identifier: string)
    requires Valid(s)
    ensures Valid(Resolve(s, identifier).index)
  {
    if identifier !in s.filenameFromId {
      var t := Resolve(s, identifier).index;
      var m := t.objectMaxId;
      var f := ObjectFilename(m);
      forall id | id in t.filenameFromId
        ensures MintedWithin(t.filenameFromId[id], m)
      {
        if id == identifier {
          assert t.filenameFromId[id] == ObjectFilename(m);
        } else {
          var n :| 1 <= n <= s.objectMaxId && s.filenameFromId[id] == ObjectFilename(n);
          assert t.filenameFromId[id] == ObjectFilename(n);
        }
      }
      forall id | id in s.filenameFromId
        ensures s.filenameFromId[id] != f
      {
        var n :| 1 <= n <= s.objectMaxId && s.filenameFromId[id] == ObjectFilename(n);
        if s.filenameFromId[id] == f {
          ObjectFilenameInjective(n, m);
        }
      }
    }
  }

  /** No save ever produces an index that breaks the invariant. */
  lemma SaveIndexPreservesValid(s: IndexState, identifier: string)
    requires Valid(s)
    ensures Valid(SaveIndex(s, identifier))
  {
    if identifier != "" {
      ResolvePreservesValid(s, identifier);
    }
  }

  /** A mapped identifier's filename is never the index file's name. */
  lemma MappedIsNotIndexFile(s: IndexState, identifier: string)
    requires Valid(s) && identifier in s.filenameFromId
    ensures s.filenameFromId[identifier] != CacheManagerName
  {
  }

  /**
   * A save that returns true is read back by the next load, whatever was
   * stored under the identifier before (an overwrite reuses the filename).
   */
  lemma LoadAfterSave<V>(s: IndexState, files: map<string, Archive<V>>, searchPaths: seq<string>,
                         identifier: string, value: V)
    requires Valid(s)
    requires Save(s, files, searchPaths, identifier, value).ok
    ensures var r := Save(s, files, searchPaths, identifier, value);
            Load(r.index, r.files, searchPaths, identifier) == Some(Object(value))
  {
    var res := Resolve(s, identifier);
    ResolvePreservesValid(s, identifier);
    MappedIsNotIndexFile(res.index, identifier);
    if PathInDocDirectory(searchPaths, res.filename) == PathInDocDirectory(searchPaths, CacheManagerName) {
      PathInDocDirectoryInjective(searchPaths, res.filename, CacheManagerName);
    }
  }

  /** Saving under one identifier leaves what every other identifier loads unchanged. */
  lemma SaveKeepsOtherLoads<V>(s: IndexState, files: map<string, Archive<V>>, searchPaths: seq<string>,
                               identifier: string, value: V, other: string)
    requires Valid(s) && other != identifier
    ensures var r := Save(s, files, searchPaths, identifier, value);
            Load(r.index, r.files, searchPaths, other) == Load(s, files, searchPaths, other)
  {
    if identifier != "" && |searchPaths| > 0 && other in s.filenameFromId {
      var res := Resolve(s, identifier);
      ResolvePreservesValid(s, identifier);
      var g := s.filenameFromId[other];
      assert res.index.filenameFromId[other] == g;
      assert g != res.filename;
      MappedIsNotIndexFile(s, other);
      if PathInDocDirectory(searchPaths, g) == PathInDocDirectory(searchPaths, res.filename) {
        PathInDocDirectoryInjective(searchPaths, g, res.filename);
      }
      if PathInDocDirectory(searchPaths, g) == PathInDocDirectory(searchPaths, CacheManagerName) {
        PathInDocDirectoryInjective(searchPaths, g, CacheManagerName);
      }
    }
  }

  /** After a save with a document directory, reading the index back from the device gives the saved index. */
  lemma ReloadAfterSave<V>(s: IndexState, files: map<string, Archive<V>>, searchPaths: seq<string>,
                           identifier: string, value: V)
    requires identifier != "" && |searchPaths| > 0
    ensures var r := Save(s, files, searchPaths, identifier, value);
            LoadIndex(r.files, searchPaths) == r.index
  {
  }

  /**
   * Restart: a process that starts from the files a successful save left
   * behind loads the same index and reads the saved object back.
   */
  lemma LoadAfterRestart<V>(s: IndexState, files: map<string, Archive<V>>, searchPaths: seq<string>,
                            identifier: string, value: V)
    requires Valid(s)
    requires Save(s, files, searchPaths, identifier, value).ok
    ensures var r := Save(s, files, searchPaths, identifier, value);
            var restarted := LoadIndex(r.files, searchPaths);
            Valid(restarted) && Load(restarted, r.files, searchPaths, identifier) == Some(Object(value))
  {
    ReloadAfterSave(s, files, searchPaths, identifier, value);
    SaveIndexPreservesValid(s, identifier);
    LoadAfterSave(s, files, searchPaths, identifier, value);
  }

  /**
   * A second save under the same identifier reuses its filename, leaves the
   * index as it was, and the next load sees the second value.
   */
  lemma SaveTwiceLoadsSecond<V>(s: IndexState, files: map<string, Archive<V>>, searchPaths: seq<string>,
                                identifier: string, first: V, second: V)
    requires Valid(s) && identifier != "" && |searchPaths| > 0
    ensures var r1 := Save(s, files, searchPaths, identifier, first);
            var r2 := Save(r1.index, r1.files, searchPaths, identifier, second);
            && r2.ok
            && r2.index == r1.index
            && Load(r2.index, r2.files, searchPaths, identifier) == Some(Object(second))
  {
    var r1 := Save(s, files, searchPaths, identifier, first);
    SaveIndexPreservesValid(s, identifier);
    LoadAfterSave(r1.index, r1.files, searchPaths, identifier, second);
  }

  /** The index after a sequence of saves under the given identifiers. */
  function SaveAll(s: IndexState, identifiers: seq<string>): IndexState
    decreases identifiers
  {
    if identifiers == [] then s else SaveAll(SaveIndex(s, identifiers[0]), identifiers[1..])
  }

  /** The non-empty identifiers of a sequence. */
  function NonEmpty(identifiers: seq<string>): set<string> {
    set id | id in identifiers && id != ""
  }

  /** One save keeps the counter equal to the number of mapped identifiers. */
  lemma SaveIndexCounts(s: IndexState, identifier: string)
    requires s.objectMaxId == |s.filenameFromId|
    ensures SaveIndex(s, identifier).objectMaxId == |SaveIndex(s, identifier).filenameFromId|
  {
  }

  lemma NonEmptyCons(identifiers: seq<string>)
    requires identifiers != []
    ensures NonEmpty(identifiers) == NonEmpty(identifiers[..1]) + NonEmpty(identifiers[1..])
    ensures NonEmpty(identifiers[..1]) == if identifiers[0] == "" then {} else {identifiers[0]}
  {
    assert identifiers == identifiers[..1] + identifiers[1..];
  }

  /** Any sequence of saves keeps the index invariant. */
  lemma {:induction false} SaveAllPreservesValid(s: IndexState, identifiers: seq<string>)
    requires Valid(s)
    ensures Valid(SaveAll(s, identifiers))
    decreases identifiers
  {
    if identifiers != [] {
      SaveIndexPreservesValid(s, identifiers[0]);
      SaveAllPreservesValid(SaveIndex(s, identifiers[0]), identifiers[1..]);
    }
  }

  /**
   * From an index whose counter equals its number of entries, every save
   * keeps it that way: the counter counts the distinct non-empty identifiers
   * ever saved, and they are exactly the keys of the map.
   */
  lemma {:induction false} SaveAllCounts(s: IndexState, identifiers: seq<string>)
    requires s.objectMaxId == |s.filenameFromId|
    ensures SaveAll(s, identifiers).objectMaxId == |SaveAll(s, identifiers).filenameFromId|
    ensures SaveAll(s, identifiers).filenameFromId.Keys == s.filenameFromId.Keys + NonEmpty(identifiers)
    decreases identifiers
  {
    if identifiers != [] {
      var s1 := SaveIndex(s, identifiers[0]);
      SaveIndexCounts(s, identifiers[0]);
      SaveAllCounts(s1, identifiers[1..]);
      NonEmptyCons(identifiers);
    }
  }

  /** N distinct non-empty identifiers saved into a fresh index leave objectMaxId == N, with N distinct filenames. */
  lemma SaveAllFromFresh(identifiers: seq<string>)
    ensures var t := SaveAll(Fresh, identifiers);
            && Valid(t)
            && t.filenameFromId.Keys == NonEmpty(identifiers)
            && t.objectMaxId == |NonEmpty(identifiers)|
  {
    FreshIsValid();
    SaveAllPreservesValid(Fresh, identifiers);
    SaveAllCounts(Fresh, identifiers);
    var t := SaveAll(Fresh, identifiers);
    assert t.filenameFromId.Keys == NonEmpty(identifiers);
    assert |t.filenameFromId| == |t.filenameFromId.Keys|;
  }

}
