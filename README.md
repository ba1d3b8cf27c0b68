# CacheManager index, modelled in Dafny

`CacheManager` is a persistent object cache for iOS. Callers store an object
under a string identifier; the manager gives each identifier a filename of
the form `"object.<n>"` in the app's document directory, archives the object
there, and archives its own index (the counter `objectMaxId` and the map
`filenameFromIdDico` from identifier to filename) as the file `cachemanager`
after every save. At start-up the shared instance reads that index back, or
starts empty.

The project has five modules:

- `Wrappers`: `Option`, for the Swift code's `nil` results.
- `Decimal`: Swift's `String(Int)` (`IntToDecimal`, with a leading `-` for a
  negative value). `ParseDecimal` reads a string of digits and inverts
  `NatToDecimal`, the rendering of a non-negative number, in both directions.
  `IntToDecimal` is proved injective from that, and so `"object." + String(n)`
  is injective in `n`.
- `Storage`: the device as a `FileSystem` class. Its `files` field maps a full
  path to the archived root object. The object is either a caller's value
  (`Object`) or an archived manager (`Manager`), which is a keyed record
  (`Coder`).
- `CacheIndex`: the index as a value (`IndexState`) and the specification
  functions. `Resolve` is the critical section of `saveObject`, `Save` is the
  whole of `saveObject`, and `Load` is `loadObject`. `Encode` and `Decode`
  are `encodeWithCoder` and `init(coder:)`. `LoadIndex` is what
  `sharedInstance` starts from. The module also holds the index invariant
  `Valid` and the lemmas about all of these.
- `Manager`: the class `CacheManager`. Its fields `objectMaxId` and
  `filenameFromIdDico` are updated in place by `SaveObject`, and each method
  is proved against the functions of `CacheIndex`. Beside it is
  `SharedInstance`, the static slot behind `sharedInstance`, and two client
  methods that walk through save, load, overwrite and restart.

The platform's document-directory search is a parameter. `searchPaths` is the
list that `NSSearchPathForDirectoriesInDomains` would return. An empty list
means "no document directory", which is the source's `paths.count > 0` branch.

`Valid` is the invariant that every save keeps:

- the counter is not negative;
- every filename is `"object." + String(n)` for some `1 <= n <= objectMaxId`;
- no two identifiers share a filename.

`saveObject` does not require `Valid`, because an archive read back from the
device may hold any record. The model describes saves on any index, and it
proves that a valid index stays valid. Loading a value back after saving it
needs `Valid`. A corrupted index could map an identifier to `cachemanager`;
the index file would then overwrite the value.

Two behaviours of the code are modelled as written:

- `saveObject` inserts the map entry, and bumps the counter, even when no
  document directory is found and it returns false
  (CacheSample/CacheSample/CacheManager.swift:87-101). An identifier can
  therefore become mapped without a successful save.
- `loadObject` returns whatever object is archived at the file, not only the
  caller's values.

## Model

| member | source | states |
|---|---|---|
| Decimal.NatToDecimal | CacheSample/CacheSample/CacheManager.swift:89 | `String(n)` for n >= 0 is a non-empty string of digits with no leading zero, and starts with '0' exactly when n is 0 |
| Decimal.ParseNatToDecimal | CacheSample/CacheSample/CacheManager.swift:89 | parsing the decimal rendering of n gives n back |
| Decimal.NatToDecimalOfParse | CacheSample/CacheSample/CacheManager.swift:89 | rendering the value of a canonical digit string gives that string back, so the rendering is a bijection onto canonical strings |
| Decimal.NatToDecimalInjective | CacheSample/CacheSample/CacheManager.swift:89 | distinct naturals have distinct decimal renderings |
| Decimal.IntToDecimal | CacheSample/CacheSample/CacheManager.swift:89 | `String(i)` for any Int starts with '-' exactly when i is negative |
| Decimal.IntToDecimalInjective | CacheSample/CacheSample/CacheManager.swift:89 | distinct integers have distinct renderings |
| CacheIndex.PathInDocDirectory | CacheSample/CacheSample/CacheManager.swift:59-67 | a path exists exactly when the directory search returned at least one directory |
| CacheIndex.PathInDocDirectoryInjective | CacheSample/CacheSample/CacheManager.swift:63 | within one document directory, different filenames give different paths |
| CacheIndex.ObjectFilename | CacheSample/CacheSample/CacheManager.swift:89 | a minted filename is never the index file's name "cachemanager" |
| CacheIndex.ObjectFilenameInjective | CacheSample/CacheSample/CacheManager.swift:88-90 | `"object." + String(n)` is injective in n, so distinct counter values mint distinct filenames |
| CacheIndex.Encode | CacheSample/CacheSample/CacheManager.swift:54-57 | decoding the encoded record gives back the same counter and map |
| CacheIndex.Decode | CacheSample/CacheSample/CacheManager.swift:45-51 | a record without a string dictionary decodes to an empty map; a record without the counter decodes to counter 0 |
| CacheIndex.Resolve | CacheSample/CacheSample/CacheManager.swift:82-91 | the identifier is mapped afterwards, to the returned filename; the keys grow by exactly this identifier; no existing entry changes; the counter grows by exactly the number of new entries (0 or 1); a mapped identifier leaves the index unchanged; a new one gets `"object." + String(new counter)` |
| CacheIndex.SaveIndex | CacheSample/CacheSample/CacheManager.swift:75-91 | an empty identifier leaves the index unchanged; otherwise the keys grow by the identifier; no entry is removed or reassigned and the counter never decreases |
| CacheIndex.Save | CacheSample/CacheSample/CacheManager.swift:75-102 | returns true iff the identifier is non-empty and a document directory exists; the index becomes SaveIndex's; an empty identifier or a missing directory leaves the files untouched |
| CacheIndex.Load | CacheSample/CacheSample/CacheManager.swift:104-111 | an unmapped identifier, or no document directory, loads nothing |
| CacheIndex.LoadIndex | CacheSample/CacheSample/CacheManager.swift:20-29 | the shared instance starts from the fresh index (counter 0, empty map) when there is no document directory, and also when the directory holds no file "cachemanager" or that file holds no archived manager; otherwise it starts from the decoded record |
| CacheIndex.FreshIsValid | CacheSample/CacheSample/CacheManager.swift:35-42 | a fresh manager satisfies the index invariant |
| CacheIndex.ResolvePreservesValid | CacheSample/CacheSample/CacheManager.swift:82-91 | the critical section keeps filenames minted within 1..objectMaxId and pairwise distinct |
| CacheIndex.SaveIndexPreservesValid | CacheSample/CacheSample/CacheManager.swift:75-91 | every save, empty identifier included, keeps the index invariant |
| CacheIndex.MappedIsNotIndexFile | CacheSample/CacheSample/CacheManager.swift:11 | in a valid index no identifier's filename is "cachemanager" |
| CacheIndex.LoadAfterSave | CacheSample/CacheSample/CacheManager.swift:94-110 | after a save that returns true, loading the identifier gives the saved object |
| CacheIndex.SaveKeepsOtherLoads | CacheSample/CacheSample/CacheManager.swift:84-110 | a save under one identifier changes nothing that any other identifier loads |
| CacheIndex.ReloadAfterSave | CacheSample/CacheSample/CacheManager.swift:69-73 | after a save with a document directory, the index read back from the device equals the index in memory |
| CacheIndex.LoadAfterRestart | CacheSample/CacheSample/CacheManager.swift:20-29 | after a successful save, a restarted process reads a valid index and loads the saved object |
| CacheIndex.SaveTwiceLoadsSecond | CacheSample/CacheSample/CacheManager.swift:84-85 | a second save under the same identifier reuses its filename, leaves counter and map unchanged, and the next load gives the second object |
| CacheIndex.SaveIndexCounts | CacheSample/CacheSample/CacheManager.swift:88-90 | if the counter equals the number of entries, it still does after a save |
| CacheIndex.SaveAllPreservesValid | CacheSample/CacheSample/CacheManager.swift:75-91 | any sequence of saves keeps the index invariant |
| CacheIndex.SaveAllCounts | CacheSample/CacheSample/CacheManager.swift:88-90 | after a sequence of saves the keys are the old keys plus the non-empty identifiers saved, and the counter still equals the number of entries |
| CacheIndex.SaveAllFromFresh | CacheSample/CacheSample/CacheManager.swift:35-37 | N distinct non-empty identifiers saved into a fresh index are exactly its keys, have pairwise distinct filenames, and leave objectMaxId == N |
| Storage.FileSystem.Write | CacheSample/CacheSample/CacheManager.swift:97 | archiving an object to a path replaces that path's file and no other |
| Manager.CacheManager.constructor | CacheSample/CacheSample/CacheManager.swift:40-42 | a new manager has counter 0 and an empty map, and is valid |
| Manager.CacheManager.FromCoder | CacheSample/CacheSample/CacheManager.swift:45-51 | the fields are those Decode reads from the record |
| Manager.CacheManager.SaveToDevice | CacheSample/CacheSample/CacheManager.swift:69-73 | the index is archived under "cachemanager" in the document directory, if there is one, and nothing else changes |
| Manager.CacheManager.SaveObject | CacheSample/CacheSample/CacheManager.swift:75-102 | result, fields and files are exactly Save's; a valid index stays valid |
| Manager.CacheManager.LoadObject | CacheSample/CacheSample/CacheManager.swift:104-111 | returns what Load specifies for the current fields and files |
| Manager.SharedInstance.Get | CacheSample/CacheSample/CacheManager.swift:15-32 | the first call builds the manager from the archived index, or a fresh one, and stores it; every later call returns that same object |

## Left out

- Locking: `objc_sync_enter`/`objc_sync_exit` around the resolve-or-mint step, and `dispatch_once` around the shared instance's construction. Both exist for concurrency. `SaveObject` is modelled as one atomic step, and `SharedInstance.Get` uses a null check on `instance` in place of the once-token.
- Archiving: the byte format of `NSKeyedArchiver`/`NSKeyedUnarchiver` is a foreign library. A file holds its root object directly; an archived manager is a keyed record of integers and string dictionaries.
- Storage.FileSystem.Write: does not model a failed write. The source ignores the result of `archiveRootObject`, and files in the model are never corrupt, so an unarchive only fails when the file is missing.
- The document-directory search `NSSearchPathForDirectoriesInDomains` is the parameter `searchPaths`, fixed for the duration of one operation. The source's remark that the path changes with each build is platform behaviour and cannot be observed here.
- Manager.CacheManager.SaveObject: does not model the trap of `objectMaxId++` at `Int.max`, whose value depends on the platform word size (32 or 64 bits); the counter is an unbounded integer.
- CacheIndex.Resolve: identifiers are compared as sequences of Unicode scalars. Swift's `String` equality and hashing use canonical equivalence, so the source's dictionary treats `"caf\u{E9}"` and `"cafe\u{301}"` as the same identifier and the model treats them as two. The model has no Unicode normalisation.
- CacheIndex.Load: the lookup of the identifier uses the same code-point equality, so a load under a canonically equivalent but differently encoded identifier finds nothing in the model, while the source finds the entry.
- CacheIndex.SaveKeepsOtherLoads: "another identifier" means a different sequence of scalars. Two canonically equivalent spellings are one identifier to the source, so the lemma says nothing about them.
- CacheIndex.DecodeInteger: a key that holds something other than an integer decodes as 0, like a missing key. What Foundation does in that case is not modelled.
- Crash windows between the object write and `saveToDevice` are I/O outcomes, not logic, and are not modelled.
