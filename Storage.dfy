/**
 * The device storage the cache writes through NSKeyedArchiver, seen from the
 * cache: a file system that maps a full path to the object archived there.
 * Archiving an arbitrary object graph is not modelled byte by byte; a file
 * holds either a caller's value (of type V) or an archived CacheManager,
 * which is a keyed record as NSCoder sees it.
 */
module Storage {

  /** A value stored under one key of a keyed archive. */
  datatype CodedValue =
    | IntValue(i: int)
    | DicoValue(d: map<string, string>)
    | OtherValue

  /** The keyed record an NSCoder reads and writes. */
  type Coder = map<string, CodedValue>

  /** The root object of one archive file. */
  datatype Archive<V> =
    | Object(value: V)
    | Manager(coder: Coder)

  class FileSystem<V> {
    var files: map<string, Archive<V>>

    constructor (files: map<string, Archive<V>>)
      ensures this.files == files
    {
      this.files := files;
    }

    /** `NSKeyedArchiver.archiveRootObject(_, toFile: path)`, taken as always succeeding. */
    method Write(path: string, a: Archive<V>)
      modifies this
      ensures files == old(files)[path := a]
    {
      files := files[path := a];
    }
  }

}
