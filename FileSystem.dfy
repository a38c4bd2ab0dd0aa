/**
 * The filesystem the scanners read, as input data. Paths are strings; a
 * directory lists the names of its entries in the order `read_dir` yields
 * them, and the path of an entry is `JoinPath(dir, name)`.
 */
module FileSystem {
  import opened Base

  /**
   * A file has its permission bits, its bytes and, when those bytes are
   * valid UTF-8, their text (what `read_to_string` returns).
   */
  datatype Node =
    | File(mode: bv32, bytes: seq<bv8>, text: Option<string>)
    | Directory(entries: seq<string>)

  /**
   * Path to node. A listed entry whose path has no node stands for an entry
   * whose type or metadata cannot be read.
   */
  type FileSystem = map<string, Node>

  /** `Path::is_dir` (and `exists` for it). */
  predicate IsDir(fs: FileSystem, path: string) {
    path in fs && fs[path].Directory?
  }

  /** `fs::read_dir`: the entry names, or an error when `path` is not a directory. */
  function ReadDir(fs: FileSystem, path: string): Option<seq<string>>
  {
    if IsDir(fs, path) then Some(fs[path].entries) else None
  }

  /** `fs::read`: the bytes of a file; directories and missing paths fail. */
  function Read(fs: FileSystem, path: string): Option<seq<bv8>>
  {
    if path in fs && fs[path].File? then Some(fs[path].bytes) else None
  }

  /** `fs::read_to_string`: fails also when the bytes are not UTF-8. */
  function ReadToString(fs: FileSystem, path: string): Option<string>
  {
    if path in fs && fs[path].File? then fs[path].text else None
  }
}
