/** The abstract file tree that stands in for the real filesystem, the
    in-order list of its files, and Rust's `Path::file_stem`. */
module FileTree {
  import opened Wrappers

  /** A line as `BufRead::lines` yields it: `None` when it fails to decode. */
  type Line = Option<string>

  /** A non-directory entry. `name` is `None` when the file name is not valid
      UTF-8; `contents` is `None` when opening the file fails. A `File` value
      stands for the path the walker returns for it, and opening that path
      yields `contents`. */
  datatype File = File(name: Option<string>, contents: Option<seq<Line>>)

  /** An entry of a directory listing. A directory is `readable` when
      `read_dir` on it, and every entry it yields, succeed; `children` are its
      entries in enumeration order. */
  datatype Entry =
    | FileEntry(file: File)
    | DirEntry(readable: bool, children: seq<Entry>)

  /** Every file under `e`, in depth-first enumeration order. */
  function AllFiles(e: Entry): seq<File>
    decreases e, 1
  {
    match e
    case FileEntry(f) => [f]
    case DirEntry(_, children) => AllFilesOf(children)
  }

  function AllFilesOf(es: seq<Entry>): seq<File>
    decreases es, 0
  {
    if es == [] then [] else AllFiles(es[0]) + AllFilesOf(es[1..])
  }

  /** Every directory at or below `e` can be listed. */
  predicate Readable(e: Entry)
    decreases e, 1
  {
    match e
    case FileEntry(_) => true
    case DirEntry(ok, children) => ok && ReadableAll(children)
  }

  predicate ReadableAll(es: seq<Entry>)
    decreases es, 0
  {
    es == [] || (Readable(es[0]) && ReadableAll(es[1..]))
  }

  /** Position of the last '.' in `s`, if any. */
  function LastDot(s: string): (r: Option<nat>)
    ensures r.Some? ==> r.value < |s| && s[r.value] == '.'
    ensures r.Some? ==> forall j :: r.value < j < |s| ==> s[j] != '.'
    ensures r.None? ==> forall j :: 0 <= j < |s| ==> s[j] != '.'
  {
    if s == [] then None
    else if s[|s| - 1] == '.' then Some(|s| - 1)
    else LastDot(s[..|s| - 1])
  }

  /** `Path::file_stem` of a file name: ".." is its own stem, and so is a name
      with no '.' or whose last '.' is its first character; otherwise the stem
      is the part before the last '.'. */
  function FileStem(name: string): (stem: string)
    ensures stem <= name
    ensures name != ".." && stem != name ==>
              0 < |stem| && name[|stem|] == '.' &&
              forall j :: |stem| < j < |name| ==> name[j] != '.'
    ensures (forall j :: 0 < j < |name| ==> name[j] != '.') ==> stem == name
    ensures name != ".." && (exists j :: 0 < j < |name| && name[j] == '.') ==>
              |stem| < |name|
    ensures name == ".." ==> stem == name
  {
    if name == ".." then name
    else
      match LastDot(name)
      case None => name
      case Some(k) => if k == 0 then name else name[..k]
  }
}
