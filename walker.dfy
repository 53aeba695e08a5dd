/** `find_files_with_end_pattern` (src/main.rs:26-44): a depth-first walk that
    keeps the non-directory entries whose lower-cased name ends with the
    lower-cased pattern. */
module Walker {
  import opened Wrappers
  import opened Text
  import opened FileTree

  /** A file the walker keeps for an already lower-cased `pattern`: its name is
      valid UTF-8 and, lower-cased, ends with `pattern`. */
  predicate Qualifies(f: File, pattern: string) {
    f.name.Some? && EndsWith(Lower(f.name.value), pattern)
  }

  /** `front` followed by the successful result `r`; an error stays an error. */
  function Prepend(front: seq<File>, r: Result<seq<File>>): Result<seq<File>> {
    match r
    case Ok(rest) => Ok(front + rest)
    case Err(e) => Err(e)
  }

  lemma PrependAssoc(a: seq<File>, b: seq<File>, r: Result<seq<File>>)
    ensures Prepend(a, Prepend(b, r)) == Prepend(a + b, r)
  {
    if r.Ok? {
      assert a + (b + r.value) == (a + b) + r.value;
    }
  }

  lemma PrependNothing(r: Result<seq<File>>)
    ensures Prepend([], r) == r
  {
    if r.Ok? {
      assert [] + r.value == r.value;
    }
  }

  /** The walk of directory `d` for the lower-cased `pattern`, entry by entry
      as the source's loop goes; the first failing listing aborts it. */
  function WalkDir(d: Entry, pattern: string): (r: Result<seq<File>>)
    decreases d, 1
    ensures r.Ok? ==> forall f :: f in r.value ==> Qualifies(f, pattern)
    ensures d.FileEntry? ==> r == Err(NotADirectory)
  {
    match d
    case FileEntry(_) => Err(NotADirectory)
    case DirEntry(ok, children) => if !ok then Err(Unreadable) else WalkEntries(children, pattern)
  }

  function WalkEntries(es: seq<Entry>, pattern: string): (r: Result<seq<File>>)
    decreases es, 0
    ensures r.Ok? ==> forall f :: f in r.value ==> Qualifies(f, pattern)
    ensures r.Err? ==> r.error == Unreadable
  {
    if es == [] then Ok([])
    else
      match es[0]
      case DirEntry(_, _) =>
        (match WalkDir(es[0], pattern)
         case Err(e) => Err(e)
         case Ok(sub) => Prepend(sub, WalkEntries(es[1..], pattern)))
      case FileEntry(f) =>
        Prepend(if Qualifies(f, pattern) then [f] else [], WalkEntries(es[1..], pattern))
  }

  /** The files of `fs` that qualify for `pattern`, in order. */
  function Select(fs: seq<File>, pattern: string): seq<File> {
    if fs == [] then []
    else (if Qualifies(fs[0], pattern) then [fs[0]] else []) + Select(fs[1..], pattern)
  }

  lemma {:induction false} SelectAppend(a: seq<File>, b: seq<File>, pattern: string)
    ensures Select(a + b, pattern) == Select(a, pattern) + Select(b, pattern)
  {
    if a == [] {
      assert a + b == b;
    } else {
      var head := if Qualifies(a[0], pattern) then [a[0]] else [];
      assert (a + b)[0] == a[0];
      assert (a + b)[1..] == a[1..] + b;
      assert Select(a + b, pattern) == head + Select(a[1..] + b, pattern);
      SelectAppend(a[1..], b, pattern);
      assert Select(a, pattern) == head + Select(a[1..], pattern);
    }
  }

  /** Selection keeps exactly the qualifying files of its input. */
  lemma {:induction false} SelectMembers(fs: seq<File>, pattern: string, f: File)
    ensures f in Select(fs, pattern) <==> f in fs && Qualifies(f, pattern)
  {
    if fs != [] {
      SelectMembers(fs[1..], pattern, f);
      assert fs == [fs[0]] + fs[1..];
    }
  }

  /** The walk against an independent description: it fails exactly when `d`
      is not a directory or some directory under it cannot be listed, and
      otherwise returns the qualifying files among all files under `d`, in
      depth-first enumeration order. */
  lemma {:induction false} WalkDirIsSelect(d: Entry, pattern: string)
    decreases d, 1
    ensures WalkDir(d, pattern) ==
              if d.FileEntry? then Err(NotADirectory)
              else if Readable(d) then Ok(Select(AllFiles(d), pattern))
              else Err(Unreadable)
  {
    match d
    case FileEntry(_) =>
    case DirEntry(ok, children) =>
      if ok { WalkEntriesIsSelect(children, pattern); }
  }

  lemma {:induction false} WalkEntriesIsSelect(es: seq<Entry>, pattern: string)
    decreases es, 0
    ensures WalkEntries(es, pattern) ==
              if ReadableAll(es) then Ok(Select(AllFilesOf(es), pattern)) else Err(Unreadable)
  {
    if es != [] {
      WalkEntriesIsSelect(es[1..], pattern);
      SelectAppend(AllFiles(es[0]), AllFilesOf(es[1..]), pattern);
      match es[0]
      case DirEntry(_, _) =>
        WalkDirIsSelect(es[0], pattern);
      case FileEntry(f) =>
        assert Select([f], pattern) == if Qualifies(f, pattern) then [f] else [];
    }
  }

  /** Soundness and completeness: a walk that succeeds returns a file iff the
      file lies under `d` and qualifies; files without a UTF-8 name never
      qualify. */
  lemma WalkFindsExactlyQualifying(d: Entry, pattern: string, f: File)
    requires WalkDir(d, pattern).Ok?
    ensures f in WalkDir(d, pattern).value <==> f in AllFiles(d) && Qualifies(f, pattern)
    ensures f.name.None? ==> f !in WalkDir(d, pattern).value
  {
    WalkDirIsSelect(d, pattern);
    SelectMembers(AllFiles(d), pattern, f);
  }

  /** The walk of a listing unfolded at entry `i`, a file. */
  lemma WalkPastFile(es: seq<Entry>, i: nat, pattern: string, total: Result<seq<File>>,
                     before: seq<File>, kept: seq<File>)
    requires i < |es| && es[i].FileEntry?
    requires total == Prepend(before, WalkEntries(es[i..], pattern))
    requires kept == if Qualifies(es[i].file, pattern) then [es[i].file] else []
    ensures total == Prepend(before + kept, WalkEntries(es[i + 1..], pattern))
  {
    assert es[i..][0] == es[i] && es[i..][1..] == es[i + 1..];
    PrependAssoc(before, kept, WalkEntries(es[i + 1..], pattern));
  }

  /** The walk of a listing unfolded at entry `i`, a directory walked successfully. */
  lemma WalkPastDir(es: seq<Entry>, i: nat, pattern: string, total: Result<seq<File>>,
                    before: seq<File>, sub: seq<File>)
    requires i < |es| && es[i].DirEntry? && WalkDir(es[i], pattern) == Ok(sub)
    requires total == Prepend(before, WalkEntries(es[i..], pattern))
    ensures total == Prepend(before + sub, WalkEntries(es[i + 1..], pattern))
  {
    assert es[i..][0] == es[i] && es[i..][1..] == es[i + 1..];
    PrependAssoc(before, sub, WalkEntries(es[i + 1..], pattern));
  }

  /** A sub-directory whose walk fails makes the whole walk fail the same way. */
  lemma WalkAbortsAtDir(es: seq<Entry>, i: nat, pattern: string, total: Result<seq<File>>,
                        before: seq<File>, e: IoError)
    requires i < |es| && es[i].DirEntry? && WalkDir(es[i], pattern) == Err(e)
    requires total == Prepend(before, WalkEntries(es[i..], pattern))
    ensures total == Err(e)
  {
    assert es[i..][0] == es[i];
  }

  /** `find_files_with_end_pattern`: lower-cases the pattern, lists `dir`, and
      for each entry in order either recurses into it (a directory) or keeps
      it when its UTF-8 name, lower-cased, ends with the pattern. */
  method FindFilesWithEndPattern(dir: Entry, endPattern: string) returns (r: Result<seq<File>>)
    decreases dir
    ensures r == WalkDir(dir, Lower(endPattern))
  {
    var pattern := Lower(endPattern);
    if dir.FileEntry? {
      return Err(NotADirectory);
    }
    if !dir.readable {
      return Err(Unreadable);
    }
    var entries := dir.children;
    var matches: seq<File> := [];
    var i := 0;
    assert entries[i..] == entries;
    PrependNothing(WalkEntries(entries, pattern));
    while i < |entries|
      invariant 0 <= i <= |entries|
      invariant WalkDir(dir, pattern) == Prepend(matches, WalkEntries(entries[i..], pattern))
    {
      var entry := entries[i];
      if entry.DirEntry? {
        var sub := FindFilesWithEndPattern(entry, pattern);
        LowerIdempotent(endPattern);
        if sub.Err? {
          WalkAbortsAtDir(entries, i, pattern, WalkDir(dir, pattern), matches, sub.error);
          return Err(sub.error);
        }
        WalkPastDir(entries, i, pattern, WalkDir(dir, pattern), matches, sub.value);
        matches := matches + sub.value;
      } else if entry.file.name.Some? && EndsWith(Lower(entry.file.name.value), pattern) {
        WalkPastFile(entries, i, pattern, WalkDir(dir, pattern), matches, [entry.file]);
        matches := matches + [entry.file];
      } else {
        WalkPastFile(entries, i, pattern, WalkDir(dir, pattern), matches, []);
        assert matches + [] == matches;
      }
      i := i + 1;
    }
    assert matches + [] == matches;
    return Ok(matches);
  }
}
