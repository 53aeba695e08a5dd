/** `filter_files_with_keyword` (src/main.rs:46-83): keeps, in input order, the
    files that open and have a decodable line which, lower-cased, contains one
    of the lower-cased keywords. */
module KeywordFilter {
  import opened Wrappers
  import opened Text
  import opened FileTree

  /** The keyword lower-casing of src/main.rs:49-52. */
  function LowerAll(keywords: seq<string>): (r: seq<string>)
    ensures |r| == |keywords|
    ensures forall i :: 0 <= i < |r| ==> r[i] == Lower(keywords[i])
  {
    seq(|keywords|, i requires 0 <= i < |keywords| => Lower(keywords[i]))
  }

  /** `keywords.iter().any(|keyword| line.contains(keyword))`. */
  predicate AnyKeyword(line: string, keywords: seq<string>) {
    exists k :: 0 <= k < |keywords| && Contains(line, keywords[k])
  }

  /** A line that decoded and, lower-cased, contains one of `keywords`. */
  predicate LineHits(line: Line, keywords: seq<string>) {
    line.Some? && AnyKeyword(Lower(line.value), keywords)
  }

  /** The inclusion test of the filter: the file opens and some line hits. */
  predicate Matches(f: File, keywords: seq<string>) {
    f.contents.Some? &&
    exists j :: 0 <= j < |f.contents.value| && LineHits(f.contents.value[j], keywords)
  }

  /** The file opens and at least one of its lines decodes. */
  predicate HasReadableLine(f: File) {
    f.contents.Some? &&
    exists j :: 0 <= j < |f.contents.value| && f.contents.value[j].Some?
  }

  /** The files of `files` that match, in input order, one entry per matching
      occurrence. */
  function Filter(files: seq<File>, keywords: seq<string>): (r: seq<File>)
    ensures |r| <= |files|
    ensures forall f :: f in r ==> f in files && Matches(f, keywords)
  {
    if files == [] then []
    else (if Matches(files[0], keywords) then [files[0]] else []) + Filter(files[1..], keywords)
  }

  lemma {:induction false} FilterAppend(a: seq<File>, b: seq<File>, keywords: seq<string>)
    ensures Filter(a + b, keywords) == Filter(a, keywords) + Filter(b, keywords)
  {
    if a == [] {
      assert a + b == b;
    } else {
      assert (a + b)[1..] == a[1..] + b;
      FilterAppend(a[1..], b, keywords);
    }
  }

  /** `a` can be obtained from `b` by deleting elements. */
  predicate IsSubsequence(a: seq<File>, b: seq<File>) {
    a == [] || (b != [] && ((a[0] == b[0] && IsSubsequence(a[1..], b[1..])) || IsSubsequence(a, b[1..])))
  }

  /** The output keeps the input's order: it is a subsequence of the input. */
  lemma {:induction false} FilterIsSubsequence(files: seq<File>, keywords: seq<string>)
    ensures IsSubsequence(Filter(files, keywords), files)
  {
    if files != [] {
      FilterIsSubsequence(files[1..], keywords);
      if Matches(files[0], keywords) {
        assert Filter(files, keywords)[0] == files[0];
        assert Filter(files, keywords)[1..] == Filter(files[1..], keywords);
      } else {
        assert Filter(files, keywords) == Filter(files[1..], keywords);
      }
    }
  }

  /** Each occurrence of a file in the input contributes one entry if the file
      matches and none otherwise, so duplicates survive as duplicates. */
  lemma {:induction false} FilterCount(files: seq<File>, keywords: seq<string>, f: File)
    ensures multiset(Filter(files, keywords))[f] ==
              if Matches(f, keywords) then multiset(files)[f] else 0
  {
    if files != [] {
      FilterCount(files[1..], keywords, f);
      assert files == [files[0]] + files[1..];
    }
  }

  /** A file is in the output iff it is in the input and it matches. */
  lemma {:induction false} FilterMembers(files: seq<File>, keywords: seq<string>, f: File)
    ensures f in Filter(files, keywords) <==> f in files && Matches(f, keywords)
  {
    FilterCount(files, keywords, f);
  }

  /** With no keywords nothing matches, so the filter returns nothing. */
  lemma {:induction false} FilterNoKeywords(files: seq<File>)
    ensures Filter(files, []) == []
  {
    if files != [] {
      FilterNoKeywords(files[1..]);
    }
  }

  /** An empty keyword matches exactly the files with a readable line: a file
      that fails to open or whose every line fails to decode still never
      matches. */
  lemma EmptyKeywordMatchesReadable(f: File, keywords: seq<string>)
    requires "" in keywords
    ensures Matches(f, LowerAll(keywords)) <==> HasReadableLine(f)
  {
    var k :| 0 <= k < |keywords| && keywords[k] == "";
    var lowered := LowerAll(keywords);
    assert lowered[k] == "";
    if HasReadableLine(f) {
      var j :| 0 <= j < |f.contents.value| && f.contents.value[j].Some?;
      ContainsEmpty(Lower(f.contents.value[j].value));
      assert LineHits(f.contents.value[j], lowered);
    }
  }

  /** A file that fails to open, or whose every line fails to decode, is never
      in the output, whatever the keywords. */
  lemma FailuresNeverIncluded(files: seq<File>, keywords: seq<string>, f: File)
    requires f.contents.None? || forall j :: 0 <= j < |f.contents.value| ==> f.contents.value[j].None?
    ensures f !in Filter(files, keywords)
  {
    FilterMembers(files, keywords, f);
  }

  /** Filtering twice by the same keywords is filtering once. */
  lemma {:induction false} FilterIdempotent(files: seq<File>, keywords: seq<string>)
    ensures Filter(Filter(files, keywords), keywords) == Filter(files, keywords)
  {
    if files != [] {
      FilterIdempotent(files[1..], keywords);
      var head := if Matches(files[0], keywords) then [files[0]] else [];
      FilterAppend(head, Filter(files[1..], keywords), keywords);
    }
  }

  /** One step of the filter, taken at position `i`. */
  lemma FilterStep(files: seq<File>, i: nat, keywords: seq<string>)
    requires i < |files|
    ensures Filter(files[i..], keywords) ==
              (if Matches(files[i], keywords) then [files[i]] else []) + Filter(files[i + 1..], keywords)
  {
    assert files[i..][0] == files[i] && files[i..][1..] == files[i + 1..];
  }

  /** Appending the verdict on `files[i]` to the output so far advances the
      filter's invariant from `i` to `i + 1`. */
  lemma FilterAdvance(files: seq<File>, i: nat, keywords: seq<string>, before: seq<File>, after: seq<File>)
    requires i < |files|
    requires Filter(files, keywords) == before + Filter(files[i..], keywords)
    requires after == before + (if Matches(files[i], keywords) then [files[i]] else [])
    ensures Filter(files, keywords) == after + Filter(files[i + 1..], keywords)
  {
    FilterStep(files, i, keywords);
  }

  lemma HitMeansMatch(f: File, keywords: seq<string>, j: nat)
    requires f.contents.Some? && j < |f.contents.value| && LineHits(f.contents.value[j], keywords)
    ensures Matches(f, keywords)
  {
  }

  lemma NoHitMeansNoMatch(f: File, keywords: seq<string>)
    requires f.contents.Some?
    requires forall k :: 0 <= k < |f.contents.value| ==> !LineHits(f.contents.value[k], keywords)
    ensures !Matches(f, keywords)
  {
  }

  /** `filter_files_with_keyword`: lower-cases the keywords, then for each file
      in order opens it (skipping it when that fails) and scans its lines,
      skipping lines that fail to decode; on the first line that contains a
      keyword it records the file and stops scanning it. It never fails. */
  method FilterFilesWithKeyword(files: seq<File>, keywords: seq<string>) returns (r: Result<seq<File>>)
    ensures r == Ok(Filter(files, LowerAll(keywords)))
  {
    var matching: seq<File> := [];
    var lowered := LowerAll(keywords);
    var i := 0;
    while i < |files|
      invariant 0 <= i <= |files|
      invariant Filter(files, lowered) == matching + Filter(files[i..], lowered)
    {
      var path := files[i];
      ghost var before := matching;
      match path.contents {
        case Some(lines) =>
          var j := 0;
          while j < |lines|
            invariant 0 <= j <= |lines|
            invariant matching == before
            invariant forall k :: 0 <= k < j ==> !LineHits(lines[k], lowered)
          {
            if lines[j].None? {
              j := j + 1;
              continue;
            }
            var line := Lower(lines[j].value);
            if AnyKeyword(line, lowered) {
              HitMeansMatch(path, lowered, j);
              matching := matching + [path];
              break;
            }
            j := j + 1;
          }
          if |matching| == |before| {
            NoHitMeansNoMatch(path, lowered);
          }
        case None =>
      }
      FilterAdvance(files, i, lowered, before, matching);
      i := i + 1;
    }
    assert matching + [] == matching;
    return Ok(matching);
  }
}
