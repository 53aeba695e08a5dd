# double-msg-finder, modelled in Dafny

double-msg-finder walks a Java code base to find the "logic" classes that handle
messages with a `Double` field. It works in two stages:

1. It collects every `*Msg.java` file (the suffix test ignores case). It keeps the
   ones that contain "Double" in any case on some line.
2. It takes the stem of each kept file (`AMsg.java` gives `AMsg`) as a keyword. It
   then collects every `*Logic.java` file, followed by every `*LogicBase.java`
   file, and keeps the ones that mention one of those keywords in any case.

The program reports the bare names of those files.

This project models that pipeline over an abstract file tree and proves what each
stage does:

- `wrappers.dfy`: `Option` and the `Result` type that stands for Rust's `io::Result`.
- `text.dfy`: lower-casing (ASCII only), `ends_with` and `contains`.
- `filetree.dfy`: the tree.
  - A `File` has an optional UTF-8 name and optional contents. Contents are absent
    when the open fails. The contents are a list of lines, each absent when it
    fails to decode.
  - A `DirEntry` is either readable, with its entries in enumeration order, or not.
  - `AllFiles` lists every file in the tree in depth-first order.
  - `FileStem` follows Rust's `Path::file_stem`.
- `walker.dfy`: `find_files_with_end_pattern`.
  - It is a recursive method with a loop over the directory's entries.
  - It is proved equal to the recursive function `WalkDir`.
  - `WalkDir` is proved equal to "the qualifying files among `AllFiles`" when every
    directory is readable. Otherwise it is proved to fail.
- `keyword_filter.dfy`: `filter_files_with_keyword`.
  - It is a method with the source's nested loops, including its `continue` and
    `break`.
  - It is proved equal to the function `Filter`.
  - Lemmas about `Filter` give its order, multiplicity, membership, idempotence
    and empty-keyword behaviour.
- `pipeline.dfy`: the body of `main` from the walks to the final name list.
  - `FindDoubleMsgLogics` runs the steps. It is proved equal to `Report`.
  - `Report` is proved equal to a description over the whole tree.
  - `Report` is proved to be exactly the cross-reference: logic files that mention
    the stem of a message file that mentions "Double".
- `scenarios.dfy`: four concrete trees whose reports are proved.

In the model, opening a path the walker returned reads the `contents` of that
`File` value. So the files are assumed not to change between the walk and the
filter.

## Model

| member | source | states |
|---|---|---|
| `Text.LowerIdempotent` | src/main.rs:29-35 | Lower-casing an already lower-cased pattern changes nothing, so each recursive call lower-cases the pattern it was passed to the same value. |
| `FileTree.FileStem` | src/main.rs:104 | ".." is its own stem, and so is a name with no '.' after its first character. Any other name's stem is the non-empty part before its last '.'. That is, the stem is a proper prefix of the name, followed in the name by a '.' with no further '.'. |
| `FileTree.LastDot` | src/main.rs:104 | The position found holds a '.' and no later position does. No position is found iff the name has no '.'. |
| `Walker.Qualifies` | src/main.rs:36-37 | The name test of the walker: the file name is valid UTF-8 and, lower-cased, ends with the pattern. `Walker.SelectMembers` and `Walker.WalkFindsExactlyQualifying` state that the walk keeps exactly the files passing it. |
| `Walker.WalkDir` | src/main.rs:26-44 | Every file a successful walk returns has a UTF-8 name that, lower-cased, ends with the pattern. Walking a non-directory fails with NotADirectory. |
| `Walker.WalkEntries` | src/main.rs:31-41 | Every file kept from a listing qualifies. The only error of a listing is an unreadable directory. |
| `Walker.SelectMembers` | src/main.rs:34-39 | Selecting by the pattern keeps a file iff it is in the input and qualifies. |
| `Walker.WalkDirIsSelect` | src/main.rs:26-44 | The walk fails with NotADirectory on a file. It fails with Unreadable iff some directory under the root cannot be listed. Otherwise it returns exactly the qualifying files among all files of the tree, in depth-first enumeration order. |
| `Walker.WalkEntriesIsSelect` | src/main.rs:31-43 | The same for one listing: entries are processed in order, and directory results are concatenated in place. |
| `Walker.WalkFindsExactlyQualifying` | src/main.rs:34-41 | A successful walk returns a file iff the file is in the tree and qualifies (soundness and completeness). A file without a UTF-8 name is never returned. |
| `Walker.FindFilesWithEndPattern` | src/main.rs:26-44 | The recursive, loop-based walker returns exactly `WalkDir` of the root and the lower-cased pattern, including its errors. |
| `KeywordFilter.LowerAll` | src/main.rs:49-52 | One lower-cased keyword per input keyword, in order: element i is keyword i lower-cased. |
| `KeywordFilter.Matches` | src/main.rs:55-72 | The inclusion test: the file opens and one of its lines decodes and, lower-cased, contains a keyword. `KeywordFilter.FilterMembers` and `KeywordFilter.FilterCount` state that the filter keeps exactly the files passing it. |
| `KeywordFilter.Filter` | src/main.rs:54-80 | The output is no longer than the input. Every output file is an input file that opens and has a decoded line containing a keyword. |
| `KeywordFilter.FilterIsSubsequence` | src/main.rs:54-80 | The output is a subsequence of the input, in input order. |
| `KeywordFilter.FilterCount` | src/main.rs:54-80 | Each file occurs in the output as often as in the input if it matches, and not at all otherwise. So each input occurrence gives at most one entry, and duplicates stay duplicates. |
| `KeywordFilter.FilterMembers` | src/main.rs:55-77 | A file is in the output iff it is in the input, it opens, and one of its decoded lines, lower-cased, contains one of the keywords. |
| `KeywordFilter.FailuresNeverIncluded` | src/main.rs:55-78 | A file that fails to open never appears in the output. Neither does a file all of whose lines fail to decode. |
| `KeywordFilter.FilterNoKeywords` | src/main.rs:69 | With no keywords the output is empty. |
| `KeywordFilter.EmptyKeywordMatchesReadable` | src/main.rs:59-72 | If the empty string is among the keywords, a file matches iff it opens and has at least one line that decodes. |
| `KeywordFilter.FilterIdempotent` | src/main.rs:46-83 | Filtering the output again by the same keywords returns it unchanged. |
| `KeywordFilter.FilterFilesWithKeyword` | src/main.rs:46-83 | The loop-based filter always returns `Ok`. Its value is `Filter` of the files and the lower-cased keywords. |
| `Pipeline.FindDoubleMsgLogics` | src/main.rs:99-117 | The step-by-step pipeline returns exactly `Report` of the root, including its traversal errors. |
| `Pipeline.Report` | src/main.rs:99-117 | A root that is a file gives NotADirectory. Every reported name, lower-cased, ends with "logic.java" or "logicbase.java". The exact result is stated by `Pipeline.ReportIsReference` and `Pipeline.ReportIsCrossReference`. |
| `Pipeline.ReportIsReference` | src/main.rs:99-117 | The report fails exactly when the tree cannot be walked. Otherwise it is, in order, the names of the `Logic.java` files followed by the `LogicBase.java` files that mention a lower-cased stem of a `Msg.java` file that mentions "double". |
| `Pipeline.Stems` | src/main.rs:102-106 | At most one keyword per file, exactly one each when every name is UTF-8. Each keyword is the stem of one of the files. In-order exactness is `Pipeline.StemsOfNamed` and `Pipeline.StemsMembers`. |
| `Pipeline.StemsOfNamed` | src/main.rs:102-106 | For files with UTF-8 names, the derived keywords are exactly their stems, one per file, in file order. |
| `Pipeline.StemsMembers` | src/main.rs:102-106 | A string is a derived keyword iff it is the stem of one of the named files. |
| `Pipeline.Names` | src/main.rs:113-117 | At most one name per file, exactly one each when every name is UTF-8. Each reported name is the name of one of the files. In-order exactness is `Pipeline.NamesOfNamed` and `Pipeline.NamesMembers`. |
| `Pipeline.NamesOfNamed` | src/main.rs:113-117 | For files with UTF-8 names, the reported names are exactly those names, one per file, in order. |
| `Pipeline.NamesMembers` | src/main.rs:113-117 | A name is reported iff one of the files carries it. |
| `Pipeline.JavaStem` | src/main.rs:104 | The stem of a name longer than five characters that ends in ".java" in any case is the name without the last five characters. |
| `Pipeline.MsgStems` | src/main.rs:99-106 | Each keyword derived from a walked `Msg.java` file is that file's name without ".java", at least three characters long. The empty keyword therefore never arises. |
| `Pipeline.LogicPatternsExclusive` | src/main.rs:108-109 | No file qualifies for both the `Logic.java` and the `LogicBase.java` pattern. So the concatenated walks never list a file twice because of the two patterns. |
| `Pipeline.MatchesSomeStem` | src/main.rs:112 | A file matches the list of derived stems iff it matches the stem of one of the files they came from. |
| `Pipeline.SurvivorIsCrossReferenced` | src/main.rs:108-112 | Every logic file kept by the final filter is a `Logic.java` or `LogicBase.java` file in the tree. It mentions the lower-cased stem of a `Msg.java` file in the tree that mentions "Double". |
| `Pipeline.CrossReferencedSurvives` | src/main.rs:108-112 | Every such logic file is kept by the final filter. |
| `Pipeline.ReportIsCrossReference` | src/main.rs:99-117 | A name is reported iff it is the name of a logic file in the tree that mentions, case-insensitively, the stem of a `Msg.java` file in the tree that mentions "Double". |
| `Pipeline.NoDoubleMsgNoReport` | src/main.rs:99-117 | If no `Msg.java` file mentions "double" in any case, the report is empty, or a traversal error. |
| `Scenarios.AMsgStem` | src/main.rs:104 | The stem of "AMsg.java" is "AMsg". |
| `Scenarios.StemMentionIsReported` | src/main.rs:99-117 | For a tree with AMsg.java ("this uses Double precision") and ALogic.java ("handles amsg here"), the report is ["ALogic.java"]. |
| `Scenarios.StemIsNotPrefixBeforeMsg` | src/main.rs:99-117 | For a tree with AMsg.java ("this uses Double precision") and ALogic.java ("handles A"), the report is empty. |
| `Scenarios.EmptyRootReportsNothing` | src/main.rs:99-117 | An empty, readable root directory gives an empty report, not an error. |
| `Scenarios.MsgWithoutMarkerIsDropped` | src/main.rs:99-117 | A BMsg.java that never mentions "Double" derives no keyword. So a BLogic.java that names BMsg is not reported. |

## Left out

- Command-line handling and the root-directory check (src/main.rs:8-24, 88-97). These are process control: usage messages and `std::process::exit`. A root that is a file still gives `Err(NotADirectory)` from the walk.
- The console banners, the printing of each name, and writing `output.txt` (src/main.rs:86, 119-126). This is output only. The file would receive the report, one name per line.
- The warnings printed to standard error on open and decode failures (src/main.rs:64, 77). This is output only. The failures themselves are modelled.
- The real filesystem. `read_dir`, `is_dir` and `File::open` are replaced by the finite tree.
  - Symbolic links are not modelled. A link to a directory is a directory entry. Because the tree is finite, the unbounded recursion of a cyclic link cannot arise.
  - A failing `read_dir`, and a failing `entry?` part-way through a listing, are both modelled as an unreadable directory. This does not change the result: a failure always aborts the walk with an error.
  - The kind of I/O error is reduced to NotADirectory or Unreadable.
- The directory part of a path. A returned path is identified with its `File` value. Two files with the same name and contents in different directories are therefore equal values. Nothing downstream tells them apart except by opening them, and opening is modelled by the contents.
- Unicode `to_lowercase`. Lower-casing is ASCII only, so non-ASCII letters keep their case. The full Unicode mapping, which can change a string's length, is not modelled.
- Line splitting by `BufRead::lines`, including the handling of `\n` and `\r\n`. File contents are given already split into lines.
- A persistent read error while reading lines. Only one-off line errors are modelled, such as a line that is not valid UTF-8: each is one skipped entry in a finite list of lines. `Lines::next` keeps returning an error that recurs on every read, so the source's `continue` (src/main.rs:59-66) would then scan that file forever, printing a warning each time. The model's filter always ends with `Ok`.
- `Pipeline.Stems`: a file whose name is not UTF-8 contributes no stem. Rust could still produce a UTF-8 stem for such a name if only its extension were invalid. The walker never returns such files, so the pipeline is unaffected.

## Stems and keywords

The stem is `Path::file_stem` (src/main.rs:104), which drops only the
extension, so `AMsg.java` gives `AMsg`, not `A`. `Scenarios.StemIsNotPrefixBeforeMsg`
shows that a logic file mentioning only "A" is not reported.

An empty derived keyword would match every readable line. `Pipeline.MsgStems`
proves that none arises: every keyword derived from a walked `Msg.java` file has
at least three characters.
