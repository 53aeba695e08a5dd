/** The body of `main` between the root-directory check and the report
    (src/main.rs:99-117): find the message files that mention "Double", turn
    their stems into keywords, and keep the logic files that mention one. */
module Pipeline {
  import opened Wrappers
  import opened Text
  import opened FileTree
  import opened Walker
  import opened KeywordFilter

  const MsgPattern: string := "Msg.java"
  const Marker: string := "Double"
  const LogicPattern: string := "Logic.java"
  const LogicBasePattern: string := "LogicBase.java"

  /** `filter_map(file_stem).filter_map(to_str)` (src/main.rs:102-106): the
      stem of every file, in order; a file whose name is not UTF-8 gives none. */
  function Stems(fs: seq<File>): (r: seq<string>)
    ensures |r| <= |fs|
    ensures (forall i :: 0 <= i < |fs| ==> fs[i].name.Some?) ==> |r| == |fs|
    ensures forall s :: s in r ==>
              exists f :: f in fs && f.name.Some? && s == FileStem(f.name.value)
  {
    if fs == [] then []
    else (if fs[0].name.Some? then [FileStem(fs[0].name.value)] else []) + Stems(fs[1..])
  }

  /** `filter_map(file_name).filter_map(to_str)` (src/main.rs:113-117): the
      bare name of every file, in order. */
  function Names(fs: seq<File>): (r: seq<string>)
    ensures |r| <= |fs|
    ensures (forall i :: 0 <= i < |fs| ==> fs[i].name.Some?) ==> |r| == |fs|
    ensures forall n :: n in r ==> exists f :: f in fs && f.name == Some(n)
  {
    if fs == [] then []
    else (if fs[0].name.Some? then [fs[0].name.value] else []) + Names(fs[1..])
  }

  /** The final list of logic-file names, or the traversal error that aborts
      the run. */
  function Report(root: Entry): (r: Result<seq<string>>)
    ensures root.FileEntry? ==> r == Err(NotADirectory)
    ensures r.Ok? ==> forall n :: n in r.value ==>
              EndsWith(Lower(n), Lower(LogicPattern)) ||
              EndsWith(Lower(n), Lower(LogicBasePattern))
  {
    var msgs :- WalkDir(root, Lower(MsgPattern));
    var msgNames := Stems(Filter(msgs, LowerAll([Marker])));
    var logics :- WalkDir(root, Lower(LogicPattern));
    var bases :- WalkDir(root, Lower(LogicBasePattern));
    Ok(Names(Filter(logics + bases, LowerAll(msgNames))))
  }

  /** The pipeline as the source runs it, step by step. */
  method FindDoubleMsgLogics(root: Entry) returns (r: Result<seq<string>>)
    ensures r == Report(root)
  {
    var msgs :- FindFilesWithEndPattern(root, MsgPattern);
    // The filter's `?` never propagates: it always returns `Ok`.
    var doubles := FilterFilesWithKeyword(msgs, [Marker]);
    var msgNames := Stems(doubles.value);
    var logics :- FindFilesWithEndPattern(root, LogicPattern);
    var bases :- FindFilesWithEndPattern(root, LogicBasePattern);
    logics := logics + bases;
    var survivors := FilterFilesWithKeyword(logics, msgNames);
    return Ok(Names(survivors.value));
  }

  // ----- The reference description of the pipeline over the whole tree -----

  /** The message files under `root` that mention the marker. */
  function DoubleMsgs(root: Entry): seq<File> {
    Filter(Select(AllFiles(root), Lower(MsgPattern)), LowerAll([Marker]))
  }

  /** The logic candidates: the `Logic.java` files, then the `LogicBase.java` files. */
  function LogicCandidates(root: Entry): seq<File> {
    Select(AllFiles(root), Lower(LogicPattern)) + Select(AllFiles(root), Lower(LogicBasePattern))
  }

  /** The pipeline fails exactly when the tree cannot be walked, and otherwise
      reports, in order, the names of the logic candidates that mention the
      stem of a message file that mentions the marker. */
  lemma ReportIsReference(root: Entry)
    ensures Report(root) ==
              if root.FileEntry? then Err(NotADirectory)
              else if !Readable(root) then Err(Unreadable)
              else Ok(Names(Filter(LogicCandidates(root), LowerAll(Stems(DoubleMsgs(root))))))
  {
    WalkDirIsSelect(root, Lower(MsgPattern));
    WalkDirIsSelect(root, Lower(LogicPattern));
    WalkDirIsSelect(root, Lower(LogicBasePattern));
  }

  // ----- Stems and names -----

  /** Each file with a UTF-8 name contributes exactly its stem. */
  lemma {:induction false} StemsOfNamed(fs: seq<File>)
    requires forall f :: f in fs ==> f.name.Some?
    ensures |Stems(fs)| == |fs|
    ensures forall i :: 0 <= i < |fs| ==> Stems(fs)[i] == FileStem(fs[i].name.value)
  {
    if fs != [] {
      StemsOfNamed(fs[1..]);
    }
  }

  /** A stem is derived from some named file of the list, and each named file
      contributes its stem. */
  lemma {:induction false} StemsMembers(fs: seq<File>, s: string)
    ensures s in Stems(fs) <==> exists f :: f in fs && f.name.Some? && FileStem(f.name.value) == s
  {
    if fs != [] {
      StemsMembers(fs[1..], s);
      assert fs == [fs[0]] + fs[1..];
    }
  }

  /** A name is reported iff some file of the list carries it. */
  lemma {:induction false} NamesMembers(fs: seq<File>, n: string)
    ensures n in Names(fs) <==> exists f :: f in fs && f.name == Some(n)
  {
    if fs != [] {
      NamesMembers(fs[1..], n);
      assert fs == [fs[0]] + fs[1..];
    }
  }

  /** Each file with a UTF-8 name contributes exactly its name, so the final
      `filter_map` drops nothing the walker found. */
  lemma {:induction false} NamesOfNamed(fs: seq<File>)
    requires forall f :: f in fs ==> f.name.Some?
    ensures |Names(fs)| == |fs|
    ensures forall i :: 0 <= i < |fs| ==> Names(fs)[i] == fs[i].name.value
  {
    if fs != [] {
      NamesOfNamed(fs[1..]);
    }
  }

  /** The stem of a name that ends in ".java" in any case, and is longer than
      that, is the name without those five characters. */
  lemma JavaStem(name: string)
    requires |name| > 5 && EndsWith(Lower(name), ".java")
    ensures FileStem(name) == name[..|name| - 5]
  {
    var n := |name|;
    assert Lower(name)[n - 5..] == ".java";
    assert Lower(name)[n - 5] == '.';
    LowerKeepsDots(name, n - 5);
    forall j | n - 5 < j < n
      ensures name[j] != '.'
    {
      assert Lower(name)[j] == ".java"[j - (n - 5)];
      LowerKeepsDots(name, j);
    }
    var d := LastDot(name);
    assert d == Some(n - 5);
  }

  lemma LowerMsgPattern()
    ensures Lower(MsgPattern) == "msg.java"
  {
  }

  /** The keywords derived from message files found by the walker are their
      names without ".java": never empty, so the empty keyword that would
      match every readable line cannot arise. */
  lemma {:induction false} MsgStems(msgs: seq<File>)
    requires forall f :: f in msgs ==> Qualifies(f, Lower(MsgPattern))
    ensures |Stems(msgs)| == |msgs|
    ensures forall i :: 0 <= i < |msgs| ==> msgs[i].name.Some? && |msgs[i].name.value| >= 8
    ensures forall i :: 0 <= i < |msgs| ==>
              Stems(msgs)[i] == msgs[i].name.value[..|msgs[i].name.value| - 5] &&
              |Stems(msgs)[i]| >= 3
    ensures "" !in Stems(msgs)
  {
    StemsOfNamed(msgs);
    LowerMsgPattern();
    forall i | 0 <= i < |msgs|
      ensures msgs[i].name.Some? && |msgs[i].name.value| >= 8
      ensures Stems(msgs)[i] == msgs[i].name.value[..|msgs[i].name.value| - 5]
      ensures |Stems(msgs)[i]| >= 3
    {
      var name := msgs[i].name.value;
      assert msgs[i] in msgs;
      assert Lower(name)[|name| - 8..] == "msg.java";
      assert Lower(name)[|name| - 5..] == Lower(name)[|name| - 8..][3..];
      JavaStem(name);
    }
  }

  /** No name qualifies for both logic patterns, so the concatenation of the
      two walks never lists one file twice on that account. */
  lemma LogicPatternsExclusive(f: File)
    ensures !(Qualifies(f, Lower(LogicPattern)) && Qualifies(f, Lower(LogicBasePattern)))
  {
    assert Lower(LogicPattern) == "logic.java";
    assert Lower(LogicBasePattern) == "logicbase.java";
    if Qualifies(f, Lower(LogicPattern)) {
      var l := Lower(f.name.value);
      assert l[|l| - 10..][4] == l[|l| - 6] == 'c';
      if |l| >= 14 {
        assert l[|l| - 14..][8] == l[|l| - 6];
      }
    }
  }

  // ----- Cross-reference properties -----

  /** A line that hits one of the stems of `ms` hits the stem of one of them. */
  lemma HitNamesStem(line: Line, ms: seq<File>) returns (m: File)
    requires LineHits(line, LowerAll(Stems(ms)))
    ensures m in ms && m.name.Some? && LineHits(line, LowerAll([FileStem(m.name.value)]))
  {
    var ks := LowerAll(Stems(ms));
    var k :| 0 <= k < |ks| && Contains(Lower(line.value), ks[k]);
    StemsMembers(ms, Stems(ms)[k]);
    m :| m in ms && m.name.Some? && FileStem(m.name.value) == Stems(ms)[k];
    assert LowerAll([FileStem(m.name.value)])[0] == ks[k];
  }

  /** A line that hits the stem of one of `ms` hits the stems of `ms`. */
  lemma StemHitIsHit(line: Line, ms: seq<File>, m: File)
    requires m in ms && m.name.Some? && LineHits(line, LowerAll([FileStem(m.name.value)]))
    ensures LineHits(line, LowerAll(Stems(ms)))
  {
    var ks := LowerAll(Stems(ms));
    StemsMembers(ms, FileStem(m.name.value));
    var k :| 0 <= k < |Stems(ms)| && Stems(ms)[k] == FileStem(m.name.value);
    assert ks[k] == LowerAll([FileStem(m.name.value)])[0];
  }

  /** Matching the stems of `ms` as keywords is matching the stem of one of
      them. */
  lemma MatchesSomeStem(f: File, ms: seq<File>)
    ensures Matches(f, LowerAll(Stems(ms))) <==>
              exists m :: m in ms && m.name.Some? && Matches(f, LowerAll([FileStem(m.name.value)]))
  {
    if Matches(f, LowerAll(Stems(ms))) {
      var m := StemOfMatch(f, ms);
    }
    if exists m :: m in ms && m.name.Some? && Matches(f, LowerAll([FileStem(m.name.value)])) {
      var m :| m in ms && m.name.Some? && Matches(f, LowerAll([FileStem(m.name.value)]));
      MatchOfStem(f, ms, m);
    }
  }

  lemma StemOfMatch(f: File, ms: seq<File>) returns (m: File)
    requires Matches(f, LowerAll(Stems(ms)))
    ensures m in ms && m.name.Some? && Matches(f, LowerAll([FileStem(m.name.value)]))
  {
    var j :| 0 <= j < |f.contents.value| && LineHits(f.contents.value[j], LowerAll(Stems(ms)));
    m := HitNamesStem(f.contents.value[j], ms);
  }

  lemma MatchOfStem(f: File, ms: seq<File>, m: File)
    requires m in ms && m.name.Some? && Matches(f, LowerAll([FileStem(m.name.value)]))
    ensures Matches(f, LowerAll(Stems(ms)))
  {
    var j :| 0 <= j < |f.contents.value| && LineHits(f.contents.value[j], LowerAll([FileStem(m.name.value)]));
    StemHitIsHit(f.contents.value[j], ms, m);
  }

  /** A message file under `root` that the first stage keeps. */
  predicate IsDoubleMsg(m: File, root: Entry) {
    m in AllFiles(root) && Qualifies(m, Lower(MsgPattern)) && Matches(m, LowerAll([Marker]))
  }

  /** A logic file under `root` that one of the two logic walks finds. */
  predicate IsLogic(f: File, root: Entry) {
    f in AllFiles(root) && (Qualifies(f, Lower(LogicPattern)) || Qualifies(f, Lower(LogicBasePattern)))
  }

  /** A logic file in the final filter's output is a logic file under `root`
      that mentions the stem of a message file that mentions the marker. */
  lemma SurvivorIsCrossReferenced(root: Entry, f: File) returns (m: File)
    requires f in Filter(LogicCandidates(root), LowerAll(Stems(DoubleMsgs(root))))
    ensures IsLogic(f, root) && IsDoubleMsg(m, root) && m.name.Some?
    ensures Matches(f, LowerAll([FileStem(m.name.value)]))
  {
    var msgs := Select(AllFiles(root), Lower(MsgPattern));
    FilterMembers(LogicCandidates(root), LowerAll(Stems(DoubleMsgs(root))), f);
    SelectMembers(AllFiles(root), Lower(LogicPattern), f);
    SelectMembers(AllFiles(root), Lower(LogicBasePattern), f);
    m := StemOfMatch(f, DoubleMsgs(root));
    FilterMembers(msgs, LowerAll([Marker]), m);
    SelectMembers(AllFiles(root), Lower(MsgPattern), m);
  }

  /** Conversely, such a logic file passes the final filter. */
  lemma CrossReferencedSurvives(root: Entry, f: File, m: File)
    requires IsLogic(f, root) && IsDoubleMsg(m, root)
    requires Matches(f, LowerAll([FileStem(m.name.value)]))
    ensures f in Filter(LogicCandidates(root), LowerAll(Stems(DoubleMsgs(root))))
  {
    var msgs := Select(AllFiles(root), Lower(MsgPattern));
    SelectMembers(AllFiles(root), Lower(MsgPattern), m);
    FilterMembers(msgs, LowerAll([Marker]), m);
    MatchOfStem(f, DoubleMsgs(root), m);
    SelectMembers(AllFiles(root), Lower(LogicPattern), f);
    SelectMembers(AllFiles(root), Lower(LogicBasePattern), f);
    FilterMembers(LogicCandidates(root), LowerAll(Stems(DoubleMsgs(root))), f);
  }

  /** The cross-reference, both ways: a name is reported iff it is the name of
      a logic file under `root` that mentions, case-insensitively, the stem of
      a message file under `root` that mentions "Double". */
  lemma ReportIsCrossReference(root: Entry, n: string)
    requires Report(root).Ok?
    ensures n in Report(root).value <==>
              exists f, m :: IsLogic(f, root) && f.name == Some(n) &&
                             IsDoubleMsg(m, root) && Matches(f, LowerAll([FileStem(m.name.value)]))
  {
    ReportIsReference(root);
    var survivors := Filter(LogicCandidates(root), LowerAll(Stems(DoubleMsgs(root))));
    NamesMembers(survivors, n);
    if n in Report(root).value {
      var f :| f in survivors && f.name == Some(n);
      var m := SurvivorIsCrossReferenced(root, f);
    }
    if exists f, m :: IsLogic(f, root) && f.name == Some(n) &&
                      IsDoubleMsg(m, root) && Matches(f, LowerAll([FileStem(m.name.value)])) {
      var f, m :| IsLogic(f, root) && f.name == Some(n) &&
                  IsDoubleMsg(m, root) && Matches(f, LowerAll([FileStem(m.name.value)]));
      CrossReferencedSurvives(root, f, m);
    }
  }

  /** If no message file under `root` mentions "Double" in any case, the
      derived keyword list is empty and nothing is reported. */
  lemma NoDoubleMsgNoReport(root: Entry)
    requires forall m :: m in AllFiles(root) && Qualifies(m, Lower(MsgPattern)) ==> !Matches(m, LowerAll([Marker]))
    ensures Report(root).Ok? ==> Report(root) == Ok([])
  {
    ReportIsReference(root);
    var msgs := Select(AllFiles(root), Lower(MsgPattern));
    if DoubleMsgs(root) != [] {
      var m := DoubleMsgs(root)[0];
      SelectMembers(AllFiles(root), Lower(MsgPattern), m);
      assert false;
    }
    assert Stems(DoubleMsgs(root)) == [];
    FilterNoKeywords(LogicCandidates(root));
  }
}
