/** Concrete trees whose reports are proved. */
module Scenarios {
  import opened Wrappers
  import opened Text
  import opened FileTree
  import opened Walker
  import opened KeywordFilter
  import opened Pipeline

  const AMsg: File := File(Some("AMsg.java"), Some([Some("this uses Double precision")]))
  const ALogic: File := File(Some("ALogic.java"), Some([Some("handles amsg here")]))
  const ALogicHandlesA: File := File(Some("ALogic.java"), Some([Some("handles A")]))
  const BMsg: File := File(Some("BMsg.java"), Some([Some("uses float")]))
  const BLogic: File := File(Some("BLogic.java"), Some([Some("handles BMsg")]))

  /** A readable directory holding the files `a` and `b`, in that order. */
  function Flat(a: File, b: File): Entry {
    DirEntry(true, [FileEntry(a), FileEntry(b)])
  }

  lemma FlatTree(a: File, b: File)
    ensures AllFiles(Flat(a, b)) == [a, b]
    ensures Readable(Flat(a, b))
  {
    var es := [FileEntry(a), FileEntry(b)];
    assert Flat(a, b).children == es;
    assert es[0] == FileEntry(a) && es[1..] == [FileEntry(b)];
    assert [FileEntry(b)][0] == FileEntry(b) && [FileEntry(b)][1..] == [];
    assert AllFilesOf([FileEntry(b)]) == [b] + AllFilesOf([]) == [b];
    assert AllFilesOf(es) == [a] + AllFilesOf(es[1..]);
    assert ReadableAll([FileEntry(b)]);
    assert ReadableAll(es);
  }

  lemma SelectTwo(a: File, b: File, pattern: string)
    ensures Select([a, b], pattern) ==
              (if Qualifies(a, pattern) then [a] else []) + (if Qualifies(b, pattern) then [b] else [])
  {
    assert [a, b][0] == a && [a, b][1..] == [b];
    assert [b][0] == b && [b][1..] == [];
    var hb := if Qualifies(b, pattern) then [b] else [];
    assert Select([b], pattern) == hb + Select([], pattern) == hb;
  }

  lemma FilterOne(a: File, keywords: seq<string>)
    ensures Filter([a], keywords) == if Matches(a, keywords) then [a] else []
  {
    assert [a][1..] == [];
  }

  /** The stem of "AMsg.java" is "AMsg": only the extension is dropped. */
  lemma AMsgStem()
    ensures FileStem("AMsg.java") == "AMsg"
  {
    assert Lower("AMsg.java") == "amsg.java";
    JavaStem("AMsg.java");
  }

  lemma PatternsOfAFiles()
    ensures Qualifies(AMsg, Lower(MsgPattern)) && !Qualifies(ALogic, Lower(MsgPattern))
    ensures Qualifies(ALogic, Lower(LogicPattern)) && !Qualifies(AMsg, Lower(LogicPattern))
    ensures !Qualifies(AMsg, Lower(LogicBasePattern)) && !Qualifies(ALogic, Lower(LogicBasePattern))
  {
    assert Lower("AMsg.java") == "amsg.java";
    assert Lower("ALogic.java") == "alogic.java";
    assert Lower(MsgPattern) == "msg.java";
    assert Lower(LogicPattern) == "logic.java";
    assert Lower(LogicBasePattern) == "logicbase.java";
  }

  lemma AMsgMentionsDouble()
    ensures Matches(AMsg, LowerAll([Marker]))
  {
    assert Lower(Marker) == "double";
    assert LowerAll([Marker]) == ["double"];
    assert Lower("this uses Double precision") == "this uses double precision";
    assert "double" <= "this uses double precision"[10..];
    assert Contains("this uses double precision", ["double"][0]);
    assert LineHits(AMsg.contents.value[0], LowerAll([Marker]));
  }

  lemma ALogicMentionsAMsg()
    ensures Matches(ALogic, LowerAll(["AMsg"]))
  {
    assert Lower("AMsg") == "amsg";
    assert LowerAll(["AMsg"]) == ["amsg"];
    assert Lower("handles amsg here") == "handles amsg here";
    assert "amsg" <= "handles amsg here"[8..];
    assert Contains("handles amsg here", ["amsg"][0]);
    assert LineHits(ALogic.contents.value[0], LowerAll(["AMsg"]));
  }

  /** The stem "AMsg" does not occur in "handles A" in any case. */
  lemma HandlesADoesNotMentionAMsg()
    ensures !Matches(ALogicHandlesA, LowerAll(["AMsg"]))
  {
    assert Lower("AMsg") == "amsg";
    assert LowerAll(["AMsg"]) == ["amsg"];
    var line := Lower("handles A");
    assert line == "handles a";
    forall i | 0 <= i <= |line| - 4
      ensures !("amsg" <= line[i..])
    {
      assert line[i] != 'a' || line[i + 1] != 'm' by {
        assert i == 0 || i == 1 || i == 2 || i == 3 || i == 4 || i == 5;
      }
    }
  }

  /** "uses float" does not mention "Double" in any case. */
  lemma BMsgLacksMarker()
    ensures !Matches(BMsg, LowerAll([Marker]))
  {
    assert Lower(Marker) == "double";
    assert LowerAll([Marker]) == ["double"];
    var line := Lower("uses float");
    assert line == "uses float";
    forall i | 0 <= i <= |line| - 6
      ensures !("double" <= line[i..])
    {
      assert line[i] != 'd' by {
        assert i == 0 || i == 1 || i == 2 || i == 3 || i == 4;
      }
    }
  }

  /** A message file mentioning "Double" and a logic file mentioning its stem
      "AMsg" in another case: the logic file is reported. */
  lemma StemMentionIsReported()
    ensures Report(Flat(AMsg, ALogic)) == Ok(["ALogic.java"])
  {
    var root := Flat(AMsg, ALogic);
    FlatTree(AMsg, ALogic);
    PatternsOfAFiles();
    SelectTwo(AMsg, ALogic, Lower(MsgPattern));
    SelectTwo(AMsg, ALogic, Lower(LogicPattern));
    SelectTwo(AMsg, ALogic, Lower(LogicBasePattern));
    AMsgMentionsDouble();
    FilterOne(AMsg, LowerAll([Marker]));
    assert DoubleMsgs(root) == [AMsg];
    AMsgStem();
    assert Stems([AMsg]) == ["AMsg"];
    assert LogicCandidates(root) == [ALogic];
    ALogicMentionsAMsg();
    FilterOne(ALogic, LowerAll(["AMsg"]));
    assert Names([ALogic]) == ["ALogic.java"];
    ReportIsReference(root);
  }

  /** A tree with "AMsg.java" ("this uses Double precision") and
      "ALogic.java" ("handles A"): the derived keyword is "AMsg", not "A", so
      the logic file is not reported. */
  lemma StemIsNotPrefixBeforeMsg()
    ensures Report(Flat(AMsg, ALogicHandlesA)) == Ok([])
  {
    var root := Flat(AMsg, ALogicHandlesA);
    FlatTree(AMsg, ALogicHandlesA);
    PatternsOfAFiles();
    assert ALogicHandlesA.name == ALogic.name;
    SelectTwo(AMsg, ALogicHandlesA, Lower(MsgPattern));
    SelectTwo(AMsg, ALogicHandlesA, Lower(LogicPattern));
    SelectTwo(AMsg, ALogicHandlesA, Lower(LogicBasePattern));
    AMsgMentionsDouble();
    FilterOne(AMsg, LowerAll([Marker]));
    assert DoubleMsgs(root) == [AMsg];
    AMsgStem();
    assert Stems([AMsg]) == ["AMsg"];
    assert LogicCandidates(root) == [ALogicHandlesA];
    HandlesADoesNotMentionAMsg();
    FilterOne(ALogicHandlesA, LowerAll(["AMsg"]));
    ReportIsReference(root);
  }

  /** A message file that never mentions "Double" contributes no keyword: a
      logic file naming it is not reported. */
  lemma MsgWithoutMarkerIsDropped()
    ensures Report(Flat(BMsg, BLogic)) == Ok([])
  {
    var root := Flat(BMsg, BLogic);
    FlatTree(BMsg, BLogic);
    BMsgLacksMarker();
    assert Lower("BLogic.java") == "blogic.java";
    assert Lower(MsgPattern) == "msg.java";
    assert !Qualifies(BLogic, Lower(MsgPattern));
    forall m | m in AllFiles(root) && Qualifies(m, Lower(MsgPattern))
      ensures !Matches(m, LowerAll([Marker]))
    {
      assert m == BMsg;
    }
    ReportIsReference(root);
    NoDoubleMsgNoReport(root);
  }

  /** An empty root directory gives an empty report, not an error. */
  lemma EmptyRootReportsNothing()
    ensures Report(DirEntry(true, [])) == Ok([])
  {
    var root := DirEntry(true, []);
    assert AllFiles(root) == [];
    assert Readable(root);
    ReportIsReference(root);
    FilterNoKeywords(LogicCandidates(root));
  }
}
