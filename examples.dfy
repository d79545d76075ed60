/**
 * Concrete values the unit tests and the interface documentation give for
 * `collect` and `summarizeCollection`, checked against the model.
 */
module Examples {
  import opened Wrappers
  import opened JavaLang
  import opened Sorting
  import opened NumberRangeSummarizer
  import opened RangeExpansion

  /** The summary of a sorted list, from its runs, their segments and the
      text those segments join to. */
  lemma SummaryOf(xs: seq<Int32>, rs: seq<Run>, segs: seq<string>, text: string)
    requires xs != [] && forall i :: 0 <= i < |xs| - 1 ==> xs[i] <= xs[i + 1]
    requires Runs(xs, 0) == rs && Segments(xs, rs) == segs && Join(segs, ", ") == text
    ensures Summary(Some(xs)) == text
  {
    SortedByNeighbours(xs);
    SortOfSorted(xs);
  }

  lemma SummarizeSingle(xs: seq<Int32>)
    requires |xs| == 1 && xs[0] == 5
    ensures Summary(Some(xs)) == "5"
  {
    RunsStep(xs, 0, 0);
    assert IntToString(5) == "5";
    SummaryOf(xs, [Run(0, 0)], ["5"], "5");
  }

  lemma SummarizePair(xs: seq<Int32>)
    requires |xs| == 2 && xs[0] == 5 && xs[1] == 6
    ensures Summary(Some(xs)) == "5-6"
  {
    assert Continues(xs, 0) && EndOfRange(xs, 0) == 1;
    RunsStep(xs, 0, 1);
    assert IntToString(5) == "5" && IntToString(6) == "6";
    assert "5" + "-" + "6" == "5-6";
    SummaryOf(xs, [Run(0, 1)], ["5-6"], "5-6");
  }

  /** The runs of [1, 3, 5]. */
  lemma ApartRuns(xs: seq<Int32>)
    requires |xs| == 3 && xs[0] == 1 && xs[1] == 3 && xs[2] == 5
    ensures Runs(xs, 0) == [Run(0, 0), Run(1, 1), Run(2, 2)]
  {
    RunsStep(xs, 2, 2);
    assert !Continues(xs, 1) && EndOfRange(xs, 1) == 1;
    RunsStep(xs, 1, 1);
    assert !Continues(xs, 0) && EndOfRange(xs, 0) == 0;
    RunsStep(xs, 0, 0);
  }

  lemma SummarizeApart(xs: seq<Int32>)
    requires |xs| == 3 && xs[0] == 1 && xs[1] == 3 && xs[2] == 5
    ensures Summary(Some(xs)) == "1, 3, 5"
  {
    assert Join(["1", "3", "5"], ", ") == "1, 3, 5";
    var rs := [Run(0, 0), Run(1, 1), Run(2, 2)];
    ApartRuns(xs);
    assert Segments(xs, rs) == ["1", "3", "5"] by {
      SegmentsOfRuns(xs, rs, 0);
      SegmentsOfRuns(xs, rs, 1);
      SegmentsOfRuns(xs, rs, 2);
      assert IntToString(1) == "1" && IntToString(3) == "3" && IntToString(5) == "5";
    }
    SummaryOf(xs, rs, ["1", "3", "5"], "1, 3, 5");
  }

  /** The runs of [-3, -2, -1, 1, 2]. */
  lemma NegativeRuns(xs: seq<Int32>)
    requires |xs| == 5 && xs[0] == -3 && xs[1] == -2 && xs[2] == -1 && xs[3] == 1 && xs[4] == 2
    ensures Runs(xs, 0) == [Run(0, 2), Run(3, 4)]
  {
    assert Continues(xs, 3) && EndOfRange(xs, 3) == 4;
    RunsStep(xs, 3, 4);
    assert !Continues(xs, 2) && EndOfRange(xs, 2) == 2;
    assert Continues(xs, 1) && EndOfRange(xs, 1) == 2;
    assert Continues(xs, 0) && EndOfRange(xs, 0) == 2;
    RunsStep(xs, 0, 2);
  }

  lemma SummarizeNegative(xs: seq<Int32>)
    requires |xs| == 5 && xs[0] == -3 && xs[1] == -2 && xs[2] == -1 && xs[3] == 1 && xs[4] == 2
    ensures Summary(Some(xs)) == "-3--1, 1-2"
  {
    assert Join(["-3--1", "1-2"], ", ") == "-3--1, 1-2";
    var rs := [Run(0, 2), Run(3, 4)];
    NegativeRuns(xs);
    assert Segments(xs, rs) == ["-3--1", "1-2"] by {
      SegmentsOfRuns(xs, rs, 0);
      SegmentsOfRuns(xs, rs, 1);
      assert IntToString(-3) == "-3" && IntToString(-1) == "-1";
      assert IntToString(1) == "1" && IntToString(2) == "2";
      assert "-3" + "-" + "-1" == "-3--1" && "1" + "-" + "2" == "1-2";
    }
    SummaryOf(xs, rs, ["-3--1", "1-2"], "-3--1, 1-2");
  }

  /** The runs of [1, 3, 4, 5, 7, 9, 10]. */
  lemma MixedRuns(xs: seq<Int32>)
    requires |xs| == 7 && xs[0] == 1 && xs[1] == 3 && xs[2] == 4 && xs[3] == 5 && xs[4] == 7 && xs[5] == 9 && xs[6] == 10
    ensures Runs(xs, 0) == [Run(0, 0), Run(1, 3), Run(4, 4), Run(5, 6)]
  {
    assert Continues(xs, 5) && EndOfRange(xs, 5) == 6;
    RunsStep(xs, 5, 6);
    assert !Continues(xs, 4) && EndOfRange(xs, 4) == 4;
    RunsStep(xs, 4, 4);
    assert !Continues(xs, 3) && EndOfRange(xs, 3) == 3;
    assert Continues(xs, 2) && EndOfRange(xs, 2) == 3;
    assert Continues(xs, 1) && EndOfRange(xs, 1) == 3;
    RunsStep(xs, 1, 3);
    assert !Continues(xs, 0) && EndOfRange(xs, 0) == 0;
    RunsStep(xs, 0, 0);
  }

  /** The segments of the runs of [1, 3, 4, 5, 7, 9, 10]. */
  lemma MixedSegments(xs: seq<Int32>, rs: seq<Run>)
    requires |xs| == 7 && xs[0] == 1 && xs[1] == 3 && xs[2] == 4 && xs[3] == 5 && xs[4] == 7 && xs[5] == 9 && xs[6] == 10
    requires rs == [Run(0, 0), Run(1, 3), Run(4, 4), Run(5, 6)]
    ensures InBounds(xs, rs) && Segments(xs, rs) == ["1", "3-5", "7", "9-10"]
  {
    MixedRuns(xs);
    SegmentsOfRuns(xs, rs, 0);
    SegmentsOfRuns(xs, rs, 1);
    SegmentsOfRuns(xs, rs, 2);
    SegmentsOfRuns(xs, rs, 3);
    assert IntToString(1) == "1" && IntToString(3) == "3" && IntToString(5) == "5";
    assert IntToString(7) == "7" && IntToString(9) == "9" && IntToString(10) == "10";
    assert "3" + "-" + "5" == "3-5" && "9" + "-" + "10" == "9-10";
  }

  /** The segments of [1, 3, 4, 5, 7, 9, 10], joined. */
  lemma MixedText()
    ensures Join(["1", "3-5", "7", "9-10"], ", ") == "1, 3-5, 7, 9-10"
  {
  }

  lemma SummarizeMixed(xs: seq<Int32>)
    requires |xs| == 7 && xs[0] == 1 && xs[1] == 3 && xs[2] == 4 && xs[3] == 5 && xs[4] == 7 && xs[5] == 9 && xs[6] == 10
    ensures Summary(Some(xs)) == "1, 3-5, 7, 9-10"
  {
    MixedText();
    var rs := [Run(0, 0), Run(1, 3), Run(4, 4), Run(5, 6)];
    MixedRuns(xs);
    MixedSegments(xs, rs);
    SummaryOf(xs, rs, ["1", "3-5", "7", "9-10"], "1, 3-5, 7, 9-10");
  }

  /** The last three runs of the list in the interface documentation,
      [1, 3, 6, 7, 8, 12, 13, 14, 15, 21, 22, 23, 24, 31]. */
  lemma RequirementsTail(xs: seq<Int32>)
    requires |xs| == 14 && xs[0] == 1 && xs[1] == 3 && xs[2] == 6 && xs[3] == 7 && xs[4] == 8
             && xs[5] == 12 && xs[6] == 13 && xs[7] == 14 && xs[8] == 15
             && xs[9] == 21 && xs[10] == 22 && xs[11] == 23 && xs[12] == 24 && xs[13] == 31
    ensures Runs(xs, 5) == [Run(5, 8), Run(9, 12), Run(13, 13)]
  {
    RunsStep(xs, 13, 13);
    assert !Continues(xs, 12) && EndOfRange(xs, 12) == 12;
    assert Continues(xs, 11) && EndOfRange(xs, 11) == 12;
    assert Continues(xs, 10) && EndOfRange(xs, 10) == 12;
    assert Continues(xs, 9) && EndOfRange(xs, 9) == 12;
    RunsStep(xs, 9, 12);
    assert !Continues(xs, 8) && EndOfRange(xs, 8) == 8;
    assert Continues(xs, 7) && EndOfRange(xs, 7) == 8;
    assert Continues(xs, 6) && EndOfRange(xs, 6) == 8;
    assert Continues(xs, 5) && EndOfRange(xs, 5) == 8;
    RunsStep(xs, 5, 8);
  }

  /** All runs of the list in the interface documentation. */
  lemma RequirementsRuns(xs: seq<Int32>)
    requires |xs| == 14 && xs[0] == 1 && xs[1] == 3 && xs[2] == 6 && xs[3] == 7 && xs[4] == 8
             && xs[5] == 12 && xs[6] == 13 && xs[7] == 14 && xs[8] == 15
             && xs[9] == 21 && xs[10] == 22 && xs[11] == 23 && xs[12] == 24 && xs[13] == 31
    ensures Runs(xs, 0) == [Run(0, 0), Run(1, 1), Run(2, 4), Run(5, 8), Run(9, 12), Run(13, 13)]
  {
    RequirementsTail(xs);
    assert !Continues(xs, 4) && EndOfRange(xs, 4) == 4;
    assert Continues(xs, 3) && EndOfRange(xs, 3) == 4;
    assert Continues(xs, 2) && EndOfRange(xs, 2) == 4;
    RunsStep(xs, 2, 4);
    assert !Continues(xs, 1) && EndOfRange(xs, 1) == 1;
    RunsStep(xs, 1, 1);
    assert !Continues(xs, 0) && EndOfRange(xs, 0) == 0;
    RunsStep(xs, 0, 0);
  }

  /** The segments of the runs of the list in the interface documentation. */
  lemma RequirementsSegments(xs: seq<Int32>, rs: seq<Run>)
    requires |xs| == 14 && xs[0] == 1 && xs[1] == 3 && xs[2] == 6 && xs[3] == 7 && xs[4] == 8
             && xs[5] == 12 && xs[6] == 13 && xs[7] == 14 && xs[8] == 15
             && xs[9] == 21 && xs[10] == 22 && xs[11] == 23 && xs[12] == 24 && xs[13] == 31
    requires rs == [Run(0, 0), Run(1, 1), Run(2, 4), Run(5, 8), Run(9, 12), Run(13, 13)]
    ensures InBounds(xs, rs) && Segments(xs, rs) == ["1", "3", "6-8", "12-15", "21-24", "31"]
  {
    RequirementsRuns(xs);
    SegmentsOfRuns(xs, rs, 0);
    SegmentsOfRuns(xs, rs, 1);
    SegmentsOfRuns(xs, rs, 2);
    SegmentsOfRuns(xs, rs, 3);
    SegmentsOfRuns(xs, rs, 4);
    SegmentsOfRuns(xs, rs, 5);
    assert IntToString(1) == "1" && IntToString(3) == "3" && IntToString(31) == "31";
    assert IntToString(6) == "6" && IntToString(8) == "8" && "6" + "-" + "8" == "6-8";
    assert IntToString(12) == "12" && IntToString(15) == "15" && "12" + "-" + "15" == "12-15";
    assert IntToString(21) == "21" && IntToString(24) == "24" && "21" + "-" + "24" == "21-24";
  }

  /** The join of six parts, nested the way `Join` unfolds. */
  lemma JoinSix(f: seq<string>, sep: string)
    requires |f| == 6
    ensures Join(f, sep) == f[0] + sep + (f[1] + sep + (f[2] + sep + (f[3] + sep + (f[4] + sep + f[5]))))
  {
    JoinFrom(f, 5, sep); JoinFrom(f, 4, sep); JoinFrom(f, 3, sep);
    JoinFrom(f, 2, sep); JoinFrom(f, 1, sep); JoinFrom(f, 0, sep);
    assert f[0..] == f;
  }

  /** The segments of the list in the interface documentation, joined. */
  lemma RequirementsText(f: seq<string>)
    requires |f| == 6 && f[0] == "1" && f[1] == "3" && f[2] == "6-8"
             && f[3] == "12-15" && f[4] == "21-24" && f[5] == "31"
    ensures Join(f, ", ") == "1, 3, 6-8, 12-15, 21-24, 31"
  {
    JoinSix(f, ", ");
  }

  /** The example of the interface documentation and of the unit tests. */
  lemma SummarizeRequirements(xs: seq<Int32>)
    requires |xs| == 14 && xs[0] == 1 && xs[1] == 3 && xs[2] == 6 && xs[3] == 7 && xs[4] == 8
             && xs[5] == 12 && xs[6] == 13 && xs[7] == 14 && xs[8] == 15
             && xs[9] == 21 && xs[10] == 22 && xs[11] == 23 && xs[12] == 24 && xs[13] == 31
    ensures Summary(Some(xs)) == "1, 3, 6-8, 12-15, 21-24, 31"
  {
    RequirementsText(["1", "3", "6-8", "12-15", "21-24", "31"]);
    var rs := [Run(0, 0), Run(1, 1), Run(2, 4), Run(5, 8), Run(9, 12), Run(13, 13)];
    RequirementsRuns(xs);
    RequirementsSegments(xs, rs);
    SummaryOf(xs, rs, ["1", "3", "6-8", "12-15", "21-24", "31"], "1, 3, 6-8, 12-15, 21-24, 31");
  }

  /** The join of seven parts, nested the way `Join` unfolds. */
  lemma JoinSeven(f: seq<string>, sep: string)
    requires |f| == 7
    ensures Join(f, sep) == f[0] + sep + (f[1] + sep + (f[2] + sep + (f[3] + sep + (f[4] + sep + (f[5] + sep + f[6])))))
  {
    JoinFrom(f, 0, sep);
    JoinSix(f[1..], sep);
  }

  /** The join of eight parts, nested the way `Join` unfolds. */
  lemma JoinEight(f: seq<string>, sep: string)
    requires |f| == 8
    ensures Join(f, sep) == f[0] + sep + (f[1] + sep + (f[2] + sep + (f[3] + sep + (f[4] + sep + (f[5] + sep + (f[6] + sep + f[7]))))))
  {
    JoinFrom(f, 0, sep);
    JoinSeven(f[1..], sep);
  }

  /** The first half of the end-to-end input, joined with commas.
      This lemma and `RequirementsInputBack`, `UnorderedJoin` and `ShuffledJoin`
      are one join per literal input. Each takes its parts as a parameter so that
      the literal join is evaluated apart from the facts about `IntToString`;
      the solver needs far more work for the two together. */
  lemma RequirementsInputFront(f: seq<string>)
    requires |f| == 7 && f[0] == "1" && f[1] == "3" && f[2] == "6" && f[3] == "7"
             && f[4] == "8" && f[5] == "12" && f[6] == "13"
    ensures Join(f, ",") == "1,3,6,7,8,12,13"
  {
    JoinSeven(f, ",");
  }

  /** The second half of the end-to-end input, joined with commas. */
  lemma RequirementsInputBack(f: seq<string>)
    requires |f| == 7 && f[0] == "14" && f[1] == "15" && f[2] == "21" && f[3] == "22"
             && f[4] == "23" && f[5] == "24" && f[6] == "31"
    ensures Join(f, ",") == "14,15,21,22,23,24,31"
  {
    JoinSeven(f, ",");
  }

  /** The first seven numbers of the end-to-end test, written out. */
  lemma RequirementsFront(xs: seq<Int32>)
    requires |xs| == 14 && xs[0] == 1 && xs[1] == 3 && xs[2] == 6 && xs[3] == 7 && xs[4] == 8
             && xs[5] == 12 && xs[6] == 13 && xs[7] == 14 && xs[8] == 15
             && xs[9] == 21 && xs[10] == 22 && xs[11] == 23 && xs[12] == 24 && xs[13] == 31
    ensures Join(Texts(xs)[..7], ",") == "1,3,6,7,8,12,13"
  {
    assert IntToString(1) == "1" && IntToString(3) == "3" && IntToString(6) == "6";
    assert IntToString(7) == "7" && IntToString(8) == "8" && IntToString(12) == "12";
    assert IntToString(13) == "13";
    RequirementsInputFront(Texts(xs)[..7]);
  }

  /** The last seven numbers of the end-to-end test, written out. */
  lemma RequirementsBack(xs: seq<Int32>)
    requires |xs| == 14 && xs[0] == 1 && xs[1] == 3 && xs[2] == 6 && xs[3] == 7 && xs[4] == 8
             && xs[5] == 12 && xs[6] == 13 && xs[7] == 14 && xs[8] == 15
             && xs[9] == 21 && xs[10] == 22 && xs[11] == 23 && xs[12] == 24 && xs[13] == 31
    ensures Join(Texts(xs)[7..], ",") == "14,15,21,22,23,24,31"
  {
    assert IntToString(14) == "14" && IntToString(15) == "15" && IntToString(21) == "21";
    assert IntToString(22) == "22" && IntToString(23) == "23" && IntToString(24) == "24";
    assert IntToString(31) == "31";
    RequirementsInputBack(Texts(xs)[7..]);
  }

  /** The input of the end-to-end test: the list written out and joined with commas. */
  lemma RequirementsInput(xs: seq<Int32>)
    requires |xs| == 14 && xs[0] == 1 && xs[1] == 3 && xs[2] == 6 && xs[3] == 7 && xs[4] == 8
             && xs[5] == 12 && xs[6] == 13 && xs[7] == 14 && xs[8] == 15
             && xs[9] == 21 && xs[10] == 22 && xs[11] == 23 && xs[12] == 24 && xs[13] == 31
    ensures Join(Texts(xs), ",") == "1,3,6,7,8,12,13,14,15,21,22,23,24,31"
  {
    var t := Texts(xs);
    assert t == t[..7] + t[7..];
    JoinAppend(t[..7], t[7..], ",");
    RequirementsFront(xs);
    RequirementsBack(xs);
    assert "1,3,6,7,8,12,13" + "," + "14,15,21,22,23,24,31" == "1,3,6,7,8,12,13,14,15,21,22,23,24,31";
  }

  /** `collect` reads the written-out list back. */
  lemma RequirementsCollect(xs: seq<Int32>)
    requires |xs| == 14 && xs[0] == 1 && xs[1] == 3 && xs[2] == 6 && xs[3] == 7 && xs[4] == 8
             && xs[5] == 12 && xs[6] == 13 && xs[7] == 14 && xs[8] == 15
             && xs[9] == 21 && xs[10] == 22 && xs[11] == 23 && xs[12] == 24 && xs[13] == 31
    ensures Collect(Some(Join(Texts(xs), ","))) == Ok(xs)
  {
    StrictlyAscendingByNeighbours(xs);
    CollectJoined(xs);
  }

  /** The end-to-end test: `collect("1,3,6,7,8,12,13,14,15,21,22,23,24,31")`
      followed by `summarizeCollection` gives "1, 3, 6-8, 12-15, 21-24, 31".
      The input is written as the decimal forms of `xs` joined with commas,
      which is that string. */
  lemma CollectThenSummarizeRequirements(xs: seq<Int32>)
    requires |xs| == 14 && xs[0] == 1 && xs[1] == 3 && xs[2] == 6 && xs[3] == 7 && xs[4] == 8
             && xs[5] == 12 && xs[6] == 13 && xs[7] == 14 && xs[8] == 15
             && xs[9] == 21 && xs[10] == 22 && xs[11] == 23 && xs[12] == 24 && xs[13] == 31
    ensures Join(Texts(xs), ",") == "1,3,6,7,8,12,13,14,15,21,22,23,24,31"
    ensures Collect(Some(Join(Texts(xs), ","))) == Ok(xs)
    ensures Summary(Some(Collect(Some(Join(Texts(xs), ","))).value)) == "1, 3, 6-8, 12-15, 21-24, 31"
  {
    RequirementsInput(xs);
    RequirementsCollect(xs);
    SummarizeRequirements(xs);
  }

  /** The empty field of "1,,3" is skipped, where the unit tests expect
      `IllegalArgumentException`. */
  lemma CollectSkipsEmptyToken()
    ensures Collect(Some("1,,3")) == Ok([1, 3])
  {
    CollectSkipsEmptyField("1", "3");
    assert "1" + ",," + "3" == "1,,3";
    assert Texts([1, 3]) == ["1", "3"] by {
      assert IntToString(1) == "1" && IntToString(3) == "3";
    }
    assert Join(["1", "3"], ",") == "1" + "," + "3" == "1,3";
    CollectJoined([1, 3]);
  }

  /** The numbers 3, 1, 4, 1, 5, 9, 2 go into the set in ascending order, once each. */
  lemma UnorderedSet(ys: seq<Int32>, xs: seq<Int32>)
    requires |ys| == 7 && ys[0] == 3 && ys[1] == 1 && ys[2] == 4
    requires ys[3] == 1 && ys[4] == 5 && ys[5] == 9 && ys[6] == 2
    requires |xs| == 6 && xs[0] == 1 && xs[1] == 2 && xs[2] == 3
    requires xs[3] == 4 && xs[4] == 5 && xs[5] == 9
    ensures AddPieces([], Numbers(ys)) == Ok(xs)
  {
    var p, q := Numbers(ys), Numbers(xs);
    forall x ensures x in p <==> x in q {
      assert p[0] == Number(3) && p[1] == Number(1) && p[2] == Number(4) && p[3] == Number(1);
      assert p[4] == Number(5) && p[5] == Number(9) && p[6] == Number(2);
      assert q[0] == Number(1) && q[1] == Number(2) && q[2] == Number(3);
      assert q[3] == Number(4) && q[4] == Number(5) && q[5] == Number(9);
    }
    AddPiecesOrderFree(p, q);
    assert [] + xs == xs;
    AddPiecesAscending([], xs);
  }

  /** The input of that test, number by number. */
  lemma UnorderedTexts(ys: seq<Int32>)
    requires |ys| == 7 && ys[0] == 3 && ys[1] == 1 && ys[2] == 4
    requires ys[3] == 1 && ys[4] == 5 && ys[5] == 9 && ys[6] == 2
    ensures Texts(ys) == ["3", "1", "4", "1", "5", "9", "2"]
  {
    assert IntToString(1) == "1" && IntToString(2) == "2" && IntToString(3) == "3";
    assert IntToString(4) == "4" && IntToString(5) == "5" && IntToString(9) == "9";
  }

  /** The unordered test input, joined with commas. */
  lemma UnorderedJoin(f: seq<string>)
    requires |f| == 7 && f[0] == "3" && f[1] == "1" && f[2] == "4" && f[3] == "1"
             && f[4] == "5" && f[5] == "9" && f[6] == "2"
    ensures Join(f, ",") == "3,1,4,1,5,9,2"
  {
    JoinSeven(f, ",");
  }

  /** `collect("3,1,4,1,5,9,2")` is `[1, 2, 3, 4, 5, 9]`: sorted and without
      the repeated 1, whatever the input order. The input is written as the
      decimal forms of `ys` joined with commas, which is that string. */
  lemma CollectSorts(ys: seq<Int32>, xs: seq<Int32>)
    requires |ys| == 7 && ys[0] == 3 && ys[1] == 1 && ys[2] == 4
    requires ys[3] == 1 && ys[4] == 5 && ys[5] == 9 && ys[6] == 2
    requires |xs| == 6 && xs[0] == 1 && xs[1] == 2 && xs[2] == 3
    requires xs[3] == 4 && xs[4] == 5 && xs[5] == 9
    ensures Join(Texts(ys), ",") == "3,1,4,1,5,9,2"
    ensures Collect(Some(Join(Texts(ys), ","))) == Ok(xs)
  {
    UnorderedTexts(ys);
    UnorderedJoin(Texts(ys));
    CollectWritten(ys);
    UnorderedSet(ys, xs);
  }

  /** The unordered end-to-end input, joined with commas. */
  lemma ShuffledJoin(f: seq<string>)
    requires |f| == 8 && f[0] == "8" && f[1] == "1" && f[2] == "3" && f[3] == "2"
             && f[4] == "15" && f[5] == "14" && f[6] == "13" && f[7] == "12"
    ensures Join(f, ",") == "8,1,3,2,15,14,13,12"
  {
    JoinEight(f, ",");
  }

  /** The input of the unordered end-to-end test, written out and joined with commas. */
  lemma ShuffledInput(ys: seq<Int32>)
    requires |ys| == 8 && ys[0] == 8 && ys[1] == 1 && ys[2] == 3 && ys[3] == 2
    requires ys[4] == 15 && ys[5] == 14 && ys[6] == 13 && ys[7] == 12
    ensures Join(Texts(ys), ",") == "8,1,3,2,15,14,13,12"
  {
    assert IntToString(8) == "8" && IntToString(1) == "1" && IntToString(3) == "3";
    assert IntToString(2) == "2" && IntToString(15) == "15" && IntToString(14) == "14";
    assert IntToString(13) == "13" && IntToString(12) == "12";
    ShuffledJoin(Texts(ys));
  }

  /** The numbers 8, 1, 3, 2, 15, 14, 13, 12 go into the set in ascending order. */
  lemma ShuffledSet(ys: seq<Int32>, xs: seq<Int32>)
    requires |ys| == 8 && ys[0] == 8 && ys[1] == 1 && ys[2] == 3 && ys[3] == 2
    requires ys[4] == 15 && ys[5] == 14 && ys[6] == 13 && ys[7] == 12
    requires |xs| == 8 && xs[0] == 1 && xs[1] == 2 && xs[2] == 3 && xs[3] == 8
    requires xs[4] == 12 && xs[5] == 13 && xs[6] == 14 && xs[7] == 15
    ensures AddPieces([], Numbers(ys)) == Ok(xs)
  {
    var p, q := Numbers(ys), Numbers(xs);
    forall x ensures x in p <==> x in q {
      assert p[0] == Number(8) && p[1] == Number(1) && p[2] == Number(3) && p[3] == Number(2);
      assert p[4] == Number(15) && p[5] == Number(14) && p[6] == Number(13) && p[7] == Number(12);
      assert q[0] == Number(1) && q[1] == Number(2) && q[2] == Number(3) && q[3] == Number(8);
      assert q[4] == Number(12) && q[5] == Number(13) && q[6] == Number(14) && q[7] == Number(15);
    }
    AddPiecesOrderFree(p, q);
    assert [] + xs == xs;
    StrictlyAscendingByNeighbours(xs);
    AddPiecesAscending([], xs);
  }

  /** The runs of [1, 2, 3, 8, 12, 13, 14, 15]. */
  lemma ShuffledRuns(xs: seq<Int32>)
    requires |xs| == 8 && xs[0] == 1 && xs[1] == 2 && xs[2] == 3 && xs[3] == 8
    requires xs[4] == 12 && xs[5] == 13 && xs[6] == 14 && xs[7] == 15
    ensures Runs(xs, 0) == [Run(0, 2), Run(3, 3), Run(4, 7)]
  {
    assert Continues(xs, 6) && EndOfRange(xs, 6) == 7;
    assert Continues(xs, 5) && EndOfRange(xs, 5) == 7;
    assert Continues(xs, 4) && EndOfRange(xs, 4) == 7;
    RunsStep(xs, 4, 7);
    assert !Continues(xs, 3) && EndOfRange(xs, 3) == 3;
    RunsStep(xs, 3, 3);
    assert !Continues(xs, 2) && EndOfRange(xs, 2) == 2;
    assert Continues(xs, 1) && EndOfRange(xs, 1) == 2;
    assert Continues(xs, 0) && EndOfRange(xs, 0) == 2;
    RunsStep(xs, 0, 2);
  }

  /** The segments of the runs of [1, 2, 3, 8, 12, 13, 14, 15]. */
  lemma ShuffledSegments(xs: seq<Int32>, rs: seq<Run>)
    requires |xs| == 8 && xs[0] == 1 && xs[1] == 2 && xs[2] == 3 && xs[3] == 8
    requires xs[4] == 12 && xs[5] == 13 && xs[6] == 14 && xs[7] == 15
    requires rs == [Run(0, 2), Run(3, 3), Run(4, 7)]
    ensures InBounds(xs, rs) && Segments(xs, rs) == ["1-3", "8", "12-15"]
  {
    ShuffledRuns(xs);
    SegmentsOfRuns(xs, rs, 0);
    SegmentsOfRuns(xs, rs, 1);
    SegmentsOfRuns(xs, rs, 2);
    assert IntToString(1) == "1" && IntToString(3) == "3" && IntToString(8) == "8";
    assert IntToString(12) == "12" && IntToString(15) == "15";
    assert "1" + "-" + "3" == "1-3" && "12" + "-" + "15" == "12-15";
  }

  /** [1, 2, 3, 8, 12, 13, 14, 15] summarizes to "1-3, 8, 12-15". */
  lemma SummarizeShuffled(xs: seq<Int32>)
    requires |xs| == 8 && xs[0] == 1 && xs[1] == 2 && xs[2] == 3 && xs[3] == 8
    requires xs[4] == 12 && xs[5] == 13 && xs[6] == 14 && xs[7] == 15
    ensures Summary(Some(xs)) == "1-3, 8, 12-15"
  {
    assert Join(["1-3", "8", "12-15"], ", ") == "1-3, 8, 12-15";
    var rs := [Run(0, 2), Run(3, 3), Run(4, 7)];
    ShuffledRuns(xs);
    ShuffledSegments(xs, rs);
    SummaryOf(xs, rs, ["1-3", "8", "12-15"], "1-3, 8, 12-15");
  }

  /** The unordered end-to-end test: `collect("8,1,3,2,15,14,13,12")` is
      [1, 2, 3, 8, 12, 13, 14, 15], and `summarizeCollection` of it is
      "1-3, 8, 12-15". The input is written as the decimal forms of `ys`
      joined with commas, which is that string. */
  lemma CollectThenSummarizeShuffled(ys: seq<Int32>, xs: seq<Int32>)
    requires |ys| == 8 && ys[0] == 8 && ys[1] == 1 && ys[2] == 3 && ys[3] == 2
    requires ys[4] == 15 && ys[5] == 14 && ys[6] == 13 && ys[7] == 12
    requires |xs| == 8 && xs[0] == 1 && xs[1] == 2 && xs[2] == 3 && xs[3] == 8
    requires xs[4] == 12 && xs[5] == 13 && xs[6] == 14 && xs[7] == 15
    ensures Join(Texts(ys), ",") == "8,1,3,2,15,14,13,12"
    ensures Collect(Some(Join(Texts(ys), ","))) == Ok(xs)
    ensures Summary(Some(Collect(Some(Join(Texts(ys), ","))).value)) == "1-3, 8, 12-15"
  {
    ShuffledInput(ys);
    CollectWritten(ys);
    ShuffledSet(ys, xs);
    SummarizeShuffled(xs);
  }

  /** A field holding a word is malformed. */
  lemma WordMalformed()
    ensures Classify("abc") == Malformed
  {
    TrimTight("abc", "");
    assert "" + "abc" == "abc";
    assert !IsDigit("abc"[0]);
  }

  /** A field holding a decimal fraction is malformed. */
  lemma FractionMalformed()
    ensures Classify("1.5") == Malformed
  {
    TrimTight("1.5", "");
    assert "" + "1.5" == "1.5";
    assert !IsDigit("1.5"[1]);
  }

  /** `collect("abc")` throws `IllegalArgumentException`. */
  lemma CollectRejectsWord()
    ensures Collect(Some("abc")) == Err(IllegalArgument)
  {
    SplitWhole("abc", ',');
    WordMalformed();
    CollectSucceeds("abc");
  }

  /** `collect("1,abc,3")` throws: one malformed field is enough. */
  lemma CollectRejectsInnerWord()
    ensures Collect(Some("1,abc,3")) == Err(IllegalArgument)
  {
    assert Join(["1", "abc", "3"], ",") == "1,abc,3";
    SplitJoin(["1", "abc", "3"], ',');
    WordMalformed();
    CollectSucceeds("1,abc,3");
  }

  /** `collect("1.5,2")` throws: `Integer.parseInt` takes no fractions. */
  lemma CollectRejectsFraction()
    ensures Collect(Some("1.5,2")) == Err(IllegalArgument)
  {
    assert Join(["1.5", "2"], ",") == "1.5,2";
    SplitJoin(["1.5", "2"], ',');
    FractionMalformed();
    CollectSucceeds("1.5,2");
  }
}
