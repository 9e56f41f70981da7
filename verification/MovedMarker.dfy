// A write that the guard allows and the verifier fails: it moves one line of a preserved selection into
// the target nested in it, so the content stays and the text outside the target does not.
module MovedMarker {
  import opened Anchors
  import opened Markers
  import opened Nesting
  import opened Tracker
  import opened Insertion
  import opened Guard
  import opened Verify
  import opened Surroundings
  import opened Preserving
  import Create
  import LineRanges

  const LANGUAGE := LineComment("#")

  const OUTER := "PPPPPPPP"

  const INNER := "TTTTTTTT"

  const LINE := "f\n"

  function Line(id: string, boundary: Boundary): string { MarkerLine(LINE, LINE, LANGUAGE, id, boundary) }

  /** The preserved selection holds a line, the target with one line, and another line. */
  function LinesBefore(): seq<string> {
    [Line(OUTER, Start), LINE, Line(INNER, Start), LINE, Line(INNER, End), LINE, Line(OUTER, End)]
  }

  /** The last line is now inside the target. */
  function LinesAfter(): seq<string> {
    [Line(OUTER, Start), LINE, Line(INNER, Start), LINE, LINE, Line(INNER, End), Line(OUTER, End)]
  }

  /** At the checkpoint the target held two other lines. */
  function OuterRecord(): Record {
    Record(OUTER, Preserve, "a", Origin("c", "a", 1, 4, Join(["f\n", "x\n", "x\n", "f\n"])))
  }

  function InnerRecord(): Record { Record(INNER, Target, "a", Origin("c", "a", 2, 3, Join(["x\n", "x\n"]))) }

  function Registry(): seq<Record> { [OuterRecord(), InnerRecord()] }

  function Marks(): seq<Mark> { [StartMark(OUTER), StartMark(INNER), EndMark(INNER), EndMark(OUTER)] }

  lemma LineFacts()
    ensures MarkOf(Some(LANGUAGE), LINE) == None && IsWhole(LINE)
    ensures forall id, boundary | id == OUTER || id == INNER :: IsWhole(Line(id, boundary))
              && MarkOf(Some(LANGUAGE), Line(id, boundary)) == Some(Mark(Selection, Some(id), Some(boundary), None))
  {
    assert Content(LINE) == "f";
    assert TrimStart("f") == "f" && Trim("f") == "f";
    forall i | 0 <= i < |CANDIDATE_OPENERS|
      ensures !OpensMarker(CANDIDATE_OPENERS[i], "f")
    {
      assert CANDIDATE_OPENERS[0] == "<!--" && CANDIDATE_OPENERS[1] == "//" && CANDIDATE_OPENERS[2] == "/*"
             && CANDIDATE_OPENERS[3] == "#";
      assert CANDIDATE_OPENERS[4] == "--" && CANDIDATE_OPENERS[5] == ";" && CANDIDATE_OPENERS[6] == "%"
             && CANDIDATE_OPENERS[7] == "'";
    }
    forall id, boundary | id == OUTER || id == INNER
      ensures IsWhole(Line(id, boundary))
              && MarkOf(Some(LANGUAGE), Line(id, boundary)) == Some(Mark(Selection, Some(id), Some(boundary), None))
    {
      MarkerLineIsSegment(LINE, LINE, LANGUAGE, id, boundary);
    }
  }

  function FileOf(lines: seq<string>): FileScan { ScanFile(Some(LANGUAGE), "a", Join(lines)) }

  function FourMarkers(lines: seq<string>, m: seq<Mark>, third: nat): seq<Marker>
    requires |lines| == 7 && |m| == 4 && 3 < third < 7
  {
    [MarkerOn(lines, m[0], 1), MarkerOn(lines, m[1], 3), MarkerOn(lines, m[2], third), MarkerOn(lines, m[3], 7)]
  }

  lemma FourAreMarkers(marks: seq<Option<Mark>>, lines: seq<string>, m: seq<Mark>, third: nat)
    requires |marks| == |lines| == 7 && |m| == 4 && (third == 5 || third == 6)
    requires marks[0] == Some(m[0]) && marks[1] == None && marks[2] == Some(m[1]) && marks[3] == None
             && marks[6] == Some(m[3])
    requires if third == 5 then marks[4] == Some(m[2]) && marks[5] == None
             else marks[4] == None && marks[5] == Some(m[2])
    ensures AreMarkersOf(marks, lines, 7, FourMarkers(lines, m, third))
  {
    var markers := FourMarkers(lines, m, third);
    assert markers[0].line == 1 && markers[1].line == 3 && markers[2].line == third && markers[3].line == 7;
    forall line | 0 < line <= 7 && marks[line - 1].Some?
      ensures IsMarked(markers, line)
    {
      assert line == 1 || line == 3 || line == third || line == 7;
    }
  }

  /** What each of the seven lines says. */
  ghost predicate SayMarks(read: string -> Option<Mark>, lines: seq<string>, m: seq<Mark>, third: nat) {
    && |lines| == 7 && |m| == 4 && (third == 5 || third == 6)
    && read(lines[0]) == Some(m[0]) && read(lines[1]) == None && read(lines[2]) == Some(m[1]) && read(lines[3]) == None
    && read(lines[6]) == Some(m[3]) && read(lines[third - 1]) == Some(m[2]) && read(lines[10 - third]) == None
  }

  ghost function Reader(): string -> Option<Mark> { s => MarkOf(Some(LANGUAGE), s) }

  /** The scan of a file with four marker lines. */
  lemma ScanOf(lines: seq<string>, m: seq<Mark>, third: nat)
    requires WellSegmented(lines) && SayMarks(Reader(), lines, m, third)
    ensures var file := FileOf(lines);
            file.segments == lines && IsOrderly(file) && file.markers == FourMarkers(lines, m, third)
  {
    JoinSegments(lines);
    var marks := LineMarks(Some(LANGUAGE), lines);
    assert marks[0] == MarkOf(Some(LANGUAGE), lines[0]) && marks[1] == MarkOf(Some(LANGUAGE), lines[1]);
    assert marks[4] == MarkOf(Some(LANGUAGE), lines[4]) && marks[5] == MarkOf(Some(LANGUAGE), lines[5]);
    FourAreMarkers(marks, lines, m, third);
    ScanIsOrdered(Some(LANGUAGE), Join(lines));
    MarkersAreUnique(marks, lines, 7, FindMarkers(Some(LANGUAGE), Join(lines)), FourMarkers(lines, m, third));
    ScanFileIsOrderly(Some(LANGUAGE), "a", Join(lines));
  }

  predicate IsWhole(line: string) { IsSegment(line) && IsClosed(line) }

  lemma All(holds: string -> bool, lines: seq<string>, third: nat, p: string, q: string, r: string, t: string,
            line: string)
    requires lines == if third == 5 then [p, line, q, line, r, line, t] else [p, line, q, line, line, r, t]
    requires holds(p) && holds(q) && holds(r) && holds(t) && holds(line)
    ensures forall i :: 0 <= i < |lines| ==> holds(lines[i])
  {
  }

  lemma BothWhole(p: string, q: string, r: string, t: string, line: string, before: seq<string>, after: seq<string>)
    requires IsWhole(p) && IsWhole(q) && IsWhole(r) && IsWhole(t) && IsWhole(line)
    requires before == [p, line, q, line, r, line, t] && after == [p, line, q, line, line, r, t]
    ensures WellSegmented(before) && WellSegmented(after)
  {
    var whole := s => IsWhole(s);
    All(whole, before, 5, p, q, r, t, line);
    All(whole, after, 6, p, q, r, t, line);
    assert forall i :: 0 <= i < |before| ==> whole(before[i]);
    assert forall i :: 0 <= i < |after| ==> whole(after[i]);
  }

  /** The lines of a file where the markers say m. */
  lemma Said(read: string -> Option<Mark>, lines: seq<string>, m: seq<Mark>, third: nat, p: string, q: string,
             r: string, t: string, line: string)
    requires lines == if third == 5 then [p, line, q, line, r, line, t] else [p, line, q, line, line, r, t]
    requires (third == 5 || third == 6) && |m| == 4
    requires read(p) == Some(m[0]) && read(q) == Some(m[1]) && read(r) == Some(m[2]) && read(t) == Some(m[3])
             && read(line) == None
    ensures SayMarks(read, lines, m, third)
  {
  }

  lemma BothScans()
    ensures WellSegmented(LinesBefore()) && WellSegmented(LinesAfter())
    ensures SayMarks(Reader(), LinesBefore(), Marks(), 5) && SayMarks(Reader(), LinesAfter(), Marks(), 6)
  {
    hide MarkOf;
    LineFacts();
    var p, q, r, t := Line(OUTER, Start), Line(INNER, Start), Line(INNER, End), Line(OUTER, End);
    Said(Reader(), LinesBefore(), Marks(), 5, p, q, r, t, LINE);
    Said(Reader(), LinesAfter(), Marks(), 6, p, q, r, t, LINE);
    BothWhole(p, q, r, t, LINE, LinesBefore(), LinesAfter());
  }

  // ---------------------------------------------------------------- resolving

  lemma PairsOfMarks()
    ensures Pairs(Marks()) == {(0, 3), (1, 2)}
  {
    var m := Marks();
    assert NestAfter(m, 1) == Nest([0], {});
    assert NestAfter(m, 2) == Nest([0, 1], {});
    assert NestAfter(m, 3) == Nest([0], {(1, 2)});
    assert NestAfter(m, 4) == Nest([], {(1, 2), (0, 3)});
  }

  lemma OuterResolves()
    ensures JudgeOne(OUTER, Marks()) == At(0, 3)
  {
    hide JudgeFile;
    PairsOfMarks();
    ResolvesIff(OUTER, Marks(), 0, 3);
    Create.JudgedWithoutProblems(OUTER, Marks());
  }

  /** The marker lines of the target are not part of the content. */
  lemma DroppedInner(markers: seq<Marker>, end: nat, line: nat)
    requires 2 < end < |markers| && Pairs(MarksOf(markers)) == {(0, end), (1, 2)}
    requires markers[1].mark.id != markers[0].mark.id
    ensures line in DroppedLines(markers, (0, end)) <==> line == markers[1].line || line == markers[2].line
  {
    hide Pairs;
    var marks := MarksOf(markers);
    assert (1, 2) in Pairs(marks) && marks[1].id != marks[0].id && Inside((1, 2), (0, end));
    assert IsChildMark(marks, (0, end), 1) && IsChildMark(marks, (0, end), 2);
    assert forall k :: IsChildMark(marks, (0, end), k) ==> k == 1 || k == 2;
  }

  /** Three plain lines are kept in both files. */
  lemma KeepThree(lines: seq<string>, drop: set<nat>, third: nat, line: string)
    requires |lines| == 7 && (third == 5 || third == 6)
    requires lines[1] == line && lines[3] == line && lines[10 - third] == line
    requires 2 !in drop && 3 in drop && 4 !in drop && third in drop && 11 - third !in drop
    ensures KeepLines(lines, 1, 6, drop) == line + line + line
  {
    assert KeepLines(lines, 1, 2, drop) == KeepLines(lines, 1, 1, drop) + line == line;
    assert KeepLines(lines, 1, 3, drop) == line + "" == line;
    assert KeepLines(lines, 1, 4, drop) == line + line;
    if third == 5 {
      assert KeepLines(lines, 1, 5, drop) == line + line + "" == line + line;
    } else {
      assert KeepLines(lines, 1, 5, drop) == line + line + line;
      assert line + line + line + "" == line + line + line;
    }
  }

  lemma NewlinesOfLines(n: nat)
    requires n <= 4
    ensures Create.Newlines("") == 0 && Create.Newlines(LINE) == 1 && Create.Newlines(LINE + LINE) == 2
    ensures Create.Newlines(NormalizeContent(LINE + LINE + LINE)) == 3
    ensures Create.Newlines(NormalizeContent(LINE + LINE)) == 2 && Create.Newlines(NormalizeContent(LINE)) == 1
  {
    assert Create.Newlines(LINE) == 1 by {
      assert LINE[1..] == "\n" && "\n"[1..] == "";
    }
    Create.NewlinesAppend(LINE, LINE);
    Create.NewlinesAppend(LINE + LINE, LINE);
    Create.ContentNewlines(LINE + LINE + LINE);
    Create.ContentNewlines(LINE + LINE);
    Create.ContentNewlines(LINE);
  }

  /** What the two files have in common, with the line of the target's end marker. */
  ghost predicate IsFile(file: FileScan, third: nat) {
    && |file.segments| == 7 && (third == 5 || third == 6) && IsOrderly(file)
    && file.markers == FourMarkers(file.segments, Marks(), third) && MarksOf(file.markers) == Marks()
    && file.segments[1] == LINE && file.segments[3] == LINE && file.segments[10 - third] == LINE
  }

  lemma OuterContent(file: FileScan, third: nat)
    requires IsFile(file, third)
    ensures ResolveOne(OUTER, file) == Resolved(LocationIn(file, 0, 3))
    ensures LocationIn(file, 0, 3).content == NormalizeContent(LINE + LINE + LINE)
    ensures LocationIn(file, 0, 3).startMarkerLine == 1 && LocationIn(file, 0, 3).endMarkerLine == 7
    ensures 3 in DroppedLines(file.markers, (0, 3)) && third in DroppedLines(file.markers, (0, 3))
  {
    OuterResolves();
    PairsOfMarks();
    assert file.markers[0].line == 1 && file.markers[1].line == 3 && file.markers[2].line == third
           && file.markers[3].line == 7;
    var drop := DroppedLines(file.markers, (0, 3));
    DroppedInner(file.markers, 3, 2);
    DroppedInner(file.markers, 3, 3);
    DroppedInner(file.markers, 3, 4);
    DroppedInner(file.markers, 3, third);
    DroppedInner(file.markers, 3, 11 - third);
    KeepThree(file.segments, drop, third, LINE);
  }

  /** The target as the verifier finds it. */
  function Inner(third: nat): Nested { Nested(3, third, 2, 3) }

  lemma InnerIsNested(file: FileScan, third: nat, loc: Location)
    requires IsFile(file, third) && loc.startMarkerLine == 1 && loc.endMarkerLine == 7
    ensures NestedTargets(Registry(), OuterRecord(), loc, file.markers) == Some([Inner(third)])
  {
    hide Join, WellEnds;
    var markers := file.markers;
    assert markers[0].line == 1 && markers[1].line == 3 && markers[2].line == third && markers[3].line == 7;
    assert forall k :: 0 <= k < 4 ==> markers[k].mark == Marks()[k];
    OneWellEnd(INNER, Start, markers, 4, 1);
    OneWellEnd(INNER, End, markers, 4, 2);
    assert ChildAt(InnerRecord(), loc, markers) == Some((1, 2));
    assert Registry()[..1] == [OuterRecord()] && [OuterRecord()][..0] == [];
    assert NestedTargets([OuterRecord()], OuterRecord(), loc, markers) == Some([]);
    assert IsTargetChild(InnerRecord(), OuterRecord()) && IsWithin(InnerRecord(), OuterRecord());
    assert Registry()[1] == InnerRecord();
    assert [] + [Inner(third)] == [Inner(third)];
  }

  // ---------------------------------------------------------------- both comparisons

  lemma LeftOut(file: FileScan, third: nat, line: nat)
    requires IsFile(file, third) && 1 < line < 7
    ensures IsLeftOut(file.markers, [Inner(third)], line) <==> 3 <= line <= third
    ensures IsSelectionLine(file.markers, line) <==> line == 3 || line == third
  {
    var m := file.markers;
    assert m[0].line == 1 && m[1].line == 3 && m[2].line == third && m[3].line == 7;
    assert IsInterior([Inner(third)], line) <==> 3 < line < third;
    assert m[1..][1..][1..] == [m[3]] && m[1..][1..] == [m[2], m[3]] && m[1..] == [m[1], m[2], m[3]];
    assert [m[3]][1..] == [];
    assert IsSelectionLine([m[3]], line) <==> line == 7;
    assert IsSelectionLine([m[2], m[3]], line) <==> line == third || line == 7;
    assert IsSelectionLine(m, line) <==> line == 1 || line == 3 || line == third || line == 7;
  }

  lemma OutsideOf(file: FileScan, third: nat)
    requires IsFile(file, third)
    ensures Outside(file.segments, file.markers, [Inner(third)], 1, 6) == if third == 5 then LINE + LINE else LINE
  {
    var s, m, n := file.segments, file.markers, [Inner(third)];
    assert Content(LINE) == "f" && "f" + "\n" == LINE;
    LeftOut(file, third, 2);
    LeftOut(file, third, 3);
    LeftOut(file, third, 4);
    LeftOut(file, third, 5);
    LeftOut(file, third, 6);
    assert Outside(s, m, n, 1, 2) == Outside(s, m, n, 1, 1) + LINE == LINE;
    assert Outside(s, m, n, 1, 3) == LINE + "" == LINE;
    assert Outside(s, m, n, 1, 4) == LINE + "" == LINE;
    assert Outside(s, m, n, 1, 5) == LINE + "" == LINE;
  }

  lemma BaselineFour(lines: seq<string>, third: nat, line: string)
    requires |lines| == 4 && lines[0] + "\n" == line && lines[3] + "\n" == line
    ensures BaselineOutside(lines, 1, [Inner(third)], 4) == line + line
  {
    var n := [Inner(third)];
    assert !IsOriginLine(n, 1) && IsOriginLine(n, 2) && IsOriginLine(n, 3) && !IsOriginLine(n, 4);
    assert BaselineOutside(lines, 1, n, 1) == "" + line == line;
    assert BaselineOutside(lines, 1, n, 2) == line + "" == line;
    assert BaselineOutside(lines, 1, n, 3) == line + "" == line;
  }

  lemma FourLines(all: seq<string>)
    requires all == ["f\n", "x\n", "x\n", "f\n"]
    ensures WellSegmented(all) && |PlainLines(all)| == 4 && PlainLines(all)[0] == "f" && PlainLines(all)[3] == "f"
    ensures IsClosed(all[3])
  {
    PlainLinesAre(all);
  }

  lemma CheckpointOutside(third: nat)
    ensures OutsideThen(OuterRecord(), [Inner(third)]) == NormalizeContent(LINE + LINE)
    ensures Create.Newlines(OuterRecord().origin.content) == 4
  {
    var all := ["f\n", "x\n", "x\n", "f\n"];
    FourLines(all);
    JoinSegments(all);
    Create.JoinNewlines(all);
    BaselineFour(PlainLines(all), third, LINE);
  }

  // ---------------------------------------------------------------- the write is allowed, and fails

  lemma FourSay(lines: seq<string>, m: seq<Mark>, third: nat)
    requires |lines| == 7 && |m| == 4 && 3 < third < 7
    ensures MarksOf(FourMarkers(lines, m, third)) == m
  {
  }

  lemma BothFiles()
    ensures IsFile(FileOf(LinesBefore()), 5) && IsFile(FileOf(LinesAfter()), 6)
  {
    BothScans();
    FileIs(LinesBefore(), 5);
    FileIs(LinesAfter(), 6);
  }

  lemma FileIs(lines: seq<string>, third: nat)
    requires WellSegmented(lines) && SayMarks(Reader(), lines, Marks(), third)
    requires lines[1] == LINE && lines[3] == LINE && lines[10 - third] == LINE
    ensures IsFile(FileOf(lines), third)
  {
    ScanOf(lines, Marks(), third);
    FourSay(lines, Marks(), third);
  }

  lemma OutsideCompares(file: FileScan, third: nat, loc: Location)
    requires IsFile(file, third) && loc.startMarkerLine == 1 && loc.endMarkerLine == 7
    ensures IsPlace(file, loc) && (OutsideThen(OuterRecord(), [Inner(third)]) == OutsideNow(file, [Inner(third)], loc)
                                   <==> third == 5)
  {
    OutsideOf(file, third);
    CheckpointOutside(third);
    NewlinesOfLines(0);
  }

  lemma JudgedFile(file: FileScan, third: nat)
    requires IsFile(file, third)
    ensures JudgePreserve(Registry(), OuterRecord(), true, file) == if third == 5 then Pass else Fail
    ensures ResolveOne(OUTER, file).Resolved?
            && ResolveOne(OUTER, file).location.content == NormalizeContent(LINE + LINE + LINE)
  {
    var loc := LocationIn(file, 0, 3);
    OuterContent(file, third);
    InnerIsNested(file, third, loc);
    OutsideCompares(file, third, loc);
    ContentDiffers();
  }

  lemma ContentDiffers()
    ensures NormalizeContent(LINE + LINE + LINE) != OuterRecord().origin.content
  {
    CheckpointOutside(5);
    NewlinesOfLines(0);
  }

  lemma {:induction false} NoneObjects(before: FileScan, after: FileScan, changed: seq<(nat, nat)>, n: nat)
    requires IsFile(before, 5) && IsFile(after, 6) && n <= 4
    ensures Objections(Registry(), n, before, after, changed) == []
    decreases 4 - n
  {
    hide ResolveOne, Join;
    JudgedFile(before, 5);
    JudgedFile(after, 6);
    if n < 4 {
      NoneObjects(before, after, changed, n + 1);
      assert before.markers[n].mark == Marks()[n];
      assert FindRecord(Registry(), INNER) == Some(InnerRecord()) by { assert Registry()[1..] == [InnerRecord()]; }
    }
  }

  lemma SoundTargets(file: FileScan, third: nat)
    requires IsFile(file, third)
    ensures HasSoundTargets(Registry(), OuterRecord(), file, 0, 3)
  {
    OuterContent(file, third);
    InnerIsNested(file, third, LocationIn(file, 0, 3));
    ContentDiffers();
  }

  /** The targets of the selection are as the theorem about guard and verifier wants them. */
  lemma TargetsAreSound()
    ensures IsFile(FileOf(LinesBefore()), 5)
    ensures HasSoundTargets(Registry(), OuterRecord(), FileOf(LinesBefore()), 0, 3)
  {
    BothFiles();
    SoundTargets(FileOf(LinesBefore()), 5);
  }

  /** The guard does not object to this write, whichever ranges it is charged with; the preserve command
      passes before it and fails after it. */
  lemma AllowedWriteFails(changed: seq<(nat, nat)>)
    requires LineRanges.Covers(PlainLines(LinesBefore()), PlainLines(LinesAfter()), changed)
    requires changed == [] <==> PlainLines(LinesBefore()) == PlainLines(LinesAfter())
    ensures var before, after := FileOf(LinesBefore()), FileOf(LinesAfter());
            && IsAllowed(Registry(), before, after, changed)
            && JudgePreserve(Registry(), OuterRecord(), true, before) == Pass
            && JudgePreserve(Registry(), OuterRecord(), true, after) == Fail
  {
    hide FileOf, FourMarkers, Reader, SayMarks;
    var before, after := FileOf(LinesBefore()), FileOf(LinesAfter());
    BothScans();
    ScanOf(LinesBefore(), Marks(), 5);
    ScanOf(LinesAfter(), Marks(), 6);
    BothFiles();
    NoneObjects(before, after, changed, 0);
    JudgedFile(before, 5);
    JudgedFile(after, 6);
  }
}
