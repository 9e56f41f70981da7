// A third write that the guard allows and the verifier fails: it changes a line between the markers of a target whose
// start marker is malformed. The guard counts that marker, the verifier does not, so the line is outside every nested
// target.
module BrokenMarker {
  import opened Anchors
  import opened Markers
  import opened Nesting
  import opened Tracker
  import opened Insertion
  import opened Guard
  import opened Verify
  import opened Alignment
  import opened MovedMarker
  import opened Preserving
  import LineRanges
  import LostReturn
  import Places

  const THIRD := "UUUUUUUU"

  const OTHER := "g\n"

  /** A start marker with text behind it. */
  const BROKEN := "# " + (MARKER_TAG + (THIRD + ":start x")) + "\n"

  /** The preserved selection holds a line, a target that has changed, and a line between broken markers. */
  function LinesWith(inner: string): seq<string> {
    [MovedMarker.Line(OUTER, Start), LINE, MovedMarker.Line(INNER, Start), OTHER, MovedMarker.Line(INNER, End), BROKEN,
     inner, MovedMarker.Line(THIRD, End), MovedMarker.Line(OUTER, End)]
  }

  function BrokenMark(): Mark { Mark(Selection, Some(THIRD), Some(Start), Some(Problem.Malformed)) }

  function SixMarks(): seq<Mark> {
    [StartMark(OUTER), StartMark(INNER), EndMark(INNER), BrokenMark(), EndMark(THIRD), EndMark(OUTER)]
  }

  /** At the checkpoint the selection held three lines, and the first target the one in the middle. */
  function Checkpoint(): seq<string> { [LINE, LINE, LINE] }

  function Parent(): Record {
    Record(OUTER, Preserve, "a", Origin("c", "a", 1, 3, NormalizeContent(Join(Checkpoint()))))
  }

  function Child(): Record { Record(INNER, Target, "a", Origin("c", "a", 2, 2, NormalizeContent(LINE))) }

  function Broken(): Record { Record(THIRD, Target, "a", Origin("c", "a", 2, 2, NormalizeContent(LINE))) }

  function Family(): seq<Record> { [Parent(), Child(), Broken()] }

  /** Where the first target is, now and at the checkpoint. */
  const NEST := Nested(3, 5, 2, 2)

  // ---------------------------------------------------------------- the two files

  lemma BrokenFacts()
    ensures IsWhole(BROKEN) && MarkOf(Some(LANGUAGE), BROKEN) == Some(BrokenMark())
    ensures IsWhole(OTHER) && MarkOf(Some(LANGUAGE), OTHER) == None
    ensures IsWhole(MovedMarker.Line(THIRD, End))
    ensures MarkOf(Some(LANGUAGE), MovedMarker.Line(THIRD, End)) == Some(EndMark(THIRD))
  {
    hide MarkOf, ParseMark, RenderKind;
    LostReturn.TextLines();
    MarkerLineIsSegment(LINE, LINE, LANGUAGE, THIRD, End);
    BrokenReads();
  }

  lemma BrokenReads()
    ensures IsWhole(BROKEN) && MarkOf(Some(LANGUAGE), BROKEN) == Some(BrokenMark())
  {
    hide *;
    var body := ":start x";
    var m := "#" + " " + (MARKER_TAG + (THIRD + body));
    BodyReads(body);
    BrokenIsTrimmed(m);
    BodyWithEnding(m, "\n");
    TaggedIsCandidate(LANGUAGE, Selection, THIRD + body);
    TaggedParses(LANGUAGE, Selection, THIRD, body, Start);
    BrokenIsNotRendered(m);
    TrimmedLineReads(m, m + "\n");
  }

  lemma BodyReads(body: string)
    requires body == ":start x"
    ensures body[0] == ':' && ReadBoundary(body) == Some(Start) && forall c :: c in body ==> c != '@'
    ensures IsIdOf(Selection, THIRD) && IsSyntax(LANGUAGE) && LANGUAGE.opener == "#" && Tag(Selection) == MARKER_TAG
    ensures BROKEN == "#" + " " + (MARKER_TAG + (THIRD + body)) + "\n"
    ensures BrokenMark() == Mark(Selection, Some(THIRD), Some(Start), Some(Problem.Malformed))
  {
    assert body[1..] == "start x" && "start" <= "start x";
  }

  lemma TrimmedLineReads(m: string, line: string)
    requires IsSegment(line) && IsClosed(line) && Content(line) == m && Trim(m) == m && IsCandidate(m)
    ensures IsWhole(line) && MarkOf(Some(LANGUAGE), line) == Some(ParseMark(Some(LANGUAGE), m))
  {
    hide IsCandidate, ParseMark, Content, IsSegment, IsClosed;
  }

  lemma BrokenIsTrimmed(m: string)
    requires m == "#" + " " + (MARKER_TAG + (THIRD + ":start x"))
    ensures IsOneLine(m) && m != "" && !IsSpace(m[|m| - 1]) && Trim(m) == m
  {
    assert m[0] == '#' && m[|m| - 1] == 'x';
    assert "" + m + "" == m;
    TrimPadded("", m, "");
  }

  lemma BrokenIsNotRendered(m: string)
    requires m == "#" + " " + (MARKER_TAG + (THIRD + ":start x"))
    ensures m != RenderKind(LANGUAGE, Selection, THIRD, Start)
  {
    assert |m| == 2 + |MARKER_TAG| + 8 + 8;
    assert |RenderKind(LANGUAGE, Selection, THIRD, Start)| == 2 + |MARKER_TAG| + 8 + 6;
  }

  function SixMarkers(lines: seq<string>): seq<Marker>
    requires |lines| == 9
  {
    var m := SixMarks();
    [MarkerOn(lines, m[0], 1), MarkerOn(lines, m[1], 3), MarkerOn(lines, m[2], 5), MarkerOn(lines, m[3], 6),
     MarkerOn(lines, m[4], 8), MarkerOn(lines, m[5], 9)]
  }

  /** What each of the nine lines says. */
  ghost predicate SaySix(marks: seq<Option<Mark>>) {
    && |marks| == 9 && marks[1] == None && marks[3] == None && marks[6] == None
    && marks[0] == Some(SixMarks()[0]) && marks[2] == Some(SixMarks()[1]) && marks[4] == Some(SixMarks()[2])
    && marks[5] == Some(SixMarks()[3]) && marks[7] == Some(SixMarks()[4]) && marks[8] == Some(SixMarks()[5])
  }

  lemma SixAreMarkers(marks: seq<Option<Mark>>, lines: seq<string>)
    requires |marks| == |lines| == 9 && SaySix(marks)
    ensures AreMarkersOf(marks, lines, 9, SixMarkers(lines))
  {
    var markers := SixMarkers(lines);
    assert markers[0].line == 1 && markers[1].line == 3 && markers[2].line == 5 && markers[3].line == 6;
    assert markers[4].line == 8 && markers[5].line == 9;
    forall line | 0 < line <= 9 && marks[line - 1].Some?
      ensures IsMarked(markers, line)
    {
      assert line == 1 || line == 3 || line == 5 || line == 6 || line == 8 || line == 9;
    }
  }

  lemma NineSay(read: string -> Option<Mark>, lines: seq<string>, marks: seq<Option<Mark>>, m: seq<Mark>,
                p: string, q: string, r: string, broken: string, t: string, u: string, line: string, other: string,
                inner: string)
    requires lines == [p, line, q, other, r, broken, inner, t, u] && m == SixMarks()
    requires |marks| == 9 && forall i :: 0 <= i < 9 ==> marks[i] == read(lines[i])
    requires read(p) == Some(m[0]) && read(q) == Some(m[1]) && read(r) == Some(m[2]) && read(broken) == Some(m[3])
    requires read(t) == Some(m[4]) && read(u) == Some(m[5])
    requires read(line) == None && read(other) == None && read(inner) == None
    ensures SaySix(marks)
  {
    assert marks[0] == read(p) && marks[1] == read(line) && marks[2] == read(q) && marks[3] == read(other);
    assert marks[4] == read(r) && marks[5] == read(broken) && marks[6] == read(inner) && marks[7] == read(t);
  }

  lemma NineWhole(lines: seq<string>, p: string, q: string, r: string, broken: string, t: string, u: string,
                  line: string, other: string, inner: string)
    requires lines == [p, line, q, other, r, broken, inner, t, u]
    requires IsWhole(p) && IsWhole(q) && IsWhole(r) && IsWhole(broken) && IsWhole(t) && IsWhole(u)
    requires IsWhole(line) && IsWhole(other) && IsWhole(inner)
    ensures WellSegmented(lines)
  {
  }

  lemma LinesAre(inner: string)
    requires inner == LINE || inner == OTHER
    ensures WellSegmented(LinesWith(inner)) && SaySix(LineMarks(Some(LANGUAGE), LinesWith(inner)))
  {
    hide MarkOf, IsWhole, WellSegmented, SaySix;
    LineFacts();
    BrokenFacts();
    var lines := LinesWith(inner);
    var p, q, r := MovedMarker.Line(OUTER, Start), MovedMarker.Line(INNER, Start), MovedMarker.Line(INNER, End);
    var t, u := MovedMarker.Line(THIRD, End), MovedMarker.Line(OUTER, End);
    NineWhole(lines, p, q, r, BROKEN, t, u, LINE, OTHER, inner);
    NineSay(Reader(), lines, LineMarks(Some(LANGUAGE), lines), SixMarks(), p, q, r, BROKEN, t, u, LINE, OTHER, inner);
  }

  /** A file with these lines, scanned. */
  ghost predicate IsScanOf(file: FileScan, inner: string) {
    && |file.segments| == 9 && IsOrderly(file) && file.markers == SixMarkers(file.segments)
    && MarksOf(file.markers) == SixMarks() && file.segments == LinesWith(inner)
  }

  lemma Scanned(inner: string)
    requires inner == LINE || inner == OTHER
    ensures FileOf(LinesWith(inner)).segments == LinesWith(inner) && IsScanOf(FileOf(LinesWith(inner)), inner)
  {
    hide MarkOf, SaySix, WellSegmented, Join, Segments, SixMarkers;
    var lines := LinesWith(inner);
    LinesAre(inner);
    JoinSegments(lines);
    SixAreMarkers(LineMarks(Some(LANGUAGE), lines), lines);
    ScanIsOrdered(Some(LANGUAGE), Join(lines));
    MarkersAreUnique(LineMarks(Some(LANGUAGE), lines), lines, 9, FindMarkers(Some(LANGUAGE), Join(lines)),
                     SixMarkers(lines));
    ScanFileIsOrderly(Some(LANGUAGE), "a", Join(lines));
    SixSay(lines);
  }

  lemma SixSay(lines: seq<string>)
    requires |lines| == 9
    ensures MarksOf(SixMarkers(lines)) == SixMarks()
  {
  }

  // ---------------------------------------------------------------- resolving

  lemma PairsOfSix()
    ensures Pairs(SixMarks()) == {(1, 2), (0, 5)}
  {
    hide NestAfter, Step;
    var m := SixMarks();
    var none: set<(nat, nat)> := {};
    NestStarts(m);
    Opens(m, 0, [], none);
    Opens(m, 1, [0], none);
    Closes(m, 2, [0], 1, none);
    Passes(m, 3, [0], {(1, 2)});
    Passes(m, 4, [0], {(1, 2)});
    Closes(m, 5, [], 0, {(1, 2)});
    assert [] + [0] == [0];
    assert none + {(1, 2)} == {(1, 2)};
  }

  lemma NestStarts(m: seq<Mark>)
    ensures NestAfter(m, 0) == Nest([], {})
  {
  }

  lemma Opens(m: seq<Mark>, n: nat, open: seq<nat>, pairs: set<(nat, nat)>)
    requires n < |m| && NestAfter(m, n) == Nest(open, pairs) && IsEvent(m[n]) && m[n].boundary == Some(Start)
    ensures NestAfter(m, n + 1) == Nest(open + [n], pairs)
  {
  }

  lemma Closes(m: seq<Mark>, n: nat, open: seq<nat>, top: nat, pairs: set<(nat, nat)>)
    requires n < |m| && top < |m| && NestAfter(m, n) == Nest(open + [top], pairs)
    requires IsEvent(m[n]) && m[n].boundary == Some(End) && m[top].id == m[n].id
    ensures NestAfter(m, n + 1) == Nest(open, pairs + {(top, n)})
  {
    assert (open + [top])[..|open|] == open;
  }

  /** A malformed marker, or the end of a selection that is not open. */
  lemma Passes(m: seq<Mark>, n: nat, open: seq<nat>, pairs: set<(nat, nat)>)
    requires n < |m| && NestAfter(m, n) == Nest(open, pairs) && open != [] && open[|open| - 1] < |m|
    requires !IsEvent(m[n]) || (m[n].boundary == Some(End) && m[open[|open| - 1]].id != m[n].id)
    ensures NestAfter(m, n + 1) == Nest(open, pairs)
  {
  }

  lemma ParentResolves()
    ensures JudgeOne(OUTER, SixMarks()) == At(0, 5)
  {
    hide JudgeFile;
    var m := SixMarks();
    PairsOfSix();
    ResolvesIff(OUTER, m, 0, 5);
    assert IsHit(OUTER, m[0]);
    assert !HasProblem(OUTER, m);
  }

  lemma DroppedAre(file: FileScan, inner: string, line: nat)
    requires IsScanOf(file, inner)
    ensures line in DroppedLines(file.markers, (0, 5)) <==> line == 3 || line == 5
  {
    hide DroppedLines, Pairs;
    PairsOfSix();
    assert file.markers[1].line == 3 && file.markers[2].line == 5;
    DroppedInner(file.markers, 5, line);
  }

  lemma Resolves(file: FileScan, inner: string)
    requires IsScanOf(file, inner)
    ensures file.markers[0].line == 1 && file.markers[5].line == 9
    ensures ResolveOne(OUTER, file) == Resolved(LocationIn(file, 0, 5))
    ensures LocationIn(file, 0, 5).startMarkerLine == 1 && LocationIn(file, 0, 5).endMarkerLine == 9
  {
    ParentResolves();
    assert file.markers[0].line == 1 && file.markers[5].line == 9;
  }

  // ---------------------------------------------------------------- the nested targets

  lemma {:induction false} NoWellEnd(id: string, boundary: Boundary, markers: seq<Marker>, n: nat)
    requires n <= |markers| && forall k :: 0 <= k < |markers| ==> !IsWellEnd(id, boundary, markers[k].mark)
    ensures WellEnds(id, boundary, markers, n) == []
  {
    if n > 0 { NoWellEnd(id, boundary, markers, n - 1); }
  }

  lemma MarksAre(file: FileScan, inner: string)
    requires IsScanOf(file, inner)
    ensures |file.markers| == 6 && forall k :: 0 <= k < 6 ==> file.markers[k].mark == SixMarks()[k]
    ensures file.markers[0].line == 1 && file.markers[1].line == 3 && file.markers[2].line == 5
    ensures file.markers[3].line == 6 && file.markers[4].line == 8 && file.markers[5].line == 9
  {
  }

  lemma ChildrenAre(file: FileScan, inner: string, loc: Location)
    requires IsScanOf(file, inner) && loc.startMarkerLine == 1 && loc.endMarkerLine == 9
    ensures ChildAt(Child(), loc, file.markers) == Some((1, 2)) && ChildAt(Broken(), loc, file.markers) == None
  {
    hide WellEnds, SixMarkers, NormalizeContent;
    MarksAre(file, inner);
    OneWellEnd(INNER, Start, file.markers, 6, 1);
    OneWellEnd(INNER, End, file.markers, 6, 2);
    NoWellEnd(THIRD, Start, file.markers, 6);
  }

  lemma NestedAre(file: FileScan, inner: string, loc: Location)
    requires IsScanOf(file, inner) && loc.startMarkerLine == 1 && loc.endMarkerLine == 9
    ensures NestedTargets(Family(), Parent(), loc, file.markers) == Some([NEST])
  {
    hide ChildAt, NormalizeContent, SixMarkers;
    var markers := file.markers;
    MarksAre(file, inner);
    ChildrenAre(file, inner, loc);
    assert Family()[..2] == [Parent(), Child()] && [Parent(), Child()][..1] == [Parent()] && [Parent()][..0] == [];
    assert NestedTargets([Parent()], Parent(), loc, markers) == Some([]);
    assert [] + [NEST] == [NEST];
    assert NestedTargets([Parent(), Child()], Parent(), loc, markers) == Some([NEST]);
    assert Family()[2] == Broken();
  }

  lemma NoneHolds(file: FileScan, inner: string, loc: Location)
    requires IsScanOf(file, inner) && loc.startMarkerLine == 1 && loc.endMarkerLine == 9
    ensures !HoldsEveryChange(Family(), Parent(), loc, file.markers, [(7, 7)])
  {
    hide ChildAt, NormalizeContent, SixMarkers;
    MarksAre(file, inner);
    ChildrenAre(file, inner, loc);
    forall child | child in Family()
      ensures !IsHolder(child, Parent(), loc, file.markers, [(7, 7)])
    {
      assert child == Parent() || child == Child() || child == Broken();
    }
  }

  // ---------------------------------------------------------------- the guard allows the write

  lemma BrokenHasBoth(marks: seq<Mark>)
    requires marks == SixMarks()
    ensures HasOneOfEach(THIRD, marks) && TheEnd(THIRD, Start, marks) == 3 && TheEnd(THIRD, End, marks) == 4
  {
    assert IsEnd(THIRD, Start, marks[3]) && IsEnd(THIRD, End, marks[4]);
    OnlyEnd(THIRD, Start, marks, 3);
    OnlyEnd(THIRD, End, marks, 4);
  }

  lemma BrokenExcuses(file: FileScan, inner: string, loc: Location)
    requires IsScanOf(file, inner) && loc.startMarkerLine == 1 && loc.endMarkerLine == 9
    ensures Excused(Family(), OUTER, loc, file.markers, [(7, 7)])
  {
    hide HasOneOfEach, SixMarkers, NormalizeContent;
    MarksAre(file, inner);
    BrokenHasBoth(MarksOf(file.markers));
    assert [(7, 7)][1..] == [] && AreBetween([(7, 7)], 6, 8);
    assert ExcusedBy(Broken(), OUTER, loc, file.markers, [(7, 7)]);
    InFamily(loc, file.markers, [(7, 7)]);
  }

  lemma InFamily(loc: Location, markers: seq<Marker>, changed: seq<(nat, nat)>)
    requires ExcusedBy(Broken(), OUTER, loc, markers, changed)
    ensures Excused(Family(), OUTER, loc, markers, changed)
  {
    hide ExcusedBy;
    assert Family()[1..] == [Child(), Broken()] && [Child(), Broken()][1..] == [Broken()];
    assert Excused([Broken()], OUTER, loc, markers, changed);
    assert Excused([Child(), Broken()], OUTER, loc, markers, changed);
  }

  lemma RecordsAre()
    ensures FindRecord(Family(), OUTER) == Some(Parent()) && FindRecord(Family(), INNER) == Some(Child())
    ensures FindRecord(Family(), THIRD) == Some(Broken())
  {
    hide NormalizeContent;
    assert Family()[1..] == [Child(), Broken()] && [Child(), Broken()][1..] == [Broken()];
    assert FindRecord([Broken()], THIRD) == Some(Broken());
    assert FindRecord([Child(), Broken()], THIRD) == Some(Broken());
    assert FindRecord([Child(), Broken()], INNER) == Some(Child());
  }

  lemma NoObjectionTo(id: string, x: FileScan, y: FileScan)
    requires IsScanOf(x, LINE) && IsScanOf(y, OTHER) && (id == OUTER || id == INNER || id == THIRD)
    ensures Objection(Family(), id, x, y, [(7, 7)]) == None
  {
    hide JudgeOne, SixMarkers, Excused;
    RecordsAre();
    if id == OUTER {
      Resolves(x, LINE);
      Resolves(y, OTHER);
      BrokenExcuses(x, LINE, LocationIn(x, 0, 5));
    }
  }

  lemma {:induction false} NoObjections(judge: string -> Option<Rule>, markers: seq<Marker>, n: nat)
    requires MarksOf(markers) == SixMarks() && n <= |markers|
    requires judge(OUTER) == None && judge(INNER) == None && judge(THIRD) == None
    ensures Collected(judge, markers, n) == []
    decreases |markers| - n
  {
    if n < |markers| {
      NoObjections(judge, markers, n + 1);
      assert markers[n].mark == MarksOf(markers)[n];
      assert [] + Collected(judge, markers, n + 1) == [];
    }
  }

  lemma OneLineChanged()
    ensures LineRanges.AreChanged(PlainLines(LinesWith(LINE)), PlainLines(LinesWith(OTHER)), [(7, 7)])
    ensures LineRanges.Covers(PlainLines(LinesWith(LINE)), PlainLines(LinesWith(OTHER)), [(7, 7)])
    ensures PlainLines(LinesWith(LINE)) != PlainLines(LinesWith(OTHER))
  {
    hide PlainLines, LineRanges.Covers, LineRanges.AreChanged;
    assert PlainLine(LINE) == "f" && PlainLine(OTHER) == "g";
    LostReturn.OneLineReplaced(LinesWith(LINE), LinesWith(OTHER), 6);
  }

  lemma WriteIsAllowed(x: FileScan, y: FileScan)
    requires IsScanOf(x, LINE) && IsScanOf(y, OTHER)
    ensures IsAllowed(Family(), x, y, [(7, 7)])
    ensures LineRanges.AreChanged(PlainLines(x.segments), PlainLines(y.segments), [(7, 7)])
  {
    hide Objection, SixMarkers;
    OneLineChanged();
    NoObjectionTo(OUTER, x, y);
    NoObjectionTo(INNER, x, y);
    NoObjectionTo(THIRD, x, y);
    ghost var judge := (id: string) => Objection(Family(), id, x, y, [(7, 7)]);
    ObjectionsAreCollected(judge, Family(), 0, x, y, [(7, 7)]);
    NoObjections(judge, x.markers, 0);
  }

  // ---------------------------------------------------------------- the verifier fails it

  lemma LeftOut(file: FileScan, inner: string, line: nat)
    requires IsScanOf(file, inner) && 1 < line < 9
    ensures IsLeftOut(file.markers, [NEST], line) <==> line != 2 && line != 7
  {
    MarksAre(file, inner);
    var m := file.markers;
    assert [NEST][1..] == [];
    assert IsInterior([NEST], line) <==> line == 4;
    if line == 3 { MarkerLineIsSelection(m, 1); }
    if line == 5 { MarkerLineIsSelection(m, 2); }
    if line == 6 { MarkerLineIsSelection(m, 3); }
    if line == 8 { MarkerLineIsSelection(m, 4); }
    if IsSelectionLine(m, line) {
      var i := Places.SelectionLineAt(m, line);
    }
  }

  lemma OutsideNine(segments: seq<string>, markers: seq<Marker>, first: string, second: string)
    requires |segments| == 9 && Content(segments[1]) + "\n" == first && Content(segments[6]) + "\n" == second
    requires forall line :: 1 < line < 9 ==> (IsLeftOut(markers, [NEST], line) <==> line != 2 && line != 7)
    ensures Outside(segments, markers, [NEST], 1, 8) == first + second
  {
    hide IsLeftOut, Content;
    var n := [NEST];
    assert Outside(segments, markers, n, 1, 2) == "" + first == first;
    assert Outside(segments, markers, n, 1, 3) == first + "" == first;
    assert Outside(segments, markers, n, 1, 4) == first + "" == first;
    assert Outside(segments, markers, n, 1, 5) == first + "" == first;
    assert Outside(segments, markers, n, 1, 6) == first + "" == first;
    assert Outside(segments, markers, n, 1, 7) == first + second;
    assert (first + second) + "" == first + second;
  }

  lemma OutsideOf(file: FileScan, inner: string)
    requires IsScanOf(file, inner) && (inner == LINE || inner == OTHER)
    ensures Outside(file.segments, file.markers, [NEST], 1, 8) == LINE + inner
  {
    hide SixMarkers, IsLeftOut;
    forall line | 1 < line < 9
      ensures IsLeftOut(file.markers, [NEST], line) <==> line != 2 && line != 7
    {
      LeftOut(file, inner, line);
    }
    ShortLines();
    OutsideNine(file.segments, file.markers, LINE, inner);
  }

  lemma ShortLines()
    ensures LINE == "f" + "\n" && OTHER == "g" + "\n" && Content(LINE) == "f" && Content(OTHER) == "g"
    ensures PlainLine(LINE) == "f" && PlainLine(OTHER) == "g"
  {
    assert LINE == "f" + "\n";
    assert OTHER == "g" + "\n";
    assert LINE[..1] == "f" && OTHER[..1] == "g";
  }

  lemma LinesNormalize()
    ensures Normalize(LINE) == LINE && Normalize(OTHER) == OTHER && AreClosed([LINE, LINE]) && AreClosed([LINE, OTHER])
    ensures Join([LINE, LINE]) == LINE + LINE && Join([LINE, OTHER]) == LINE + OTHER
  {
    NormalizeShort("f");
    NormalizeShort("g");
    ShortLines();
    JoinTwo(LINE, LINE);
    JoinTwo(LINE, OTHER);
  }

  lemma JoinTwo(x: string, y: string)
    ensures Join([x, y]) == x + y
  {
    assert [x, y][1..] == [y] && [y][1..] == [];
    assert Join([y]) == y + "" == y;
  }

  lemma CheckpointOutside()
    ensures OutsideThen(Parent(), [NEST]) == NormalizeContent(LINE + LINE)
  {
    hide Normalize, NormalizeContent, Segments;
    LinesNormalize();
    var all := Checkpoint();
    ContentLines(all);
    Places.NormalizeAllAt(all, 0);
    Places.NormalizeAllAt(all, 1);
    Places.NormalizeAllAt(all, 2);
    assert NormalizeAll(all) == all;
    PlainLinesAre(all);
    ShortLines();
    BaselineThree(PlainLines(all));
  }

  lemma BaselineThree(lines: seq<string>)
    requires |lines| == 3 && lines[0] == "f" && lines[2] == "f"
    ensures BaselineOutside(lines, 1, [NEST], 3) == LINE + LINE
  {
    var n := [NEST];
    assert [NEST][1..] == [];
    assert !IsOriginLine(n, 1) && IsOriginLine(n, 2) && !IsOriginLine(n, 3);
    assert BaselineOutside(lines, 1, n, 1) == "" + LINE == LINE;
    assert BaselineOutside(lines, 1, n, 2) == LINE + "" == LINE;
  }

  lemma OtherLineShows(x: seq<string>, y: seq<string>, k: nat)
    requires AreClosed(x) && AreClosed(y) && k < |x| && k < |y| && Normalize(x[k]) != Normalize(y[k])
    ensures NormalizeContent(Join(x)) != NormalizeContent(Join(y))
  {
    hide Normalize, NormalizeContent;
    if NormalizeContent(Join(x)) == NormalizeContent(Join(y)) {
      Places.ContentTellsLines(x, y);
      assert false;
    }
  }

  lemma TextsDiffer()
    ensures NormalizeContent(LINE + LINE) != NormalizeContent(LINE + OTHER)
  {
    hide Normalize, NormalizeContent;
    LinesNormalize();
    OtherLineShows([LINE, LINE], [LINE, OTHER], 1);
  }

  /** Neither file holds the checkpoint content, and the two do not hold the same. */
  lemma ContentsDiffer(x: FileScan, y: FileScan)
    requires IsScanOf(x, LINE) && IsScanOf(y, OTHER)
    ensures LocationIn(x, 0, 5).content != LocationIn(y, 0, 5).content
    ensures LocationIn(y, 0, 5).content != Parent().origin.content
  {
    hide Normalize, NormalizeContent, SixMarkers, ContentOf;
    LinesNormalize();
    var kept := KeptFive(x, LINE);
    var kept' := KeptFive(y, OTHER);
    OtherLineShows(kept, kept', 3);
    if LocationIn(y, 0, 5).content == Parent().origin.content {
      Places.ContentTellsLines(kept', Checkpoint());
      assert false;
    }
  }

  lemma KeptFive(file: FileScan, inner: string) returns (kept: seq<string>)
    requires IsScanOf(file, inner) && (inner == LINE || inner == OTHER)
    ensures AreClosed(kept) && |kept| == 5 && kept[3] == inner
    ensures LocationIn(file, 0, 5).content == NormalizeContent(Join(kept))
  {
    hide Normalize, NormalizeContent, SixMarkers, MarkOf, DroppedLines;
    MarksAre(file, inner);
    LinesAre(inner);
    var drop := DroppedLines(file.markers, (0, 5));
    forall line: nat
      ensures line in drop <==> line == 3 || line == 5
    {
      DroppedAre(file, inner, line);
    }
    kept := KeptSegments(file.segments, 1, 8, drop);
    Places.KeptAreLines(file.segments, 1, 8, drop);
    JoinKept(file.segments, 1, 8, drop);
    KeptOfNine(file.segments, drop);
  }

  lemma KeptOfNine(segments: seq<string>, drop: set<nat>)
    requires |segments| == 9 && forall line: nat :: line in drop <==> line == 3 || line == 5
    ensures |KeptSegments(segments, 1, 8, drop)| == 5 && KeptSegments(segments, 1, 8, drop)[3] == segments[6]
  {
    assert |KeptSegments(segments, 1, 2, drop)| == 1;
    assert |KeptSegments(segments, 1, 4, drop)| == 2;
    assert |KeptSegments(segments, 1, 6, drop)| == 3;
    assert KeptSegments(segments, 1, 7, drop) == KeptSegments(segments, 1, 6, drop) + [segments[6]];
    assert KeptSegments(segments, 1, 8, drop) == KeptSegments(segments, 1, 7, drop) + [segments[7]];
  }

  lemma Compares(file: FileScan, inner: string)
    requires IsScanOf(file, inner) && (inner == LINE || inner == OTHER)
    ensures UnchangedExceptNestedTargets(Family(), Parent(), true, file, LocationIn(file, 0, 5)) <==> inner == LINE
  {
    hide NestedTargets, Outside, NormalizeContent, SixMarkers, ContentOf;
    Resolves(file, inner);
    NestedAre(file, inner, LocationIn(file, 0, 5));
    OutsideOf(file, inner);
    CheckpointOutside();
    TextsDiffer();
  }

  /** The change is between the markers of a target that the guard counts and the verifier does not: the guard does not
      object, and the preserve command passes before the write and fails after it. */
  lemma AllowedChangeFails(before: FileScan, after: FileScan)
    requires before == FileOf(LinesWith(LINE)) && after == FileOf(LinesWith(OTHER))
    ensures IsOrderly(before) && IsOrderly(after) && IsAllowed(Family(), before, after, [(7, 7)])
    ensures LineRanges.AreChanged(PlainLines(before.segments), PlainLines(after.segments), [(7, 7)])
    ensures ResolveOne(OUTER, before).Resolved?
            && !HoldsEveryChange(Family(), Parent(), ResolveOne(OUTER, before).location, before.markers, [(7, 7)])
    ensures JudgePreserve(Family(), Parent(), true, before) == Pass
            && JudgePreserve(Family(), Parent(), true, after) == Fail
  {
    hide UnchangedExceptNestedTargets, SixMarkers, ContentOf, NormalizeContent, IsAllowed, HoldsEveryChange, ScanFile;
    Scanned(LINE);
    Scanned(OTHER);
    WriteIsAllowed(before, after);
    Resolves(before, LINE);
    Resolves(after, OTHER);
    NoneHolds(before, LINE, LocationIn(before, 0, 5));
    ContentsDiffer(before, after);
    Compares(before, LINE);
    Compares(after, OTHER);
  }
}
