// A second write that the guard allows and the verifier fails: a preserved selection holds its checkpoint content, and
// one of its lines ends with three carriage returns. A change inside the target nested in it makes the verifier compare
// that line, with two of them taken off on one side and three on the other.
module LostReturn {
  import opened Anchors
  import opened Markers
  import opened Nesting
  import opened Tracker
  import opened Guard
  import opened Verify
  import opened Alignment
  import opened MovedMarker
  import opened Preserving
  import LineRanges

  const RETURNS := "\r\r\r\n"

  const CHANGED := "g\n"

  /** The preserved selection holds the line with the returns, the target with one line, and another line. */
  function LinesWith(inner: string): seq<string> {
    [MovedMarker.Line(OUTER, Start), RETURNS, MovedMarker.Line(INNER, Start), inner, MovedMarker.Line(INNER, End), LINE,
     MovedMarker.Line(OUTER, End)]
  }

  /** The checkpoint content is what the selection holds before the write. */
  function Parent(): Record {
    Record(OUTER, Preserve, "a", Origin("c", "a", 1, 3, NormalizeContent(RETURNS + LINE + LINE)))
  }

  function Child(): Record { Record(INNER, Target, "a", Origin("c", "a", 2, 2, NormalizeContent(LINE))) }

  function Family(): seq<Record> { [Parent(), Child()] }

  /** Where the child is, now and at the checkpoint. */
  const NEST := Nested(3, 5, 2, 2)

  // ---------------------------------------------------------------- the two files

  lemma PlainText(line: string, text: string)
    requires Content(line) == text && (text == "\r\r" || text == "g")
             && line == text + (if text == "g" then "\n" else "\r\n")
    ensures MarkOf(Some(LANGUAGE), line) == None
  {
    if text == "\r\r" {
      AllSpaceTrims(text);
    } else {
      assert TrimStart("g") == "g" && Trim("g") == "g";
    }
    forall i | 0 <= i < |CANDIDATE_OPENERS|
      ensures !OpensMarker(CANDIDATE_OPENERS[i], Trim(text))
    {
      assert CANDIDATE_OPENERS[0] == "<!--" && CANDIDATE_OPENERS[1] == "//" && CANDIDATE_OPENERS[2] == "/*"
             && CANDIDATE_OPENERS[3] == "#";
      assert CANDIDATE_OPENERS[4] == "--" && CANDIDATE_OPENERS[5] == ";" && CANDIDATE_OPENERS[6] == "%"
             && CANDIDATE_OPENERS[7] == "'";
    }
  }

  lemma TextLines()
    ensures IsWhole(RETURNS) && IsWhole(CHANGED) && MarkOf(Some(LANGUAGE), RETURNS) == None
            && MarkOf(Some(LANGUAGE), CHANGED) == None
  {
    assert Content(RETURNS) == "\r\r" && Content(CHANGED) == "g";
    PlainText(RETURNS, "\r\r");
    PlainText(CHANGED, "g");
  }

  lemma SevenWhole(p: string, w: string, q: string, inner: string, r: string, line: string, t: string,
                   lines: seq<string>)
    requires IsWhole(p) && IsWhole(w) && IsWhole(q) && IsWhole(inner) && IsWhole(r) && IsWhole(line) && IsWhole(t)
    requires lines == [p, w, q, inner, r, line, t]
    ensures WellSegmented(lines)
  {
  }

  lemma SevenSaid(read: string -> Option<Mark>, lines: seq<string>, m: seq<Mark>, p: string, w: string, q: string,
                  inner: string, r: string, line: string, t: string)
    requires lines == [p, w, q, inner, r, line, t] && |m| == 4
    requires read(p) == Some(m[0]) && read(q) == Some(m[1]) && read(r) == Some(m[2]) && read(t) == Some(m[3])
    requires read(w) == None && read(inner) == None && read(line) == None
    ensures SayMarks(read, lines, m, 5)
  {
  }

  lemma LinesSay(inner: string)
    requires inner == LINE || inner == CHANGED
    ensures WellSegmented(LinesWith(inner)) && SayMarks(Reader(), LinesWith(inner), Marks(), 5)
  {
    hide WellSegmented, SayMarks, MarkOf, IsWhole;
    LineFacts();
    TextLines();
    var p, q, r, t := MovedMarker.Line(OUTER, Start), MovedMarker.Line(INNER, Start), MovedMarker.Line(INNER, End),
        MovedMarker.Line(OUTER, End);
    SevenWhole(p, RETURNS, q, inner, r, LINE, t, LinesWith(inner));
    SevenSaid(Reader(), LinesWith(inner), Marks(), p, RETURNS, q, inner, r, LINE, t);
  }

  /** A file with these lines, scanned. */
  ghost predicate IsScanOf(file: FileScan, inner: string) {
    && |file.segments| == 7 && IsOrderly(file) && file.markers == FourMarkers(file.segments, Marks(), 5)
    && MarksOf(file.markers) == Marks()
    && file.segments[1] == RETURNS && file.segments[3] == inner && file.segments[5] == LINE
  }

  lemma Scanned(inner: string)
    requires inner == LINE || inner == CHANGED
    ensures FileOf(LinesWith(inner)).segments == LinesWith(inner) && IsScanOf(FileOf(LinesWith(inner)), inner)
  {
    LinesSay(inner);
    ScanOf(LinesWith(inner), Marks(), 5);
    FourSay(LinesWith(inner), Marks(), 5);
  }

  // ---------------------------------------------------------------- resolving

  lemma KeepThreeLines(lines: seq<string>, drop: set<nat>, w: string, inner: string, line: string)
    requires |lines| == 7 && lines[1] == w && lines[3] == inner && lines[5] == line
    requires 2 !in drop && 3 in drop && 4 !in drop && 5 in drop && 6 !in drop
    ensures KeepLines(lines, 1, 6, drop) == w + inner + line
  {
    assert KeepLines(lines, 1, 2, drop) == KeepLines(lines, 1, 1, drop) + w == w;
    assert KeepLines(lines, 1, 3, drop) == w + "" == w;
    assert KeepLines(lines, 1, 4, drop) == w + inner;
    assert KeepLines(lines, 1, 5, drop) == w + inner + "" == w + inner;
  }

  lemma DroppedAre(file: FileScan, inner: string, line: nat)
    requires IsScanOf(file, inner)
    ensures line in DroppedLines(file.markers, (0, 3)) <==> line == 3 || line == 5
  {
    PairsOfMarks();
    assert file.markers[1].line == 3 && file.markers[2].line == 5;
    DroppedInner(file.markers, 3, line);
  }

  lemma Resolves(file: FileScan, inner: string)
    requires IsScanOf(file, inner)
    ensures file.markers[0].line == 1 && file.markers[1].line == 3 && file.markers[2].line == 5
            && file.markers[3].line == 7
    ensures ResolveOne(OUTER, file) == Resolved(LocationIn(file, 0, 3))
    ensures LocationIn(file, 0, 3).content == NormalizeContent(RETURNS + inner + LINE)
    ensures LocationIn(file, 0, 3).startMarkerLine == 1 && LocationIn(file, 0, 3).endMarkerLine == 7
  {
    OuterResolves();
    assert file.markers[0].line == 1 && file.markers[1].line == 3 && file.markers[2].line == 5
           && file.markers[3].line == 7;
    var drop := DroppedLines(file.markers, (0, 3));
    DroppedAre(file, inner, 2);
    DroppedAre(file, inner, 3);
    DroppedAre(file, inner, 4);
    DroppedAre(file, inner, 5);
    DroppedAre(file, inner, 6);
    KeepThreeLines(file.segments, drop, RETURNS, inner, LINE);
  }

  lemma ChildIs(file: FileScan, inner: string, loc: Location)
    requires IsScanOf(file, inner) && loc.startMarkerLine == 1 && loc.endMarkerLine == 7
    ensures NestedTargets(Family(), Parent(), loc, file.markers) == Some([NEST])
    ensures ChildAt(Child(), loc, file.markers) == Some((1, 2))
  {
    hide WellEnds, NormalizeContent, MarksOf;
    var markers := file.markers;
    assert markers[0].line == 1 && markers[1].line == 3 && markers[2].line == 5 && markers[3].line == 7;
    assert forall k :: 0 <= k < 4 ==> markers[k].mark == Marks()[k];
    OneWellEnd(INNER, Start, markers, 4, 1);
    OneWellEnd(INNER, End, markers, 4, 2);
    assert ChildAt(Child(), loc, markers) == Some((1, 2));
    assert Family()[..1] == [Parent()] && [Parent()][..0] == [];
    assert NestedTargets([Parent()], Parent(), loc, markers) == Some([]);
    assert IsTargetChild(Child(), Parent()) && IsWithin(Child(), Parent());
    assert Family()[1] == Child();
    assert [] + [NEST] == [NEST];
  }

  lemma ContentsDiffer()
    ensures NormalizeContent(RETURNS + LINE + LINE) != NormalizeContent(RETURNS + CHANGED + LINE)
  {
    NormalizedThree(LINE);
    NormalizedThree(CHANGED);
    assert ("\r\r\n" + LINE + LINE)[3] == 'f' && ("\r\r\n" + CHANGED + LINE)[3] == 'g';
  }

  lemma NormalizedThree(inner: string)
    requires inner == LINE || inner == CHANGED
    ensures NormalizeContent(RETURNS + inner + LINE) == "\r\r\n" + inner + LINE
  {
    hide Normalize;
    var letter := inner[..1];
    assert inner == letter + "\n" && RETURNS == "\r\r\r" + "\n" && LINE == "f" + "\n";
    NormalizeLine("\r\r\r");
    NormalizeLine(letter);
    NormalizeLine("f");
    NormalizeAppend(RETURNS, inner);
    NormalizeAppend(RETURNS + inner, LINE);
    assert Chop("\r\r\r") == "\r\r" && Chop(letter) == letter && Chop("f") == "f";
    assert "\r\r" + "\n" == "\r\r\n";
  }

  // ---------------------------------------------------------------- the guard allows the write

  /** A file in which one line is replaced by one that reads differently. */
  lemma OneLineReplaced(p: seq<string>, q: seq<string>, n: nat)
    requires |p| == |q| && n < |p| && PlainLine(p[n]) != PlainLine(q[n])
    requires forall i :: 0 <= i < |p| && i != n ==> p[i] == q[i]
    ensures LineRanges.AreChanged(PlainLines(p), PlainLines(q), [(n + 1, n + 1)])
    ensures LineRanges.Covers(PlainLines(p), PlainLines(q), [(n + 1, n + 1)]) && PlainLines(p) != PlainLines(q)
  {
    hide PlainLine, PlainLines, LineRanges.Covers, LineRanges.AreChanged;
    PlainLinesAre(p);
    PlainLinesAre(q);
    forall i | 0 <= i < |p| && i != n
      ensures PlainLines(p)[i] == PlainLines(q)[i]
    {
      assert p[i] == q[i];
    }
    LineRanges.OneReplaced(PlainLines(p), PlainLines(q), n);
    LineRanges.ChangedCover(PlainLines(p), PlainLines(q), [(n + 1, n + 1)]);
  }

  lemma OneLineChanged()
    ensures LineRanges.AreChanged(PlainLines(LinesWith(LINE)), PlainLines(LinesWith(CHANGED)), [(4, 4)])
    ensures LineRanges.Covers(PlainLines(LinesWith(LINE)), PlainLines(LinesWith(CHANGED)), [(4, 4)])
    ensures PlainLines(LinesWith(LINE)) != PlainLines(LinesWith(CHANGED))
  {
    hide PlainLines, LineRanges.Covers, LineRanges.AreChanged;
    assert PlainLine(LINE) == "f" && PlainLine(CHANGED) == "g";
    OneLineReplaced(LinesWith(LINE), LinesWith(CHANGED), 3);
  }

  /** The child has one marker of each kind, and they say where it is. */
  lemma ChildHasBoth(marks: seq<Mark>)
    requires marks == Marks()
    ensures HasOneOfEach(INNER, marks) && TheEnd(INNER, Start, marks) == 1 && TheEnd(INNER, End, marks) == 2
  {
    assert IsEnd(INNER, Start, marks[1]) && IsEnd(INNER, End, marks[2]);
    OnlyEnd(INNER, Start, marks, 1);
    OnlyEnd(INNER, End, marks, 2);
  }

  lemma ExcusedInFamily(held: Location, markers: seq<Marker>, changed: seq<(nat, nat)>)
    requires ExcusedBy(Child(), OUTER, held, markers, changed)
    ensures Excused(Family(), OUTER, held, markers, changed)
  {
    assert Family()[1..] == [Child()];
    assert Excused([Child()], OUTER, held, markers, changed);
  }

  lemma OneChangeBetween()
    ensures AreBetween([(4, 4)], 3, 5)
  {
    assert [(4, 4)][1..] == [];
  }

  lemma ChildExcuses(file: FileScan, inner: string)
    requires IsScanOf(file, inner)
    ensures Excused(Family(), OUTER, LocationIn(file, 0, 3), file.markers, [(4, 4)])
  {
    hide JudgeOne, ResolveOne;
    Resolves(file, inner);
    ChildHasBoth(MarksOf(file.markers));
    OneChangeBetween();
    assert ExcusedBy(Child(), OUTER, LocationIn(file, 0, 3), file.markers, [(4, 4)]);
    ExcusedInFamily(LocationIn(file, 0, 3), file.markers, [(4, 4)]);
  }

  lemma NoObjectionTo(id: string, x: FileScan, y: FileScan)
    requires IsScanOf(x, LINE) && IsScanOf(y, CHANGED) && (id == OUTER || id == INNER)
    ensures Objection(Family(), id, x, y, [(4, 4)]) == None
  {
    if id == OUTER {
      Resolves(x, LINE);
      Resolves(y, CHANGED);
      ChildExcuses(x, LINE);
    } else {
      assert Family()[1..] == [Child()];
      assert FindRecord(Family(), INNER) == Some(Child());
    }
  }

  lemma {:induction false} NoObjections(judge: string -> Option<Rule>, x: FileScan, y: FileScan, n: nat)
    requires IsScanOf(x, LINE) && IsScanOf(y, CHANGED) && n <= 4 && judge(OUTER) == None && judge(INNER) == None
    ensures Collected(judge, x.markers, n) == []
    decreases 4 - n
  {
    if n < 4 {
      NoObjections(judge, x, y, n + 1);
      assert x.markers[n].mark == Marks()[n];
      assert [] + Collected(judge, x.markers, n + 1) == [];
    }
  }

  lemma WriteIsAllowed(x: FileScan, y: FileScan)
    requires x == FileOf(LinesWith(LINE)) && y == FileOf(LinesWith(CHANGED))
    ensures IsAllowed(Family(), x, y, [(4, 4)])
    ensures LineRanges.AreChanged(PlainLines(x.segments), PlainLines(y.segments), [(4, 4)])
  {
    Scanned(LINE);
    Scanned(CHANGED);
    OneLineChanged();
    NoObjectionTo(OUTER, x, y);
    NoObjectionTo(INNER, x, y);
    ghost var judge := (id: string) => Objection(Family(), id, x, y, [(4, 4)]);
    ObjectionsAreCollected(judge, Family(), 0, x, y, [(4, 4)]);
    NoObjections(judge, x, y, 0);
  }

  // ---------------------------------------------------------------- the verifier fails it

  lemma Interior(line: nat)
    ensures IsInterior([NEST], line) <==> line == 4
    ensures IsOriginLine([NEST], line) <==> line == 2
  {
    assert [NEST][1..] == [];
  }

  lemma SelectionLines(file: FileScan, inner: string, line: nat)
    requires IsScanOf(file, inner)
    ensures IsSelectionLine(file.markers, line) <==> line == 1 || line == 3 || line == 5 || line == 7
  {
    var m := file.markers;
    assert m[0].line == 1 && m[1].line == 3 && m[2].line == 5 && m[3].line == 7;
    assert m[1..][1..][1..] == [m[3]] && m[1..][1..] == [m[2], m[3]] && m[1..] == [m[1], m[2], m[3]];
    assert [m[3]][1..] == [];
    assert IsSelectionLine([m[3]], line) <==> line == 7;
    assert IsSelectionLine([m[2], m[3]], line) <==> line == 5 || line == 7;
    assert IsSelectionLine(m[1..], line) <==> line == 3 || line == 5 || line == 7;
  }

  lemma KeptCounts(segments: seq<string>, drop: set<nat>)
    requires |segments| == 7 && 2 !in drop && 3 in drop && 4 !in drop && 5 in drop
    ensures |KeptSegments(segments, 1, 1, drop)| == 0 && |KeptSegments(segments, 1, 3, drop)| == 1
    ensures |KeptSegments(segments, 1, 5, drop)| == 2
  {
    assert |KeptSegments(segments, 1, 2, drop)| == 1;
    assert |KeptSegments(segments, 1, 4, drop)| == 2;
  }

  lemma ChildSitsAtOrigin(file: FileScan)
    requires file == FileOf(LinesWith(LINE))
    ensures IsScanOf(file, LINE) && SitsAtOrigin(file, 0, 3, [NEST], 1)
  {
    hide ResolveOne, MarkOf, DroppedLines, ScanFile, FourMarkers, ContentOf;
    Scanned(LINE);
    LinesSay(LINE);
    Resolves(file, LINE);
    var drop := DroppedLines(file.markers, (0, 3));
    DroppedAre(file, LINE, 2);
    DroppedAre(file, LINE, 3);
    DroppedAre(file, LINE, 4);
    DroppedAre(file, LINE, 5);
    KeptCounts(file.segments, drop);
    forall m | 1 < m < 7
      ensures IsAligned(file.segments, file.markers, [NEST], 1, drop, 1, m)
    {
      DroppedAre(file, LINE, m);
      SelectionLines(file, LINE, m);
      Interior(m);
      LineIsAligned(file, drop, m);
    }
  }

  lemma LineIsAligned(file: FileScan, drop: set<nat>, m: nat)
    requires IsScanOf(file, LINE) && 1 < m < 7 && (m in drop <==> m == 3 || m == 5)
    requires IsWhole(file.segments[1]) && IsWhole(file.segments[3]) && IsWhole(file.segments[5])
    requires IsSelectionLine(file.markers, m) <==> m == 1 || m == 3 || m == 5 || m == 7
    requires IsInterior([NEST], m) <==> m == 4
    requires |KeptSegments(file.segments, 1, 1, drop)| == 0 && |KeptSegments(file.segments, 1, 3, drop)| == 1
    requires |KeptSegments(file.segments, 1, 5, drop)| == 2
    ensures IsAligned(file.segments, file.markers, [NEST], 1, drop, 1, m)
  {
    if m == 2 {
      Interior(1);
    } else if m == 4 {
      Interior(2);
    } else if m == 6 {
      Interior(3);
    }
  }

  lemma TargetsAreInPlace(file: FileScan)
    requires file == FileOf(LinesWith(LINE))
    ensures IsScanOf(file, LINE) && HasSoundTargets(Family(), Parent(), file, 0, 3)
  {
    ChildSitsAtOrigin(file);
    Resolves(file, LINE);
    ChildIs(file, LINE, LocationIn(file, 0, 3));
  }

  /** The line with the returns is not plain. */
  lemma OutsideIsNotPlain(segments: seq<string>, drop: set<nat>)
    requires |segments| == 7 && segments[1] == RETURNS && 2 !in drop
    ensures !IsPlainOutside(segments, [NEST], drop, 1, 6)
  {
    Interior(2);
    assert RETURNS[|RETURNS| - 4..] == "\r\r\r\n";
    assert !IsPlainEnding(RETURNS);
    assert !IsPlainOutside(segments, [NEST], drop, 1, 2);
    assert !IsPlainOutside(segments, [NEST], drop, 1, 3);
    assert !IsPlainOutside(segments, [NEST], drop, 1, 4);
    assert !IsPlainOutside(segments, [NEST], drop, 1, 5);
  }

  /** The write only changes the line inside the target, the targets are where they belong, and the guard does not
      object; the preserve command passes before it and fails after it. */
  lemma AllowedChangeFails(before: FileScan, after: FileScan)
    requires before == FileOf(LinesWith(LINE)) && after == FileOf(LinesWith(CHANGED))
    ensures IsOrderly(before) && IsOrderly(after)
    ensures IsAllowed(Family(), before, after, [(4, 4)])
    ensures LineRanges.AreChanged(PlainLines(before.segments), PlainLines(after.segments), [(4, 4)])
    ensures |before.markers| == 4 && HasSoundTargets(Family(), Parent(), before, 0, 3)
    ensures JudgePreserve(Family(), Parent(), true, before) == Pass
            && JudgePreserve(Family(), Parent(), true, after) == Fail
  {
    hide UnchangedExceptNestedTargets, FourMarkers, ContentOf, NormalizeContent, HoldsEveryChange, ScanFile;
    Scanned(LINE);
    Scanned(CHANGED);
    WriteIsAllowed(before, after);
    TargetsAreInPlace(before);
    Resolves(before, LINE);
    Resolves(after, CHANGED);
    ContentsDiffer();
    OuterResolves();
    ChildIs(before, LINE, LocationIn(before, 0, 3));
    DroppedAre(before, LINE, 2);
    OutsideIsNotPlain(before.segments, DroppedLines(before.markers, (0, 3)));
    HeldContentPasses(Family(), Parent(), true, before, 0, 3);
    ChildHolds(before, LocationIn(before, 0, 3));
    GuardImpliesVerifier(Some(LANGUAGE), "a", Join(LinesWith(LINE)), Join(LinesWith(CHANGED)), Family(), Parent(), true,
                         [(4, 4)]);
  }

  lemma ChildHolds(file: FileScan, loc: Location)
    requires IsScanOf(file, LINE) && loc.startMarkerLine == 1 && loc.endMarkerLine == 7
    ensures HoldsEveryChange(Family(), Parent(), loc, file.markers, [(4, 4)])
  {
    hide ChildAt;
    ChildIs(file, LINE, loc);
    OneChangeBetween();
    assert file.markers[1].line == 3 && file.markers[2].line == 5;
    assert Family()[1] == Child();
    assert Child() in Family() && IsHolder(Child(), Parent(), loc, file.markers, [(4, 4)]);
  }
}
