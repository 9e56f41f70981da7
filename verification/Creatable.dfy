// Which requests create accepts: a selection is created exactly around whole selections, and always in a file that is
// its checkpoint version.
module Creatable {
  import opened Anchors
  import opened Markers
  import opened Nesting
  import opened Tracker
  import opened Insertion
  import opened Contents
  import opened Create
  import Alignment
  import InPlace
  import Places

  // ---------------------------------------------------------------- around whole selections

  /** Marker k belongs to a selection that has both of its markers on the lines s..e. */
  ghost predicate IsWhole(markers: seq<Marker>, s: nat, e: nat, k: nat) {
    exists y :: y in Pairs(MarksOf(markers)) && y.0 < |markers| && y.1 < |markers| && (k == y.0 || k == y.1)
                && s <= markers[y.0].line && markers[y.1].line <= e
  }

  /** The markers on the lines s..e are those of whole selections. */
  ghost predicate HoldsWhole(markers: seq<Marker>, s: nat, e: nat) {
    forall k :: 0 <= k < |markers| && s <= markers[k].line <= e ==> IsWhole(markers, s, e, k)
  }

  lemma WholeIsGrouped(markers: seq<Marker>, s: nat, e: nat)
    requires AreInOrder(markers) && 0 < s
    ensures HoldsWhole(markers, s, e) <==> AreGrouped(MarksOf(markers), Rank(markers, s - 1), Rank(markers, e))
  {
    hide Rank, Pairs, HoldsWhole, AreGrouped;
    var marks, p, q := MarksOf(markers), Rank(markers, s - 1), Rank(markers, e);
    forall k | 0 <= k < |markers|
      ensures s <= markers[k].line <= e <==> p <= k < q
      ensures IsWhole(markers, s, e, k) <==> IsGrouped(marks, p, q, k)
    {
      SameGroup(markers, s, e, k);
    }
    WholeMeans(markers, s, e);
    GroupedMeans(marks, p, q);
  }

  lemma SameGroup(markers: seq<Marker>, s: nat, e: nat, k: nat)
    requires AreInOrder(markers) && 0 < s
    ensures IsWhole(markers, s, e, k) <==> IsGrouped(MarksOf(markers), Rank(markers, s - 1), Rank(markers, e), k)
  {
    hide Rank, NestAfter;
    var marks, p, q := MarksOf(markers), Rank(markers, s - 1), Rank(markers, e);
    if IsWhole(markers, s, e, k) {
      var y :| y in Pairs(marks) && y.0 < |markers| && y.1 < |markers| && (k == y.0 || k == y.1)
               && s <= markers[y.0].line && markers[y.1].line <= e;
      assert p <= y.0 && y.1 < q;
    }
    if IsGrouped(marks, p, q, k) {
      var y :| y in Pairs(marks) && p <= y.0 && y.1 < q && (k == y.0 || k == y.1);
      assert (y.0, y.1) in Pairs(marks);
      assert s <= markers[y.0].line && markers[y.1].line <= e;
    }
  }

  lemma WholeMeans(markers: seq<Marker>, s: nat, e: nat)
    ensures HoldsWhole(markers, s, e)
            <==> forall k :: 0 <= k < |markers| && s <= markers[k].line <= e ==> IsWhole(markers, s, e, k)
  {
    hide IsWhole;
  }

  lemma GroupedMeans(marks: seq<Mark>, p: nat, q: nat)
    ensures AreGrouped(marks, p, q) <==> forall k :: p <= k < q ==> IsGrouped(marks, p, q, k)
  {
    hide IsGrouped;
  }

  /** A creation that passes the resolve and the content check is around whole selections. */
  lemma CreatedIsGrouped(before: FileScan, after: FileScan, id: string, s: nat, e: nat, p: nat, q: nat)
    requires IsOrderly(before) && IsOrderly(after) && ResolveOne(id, after).Resolved?
    requires IsInserted(before.segments, before.markers, after.segments, after.markers, id, s, e, p, q)
    requires Newlines(ResolveOne(id, after).location.content) == Count(MarkerLines(before.markers), s, e)
    ensures AreGrouped(MarksOf(before.markers), p, q)
  {
    hide IsGrouped, ContentOf, IsInserted, DroppedLines, Count, Newlines, MarkerLines, Pairs, JudgeFile;
    NewPairIsFound(before, after, id, s, e, p, q);
    NewLines(before.segments, before.markers, after.segments, after.markers, id, s, e, p, q);
    ChecksGiveHarmless(before.segments, before.markers, after.segments, after.markers, id, s, e, p, q);
    forall k | p <= k < q
      ensures IsGrouped(MarksOf(before.markers), p, q, k)
    {
      MarkersAreDropped(before.segments, before.markers, after.segments, after.markers, id, s, e, p, q, k);
      DroppedIsGrouped(before.segments, before.markers, after.segments, after.markers, id, s, e, p, q, k);
    }
  }

  lemma DroppedIsGrouped(lines: seq<string>, markers: seq<Marker>, lines': seq<string>, markers': seq<Marker>,
                         id: string, s: nat, e: nat, p: nat, q: nat, k: nat)
    requires IsMarkerInsertion(lines, markers, lines', markers', id, s, e, p, q) && AreInOrder(markers')
    requires p <= k < q <= |markers| && s <= markers[k].line <= e
    requires markers[k].line + 1 in DroppedLines(markers', (p, q + 1))
    ensures IsGrouped(MarksOf(markers), p, q, k)
  {
    hide Pairs, Rank, AreLinesInserted;
    var marks, marks' := MarksOf(markers), MarksOf(markers');
    assert markers'[Shift(p, q, k)].line == ShiftLine(s, e, markers[k].line);
    var k' :| 0 <= k' < |markers'| && IsChildMark(marks', (p, q + 1), k') && markers'[k'].line == markers[k].line + 1;
    assert k' == k + 1;
    var y' :| y' in Pairs(marks') && marks'[y'.0].id != marks'[p].id && Inside(y', (p, q + 1))
              && (k' == y'.0 || k' == y'.1);
    var y := PairMovesBack(marks, marks', id, p, q, y');
    assert (y.0, y.1) in Pairs(marks);
  }

  /** Around whole selections the markers are matched, and every marker line between them is left out. */
  lemma GroupIsDropped(lines: seq<string>, markers: seq<Marker>, lines': seq<string>, markers': seq<Marker>,
                       id: string, s: nat, e: nat, p: nat, q: nat, line: nat)
    requires IsMarkerInsertion(lines, markers, lines', markers', id, s, e, p, q) && AreGrouped(MarksOf(markers), p, q)
    requires IsInserted(lines, markers, lines', markers', id, s, e, p, q) && s <= line <= e
    ensures line + 1 in DroppedLines(markers', (p, q + 1)) <==> line in MarkerLines(markers)
  {
    hide Pairs, Rank, AreLinesInserted, IsInserted, IsGrouped, NestAfter;
    if line + 1 in DroppedLines(markers', (p, q + 1)) {
      DroppedIsMarked(lines, markers, lines', markers', id, s, e, p, q, line);
    }
    if line in MarkerLines(markers) {
      var k :| 0 <= k < |markers| && markers[k].line == line;
      MarkerBetween(lines, markers, lines', markers', id, s, e, p, q, k);
      GroupedIsChild(MarksOf(markers), MarksOf(markers'), id, p, q, k);
    }
  }

  lemma MarkerBetween(lines: seq<string>, markers: seq<Marker>, lines': seq<string>, markers': seq<Marker>,
                      id: string, s: nat, e: nat, p: nat, q: nat, k: nat)
    requires IsInserted(lines, markers, lines', markers', id, s, e, p, q)
    requires k < |markers| && s <= markers[k].line <= e
    ensures p <= k < q && k + 1 < |markers'| && markers'[k + 1].line == markers[k].line + 1
  {
    assert markers'[Shift(p, q, k)].line == ShiftLine(s, e, markers[k].line);
  }

  lemma GroupedIsChild(marks: seq<Mark>, marks': seq<Mark>, id: string, p: nat, q: nat, k: nat)
    requires IsHarmless(marks, marks', id, p, q) && p <= k < q && IsGrouped(marks, p, q, k)
    ensures IsChildMark(marks', (p, q + 1), k + 1)
  {
    hide Pairs, NestAfter;
    var y :| y in Pairs(marks) && p <= y.0 && y.1 < q && (k == y.0 || k == y.1);
    assert (y.0, y.1) in Pairs(marks);
    PairMoves(marks, marks', id, p, q, y);
    MarkKept(marks, marks', id, p, q, y.0);
    IsChildOf(marks', (p, q + 1), k + 1, ShiftPair(p, q, y));
  }

  // ---------------------------------------------------------------- what is left between the markers

  /** The lines kept between the new markers are the lines s..e without a marker, moved by one. */
  lemma {:induction false} KeptAreUnmarked(drop: set<nat>, marked: set<nat>, s: nat, e: nat)
    requires 0 < s <= e + 1 && forall line :: s <= line <= e ==> (line + 1 in drop <==> line in marked)
    ensures var numbers, kept := Unmarked(marked, s, e), Places.KeptNumbers(s, e + 1, drop);
            && |kept| == |numbers|
            && (forall j :: 0 <= j < |numbers| ==> kept[j] == numbers[j] + 1)
            && (forall j :: 0 <= j < |numbers| ==> s <= numbers[j] <= e - (|numbers| - 1 - j))
    decreases e
  {
    if s <= e { KeptAreUnmarked(drop, marked, s, e - 1); }
  }

  /** What a line says once its ending is normalized. */
  lemma ClosedReads(segment: string)
    requires IsSegment(segment) && IsClosed(segment)
    ensures Normalize(segment) == Content(segment) + "\n" && NormalizeContent(segment) == Content(segment) + "\n"
  {
    hide Normalize;
    var y := Alignment.Chop(segment[..|segment| - 1]);
    Alignment.LineNormalizes(segment, y, Alignment.Chop(y));
  }

  lemma {:induction false} PlainIsNormal(x: string)
    requires IsOneLine(x)
    ensures Normalize(x) == x
  {
    if x != "" { PlainIsNormal(x[1..]); }
  }

  lemma OpenReads(segment: string)
    requires IsSegment(segment) && !IsClosed(segment)
    ensures NormalizeContent(segment) == segment + "\n"
  {
    PlainIsNormal(segment);
  }

  /** Lines with the same texts have the same content exactly when their last lines have. */
  lemma LastLineDecides(x: seq<string>, y: seq<string>)
    requires |x| == |y| > 0 && AllClosed(x) && WellSegmented(y)
    requires forall j :: 0 <= j < |x| - 1 ==> Content(x[j]) == Content(y[j])
    ensures NormalizeContent(Join(x)) == NormalizeContent(Join(y))
            <==> NormalizeContent(x[|x| - 1]) == NormalizeContent(y[|y| - 1])
  {
    hide Normalize, Content, Join, NormalizeContent, IsSegment, IsClosed;
    var k := |x| - 1;
    assert x[..k] + [x[k]] == x && y[..k] + [y[k]] == y;
    SameTextsNormalize(x[..k], y[..k]);
    LastReads(x[..k], x[k]);
    LastReads(y[..k], y[k]);
    SamePrefix(Normalize(Join(x[..k])), NormalizeContent(x[k]), NormalizeContent(y[k]));
  }

  lemma SameTextsNormalize(x: seq<string>, y: seq<string>)
    requires |x| == |y| && AllClosed(x) && AllClosed(y) && forall j :: 0 <= j < |x| ==> Content(x[j]) == Content(y[j])
    ensures Normalize(Join(x)) == Normalize(Join(y))
  {
    hide Normalize, Content, Join, NormalizeContent, IsSegment, IsClosed;
    forall j | 0 <= j < |x|
      ensures Normalize(x[j]) == Normalize(y[j])
    {
      ClosedReads(x[j]);
      ClosedReads(y[j]);
    }
    InPlace.SameNormalized(x, y);
    Alignment.NormalizeJoin(x);
    Alignment.NormalizeJoin(y);
  }

  lemma SamePrefix(a: string, x: string, y: string)
    ensures a + x == a + y <==> x == y
  {
    assert (a + x)[|a|..] == x && (a + y)[|a|..] == y;
  }

  lemma LastReads(rest: seq<string>, last: string)
    requires AllClosed(rest) && IsSegment(last)
    ensures NormalizeContent(Join(rest + [last])) == Normalize(Join(rest)) + NormalizeContent(last)
  {
    hide Normalize, Join;
    JoinAppend(rest, [last]);
    JoinOne(last);
    Alignment.NormalizeJoin(rest);
    Alignment.NormalizeAppend(Join(rest), last);
    NormalizeKeepsNewlines(last);
    var a, b := Normalize(Join(rest)), Normalize(last);
    assert (a + b)[|a + b| - 1] == b[|b| - 1];
    assert a + b + "\n" == a + (b + "\n");
  }

  lemma JoinOne(segment: string)
    ensures Join([segment]) == segment
  {
    assert [segment][1..] == [];
  }

  // ---------------------------------------------------------------- the content of the new selection

  /** A line as it is in a selection: with an ending. */
  function Ended(segment: string, ending: string): string {
    if IsClosed(segment) then segment else segment + ending
  }

  lemma MiddleLine(text: string, lines: seq<string>, syntax: CommentSyntax, id: string, s: nat, e: nat, n: nat)
    requires 0 < s <= n <= e <= |lines| && WellSegmented(lines)
    ensures InsertLines(text, lines, syntax, id, s, e)[n] == Ended(lines[n - 1], LineEnding(text))
    ensures AllClosed([Ended(lines[n - 1], LineEnding(text))])
  {
    hide MarkerLine, LineEnding, Join;
    var middle, lines' := lines[s - 1..e], InsertLines(text, lines, syntax, id, s, e);
    EndingIsEnding(text);
    InsertLinesAt(text, lines, syntax, id, s, e);
    ClosedAt(middle, LineEnding(text));
    assert lines'[n] == lines'[s..e + 1][n - s] && middle[n - s] == lines[n - 1];
  }

  /** The new selection holds the content of the checkpoint lines exactly when the last line of each reads the same. */
  lemma ContentDecided(text: string, syntax: CommentSyntax, id: string, s: nat, e: nat, marked: set<nat>,
                       drop: set<nat>, base: seq<string>, f: nat, l: nat)
    requires WellSegmented(base) && IsOrigin(Segments(text), marked, s, e, base, f, l)
    requires forall line :: s <= line <= e ==> (line + 1 in drop <==> line in marked)
    ensures Unmarked(marked, s, e) != [] && s <= Last(Unmarked(marked, s, e)) <= e
    ensures Content(Segments(text)[Last(Unmarked(marked, s, e)) - 1]) == Content(base[l])
    ensures NormalizeContent(KeepLines(InsertLines(text, Segments(text), syntax, id, s, e), s, e + 1, drop))
            == NormalizeContent(Join(base[f..l + 1]))
            <==> ReadsAlike(Segments(text)[Last(Unmarked(marked, s, e)) - 1], LineEnding(text), base[l])
  {
    hide Unmarked, KeepLines, Content, Join, NormalizeContent, Segments, InsertLines, LineEnding, TextsAt, LineTexts,
      Ended, AllClosed;
    var lines, numbers, chosen := Segments(text), Unmarked(marked, s, e), base[f..l + 1];
    var kept := KeptLines(text, lines, syntax, id, s, e, marked, drop, InsertLines(text, lines, syntax, id, s, e));
    SliceIsWellSegmented(base, f, l + 1);
    TextsAre(lines, numbers);
    LineTextsAre(chosen);
    forall j | 0 <= j < |chosen|
      ensures Content(lines[numbers[j] - 1]) == Content(chosen[j])
    {
      assert TextsAt(lines, numbers)[j] == LineTexts(chosen)[j];
    }
    LastLineDecides(kept, chosen);
  }

  /** The lines kept between the new markers: the ones without a marker, each with an ending. */
  lemma KeptLines(text: string, lines: seq<string>, syntax: CommentSyntax, id: string, s: nat, e: nat,
                  marked: set<nat>, drop: set<nat>, lines': seq<string>)
    returns (kept: seq<string>)
    requires 0 < s <= e <= |lines| && lines == Segments(text) && lines' == InsertLines(text, lines, syntax, id, s, e)
    requires forall line :: s <= line <= e ==> (line + 1 in drop <==> line in marked)
    ensures var numbers := Unmarked(marked, s, e);
            && |kept| == |numbers| && AllClosed(kept) && Join(kept) == KeepLines(lines', s, e + 1, drop)
            && forall j :: 0 <= j < |kept| ==>
                 && s <= numbers[j] <= e && kept[j] == Ended(lines[numbers[j] - 1], LineEnding(text))
                 && (j < |kept| - 1 ==> kept[j] == lines[numbers[j] - 1])
  {
    hide Unmarked, KeepLines, Join, Segments, InsertLines, LineEnding, AllClosed, Alignment.KeptSegments,
      Places.KeptNumbers;
    var numbers := Unmarked(marked, s, e);
    SegmentsJoin(text);
    KeptAreUnmarked(drop, marked, s, e);
    Places.KeptAt(lines', s, e + 1, drop);
    Alignment.JoinKept(lines', s, e + 1, drop);
    kept := Alignment.KeptSegments(lines', s, e + 1, drop);
    forall j | 0 <= j < |numbers|
      ensures kept[j] == Ended(lines[numbers[j] - 1], LineEnding(text)) && AllClosed([kept[j]])
      ensures j < |numbers| - 1 ==> kept[j] == lines[numbers[j] - 1]
    {
      MiddleLine(text, lines, syntax, id, s, e, numbers[j]);
      assert j < |numbers| - 1 ==> IsClosed(lines[numbers[j] - 1]);
    }
    EachClosed(kept);
  }

  function Last(numbers: seq<nat>): nat
    requires numbers != []
  {
    numbers[|numbers| - 1]
  }

  lemma EachClosed(segments: seq<string>)
    requires forall j :: 0 <= j < |segments| ==> AllClosed([segments[j]])
    ensures AllClosed(segments)
  {
    forall j | 0 <= j < |segments|
      ensures IsSegment(segments[j]) && IsClosed(segments[j])
    {
      assert AllClosed([segments[j]]) && [segments[j]][0] == segments[j];
    }
  }

  /** A line reads the same in a selection as a line of the checkpoint version. */
  predicate ReadsAlike(segment: string, ending: string, base: string) {
    NormalizeContent(Ended(segment, ending)) == NormalizeContent(base)
  }

  /** Lines with the same text read the same unless one of them ends with a carriage return. */
  lemma TextTells(segment: string, ending: string, base: string)
    requires IsSegment(segment) && IsSegment(base) && Content(segment) == Content(base)
    requires (ending == "\n" || ending == "\r\n") && !EndsWith(segment, "\r") && !EndsWith(base, "\r")
    ensures ReadsAlike(segment, ending, base)
  {
    hide NormalizeContent;
    EndedReads(segment, ending);
    if IsClosed(base) {
      ClosedReads(base);
    } else {
      OpenReads(base);
      NoReturn(base);
    }
    if !IsClosed(segment) { NoReturn(segment); }
  }

  lemma NoReturn(segment: string)
    requires IsSegment(segment) && !IsClosed(segment) && !EndsWith(segment, "\r")
    ensures Content(segment) == segment
  {
    assert segment[|segment| - 1..] == [segment[|segment| - 1]];
  }

  lemma EndedReads(segment: string, ending: string)
    requires IsSegment(segment) && (ending == "\n" || ending == "\r\n")
    ensures NormalizeContent(Ended(segment, ending))
            == (if IsClosed(segment) || ending == "\n" then Content(segment) else segment) + "\n"
  {
    hide NormalizeContent;
    var ended := Ended(segment, ending);
    ClosedReads(ended);
    if !IsClosed(segment) {
      assert ended[..|segment|] == segment;
      assert ending == "\n" ==> Content(ended) == Content(segment);
    }
  }

  /** A line reads as it does at the checkpoint unless it ends with a carriage return and gets a newline. */
  lemma SameLineReads(segment: string, ending: string)
    requires IsSegment(segment) && (ending == "\n" || ending == "\r\n")
    ensures ReadsAlike(segment, ending, segment) <==> !(EndsWith(segment, "\r") && ending == "\n")
  {
    hide NormalizeContent;
    EndedReads(segment, ending);
    if IsClosed(segment) { ClosedReads(segment); } else { OpenReads(segment); }
    assert segment[|segment| - 1..] == [segment[|segment| - 1]];
    Alignment.SameEnding(Content(segment), segment);
  }

  // ---------------------------------------------------------------- when a selection is created

  /** The last line to select reads the same as the last of the checkpoint lines. */
  ghost predicate EndsAlike(text: string, markers: seq<Marker>, s: nat, e: nat, base: seq<string>, l: nat) {
    var numbers := Unmarked(MarkerLines(markers), s, e);
    && numbers != [] && 0 < Last(numbers) <= |Segments(text)| && l < |base|
    && ReadsAlike(Segments(text)[Last(numbers) - 1], LineEnding(text), base[l])
  }

  /** Around whole selections the new one resolves, to the lines between its markers that hold no marker. */
  lemma GroupResolves(before: FileScan, after: FileScan, id: string, s: nat, e: nat, p: nat, q: nat)
    returns (drop: set<nat>)
    requires IsOrderly(before) && IsOrderly(after) && HasNoProblem(MarksOf(before.markers)) && e < |after.segments|
    requires IsInserted(before.segments, before.markers, after.segments, after.markers, id, s, e, p, q)
    requires AreGrouped(MarksOf(before.markers), p, q)
    ensures forall line :: s <= line <= e ==> (line + 1 in drop <==> line in MarkerLines(before.markers))
    ensures s <= e + 1 && ResolveOne(id, after).Resolved?
            && ResolveOne(id, after).location.content == NormalizeContent(KeepLines(after.segments, s, e + 1, drop))
  {
    hide AreGrouped, Pairs, JudgeFile, NormalizeContent, KeepLines, MarkerLines, Rank, HasNoProblem, DroppedLines,
      AreLinesInserted;
    var marks, marks' := MarksOf(before.markers), MarksOf(after.markers);
    GroupIsHarmless(marks, marks', id, p, q);
    HarmlessResolves(marks, marks', id, p, q);
    NewLines(before.segments, before.markers, after.segments, after.markers, id, s, e, p, q);
    drop := DroppedLines(after.markers, (p, q + 1));
    forall line | s <= line <= e
      ensures line + 1 in drop <==> line in MarkerLines(before.markers)
    {
      GroupIsDropped(before.segments, before.markers, after.segments, after.markers, id, s, e, p, q, line);
    }
  }

  /** The facts about a request for unchanged lines that the proof below starts from. */
  lemma UnchangedFacts(text: string, markers: seq<Marker>, base: string, s: nat, e: nat, range: Range)
    requires IsUnchanged(text, markers, base, s, e, range)
    ensures 0 < s <= e <= |Segments(text)| && WellSegmented(Segments(base)) && range.baseLast < |Segments(base)|
    ensures Newlines(range.content) == Count(MarkerLines(markers), s, e)
  {
    hide Segments, Newlines, NormalizeContent, Join, Count;
    SegmentsJoin(base);
    SliceIsWellSegmented(Segments(base), range.baseFirst, range.baseLast + 1);
    LinesInContent(Segments(base)[range.baseFirst..range.baseLast + 1]);
    OriginLines(Segments(text), MarkerLines(markers), s, e, Segments(base), range.baseFirst, range.baseLast);
  }

  /** Once a free identifier is put around unchanged lines, they become a selection exactly when they hold whole
      selections only and end alike. */
  lemma PlacedIff(path: string, text: string, syntax: CommentSyntax, markers: seq<Marker>, base: string, s: nat, e: nat,
                  taken: set<string>, drawn: seq<string>, range: Range, k: nat, r: Outcome)
    requires IsSyntax(syntax) && markers == FindMarkers(Some(syntax), text) && HasNoProblem(MarksOf(markers))
    requires IsUnchanged(text, markers, base, s, e, range)
    requires IsPlaced(path, text, syntax, range, taken, drawn, k, r)
    ensures r.Created? <==> HoldsWhole(markers, s, e)
                            && EndsAlike(text, markers, s, e, Segments(base), range.baseLast)
  {
    hide FindMarkers, Segments, Unmarked, NormalizeContent, InsertLines, Insert, Newlines, Count, HasNoProblem,
      HoldsWhole, AreGrouped, IsInserted, MarkerLines, Rank, ResolveOne, LineEnding, IsOrigin, Join, KeepLines,
      ReadsAlike, AreInOrder, HasMapping;
    UnchangedFacts(text, markers, base, s, e, range);
    var id, p, q := drawn[k], Rank(markers, s - 1), Rank(markers, e);
    var lines' := InsertLines(text, Segments(text), syntax, id, s, e);
    forall m | m in markers
      ensures m.mark.id != Some(id)
    {
      var i :| 0 <= i < |markers| && markers[i] == m;
    }
    InsertGivesInserted(text, syntax, id, s, e);
    var before, after := ScanFile(Some(syntax), path, text), ScanFile(Some(syntax), path, Join(lines'));
    ScanFileIsOrderly(Some(syntax), path, text);
    WholeIsGrouped(markers, s, e);
    if AreGrouped(MarksOf(markers), p, q) {
      var drop := GroupResolves(before, after, id, s, e, p, q);
      ContentDecided(text, syntax, id, s, e, MarkerLines(markers), drop, Segments(base), range.baseFirst,
                     range.baseLast);
    } else if r.Created? {
      CreatedIsGrouped(before, after, id, s, e, p, q);
    }
  }

  /** What decides about lines that no existing selection keeps from being selected, in such a file. */
  lemma MappedIff(path: string, text: string, syntax: CommentSyntax, markers: seq<Marker>, base: string, s: nat,
                  e: nat, taken: set<string>, drawn: seq<string>, r: Outcome)
    returns (range: Option<Range>)
    requires IsSyntax(syntax) && markers == FindMarkers(Some(syntax), text) && IsOpen(text, markers, s, e)
    requires IsAnswer(path, text, syntax, markers, base, s, e, taken, drawn, r)
    requires TextsAt(Segments(text), Unmarked(MarkerLines(markers), 1, |Segments(text)|)) == LineTexts(Segments(base))
    ensures range.Some? <==> Unmarked(MarkerLines(markers), s, e) != []
    ensures range.Some? ==>
              && IsUnchanged(text, markers, base, s, e, range.value)
              && range.value.baseFirst == |Unmarked(MarkerLines(markers), 1, s - 1)|
    ensures r.Created?
            <==> && range.Some? && (exists k :: 0 <= k < |drawn| && IsFree(markers, taken, drawn[k]))
                 && HoldsWhole(markers, s, e)
                 && EndsAlike(text, markers, s, e, Segments(base), range.value.baseLast)
  {
    hide FindMarkers, Segments, Unmarked, MarkerLines, HasMapping, TextsAt, LineTexts, HoldsWhole, IsObstructed,
      HasNoProblem, IsFree, IsPlaced, EndsAlike, IsOrigin, NormalizeContent;
    var lines, marked := Segments(text), MarkerLines(markers);
    range := None;
    if r == Refused(Differs) {
      UnchangedIsAccepted(lines, marked, Segments(base), s, e, None);
    } else {
      var found :| IsUnchanged(text, markers, base, s, e, found)
                   && IsMapped(path, text, syntax, markers, found, taken, drawn, r);
      range := Some(found);
      UnchangedIsAccepted(lines, marked, Segments(base), s, e, Some(found.baseFirst));
      if r != Refused(NoFreshId) {
        var k :| IsPlaced(path, text, syntax, found, taken, drawn, k, r);
        FreeIsDrawn(path, text, syntax, markers, found, taken, drawn, k, r);
        PlacedIff(path, text, syntax, markers, base, s, e, taken, drawn, found, k, r);
      }
    }
  }

  lemma FreeIsDrawn(path: string, text: string, syntax: CommentSyntax, markers: seq<Marker>, range: Range,
                    taken: set<string>, drawn: seq<string>, k: nat, r: Outcome)
    requires markers == FindMarkers(Some(syntax), text)
    requires IsPlaced(path, text, syntax, range, taken, drawn, k, r)
    ensures exists j :: 0 <= j < |drawn| && IsFree(markers, taken, drawn[j])
  {
    hide IsFree, FindMarkers, Insert, ResolveOne;
  }

  /** In a file whose lines without markers are those of its checkpoint version, a selection is created exactly around
      whole selections, given at least one such line and a free identifier. */
  lemma CreatedIff(path: string, text: string, syntax: CommentSyntax, markers: seq<Marker>, base: string, s: nat,
                   e: nat, taken: set<string>, drawn: seq<string>, r: Outcome)
    requires IsSyntax(syntax) && markers == FindMarkers(Some(syntax), text)
    requires IsAnswer(path, text, syntax, markers, base, s, e, taken, drawn, r)
    requires TextsAt(Segments(text), Unmarked(MarkerLines(markers), 1, |Segments(text)|)) == LineTexts(Segments(base))
    requires !EndsWith(text, "\r") && !EndsWith(base, "\r")
    ensures r.Created?
            <==> && IsOpen(text, markers, s, e) && HoldsWhole(markers, s, e)
                 && Unmarked(MarkerLines(markers), s, e) != []
                 && exists k :: 0 <= k < |drawn| && IsFree(markers, taken, drawn[k])
  {
    hide FindMarkers, Segments, Unmarked, MarkerLines, HasMapping, TextsAt, LineTexts, HoldsWhole, IsObstructed,
      HasNoProblem, IsFree, IsMapped, IsUnchanged, EndsAlike;
    if IsOpen(text, markers, s, e) {
      var range := MappedIff(path, text, syntax, markers, base, s, e, taken, drawn, r);
      if range.Some? { UnchangedEndsAlike(text, markers, base, s, e, range.value); }
    }
  }

  lemma UnchangedEndsAlike(text: string, markers: seq<Marker>, base: string, s: nat, e: nat, range: Range)
    requires IsUnchanged(text, markers, base, s, e, range) && !EndsWith(text, "\r") && !EndsWith(base, "\r")
    ensures EndsAlike(text, markers, s, e, Segments(base), range.baseLast)
  {
    hide Segments, Unmarked, MarkerLines, TextsAt, LineTexts, NormalizeContent, Content, LineEnding, Join, EndsWith,
      ReadsAlike;
    var numbers, l := Unmarked(MarkerLines(markers), s, e), range.baseLast;
    UnchangedFacts(text, markers, base, s, e, range);
    LastTexts(Segments(text), MarkerLines(markers), s, e, Segments(base), range.baseFirst, l);
    SegmentsJoin(text);
    SegmentsJoin(base);
    EndsInReturn(text, Segments(text), Last(numbers));
    EndsInReturn(base, Segments(base), l + 1);
    EndingIsEnding(text);
    TextTells(Segments(text)[Last(numbers) - 1], LineEnding(text), Segments(base)[l]);
  }

  /** The last of the lines without a marker has the text of the last of the checkpoint lines. */
  lemma LastTexts(lines: seq<string>, marked: set<nat>, s: nat, e: nat, base: seq<string>, f: nat, l: nat)
    requires IsOrigin(lines, marked, s, e, base, f, l)
    ensures Unmarked(marked, s, e) != [] && s <= Last(Unmarked(marked, s, e)) <= e
    ensures Content(lines[Last(Unmarked(marked, s, e)) - 1]) == Content(base[l])
  {
    hide Unmarked, TextsAt, LineTexts, Content;
    var numbers, chosen := Unmarked(marked, s, e), base[f..l + 1];
    TextsAre(lines, numbers);
    LineTextsAre(chosen);
    UnmarkedAre(marked, s, e);
    assert Last(numbers) in numbers;
    assert TextsAt(lines, numbers)[|numbers| - 1] == LineTexts(chosen)[l - f];
  }

  /** In a file without markers that is its checkpoint version, every range of lines can be selected, unless it reaches
      a last line that ends with a carriage return and is given a newline. */
  lemma UnchangedIsCreated(path: string, text: string, syntax: CommentSyntax, s: nat, e: nat, taken: set<string>,
                           drawn: seq<string>, r: Outcome)
    requires IsSyntax(syntax) && FindMarkers(Some(syntax), text) == []
    requires IsAnswer(path, text, syntax, [], text, s, e, taken, drawn, r)
    ensures r.Created?
            <==> && 0 < s <= e <= |Segments(text)|
                 && (exists k :: 0 <= k < |drawn| && IsSelectionId(drawn[k]) && drawn[k] !in taken)
                 && !(e == |Segments(text)| && EndsWith(text, "\r") && !Contains(text, "\r\n"))
    ensures r == Refused(InvalidRange) <==> text != "" && !(0 < s <= e <= |Segments(text)|)
  {
    hide FindMarkers, Segments, Unmarked, HasMapping, TextsAt, LineTexts, HoldsWhole, IsMapped, IsUnchanged, EndsAlike,
      IsFree, EndsWith, Contains;
    var lines := Segments(text);
    EmptyHasNoLines(text);
    if 0 < s <= e <= |lines| {
      NothingMarked(lines, s, e);
      NothingHeld(s, e, taken, drawn);
      var range := MappedIff(path, text, syntax, [], text, s, e, taken, drawn, r);
      OwnLinesEndAlike(text, s, e, range.value);
    }
  }

  lemma {:induction false} NoneLeftOut(s: nat, e: nat)
    requires 0 < s <= e + 1
    ensures |Unmarked({}, s, e)| == e - s + 1
    ensures forall j :: 0 <= j < |Unmarked({}, s, e)| ==> Unmarked({}, s, e)[j] == s + j
    decreases e
  {
    if s <= e { NoneLeftOut(s, e - 1); }
  }

  lemma NothingMarked(lines: seq<string>, s: nat, e: nat)
    requires 0 < s <= e <= |lines|
    ensures MarkerLines([]) == {} && TextsAt(lines, Unmarked({}, 1, |lines|)) == LineTexts(lines)
    ensures |Unmarked({}, 1, s - 1)| == s - 1 && |Unmarked({}, s, e)| == e - s + 1 && Last(Unmarked({}, s, e)) == e
  {
    hide Unmarked, TextsAt, LineTexts, Content;
    NoneLeftOut(1, |lines|);
    NoneLeftOut(1, s - 1);
    NoneLeftOut(s, e);
    TextsAre(lines, Unmarked({}, 1, |lines|));
    LineTextsAre(lines);
  }

  lemma NothingHeld(s: nat, e: nat, taken: set<string>, drawn: seq<string>)
    ensures HoldsWhole([], s, e)
    ensures (exists k :: 0 <= k < |drawn| && IsFree([], taken, drawn[k]))
            <==> exists k :: 0 <= k < |drawn| && IsSelectionId(drawn[k]) && drawn[k] !in taken
  {
    hide IsSelectionId;
    forall k | 0 <= k < |drawn|
      ensures IsFree([], taken, drawn[k]) <==> IsSelectionId(drawn[k]) && drawn[k] !in taken
    {
    }
  }

  lemma OwnLinesEndAlike(text: string, s: nat, e: nat, range: Range)
    requires IsUnchanged(text, [], text, s, e, range) && range.baseFirst == s - 1
    ensures EndsAlike(text, [], s, e, Segments(text), range.baseLast)
            <==> !(e == |Segments(text)| && EndsWith(text, "\r") && !Contains(text, "\r\n"))
  {
    hide Segments, Unmarked, HasMapping, TextsAt, LineTexts, NormalizeContent, Contains, Join, ReadsAlike, Count;
    var lines := Segments(text);
    NothingMarked(lines, s, e);
    OriginLines(lines, {}, s, e, lines, range.baseFirst, range.baseLast);
    UnmarkedAre({}, s, e);
    SegmentsJoin(text);
    EndingIsEnding(text);
    SameLineReads(lines[e - 1], LineEnding(text));
    EndsInReturn(text, lines, e);
  }

  lemma EndsInReturn(text: string, lines: seq<string>, e: nat)
    requires Join(lines) == text && WellSegmented(lines) && 0 < e <= |lines|
    ensures EndsWith(lines[e - 1], "\r") <==> e == |lines| && EndsWith(text, "\r")
  {
    hide Join;
    var line := lines[e - 1];
    assert line[|line| - 1..] == [line[|line| - 1]];
    if e == |lines| {
      assert lines == lines[..e - 1] + [line];
      JoinAppend(lines[..e - 1], [line]);
      JoinOne(line);
      assert text[|text| - 1..] == [line[|line| - 1]];
    }
  }

  /** So an unchanged file of one line that ends with a carriage return and no newline cannot be selected. */
  lemma FinalReturnIsRefused(path: string, syntax: CommentSyntax, taken: set<string>, drawn: seq<string>, r: Outcome)
    requires IsSyntax(syntax) && IsAnswer(path, "a\r", syntax, [], "a\r", 1, 1, taken, drawn, r)
    ensures !r.Created?
  {
    hide IsAnswer, Contains;
    var text := "a\r";
    NoTagIn(text);
    UnchangedIsCreated(path, text, syntax, 1, 1, taken, drawn, r);
    OneLineText(text);
    assert text[1..] == "\r";
  }

  lemma NoTagIn(text: string)
    requires text == "a\r"
    ensures !Contains(text, ANY_MARKER_TAG) && !Contains(text, "\r\n")
  {
    hide Find;
    FindIsOccurrence(text, ANY_MARKER_TAG);
    FindIsOccurrence(text, "\r\n");
    assert |text| == 2 && |ANY_MARKER_TAG| == 7 && |"\r\n"| == 2;
    assert text[0] == 'a' && "\r\n"[0] == '\r';
    assert text[0..2][0] == 'a';
  }

  lemma OneLineText(text: string)
    requires text != "" && IsOneLine(text)
    ensures |Segments(text)| == 1
  {
    SegmentsStep(text);
    assert FirstCut(text) == |text|;
  }
}
