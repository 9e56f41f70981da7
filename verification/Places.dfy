// A write that leaves the content of a preserved selection alone also leaves the text outside its nested targets alone
// when every one of them stays at its place among the lines of the content.
module Places {
  import opened Anchors
  import opened Markers
  import opened Nesting
  import opened Tracker
  import opened Guard
  import opened Verify
  import opened Surroundings
  import opened Alignment
  import opened Preserving

  // ---------------------------------------------------------------- the numbers of the kept lines

  /** The numbers of the lines from + 1 .. upTo that are kept. */
  function KeptNumbers(from: nat, upTo: nat, drop: set<nat>): seq<nat>
    decreases upTo
  {
    if upTo <= from then [] else KeptNumbers(from, upTo - 1, drop) + if upTo in drop then [] else [upTo]
  }

  /** How many of some numbers are less than another. */
  function CountBefore(numbers: seq<nat>, line: nat): nat {
    if numbers == [] then 0
    else CountBefore(numbers[..|numbers| - 1], line) + if numbers[|numbers| - 1] < line then 1 else 0
  }

  ghost predicate AreNumbers(numbers: seq<nat>, from: nat, upTo: nat, drop: set<nat>) {
    && (forall j :: 0 <= j < |numbers| ==> from < numbers[j] <= upTo && numbers[j] !in drop)
    && (forall i, j :: 0 <= i < j < |numbers| ==> numbers[i] < numbers[j])
  }

  lemma {:induction false} KeptNumbersAre(from: nat, upTo: nat, drop: set<nat>)
    ensures AreNumbers(KeptNumbers(from, upTo, drop), from, upTo, drop)
    decreases upTo
  {
    if from < upTo { KeptNumbersAre(from, upTo - 1, drop); }
  }

  lemma {:induction false} CountsAll(numbers: seq<nat>, line: nat)
    requires forall j :: 0 <= j < |numbers| ==> numbers[j] < line
    ensures CountBefore(numbers, line) == |numbers|
  {
    if numbers != [] { CountsAll(numbers[..|numbers| - 1], line); }
  }

  lemma {:induction false} CountsAtMost(numbers: seq<nat>, line: nat)
    ensures CountBefore(numbers, line) <= |numbers|
  {
    if numbers != [] { CountsAtMost(numbers[..|numbers| - 1], line); }
  }

  /** Whether a number comes before a line shows in its position. */
  lemma {:induction false} PositionTells(numbers: seq<nat>, j: nat, line: nat)
    requires j < |numbers| && forall i, k :: 0 <= i < k < |numbers| ==> numbers[i] < numbers[k]
    ensures numbers[j] < line <==> j < CountBefore(numbers, line)
  {
    var rest, last := numbers[..|numbers| - 1], numbers[|numbers| - 1];
    CountsAtMost(rest, line);
    if last < line {
      CountsAll(rest, line);
    } else if j < |rest| {
      PositionTells(rest, j, line);
    }
  }

  // ---------------------------------------------------------------- what is outside, over the kept lines

  /** What a line adds to the text outside. */
  function LineOutside(segments: seq<string>, markers: seq<Marker>, nested: seq<Nested>, line: nat): string {
    if 0 < line <= |segments| && !IsLeftOut(markers, nested, line) then Content(segments[line - 1]) + "\n" else ""
  }

  function OutsideOf(segments: seq<string>, markers: seq<Marker>, nested: seq<Nested>, numbers: seq<nat>): string {
    if numbers == [] then ""
    else OutsideOf(segments, markers, nested, numbers[..|numbers| - 1])
         + LineOutside(segments, markers, nested, numbers[|numbers| - 1])
  }

  lemma OutsideStep(segments: seq<string>, markers: seq<Marker>, nested: seq<Nested>, from: nat, upTo: nat)
    requires from < upTo <= |segments|
    ensures Outside(segments, markers, nested, from, upTo)
            == Outside(segments, markers, nested, from, upTo - 1) + LineOutside(segments, markers, nested, upTo)
  {
    hide Content, IsLeftOut;
  }

  lemma OutsideOfStep(segments: seq<string>, markers: seq<Marker>, nested: seq<Nested>, all: seq<nat>,
                      numbers: seq<nat>, line: nat)
    requires all == numbers + [line]
    ensures OutsideOf(segments, markers, nested, all)
            == OutsideOf(segments, markers, nested, numbers) + LineOutside(segments, markers, nested, line)
  {
    hide LineOutside;
    assert all[..|numbers|] == numbers;
  }

  /** Dropped lines are marker lines, so only kept lines are outside. */
  lemma {:induction false} OutsideIsKept(segments: seq<string>, markers: seq<Marker>, nested: seq<Nested>, from: nat,
                                         upTo: nat, drop: set<nat>)
    requires from <= upTo <= |segments| && forall m :: m in drop ==> IsSelectionLine(markers, m)
    ensures Outside(segments, markers, nested, from, upTo)
            == OutsideOf(segments, markers, nested, KeptNumbers(from, upTo, drop))
    decreases upTo
  {
    hide Outside, OutsideOf, LineOutside, KeptNumbers, IsSelectionLine;
    if from == upTo {
      NothingOutside(segments, markers, nested, from, drop);
    } else {
      var rest := KeptNumbers(from, upTo - 1, drop);
      OutsideIsKept(segments, markers, nested, from, upTo - 1, drop);
      OutsideStep(segments, markers, nested, from, upTo);
      KeptNumbersStep(from, upTo, drop);
      if upTo in drop {
        MarkerLineAddsNothing(segments, markers, nested, upTo, Outside(segments, markers, nested, from, upTo - 1));
      } else {
        OutsideOfStep(segments, markers, nested, rest + [upTo], rest, upTo);
      }
    }
  }

  lemma NothingOutside(segments: seq<string>, markers: seq<Marker>, nested: seq<Nested>, from: nat, drop: set<nat>)
    requires from <= |segments|
    ensures Outside(segments, markers, nested, from, from) == ""
    ensures OutsideOf(segments, markers, nested, KeptNumbers(from, from, drop)) == ""
  {
  }

  lemma MarkerLineAddsNothing(segments: seq<string>, markers: seq<Marker>, nested: seq<Nested>, line: nat, text: string)
    requires IsSelectionLine(markers, line)
    ensures text + LineOutside(segments, markers, nested, line) == text
  {
    assert text + "" == text;
  }

  lemma KeptNumbersStep(from: nat, upTo: nat, drop: set<nat>)
    requires from < upTo
    ensures KeptNumbers(from, upTo, drop)
            == if upTo in drop then KeptNumbers(from, upTo - 1, drop) else KeptNumbers(from, upTo - 1, drop) + [upTo]
  {
  }

  /** One kept line, in both files. */
  ghost predicate IsLineAlike(x: seq<string>, m: seq<Marker>, n: seq<Nested>, y: seq<string>, m': seq<Marker>,
                              n': seq<Nested>, line: nat, line': nat) {
    && 0 < line <= |x| && 0 < line' <= |y| && Content(x[line - 1]) == Content(y[line' - 1])
    && IsLeftOut(m, n, line) == IsLeftOut(m', n', line')
  }

  lemma {:induction false} OutsideAlike(x: seq<string>, m: seq<Marker>, n: seq<Nested>, y: seq<string>,
                                        m': seq<Marker>, n': seq<Nested>, numbers: seq<nat>, numbers': seq<nat>)
    requires |numbers| == |numbers'|
    requires forall j :: 0 <= j < |numbers| ==> IsLineAlike(x, m, n, y, m', n', numbers[j], numbers'[j])
    ensures OutsideOf(x, m, n, numbers) == OutsideOf(y, m', n', numbers')
    decreases |numbers|
  {
    hide OutsideOf, LineOutside, IsLineAlike;
    if numbers == [] {
      OutsideOfNone(x, m, n);
      OutsideOfNone(y, m', n');
    } else {
      var k := |numbers| - 1;
      OutsideAlike(x, m, n, y, m', n', numbers[..k], numbers'[..k]);
      OutsideOfStep(x, m, n, numbers, numbers[..k], numbers[k]);
      OutsideOfStep(y, m', n', numbers', numbers'[..k], numbers'[k]);
      LineIsAlike(x, m, n, y, m', n', numbers[k], numbers'[k]);
    }
  }

  lemma LineIsAlike(x: seq<string>, m: seq<Marker>, n: seq<Nested>, y: seq<string>, m': seq<Marker>, n': seq<Nested>,
                    line: nat, line': nat)
    requires IsLineAlike(x, m, n, y, m', n', line, line')
    ensures LineOutside(x, m, n, line) == LineOutside(y, m', n', line')
  {
    hide Content, IsLeftOut;
  }

  lemma OutsideOfNone(segments: seq<string>, markers: seq<Marker>, nested: seq<Nested>)
    ensures OutsideOf(segments, markers, nested, []) == ""
  {
  }

  // ---------------------------------------------------------------- the targets stay

  /** As many kept lines come up to the start marker of each target, and before its end marker. */
  ghost predicate StayInPlace(nested: seq<Nested>, numbers: seq<nat>, nested': seq<Nested>, numbers': seq<nat>) {
    && |nested| == |nested'|
    && forall k :: 0 <= k < |nested| ==> StaysInPlace(nested[k], numbers, nested'[k], numbers')
  }

  predicate StaysInPlace(n: Nested, numbers: seq<nat>, n': Nested, numbers': seq<nat>) {
    && CountBefore(numbers, n.start + 1) == CountBefore(numbers', n'.start + 1)
    && CountBefore(numbers, n.end) == CountBefore(numbers', n'.end)
  }

  lemma {:induction false} InteriorAlike(nested: seq<Nested>, numbers: seq<nat>, nested': seq<Nested>,
                                         numbers': seq<nat>, j: nat)
    requires StayInPlace(nested, numbers, nested', numbers') && j < |numbers| && j < |numbers'|
    requires forall i, k :: 0 <= i < k < |numbers| ==> numbers[i] < numbers[k]
    requires forall i, k :: 0 <= i < k < |numbers'| ==> numbers'[i] < numbers'[k]
    ensures IsInterior(nested, numbers[j]) == IsInterior(nested', numbers'[j])
    decreases |nested|
  {
    if nested != [] {
      var n, n' := nested[0], nested'[0];
      assert StaysInPlace(n, numbers, n', numbers');
      PositionTells(numbers, j, n.start + 1);
      PositionTells(numbers', j, n'.start + 1);
      PositionTells(numbers, j, n.end);
      PositionTells(numbers', j, n'.end);
      InteriorAlike(nested[1..], numbers, nested'[1..], numbers', j);
    }
  }

  // ---------------------------------------------------------------- equal content, equal kept lines

  lemma {:induction false} NormalizeAllAt(segments: seq<string>, j: nat)
    requires j < |segments|
    ensures |NormalizeAll(segments)| == |segments| && NormalizeAll(segments)[j] == Normalize(segments[j])
    decreases |segments|
  {
    hide Normalize;
    var rest := segments[..|segments| - 1];
    if j < |rest| {
      NormalizeAllAt(rest, j);
    } else if rest != [] {
      NormalizeAllAt(rest, 0);
    }
  }

  /** The lines with some numbers. */
  ghost predicate AreLinesAt(kept: seq<string>, segments: seq<string>, numbers: seq<nat>) {
    && |kept| == |numbers|
    && forall j :: 0 <= j < |numbers| ==> 0 < numbers[j] <= |segments| && kept[j] == segments[numbers[j] - 1]
  }

  lemma {:induction false} KeptAt(segments: seq<string>, from: nat, upTo: nat, drop: set<nat>)
    requires from <= upTo <= |segments|
    ensures AreLinesAt(KeptSegments(segments, from, upTo, drop), segments, KeptNumbers(from, upTo, drop))
    decreases upTo
  {
    if from < upTo {
      KeptAt(segments, from, upTo - 1, drop);
      KeptNumbersStep(from, upTo, drop);
      KeptSegmentsStep(segments, from, upTo, drop);
      hide KeptNumbers, KeptSegments;
    }
  }

  lemma KeptSegmentsStep(segments: seq<string>, from: nat, upTo: nat, drop: set<nat>)
    requires from < upTo <= |segments|
    ensures KeptSegments(segments, from, upTo, drop)
            == KeptSegments(segments, from, upTo - 1, drop) + if upTo in drop then [] else [segments[upTo - 1]]
  {
  }

  lemma {:induction false} KeptAreLines(segments: seq<string>, from: nat, upTo: nat, drop: set<nat>)
    requires from <= upTo < |segments| && WellSegmented(segments)
    ensures AreClosed(KeptSegments(segments, from, upTo, drop))
    decreases upTo
  {
    if from < upTo {
      KeptAreLines(segments, from, upTo - 1, drop);
      assert IsSegment(segments[upTo - 1]) && IsClosed(segments[upTo - 1]);
    }
  }

  /** What a line says does not depend on its carriage returns. */
  lemma SameNormalSameLine(language: Option<CommentSyntax>, x: string, y: string)
    requires IsSegment(x) && IsClosed(x) && IsSegment(y) && IsClosed(y) && Normalize(x) == Normalize(y)
    ensures Content(x) == Content(y) && MarkOf(language, x) == MarkOf(language, y)
  {
    hide MarkOf, Normalize;
    NormalizedLine(x);
    NormalizedLine(y);
    SameEnding(PlainLine(x), PlainLine(y));
    PlainIsContent(x);
    PlainIsContent(y);
    SamePlainSameMark(language, x, y);
  }

  lemma ContentTellsLines(x: seq<string>, y: seq<string>)
    requires AreClosed(x) && AreClosed(y) && NormalizeContent(Join(x)) == NormalizeContent(Join(y))
    ensures |x| == |y| && forall j :: 0 <= j < |x| ==> Normalize(x[j]) == Normalize(y[j])
  {
    hide Normalize, NormalizeContent, Segments;
    ContentLines(x);
    ContentLines(y);
    BaseLinesLength(x);
    BaseLinesLength(y);
    forall j | 0 <= j < |x|
      ensures Normalize(x[j]) == Normalize(y[j])
    {
      NormalizeAllAt(x, j);
      NormalizeAllAt(y, j);
    }
  }

  // ---------------------------------------------------------------- marker lines

  lemma {:induction false} SelectionLineAt(markers: seq<Marker>, line: nat) returns (i: nat)
    requires IsSelectionLine(markers, line)
    ensures i < |markers| && markers[i].mark.kind.Selection? && markers[i].line == line
  {
    if markers[0].mark.kind.Selection? && markers[0].line == line {
      i := 0;
    } else {
      i := SelectionLineAt(markers[1..], line);
      i := i + 1;
    }
  }

  lemma SelectionLineSays(marks: seq<Option<Mark>>, segments: seq<string>, markers: seq<Marker>, line: nat)
    requires IsScanned(marks, segments, markers) && 0 < line <= |segments|
    ensures IsSelectionLine(markers, line)
            <==> marks[line - 1].Some? && marks[line - 1].value.kind.Selection?
  {
    if IsSelectionLine(markers, line) {
      var i := SelectionLineAt(markers, line);
      assert IsMarkerOf(marks, segments, |segments|, markers[i]);
    }
    if marks[line - 1].Some? && marks[line - 1].value.kind.Selection? {
      assert IsMarked(markers, line);
      var i :| 0 <= i < |markers| && markers[i].line == line;
      assert IsMarkerOf(marks, segments, |segments|, markers[i]);
      MarkerLineIsSelection(markers, i);
    }
  }

  lemma DroppedAreSelectionLines(markers: seq<Marker>, x: (nat, nat))
    requires x.0 < |markers|
    ensures forall line :: line in DroppedLines(markers, x) ==> IsSelectionLine(markers, line)
  {
    hide IsSelectionLine;
    var marks := MarksOf(markers);
    forall line | line in DroppedLines(markers, x)
      ensures IsSelectionLine(markers, line)
    {
      var k :| 0 <= k < |markers| && IsChildMark(marks, x, k) && markers[k].line == line;
      var y :| y in Pairs(marks) && marks[y.0].id != marks[x.0].id && Inside(y, x) && (k == y.0 || k == y.1);
      PairJoins(marks, |marks|, y.0, y.1);
      MarkerLineIsSelection(markers, k);
    }
  }

  // ---------------------------------------------------------------- both files

  /** The numbers of the lines of a selection's content. */
  ghost function NumbersIn(file: FileScan, a: nat, b: nat): seq<nat>
    requires IsOrderly(file) && a < b < |file.markers|
  {
    KeptNumbers(file.markers[a].line, file.markers[b].line - 1, DroppedLines(file.markers, (a, b)))
  }

  /** Each nested target of a selection stays at its place among the lines of the content. */
  ghost predicate TargetsStay(registry: seq<Record>, parent: Record, x: FileScan, y: FileScan, a: nat, b: nat)
    requires IsOrderly(x) && IsOrderly(y) && a < b < |x.markers| && b < |y.markers|
  {
    StayInPlace(NestedAt(registry, parent, x, LocationIn(x, a, b)), NumbersIn(x, a, b),
                NestedAt(registry, parent, y, LocationIn(y, a, b)), NumbersIn(y, a, b))
  }

  /** The kept lines of one file. */
  ghost predicate AreKeptLines(file: FileScan, a: nat, b: nat, kept: seq<string>)
    requires IsOrderly(file) && a < b < |file.markers|
  {
    && AreClosed(kept) && AreLinesAt(kept, file.segments, NumbersIn(file, a, b))
    && ContentOf(file.segments, file.markers, (a, b)) == NormalizeContent(Join(kept))
  }

  lemma KeptLinesOf(text: string, file: FileScan, a: nat, b: nat) returns (kept: seq<string>)
    requires IsOrderly(file) && a < b < |file.markers| && file.segments == Segments(text)
    ensures AreKeptLines(file, a, b, kept)
  {
    hide Segments, WellSegmented, NormalizeContent;
    var from, upTo, drop := file.markers[a].line, file.markers[b].line - 1, DroppedLines(file.markers, (a, b));
    kept := KeptSegments(file.segments, from, upTo, drop);
    SegmentsJoin(text);
    KeptAreLines(file.segments, from, upTo, drop);
    KeptAt(file.segments, from, upTo, drop);
    JoinKept(file.segments, from, upTo, drop);
  }

  lemma KeptLineIsAlike(language: Option<CommentSyntax>, marks: seq<Option<Mark>>, x: FileScan, nested: seq<Nested>,
                        marks': seq<Option<Mark>>, y: FileScan, nested': seq<Nested>, line: nat, line': nat)
    requires IsScanned(marks, x.segments, x.markers) && IsScanned(marks', y.segments, y.markers)
    requires 0 < line <= |x.segments| && 0 < line' <= |y.segments|
    requires var u, v := x.segments[line - 1], y.segments[line' - 1];
             && IsSegment(u) && IsClosed(u) && IsSegment(v) && IsClosed(v) && Normalize(u) == Normalize(v)
             && marks[line - 1] == MarkOf(language, u) && marks'[line' - 1] == MarkOf(language, v)
    requires IsInterior(nested, line) == IsInterior(nested', line')
    ensures IsLineAlike(x.segments, x.markers, nested, y.segments, y.markers, nested', line, line')
  {
    hide MarkOf, Normalize, IsScanned, IsSelectionLine, IsInterior;
    SameNormalSameLine(language, x.segments[line - 1], y.segments[line' - 1]);
    SelectionLineSays(marks, x.segments, x.markers, line);
    SelectionLineSays(marks', y.segments, y.markers, line');
  }

  /** The two files, with the marks of their lines. */
  ghost predicate AreScans(language: Option<CommentSyntax>, x: FileScan, y: FileScan) {
    && IsScanned(LineMarks(language, x.segments), x.segments, x.markers)
    && IsScanned(LineMarks(language, y.segments), y.segments, y.markers)
  }

  lemma KeptLinesAreAlike(language: Option<CommentSyntax>, x: FileScan, y: FileScan, a: nat, b: nat,
                          kept: seq<string>, kept': seq<string>, nested: seq<Nested>, nested': seq<Nested>, j: nat)
    requires IsOrderly(x) && IsOrderly(y) && a < b < |x.markers| && b < |y.markers| && AreScans(language, x, y)
    requires AreKeptLines(x, a, b, kept) && AreKeptLines(y, a, b, kept')
    requires |kept| == |kept'| && j < |kept| && Normalize(kept[j]) == Normalize(kept'[j])
    requires StayInPlace(nested, NumbersIn(x, a, b), nested', NumbersIn(y, a, b))
    ensures IsLineAlike(x.segments, x.markers, nested, y.segments, y.markers, nested', NumbersIn(x, a, b)[j],
                        NumbersIn(y, a, b)[j])
  {
    hide MarkOf, Normalize, IsScanned, IsSelectionLine, IsInterior, KeptNumbers, StayInPlace, ContentOf;
    var numbers, numbers' := NumbersIn(x, a, b), NumbersIn(y, a, b);
    KeptNumbersAre(x.markers[a].line, x.markers[b].line - 1, DroppedLines(x.markers, (a, b)));
    KeptNumbersAre(y.markers[a].line, y.markers[b].line - 1, DroppedLines(y.markers, (a, b)));
    InteriorAlike(nested, numbers, nested', numbers', j);
    KeptLineIsAlike(language, LineMarks(language, x.segments), x, nested, LineMarks(language, y.segments), y, nested',
                    numbers[j], numbers'[j]);
  }

  /** With the same content, and targets that stay at their places among its lines, the text outside the targets is the
      same. */
  lemma StayingKeepsOutside(language: Option<CommentSyntax>, before: string, after: string, x: FileScan, y: FileScan,
                            a: nat, b: nat, nested: seq<Nested>, nested': seq<Nested>)
    requires x.segments == Segments(before) && y.segments == Segments(after)
    requires IsOrderly(x) && IsOrderly(y) && a < b < |x.markers| && b < |y.markers| && AreScans(language, x, y)
    requires ContentOf(x.segments, x.markers, (a, b)) == ContentOf(y.segments, y.markers, (a, b))
    requires StayInPlace(nested, NumbersIn(x, a, b), nested', NumbersIn(y, a, b))
    ensures Outside(x.segments, x.markers, nested, x.markers[a].line, x.markers[b].line - 1)
            == Outside(y.segments, y.markers, nested', y.markers[a].line, y.markers[b].line - 1)
  {
    hide Segments, ContentOf, NormalizeContent, Normalize, Outside, OutsideOf, StayInPlace, KeptNumbers, IsScanned,
         IsSelectionLine;
    var kept := KeptLinesOf(before, x, a, b);
    var kept' := KeptLinesOf(after, y, a, b);
    ContentTellsLines(kept, kept');
    forall j | 0 <= j < |kept|
      ensures IsLineAlike(x.segments, x.markers, nested, y.segments, y.markers, nested', NumbersIn(x, a, b)[j],
                          NumbersIn(y, a, b)[j])
    {
      KeptLinesAreAlike(language, x, y, a, b, kept, kept', nested, nested', j);
    }
    OutsideAlike(x.segments, x.markers, nested, y.segments, y.markers, nested', NumbersIn(x, a, b), NumbersIn(y, a, b));
    OutsideOfSelection(x, a, b, nested);
    OutsideOfSelection(y, a, b, nested');
  }

  lemma OutsideOfSelection(file: FileScan, a: nat, b: nat, nested: seq<Nested>)
    requires IsOrderly(file) && a < b < |file.markers|
    ensures Outside(file.segments, file.markers, nested, file.markers[a].line, file.markers[b].line - 1)
            == OutsideOf(file.segments, file.markers, nested, NumbersIn(file, a, b))
  {
    hide Outside, OutsideOf, KeptNumbers, IsSelectionLine;
    DroppedAreSelectionLines(file.markers, (a, b));
    OutsideIsKept(file.segments, file.markers, nested, file.markers[a].line, file.markers[b].line - 1,
                  DroppedLines(file.markers, (a, b)));
  }

  /** A write that leaves the content of a preserved selection alone, and its nested targets at their places among the
      lines of the content, leaves a passing preserve command passing. */
  lemma StayingPasses(language: Option<CommentSyntax>, path: string, before: string, after: string,
                      registry: seq<Record>, parent: Record, available: bool, changed: seq<(nat, nat)>, a: nat, b: nat)
    requires var x, y := ScanFile(language, path, before), ScanFile(language, path, after);
             && IsAllowed(registry, x, y, changed) && JudgeOne(parent.id, MarksOf(x.markers)) == At(a, b)
             && a < b < |x.markers| && b < |y.markers| && TargetsStay(registry, parent, x, y, a, b)
             && LocationIn(x, a, b).content == LocationIn(y, a, b).content
             && JudgePreserve(registry, parent, available, x) == Pass
    ensures JudgePreserve(registry, parent, available, ScanFile(language, path, after)) == Pass
  {
    hide StayInPlace, KeptNumbers, ContentOf, IsScanned, UnchangedExceptNestedTargets, Outside, NestedTargets,
         DroppedLines, MarkOf;
    var x, y := ScanFile(language, path, before), ScanFile(language, path, after);
    var loc, loc' := LocationIn(x, a, b), LocationIn(y, a, b);
    ScansAre(language, path, before);
    ScansAre(language, path, after);
    AllowedKeepsPlace(language, path, before, after, registry, parent, changed, a, b);
    StayingKeepsOutside(language, before, after, x, y, a, b, NestedAt(registry, parent, x, loc),
                        NestedAt(registry, parent, y, loc'));
    SameOutsideSameText(registry, parent, x, y, a, b);
    SameContentPasses(registry, parent, available, x, y, a, b);
  }

  lemma ScansAre(language: Option<CommentSyntax>, path: string, text: string)
    ensures var file := ScanFile(language, path, text);
            && file.segments == Segments(text)
            && IsScanned(LineMarks(language, file.segments), file.segments, file.markers)
  {
    ScanIsOrdered(language, text);
  }

  lemma SameOutsideSameText(registry: seq<Record>, parent: Record, x: FileScan, y: FileScan, a: nat, b: nat)
    requires IsOrderly(x) && IsOrderly(y) && a < b < |x.markers| && b < |y.markers|
    requires ResolveOne(parent.id, x) == Resolved(LocationIn(x, a, b))
             && ResolveOne(parent.id, y) == Resolved(LocationIn(y, a, b))
    requires var n := NestedAt(registry, parent, x, LocationIn(x, a, b));
             var n' := NestedAt(registry, parent, y, LocationIn(y, a, b));
             Outside(x.segments, x.markers, n, x.markers[a].line, x.markers[b].line - 1)
             == Outside(y.segments, y.markers, n', y.markers[a].line, y.markers[b].line - 1)
    ensures OutsideText(registry, parent, x) == OutsideText(registry, parent, y)
  {
    hide ResolveOne, Outside, NestedAt, OutsideText;
    ResolvedPlace(parent.id, x);
    ResolvedPlace(parent.id, y);
    OutsideTextIs(registry, parent, x, LocationIn(x, a, b));
    OutsideTextIs(registry, parent, y, LocationIn(y, a, b));
    SameOutsideNow(x, y, NestedAt(registry, parent, x, LocationIn(x, a, b)),
                   NestedAt(registry, parent, y, LocationIn(y, a, b)), LocationIn(x, a, b), LocationIn(y, a, b));
  }

  lemma OutsideTextIs(registry: seq<Record>, parent: Record, file: FileScan, loc: Location)
    requires IsOrderly(file) && ResolveOne(parent.id, file) == Resolved(loc) && IsPlace(file, loc)
    ensures OutsideText(registry, parent, file) == OutsideNow(file, NestedAt(registry, parent, file, loc), loc)
  {
    hide ResolveOne, OutsideNow, NestedAt;
  }
}
