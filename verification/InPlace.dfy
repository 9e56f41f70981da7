// A write that changes lines where they are: when a passing preserve command still passes, line by line. It covers the
// writes that only targets with malformed markers excuse, and does not ask what the guard says.
module InPlace {
  import opened Anchors
  import opened Markers
  import opened Nesting
  import opened Tracker
  import opened Guard
  import opened Verify
  import opened Surroundings
  import opened Alignment
  import opened Preserving
  import Places

  /** What the verifier reads of a line: its text, without a carriage return that is left at its end. */
  function Reading(segment: string): string { Chop(Content(segment)) }

  // ---------------------------------------------------------------- the lines outside

  /** The lines outside, each with a newline. */
  function OutsideLines(segments: seq<string>, markers: seq<Marker>, nested: seq<Nested>, from: nat, upTo: nat)
    : seq<string>
    requires from <= upTo <= |segments|
    decreases upTo
  {
    if from == upTo then []
    else OutsideLines(segments, markers, nested, from, upTo - 1)
         + if IsLeftOut(markers, nested, upTo) then [] else [Content(segments[upTo - 1]) + "\n"]
  }

  lemma NoLinesOutside(segments: seq<string>, markers: seq<Marker>, nested: seq<Nested>, from: nat)
    requires from <= |segments|
    ensures OutsideLines(segments, markers, nested, from, from) == []
  {
  }

  lemma OutsideLinesStep(segments: seq<string>, markers: seq<Marker>, nested: seq<Nested>, from: nat, upTo: nat)
    requires from < upTo <= |segments|
    ensures OutsideLines(segments, markers, nested, from, upTo)
            == if IsLeftOut(markers, nested, upTo) then OutsideLines(segments, markers, nested, from, upTo - 1)
               else OutsideLines(segments, markers, nested, from, upTo - 1) + [Content(segments[upTo - 1]) + "\n"]
  {
    hide IsLeftOut, Content;
  }

  lemma ContentIsOneLine(segment: string)
    requires IsSegment(segment)
    ensures IsOneLine(Content(segment)) && IsSegment(Content(segment) + "\n") && IsClosed(Content(segment) + "\n")
  {
  }

  lemma {:induction false} OutsideIsJoin(segments: seq<string>, markers: seq<Marker>, nested: seq<Nested>, from: nat,
                                         upTo: nat)
    requires from <= upTo <= |segments| && WellSegmented(segments)
    ensures Outside(segments, markers, nested, from, upTo) == Join(OutsideLines(segments, markers, nested, from, upTo))
    ensures AreClosed(OutsideLines(segments, markers, nested, from, upTo))
    decreases upTo
  {
    hide IsLeftOut, Content, Join;
    if from == upTo {
      NothingJoined();
    } else {
      var lines := OutsideLines(segments, markers, nested, from, upTo - 1);
      var line := Content(segments[upTo - 1]) + "\n";
      OutsideIsJoin(segments, markers, nested, from, upTo - 1);
      if IsLeftOut(markers, nested, upTo) {
        assert lines + [] == lines && Join(lines) + "" == Join(lines);
      } else {
        ContentIsOneLine(segments[upTo - 1]);
        JoinAppend(lines, [line]);
        OneJoined(line);
      }
    }
  }

  lemma NothingJoined()
    ensures Join([]) == ""
  {
  }

  lemma OneJoined(line: string)
    ensures Join([line]) == line
  {
    assert [line][1..] == [] && line + "" == line;
  }

  /** Contents are equal exactly when their lines are, normalized. */
  lemma ContentsAreLines(x: seq<string>, y: seq<string>)
    requires AreClosed(x) && AreClosed(y)
    ensures NormalizeContent(Join(x)) == NormalizeContent(Join(y))
            <==> |x| == |y| && forall j :: 0 <= j < |x| ==> Normalize(x[j]) == Normalize(y[j])
  {
    hide Normalize, NormalizeContent, Join, AreClosed;
    if NormalizeContent(Join(x)) == NormalizeContent(Join(y)) {
      Places.ContentTellsLines(x, y);
    }
    if |x| == |y| && forall j :: 0 <= j < |x| ==> Normalize(x[j]) == Normalize(y[j]) {
      LinesGiveContent(x, y);
    }
  }

  lemma LinesGiveContent(x: seq<string>, y: seq<string>)
    requires AreClosed(x) && AreClosed(y) && |x| == |y|
    requires forall j :: 0 <= j < |x| ==> Normalize(x[j]) == Normalize(y[j])
    ensures NormalizeContent(Join(x)) == NormalizeContent(Join(y))
  {
    hide Normalize, NormalizeContent, NormalizeAll, Join, AreClosed;
    NormalizeJoin(x);
    NormalizeJoin(y);
    SameNormalized(x, y);
    SameNormalSameContent(Join(x), Join(y));
  }

  lemma SameNormalSameContent(x: string, y: string)
    requires Normalize(x) == Normalize(y)
    ensures NormalizeContent(x) == NormalizeContent(y)
  {
    hide Normalize;
  }

  lemma SameNormalized(x: seq<string>, y: seq<string>)
    requires |x| == |y| && forall j :: 0 <= j < |x| ==> Normalize(x[j]) == Normalize(y[j])
    ensures NormalizeAll(x) == NormalizeAll(y)
  {
    hide Normalize;
    forall j | 0 <= j < |x|
      ensures |NormalizeAll(x)| == |NormalizeAll(y)| == |x| && NormalizeAll(x)[j] == NormalizeAll(y)[j]
    {
      Places.NormalizeAllAt(x, j);
      Places.NormalizeAllAt(y, j);
    }
  }

  // ---------------------------------------------------------------- two files, line by line

  predicate ReadsTheSame(x: seq<string>, y: seq<string>, line: nat) {
    0 < line <= |x| && 0 < line <= |y| && Reading(x[line - 1]) == Reading(y[line - 1])
  }

  /** Every line from + 1 .. upTo outside reads the same in both files. */
  ghost predicate ReadTheSame(x: seq<string>, y: seq<string>, markers: seq<Marker>, nested: seq<Nested>, from: nat,
                              upTo: nat) {
    forall line :: from < line <= upTo && !IsLeftOut(markers, nested, line) ==> ReadsTheSame(x, y, line)
  }

  lemma SameReading(x: string, y: string)
    requires IsSegment(x) && IsSegment(y)
    ensures Normalize(Content(x) + "\n") == Normalize(Content(y) + "\n") <==> Reading(x) == Reading(y)
  {
    hide Normalize, Content, Chop;
    ContentIsOneLine(x);
    ContentIsOneLine(y);
    NormalizeLine(Content(x));
    NormalizeLine(Content(y));
    SameEnding(Reading(x), Reading(y));
  }

  /** The same lines are left out of both files, so the lines outside pair up. */
  lemma {:induction false} LinesPairUp(x: seq<string>, y: seq<string>, markers: seq<Marker>, markers': seq<Marker>,
                                       nested: seq<Nested>, from: nat, upTo: nat)
    requires from <= upTo <= |x| && |x| == |y| && WellSegmented(x) && WellSegmented(y)
    requires forall line :: from < line <= upTo ==>
               IsLeftOut(markers, nested, line) == IsLeftOut(markers', nested, line)
    ensures var p, q := OutsideLines(x, markers, nested, from, upTo), OutsideLines(y, markers', nested, from, upTo);
            && |p| == |q|
            && ((forall j :: 0 <= j < |p| ==> Normalize(p[j]) == Normalize(q[j]))
                <==> ReadTheSame(x, y, markers, nested, from, upTo))
    decreases upTo
  {
    hide OutsideLines, IsLeftOut, Normalize, Content, ReadsTheSame, ReadTheSame, WellSegmented;
    if from == upTo {
      NoLinesOutside(x, markers, nested, from);
      NoLinesOutside(y, markers', nested, from);
      NoneToRead(x, y, markers, nested, from);
    } else {
      OutsideLinesStep(x, markers, nested, from, upTo);
      OutsideLinesStep(y, markers', nested, from, upTo);
      var p, q := OutsideLines(x, markers, nested, from, upTo - 1), OutsideLines(y, markers', nested, from, upTo - 1);
      LinesPairUp(x, y, markers, markers', nested, from, upTo - 1);
      OneMoreToRead(x, y, markers, nested, from, upTo);
      if !IsLeftOut(markers, nested, upTo) {
        var u, v := Content(x[upTo - 1]) + "\n", Content(y[upTo - 1]) + "\n";
        LineReads(x, y, upTo);
        OneMorePair(p, u, q, v);
      }
    }
  }

  lemma LineReads(x: seq<string>, y: seq<string>, line: nat)
    requires 0 < line <= |x| && |x| == |y| && WellSegmented(x) && WellSegmented(y)
    ensures Normalize(Content(x[line - 1]) + "\n") == Normalize(Content(y[line - 1]) + "\n")
            <==> ReadsTheSame(x, y, line)
  {
    hide Normalize, Content, Reading;
    SameReading(x[line - 1], y[line - 1]);
  }

  lemma NoneToRead(x: seq<string>, y: seq<string>, markers: seq<Marker>, nested: seq<Nested>, from: nat)
    ensures ReadTheSame(x, y, markers, nested, from, from)
  {
  }

  lemma OneMoreToRead(x: seq<string>, y: seq<string>, markers: seq<Marker>, nested: seq<Nested>, from: nat, upTo: nat)
    requires from < upTo
    ensures ReadTheSame(x, y, markers, nested, from, upTo)
            <==> ReadTheSame(x, y, markers, nested, from, upTo - 1)
                 && (IsLeftOut(markers, nested, upTo) || ReadsTheSame(x, y, upTo))
  {
    hide IsLeftOut, ReadsTheSame;
  }

  lemma OneMorePair(p: seq<string>, u: string, q: seq<string>, v: string)
    requires |p| == |q|
    ensures (forall j :: 0 <= j < |p + [u]| ==> Normalize((p + [u])[j]) == Normalize((q + [v])[j]))
            <==> (forall j :: 0 <= j < |p| ==> Normalize(p[j]) == Normalize(q[j])) && Normalize(u) == Normalize(v)
  {
    hide Normalize;
    var a, b := p + [u], q + [v];
    assert a[|p|] == u && b[|p|] == v;
    assert forall j :: 0 <= j < |p| ==> a[j] == p[j] && b[j] == q[j];
  }

  // ---------------------------------------------------------------- the same markers on the same lines

  /** As many lines, and the same markers on the same lines. */
  ghost predicate IsInPlace(x: FileScan, y: FileScan) {
    |x.segments| == |y.segments| && HaveSameLines(x.markers, y.markers)
  }

  predicate HaveSameLines(x: seq<Marker>, y: seq<Marker>) {
    |x| == |y| && forall i :: 0 <= i < |x| ==> x[i].mark == y[i].mark && x[i].line == y[i].line
  }

  lemma {:induction false} SameSelectionLines(x: seq<Marker>, y: seq<Marker>, line: nat)
    requires HaveSameLines(x, y)
    ensures IsSelectionLine(x, line) == IsSelectionLine(y, line)
  {
    if x != [] { SameSelectionLines(x[1..], y[1..], line); }
  }

  lemma SameMarks(x: seq<Marker>, y: seq<Marker>)
    requires HaveSameLines(x, y)
    ensures MarksOf(x) == MarksOf(y)
  {
  }

  lemma {:induction false} SameNested(registry: seq<Record>, parent: Record, loc: Location, loc': Location,
                                      x: seq<Marker>, y: seq<Marker>, a: nat, b: nat)
    requires AreSamePlace(loc, loc', x, y, a, b) && HaveSameLines(x, y)
    ensures NestedTargets(registry, parent, loc, x) == NestedTargets(registry, parent, loc', y)
    decreases |registry|
  {
    hide ChildAt, AreSamePlace;
    if registry != [] {
      SameNested(registry[..|registry| - 1], parent, loc, loc', x, y, a, b);
      ChildStays(registry[|registry| - 1], loc, loc', x, y, a, b);
    }
  }

  // ---------------------------------------------------------------- when the command still passes

  /** The comparison outside the nested targets passes after a change in place exactly when it passed before and every
      line outside them reads the same. */
  lemma OutsideInPlace(registry: seq<Record>, parent: Record, available: bool, x: FileScan, y: FileScan, a: nat, b: nat)
    requires IsOrderly(x) && IsOrderly(y) && a < b < |x.markers| && IsInPlace(x, y)
    requires WellSegmented(x.segments) && WellSegmented(y.segments)
    requires UnchangedExceptNestedTargets(registry, parent, available, x, LocationIn(x, a, b))
    ensures UnchangedExceptNestedTargets(registry, parent, available, y, LocationIn(y, a, b))
            <==> ReadTheSame(x.segments, y.segments, x.markers, NestedAt(registry, parent, x, LocationIn(x, a, b)),
                             x.markers[a].line, x.markers[b].line - 1)
  {
    hide NestedTargets, OutsideThen, Outside, OutsideLines, NormalizeContent, WellSegmented, IsLeftOut, ReadTheSame,
         Normalize, Join;
    var loc, loc', from, upTo := LocationIn(x, a, b), LocationIn(y, a, b), x.markers[a].line, x.markers[b].line - 1;
    var nested := NestedAt(registry, parent, x, loc);
    SameMarks(x.markers, y.markers);
    SameNested(registry, parent, loc, loc', x.markers, y.markers, a, b);
    LinesInOrder(x.markers, a, b);
    forall line | from < line <= upTo
      ensures IsLeftOut(x.markers, nested, line) == IsLeftOut(y.markers, nested, line)
    {
      SameLeftOut(x.markers, y.markers, nested, line);
    }
    SameTextsOutside(x, y, nested, from, upTo);
  }

  lemma SameLeftOut(x: seq<Marker>, y: seq<Marker>, nested: seq<Nested>, line: nat)
    requires HaveSameLines(x, y)
    ensures IsLeftOut(x, nested, line) == IsLeftOut(y, nested, line)
  {
    SameSelectionLines(x, y, line);
  }

  lemma SameTextsOutside(x: FileScan, y: FileScan, nested: seq<Nested>, from: nat, upTo: nat)
    requires from <= upTo <= |x.segments| && |x.segments| == |y.segments|
    requires WellSegmented(x.segments) && WellSegmented(y.segments)
    requires forall line :: from < line <= upTo ==>
               IsLeftOut(x.markers, nested, line) == IsLeftOut(y.markers, nested, line)
    ensures NormalizeContent(Outside(x.segments, x.markers, nested, from, upTo))
            == NormalizeContent(Outside(y.segments, y.markers, nested, from, upTo))
            <==> ReadTheSame(x.segments, y.segments, x.markers, nested, from, upTo)
  {
    hide Outside, OutsideLines, NormalizeContent, WellSegmented, IsLeftOut, ReadTheSame, Normalize, Join, AreClosed;
    OutsideIsJoin(x.segments, x.markers, nested, from, upTo);
    OutsideIsJoin(y.segments, y.markers, nested, from, upTo);
    ContentsAreLines(OutsideLines(x.segments, x.markers, nested, from, upTo),
                     OutsideLines(y.segments, y.markers, nested, from, upTo));
    LinesPairUp(x.segments, y.segments, x.markers, y.markers, nested, from, upTo);
  }

  /** A preserve command that passes for a selection that has changed since its checkpoint still passes after a change
      in place exactly when every line of the selection outside its nested targets reads the same, or the selection
      holds its checkpoint content again. */
  lemma InPlacePasses(language: Option<CommentSyntax>, path: string, before: string, after: string,
                      registry: seq<Record>, parent: Record, available: bool, a: nat, b: nat)
    requires var x, y := ScanFile(language, path, before), ScanFile(language, path, after);
             && IsOrderly(x) && IsOrderly(y) && IsInPlace(x, y) && JudgeOne(parent.id, MarksOf(x.markers)) == At(a, b)
             && a < b < |x.markers| && JudgePreserve(registry, parent, available, x) == Pass
             && LocationIn(x, a, b).content != parent.origin.content
    ensures var x, y := ScanFile(language, path, before), ScanFile(language, path, after);
            JudgePreserve(registry, parent, available, y) == Pass
            <==> LocationIn(y, a, b).content == parent.origin.content
                 || ReadTheSame(x.segments, y.segments, x.markers, NestedAt(registry, parent, x, LocationIn(x, a, b)),
                                x.markers[a].line, x.markers[b].line - 1)
  {
    hide UnchangedExceptNestedTargets, ReadTheSame, FindMarkers, JudgeOne, NestedAt, ContentOf, Segments;
    var x, y := ScanFile(language, path, before), ScanFile(language, path, after);
    SegmentsJoin(before);
    SegmentsJoin(after);
    SameMarks(x.markers, y.markers);
    SameMarksSamePlace(parent.id, x, y, a, b);
    OutsideInPlace(registry, parent, available, x, y, a, b);
  }
}
