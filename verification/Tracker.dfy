// src/selection/tracker.rs: where each selection is now, and what it holds.
module Tracker {
  import opened Anchors
  import opened Markers
  import opened Nesting

  /** One scanned file. A scan lists the files that hold markers, each path once. */
  datatype FileScan = FileScan(path: string, segments: seq<string>, markers: seq<Marker>)

  datatype Location = Location(path: string, startLine: int, endLine: int, startOffset: nat, endOffset: nat,
                               content: string, startMarkerLine: nat, endMarkerLine: nat)

  datatype Resolution = Resolved(location: Location) | Unresolved(code: Verdict)

  function MarksOf(markers: seq<Marker>): (marks: seq<Mark>)
    ensures |marks| == |markers| && forall i :: 0 <= i < |marks| ==> marks[i] == markers[i].mark
  {
    seq(|markers|, i requires 0 <= i < |markers| => markers[i].mark)
  }

  function ScanFile(language: Option<CommentSyntax>, path: string, text: string): FileScan {
    FileScan(path, Segments(text), FindMarkers(language, text))
  }

  /** The markers of a file are those of its first n lines, in line order. */
  ghost predicate AreMarkersOf(marks: seq<Option<Mark>>, segments: seq<string>, n: nat, markers: seq<Marker>)
    requires n <= |segments| == |marks|
  {
    && (forall i :: 0 <= i < |markers| ==> IsMarkerOf(marks, segments, n, markers[i]))
    && (forall i, j :: 0 <= i < j < |markers| ==> markers[i].line < markers[j].line)
    && (forall line :: 0 < line <= n && marks[line - 1].Some? ==> IsMarked(markers, line))
  }

  ghost predicate IsMarkerOf(marks: seq<Option<Mark>>, segments: seq<string>, n: nat, marker: Marker)
    requires n <= |segments| == |marks|
  {
    && 0 < marker.line <= n && marks[marker.line - 1] == Some(marker.mark)
    && marker.start == Offset(segments, marker.line - 1) && marker.end == Offset(segments, marker.line)
  }

  ghost predicate IsMarked(markers: seq<Marker>, line: nat) {
    exists i :: 0 <= i < |markers| && markers[i].line == line
  }

  lemma {:induction false} MarkersAreOrdered(marks: seq<Option<Mark>>, segments: seq<string>, n: nat)
    requires n <= |segments| == |marks|
    ensures AreMarkersOf(marks, segments, n, MarkersUpTo(marks, segments, n))
  {
    if n > 0 {
      MarkersAreOrdered(marks, segments, n - 1);
      var before, markers := MarkersUpTo(marks, segments, n - 1), MarkersUpTo(marks, segments, n);
      forall line | 0 < line <= n && marks[line - 1].Some?
        ensures IsMarked(markers, line)
      {
        if line < n {
          assert IsMarked(before, line);
          var i :| 0 <= i < |before| && before[i].line == line;
          assert markers[i].line == line;
        } else {
          assert markers[|before|].line == n;
        }
      }
    }
  }

  lemma ScanIsOrdered(language: Option<CommentSyntax>, text: string)
    ensures AreMarkersOf(LineMarks(language, Segments(text)), Segments(text), |Segments(text)|,
                         FindMarkers(language, text))
  {
    FindMarkersReadsEveryLine(language, text);
    MarkersAreOrdered(LineMarks(language, Segments(text)), Segments(text), |Segments(text)|);
  }

  // ---------------------------------------------------------------- intervals

  function IntervalOf(markers: seq<Marker>, x: (nat, nat)): (string, nat, nat)
    requires x.0 < |markers| && x.1 < |markers|
  {
    (match markers[x.0].mark.id { case Some(id) => id case None => "" }, markers[x.0].line, markers[x.1].line)
  }

  /** The intervals of a file, as a set: nothing depends on their order. */
  ghost predicate AreIntervalsOf(markers: seq<Marker>, n: nat, intervals: seq<(string, nat, nat)>)
    requires n <= |markers|
  {
    var pairs := NestAfter(MarksOf(markers), n).pairs;
    && (forall x :: x in pairs ==> IntervalOf(markers, x) in intervals)
    && (forall i :: 0 <= i < |intervals| ==> IsInterval(markers, pairs, intervals[i]))
  }

  ghost predicate IsInterval(markers: seq<Marker>, pairs: set<(nat, nat)>, interval: (string, nat, nat)) {
    exists x :: x in pairs && x.0 < |markers| && x.1 < |markers| && IntervalOf(markers, x) == interval
  }

  /** The stack the source keeps, of identifiers and lines, for the open markers. */
  ghost predicate IsStackOf(markers: seq<Marker>, open: seq<nat>, stack: seq<(string, nat)>) {
    && |stack| == |open|
    && forall k :: 0 <= k < |open| ==>
         open[k] < |markers| && markers[open[k]].mark.id == Some(stack[k].0) && markers[open[k]].line == stack[k].1
  }

  /** Position just past the last open marker with an identifier, 0 when there is none. */
  method LastOpen(stack: seq<(string, nat)>, id: string) returns (index: nat)
    ensures index <= |stack|
    ensures index > 0 ==> stack[index - 1].0 == id
    ensures forall k :: index <= k < |stack| ==> stack[k].0 != id
  {
    index := |stack|;
    while index > 0 && stack[index - 1].0 != id
      invariant index <= |stack|
      invariant forall k :: index <= k < |stack| ==> stack[k].0 != id
    {
      index := index - 1;
    }
  }

  lemma OneMoreInterval(markers: seq<Marker>, n: nat, intervals: seq<(string, nat, nat)>, x: (nat, nat))
    requires n < |markers| && AreIntervalsOf(markers, n, intervals) && x.0 < |markers| && x.1 < |markers|
    requires NestAfter(MarksOf(markers), n + 1).pairs == NestAfter(MarksOf(markers), n).pairs + {x}
    ensures AreIntervalsOf(markers, n + 1, intervals + [IntervalOf(markers, x)])
  {
    var pairs, pairs' := NestAfter(MarksOf(markers), n).pairs, NestAfter(MarksOf(markers), n + 1).pairs;
    var intervals' := intervals + [IntervalOf(markers, x)];
    forall i | 0 <= i < |intervals'|
      ensures IsInterval(markers, pairs', intervals'[i])
    {
      if i < |intervals| {
        assert IsInterval(markers, pairs, intervals[i]);
        var y :| y in pairs && y.0 < |markers| && y.1 < |markers| && IntervalOf(markers, y) == intervals[i];
        assert y in pairs';
      } else {
        assert x in pairs';
      }
    }
    forall y | y in pairs'
      ensures IntervalOf(markers, y) in intervals'
    {
      assert intervals'[|intervals|] == IntervalOf(markers, x);
    }
  }

  lemma NotAnEvent(markers: seq<Marker>, n: nat, stack: seq<(string, nat)>, intervals: seq<(string, nat, nat)>)
    requires n < |markers| && !IsEvent(markers[n].mark)
    requires IsStackOf(markers, NestAfter(MarksOf(markers), n).open, stack) && AreIntervalsOf(markers, n, intervals)
    ensures IsStackOf(markers, NestAfter(MarksOf(markers), n + 1).open, stack)
    ensures AreIntervalsOf(markers, n + 1, intervals)
  {
    StepNone(MarksOf(markers), n);
  }

  lemma StartOpens(markers: seq<Marker>, n: nat, stack: seq<(string, nat)>, intervals: seq<(string, nat, nat)>)
    requires n < |markers| && IsEvent(markers[n].mark) && markers[n].mark.boundary == Some(Start)
    requires IsStackOf(markers, NestAfter(MarksOf(markers), n).open, stack) && AreIntervalsOf(markers, n, intervals)
    ensures IsStackOf(markers, NestAfter(MarksOf(markers), n + 1).open,
                      stack + [(markers[n].mark.id.value, markers[n].line)])
    ensures AreIntervalsOf(markers, n + 1, intervals)
  {
    StepStart(MarksOf(markers), n);
  }

  lemma StrayEnd(markers: seq<Marker>, n: nat, stack: seq<(string, nat)>, intervals: seq<(string, nat, nat)>)
    requires n < |markers| && IsEvent(markers[n].mark) && markers[n].mark.boundary == Some(End)
    requires IsStackOf(markers, NestAfter(MarksOf(markers), n).open, stack) && AreIntervalsOf(markers, n, intervals)
    requires stack == [] || stack[|stack| - 1].0 != markers[n].mark.id.value
    ensures IsStackOf(markers, NestAfter(MarksOf(markers), n + 1).open, stack)
    ensures AreIntervalsOf(markers, n + 1, intervals)
  {
    StepStray(MarksOf(markers), n);
  }

  lemma EndCloses(markers: seq<Marker>, n: nat, stack: seq<(string, nat)>, intervals: seq<(string, nat, nat)>)
    requires n < |markers| && IsEvent(markers[n].mark) && markers[n].mark.boundary == Some(End)
    requires IsStackOf(markers, NestAfter(MarksOf(markers), n).open, stack) && AreIntervalsOf(markers, n, intervals)
    requires stack != [] && stack[|stack| - 1].0 == markers[n].mark.id.value
    ensures IsStackOf(markers, NestAfter(MarksOf(markers), n + 1).open, stack[..|stack| - 1])
    ensures AreIntervalsOf(markers, n + 1,
                           intervals + [(markers[n].mark.id.value, stack[|stack| - 1].1, markers[n].line)])
  {
    var open := NestAfter(MarksOf(markers), n).open;
    var top := open[|open| - 1];
    StepEnd(MarksOf(markers), n, top);
    OneMoreInterval(markers, n, intervals, (top, n));
  }

  /** The intervals of a file whose markers are in line order; at most one marker is on a line, so
      sorting them by line changes nothing. */
  method SelectionIntervals(markers: seq<Marker>) returns (intervals: seq<(string, nat, nat)>)
    ensures AreIntervalsOf(markers, |markers|, intervals)
  {
    hide NestAfter;
    ghost var marks := MarksOf(markers);
    var stack: seq<(string, nat)> := [];
    intervals := [];
    NoIntervals(markers);
    for n := 0 to |markers|
      invariant IsStackOf(markers, NestAfter(marks, n).open, stack)
      invariant AreIntervalsOf(markers, n, intervals)
    {
      var mark := markers[n].mark;
      if !IsEvent(mark) {
        NotAnEvent(markers, n, stack, intervals);
      } else if mark.boundary.value == Start {
        StartOpens(markers, n, stack, intervals);
        stack := stack + [(mark.id.value, markers[n].line)];
      } else {
        var index := LastOpen(stack, mark.id.value);
        if index > 0 && index == |stack| {
          EndCloses(markers, n, stack, intervals);
          intervals := intervals + [(mark.id.value, stack[index - 1].1, markers[n].line)];
          stack := stack[..index - 1];
        } else {
          StrayEnd(markers, n, stack, intervals);
        }
      }
    }
  }

  lemma NoIntervals(markers: seq<Marker>)
    ensures IsStackOf(markers, NestAfter(MarksOf(markers), 0).open, []) && AreIntervalsOf(markers, 0, [])
  {
  }

  // ---------------------------------------------------------------- content

  /** CRLF becomes LF; everything else is kept. */
  function Normalize(s: string): string {
    if s == "" then ""
    else if s[0] == '\r' && |s| > 1 && s[1] == '\n' then "\n" + Normalize(s[2..])
    else [s[0]] + Normalize(s[1..])
  }

  function NormalizeContent(content: string): string {
    var text := Normalize(content);
    if text != "" && text[|text| - 1] != '\n' then text + "\n" else text
  }

  /** The lines numbered from + 1 to `upTo`, without the dropped ones. */
  function KeepLines(segments: seq<string>, from: nat, upTo: nat, drop: set<nat>): string
    requires from <= upTo <= |segments|
    decreases upTo
  {
    if from == upTo then ""
    else KeepLines(segments, from, upTo - 1, drop) + if upTo in drop then "" else segments[upTo - 1]
  }

  /** Marker k belongs to another selection that lies inside x. */
  ghost predicate IsChildMark(marks: seq<Mark>, x: (nat, nat), k: nat)
    requires x.0 < |marks|
  {
    exists y :: y in Pairs(marks) && marks[y.0].id != marks[x.0].id && Inside(y, x) && (k == y.0 || k == y.1)
  }

  ghost function DroppedLines(markers: seq<Marker>, x: (nat, nat)): set<nat>
    requires x.0 < |markers|
  {
    set k | 0 <= k < |markers| && IsChildMark(MarksOf(markers), x, k) :: markers[k].line
  }

  /** What a selection holds: the lines between its markers without the marker lines of the
      selections inside it. */
  ghost function ContentOf(segments: seq<string>, markers: seq<Marker>, x: (nat, nat)): string
    requires x.0 < |markers| && x.1 < |markers| && markers[x.0].line < markers[x.1].line <= |segments|
  {
    NormalizeContent(KeepLines(segments, markers[x.0].line, markers[x.1].line - 1, DroppedLines(markers, x)))
  }

  lemma {:induction false} KeepAll(segments: seq<string>, from: nat, upTo: nat, drop: set<nat>)
    requires from <= upTo <= |segments| && forall line :: from < line <= upTo ==> line !in drop
    ensures KeepLines(segments, from, upTo, drop) == Join(segments[from..upTo])
    decreases upTo
  {
    if from < upTo {
      KeepAll(segments, from, upTo - 1, drop);
      assert segments[from..upTo] == segments[from..upTo - 1] + [segments[upTo - 1]];
      JoinAppend(segments[from..upTo - 1], [segments[upTo - 1]]);
      assert Join([segments[upTo - 1]]) == segments[upTo - 1];
    } else {
      assert segments[from..upTo] == [];
    }
  }

  lemma {:induction false} KeepAppend(segments: seq<string>, from: nat, mid: nat, upTo: nat, drop: set<nat>)
    requires from <= mid <= upTo <= |segments|
    ensures KeepLines(segments, from, upTo, drop) == KeepLines(segments, from, mid, drop)
            + KeepLines(segments, mid, upTo, drop)
    decreases upTo
  {
    if mid < upTo { KeepAppend(segments, from, mid, upTo - 1, drop); }
  }

  /** Lines moved by a fixed distance, with the same ones dropped, read the same. */
  lemma {:induction false} KeepMoved(segments: seq<string>, from: nat, drop: set<nat>,
                                     segments': seq<string>, from': nat, drop': set<nat>, count: nat)
    requires from + count <= |segments| && from' + count <= |segments'|
    requires segments[from..from + count] == segments'[from'..from' + count]
    requires forall line :: from < line <= from + count ==> (line in drop <==> line - from + from' in drop')
    ensures KeepLines(segments, from, from + count, drop) == KeepLines(segments', from', from' + count, drop')
    decreases count
  {
    if count > 0 {
      SlicesWithoutLast(segments, from, segments', from', count);
      KeepMoved(segments, from, drop, segments', from', drop', count - 1);
      KeepStep(segments, from, from + count, drop);
      KeepStep(segments', from', from' + count, drop');
      hide KeepLines;
      assert from + count in drop <==> from' + count in drop';
    }
  }

  lemma KeepStep(segments: seq<string>, from: nat, upTo: nat, drop: set<nat>)
    requires from < upTo <= |segments|
    ensures KeepLines(segments, from, upTo, drop)
            == KeepLines(segments, from, upTo - 1, drop) + if upTo in drop then "" else segments[upTo - 1]
  {
  }

  lemma SlicesWithoutLast<T>(x: seq<T>, i: nat, y: seq<T>, j: nat, n: nat)
    requires 0 < n && i + n <= |x| && j + n <= |y| && x[i..i + n] == y[j..j + n]
    ensures x[i + n - 1] == y[j + n - 1] && x[i..i + n - 1] == y[j..j + n - 1]
  {
    SliceAt(x, i, y, j, n, n - 1);
    var p, q := x[i..i + n - 1], y[j..j + n - 1];
    forall k | 0 <= k < |p|
      ensures p[k] == q[k]
    {
      SliceAt(x, i, y, j, n, k);
    }
  }

  lemma SliceAt<T>(x: seq<T>, i: nat, y: seq<T>, j: nat, n: nat, k: nat)
    requires k < n && i + n <= |x| && j + n <= |y| && x[i..i + n] == y[j..j + n]
    ensures x[i + k] == y[j + k]
  {
    assert x[i..i + n][k] == y[j..j + n][k];
  }

  /** Marker k is a marker of one of the intervals that lie inside the selection. */
  predicate IsChildMarker(intervals: seq<(string, nat, nat)>, markers: seq<Marker>, start: Marker, end: Marker, k: nat)
    requires k < |markers|
  {
    exists i :: 0 <= i < |intervals| && IsMarkerOfChild(intervals[i], start, end, markers[k])
  }

  predicate IsMarkerOfChild(child: (string, nat, nat), start: Marker, end: Marker, marker: Marker) {
    && Some(child.0) != start.mark.id && start.line < child.1 && child.2 < end.line
    && marker.mark.kind.Selection? && marker.mark.id == Some(child.0)
    && ((marker.mark.boundary == Some(Start) && marker.line == child.1)
        || (marker.mark.boundary == Some(End) && marker.line == child.2))
  }

  ghost predicate AreInOrder(markers: seq<Marker>) {
    forall i, j :: 0 <= i < j < |markers| ==> markers[i].line < markers[j].line
  }

  lemma ChildMarkerIsChildMark(intervals: seq<(string, nat, nat)>, markers: seq<Marker>, x: (nat, nat), k: nat, i: nat)
    requires AreIntervalsOf(markers, |markers|, intervals) && AreInOrder(markers)
    requires x.0 < |markers| && x.1 < |markers| && k < |markers| && i < |intervals|
    requires IsMarkerOfChild(intervals[i], markers[x.0], markers[x.1], markers[k])
    ensures IsChildMark(MarksOf(markers), x, k)
  {
    hide Step;
    var marks := MarksOf(markers);
    assert IsInterval(markers, Pairs(marks), intervals[i]);
    var y :| y in Pairs(marks) && y.0 < |markers| && y.1 < |markers| && IntervalOf(markers, y) == intervals[i];
    PairJoins(marks, |marks|, y.0, y.1);
    assert Inside(y, x);
    assert k == y.0 || k == y.1;
  }

  lemma ChildMarkIsChildMarker(intervals: seq<(string, nat, nat)>, markers: seq<Marker>, x: (nat, nat), k: nat,
                               y: (nat, nat))
    requires AreIntervalsOf(markers, |markers|, intervals) && AreInOrder(markers)
    requires x.0 < |markers| && x.1 < |markers| && k < |markers|
    requires y in Pairs(MarksOf(markers)) && markers[y.0].mark.id != markers[x.0].mark.id && Inside(y, x)
    requires k == y.0 || k == y.1
    ensures IsChildMarker(intervals, markers, markers[x.0], markers[x.1], k)
  {
    PairJoins(MarksOf(markers), |markers|, y.0, y.1);
    assert IntervalOf(markers, y) in intervals;
    var i :| 0 <= i < |intervals| && intervals[i] == IntervalOf(markers, y);
    assert IsMarkerOfChild(intervals[i], markers[x.0], markers[x.1], markers[k]);
  }

  lemma ChildMarkers(intervals: seq<(string, nat, nat)>, markers: seq<Marker>, x: (nat, nat), k: nat)
    requires AreIntervalsOf(markers, |markers|, intervals) && AreInOrder(markers)
    requires x.0 < |markers| && x.1 < |markers| && k < |markers|
    ensures IsChildMarker(intervals, markers, markers[x.0], markers[x.1], k) <==> IsChildMark(MarksOf(markers), x, k)
  {
    hide AreIntervalsOf, MarksOf;
    if IsChildMarker(intervals, markers, markers[x.0], markers[x.1], k) {
      var i :| 0 <= i < |intervals| && IsMarkerOfChild(intervals[i], markers[x.0], markers[x.1], markers[k]);
      ChildMarkerIsChildMark(intervals, markers, x, k, i);
    }
    if IsChildMark(MarksOf(markers), x, k) {
      var y :| y in Pairs(MarksOf(markers)) && MarksOf(markers)[y.0].id != MarksOf(markers)[x.0].id && Inside(y, x)
               && (k == y.0 || k == y.1);
      ChildMarkIsChildMarker(intervals, markers, x, k, y);
    }
  }

  /** The lines between two markers up to line `done`, put together so far up to line `copied`. */
  ghost predicate IsProjected(text: string, segments: seq<string>, drop: set<nat>, from: nat, copied: nat, done: nat,
                              raw: string, offset: nat)
  {
    && from <= copied <= done <= |segments| && text == Join(segments)
    && offset == Offset(segments, copied) && raw == KeepLines(segments, from, copied, drop)
    && forall line :: copied < line <= done ==> line !in drop
  }

  /** Copy the lines up to a dropped one. */
  lemma ProjectUpTo(text: string, segments: seq<string>, drop: set<nat>, from: nat, copied: nat, done: nat,
                    raw: string, offset: nat)
    requires IsProjected(text, segments, drop, from, copied, done, raw, offset)
    ensures offset <= Offset(segments, done) <= |text|
    ensures raw + text[offset..Offset(segments, done)] == KeepLines(segments, from, done, drop)
  {
    JoinSlice(segments, copied, done);
    KeepAll(segments, copied, done, drop);
    KeepAppend(segments, from, copied, done, drop);
  }

  /** The last line before marker k, within the selection. */
  ghost function Progress(markers: seq<Marker>, a: nat, b: nat, k: nat): nat
    requires a < b < |markers| && k <= |markers| && AreInOrder(markers)
  {
    if k <= a then markers[a].line
    else
      var m := if k < b then k else b;
      assert markers[a].line < markers[m].line;
      markers[m].line - 1
  }

  /** Between two neighbouring markers no line is dropped, except the first of them if it is a child. */
  lemma NextProgress(markers: seq<Marker>, a: nat, b: nat, k: nat)
    requires a < b < |markers| && k < |markers| && AreInOrder(markers)
    ensures Progress(markers, a, b, k) <= Progress(markers, a, b, k + 1) < markers[b].line
    ensures forall line ::
              Progress(markers, a, b, k) < line <= Progress(markers, a, b, k + 1)
              && line in DroppedLines(markers, (a, b)) ==>
                IsChildMark(MarksOf(markers), (a, b), k) && line == markers[k].line
    ensures IsChildMark(MarksOf(markers), (a, b), k) ==>
              && a < k < b && Progress(markers, a, b, k) == markers[k].line - 1
              && markers[k].line <= Progress(markers, a, b, k + 1)
              && markers[k].line in DroppedLines(markers, (a, b))
  {
    hide Pairs;
    var drop := DroppedLines(markers, (a, b));
    forall line | Progress(markers, a, b, k) < line <= Progress(markers, a, b, k + 1) && line in drop
      ensures IsChildMark(MarksOf(markers), (a, b), k) && line == markers[k].line
    {
      var m :| 0 <= m < |markers| && IsChildMark(MarksOf(markers), (a, b), m) && markers[m].line == line;
      assert a < m < b;
    }
  }

  lemma CopyChild(text: string, segments: seq<string>, drop: set<nat>, from: nat, copied: nat, line: nat,
                  raw: string, offset: nat)
    requires 0 < line <= |segments| && IsProjected(text, segments, drop, from, copied, line - 1, raw, offset)
             && line in drop
    ensures offset <= Offset(segments, line - 1) <= |text|
    ensures IsProjected(text, segments, drop, from, line, line, raw + text[offset..Offset(segments, line - 1)],
                        Offset(segments, line))
  {
    ProjectUpTo(text, segments, drop, from, copied, line - 1, raw, offset);
  }

  ghost predicate IsScanned(marks: seq<Option<Mark>>, segments: seq<string>, markers: seq<Marker>) {
    |marks| == |segments| && AreMarkersOf(marks, segments, |segments|, markers)
  }

  /** What the loop has put together when it reaches marker k. */
  ghost predicate IsProjectedTo(text: string, segments: seq<string>, markers: seq<Marker>, a: nat, b: nat, k: nat,
                                copied: nat, raw: string, offset: nat)
    requires a < b < |markers| && k <= |markers| && AreInOrder(markers)
  {
    IsProjected(text, segments, DroppedLines(markers, (a, b)), markers[a].line, copied, Progress(markers, a, b, k), raw,
                offset)
  }

  lemma ProjectStep(text: string, segments: seq<string>, marks: seq<Option<Mark>>, markers: seq<Marker>, a: nat, b: nat,
                    k: nat, copied: nat, raw: string, offset: nat)
    requires IsScanned(marks, segments, markers) && a < b < |markers| && k < |markers|
    requires IsProjectedTo(text, segments, markers, a, b, k, copied, raw, offset)
    ensures !IsChildMark(MarksOf(markers), (a, b), k) ==>
              IsProjectedTo(text, segments, markers, a, b, k + 1, copied, raw, offset)
    ensures IsChildMark(MarksOf(markers), (a, b), k) ==>
              && offset <= markers[k].start <= |text| && markers[k].end <= markers[b].start
              && IsProjectedTo(text, segments, markers, a, b, k + 1, markers[k].line,
                               raw + text[offset..markers[k].start], markers[k].end)
  {
    hide Progress, Join, IsChildMark;
    NextProgress(markers, a, b, k);
    assert IsMarkerOf(marks, segments, |segments|, markers[k]) && IsMarkerOf(marks, segments, |segments|, markers[b]);
    if IsChildMark(MarksOf(markers), (a, b), k) {
      CopyChild(text, segments, DroppedLines(markers, (a, b)), markers[a].line, copied, markers[k].line, raw, offset);
      JoinSlice(segments, markers[k].line, markers[b].line - 1);
    }
  }

  /** The content between two matched markers, without the marker lines inside it. The source
      collects the offsets of those lines and sorts them; the markers are in that order already. */
  method ProjectedContent(text: string, markers: seq<Marker>, a: nat, b: nat, intervals: seq<(string, nat, nat)>,
                          ghost segments: seq<string>, ghost marks: seq<Option<Mark>>)
    returns (content: string)
    requires IsScanned(marks, segments, markers) && text == Join(segments)
    requires AreIntervalsOf(markers, |markers|, intervals) && a < b < |markers|
    ensures content == ContentOf(segments, markers, (a, b))
  {
    ghost var copied := markers[a].line;
    assert IsMarkerOf(marks, segments, |segments|, markers[a]) && IsMarkerOf(marks, segments, |segments|, markers[b]);
    var raw := "";
    var offset := markers[a].end;
    for k := 0 to |markers|
      invariant IsProjectedTo(text, segments, markers, a, b, k, copied, raw, offset)
    {
      ChildMarkers(intervals, markers, (a, b), k);
      ProjectStep(text, segments, marks, markers, a, b, k, copied, raw, offset);
      if IsChildMarker(intervals, markers, markers[a], markers[b], k)
         && markers[k].start >= offset && markers[k].end <= markers[b].start {
        raw := raw + text[offset..markers[k].start];
        offset := markers[k].end;
        copied := markers[k].line;
      }
    }
    ProjectUpTo(text, segments, DroppedLines(markers, (a, b)), markers[a].line, copied, markers[b].line - 1, raw,
                offset);
    raw := raw + text[offset..markers[b].start];
    content := NormalizeContent(raw);
  }

  // ---------------------------------------------------------------- resolving

  ghost predicate IsOrderly(file: FileScan) {
    AreInOrder(file.markers) && forall i :: 0 <= i < |file.markers| ==> 0 < file.markers[i].line <= |file.segments|
  }

  function MarksOfAll(scan: seq<FileScan>): (files: seq<seq<Mark>>)
    ensures |files| == |scan| && forall f :: 0 <= f < |scan| ==> files[f] == MarksOf(scan[f].markers)
  {
    seq(|scan|, f requires 0 <= f < |scan| => MarksOf(scan[f].markers))
  }

  ghost function LocationIn(file: FileScan, a: nat, b: nat): Location
    requires IsOrderly(file) && a < b < |file.markers|
  {
    var start, end := file.markers[a], file.markers[b];
    Location(file.path, start.line + 1, end.line - 1, start.end, end.start,
             ContentOf(file.segments, file.markers, (a, b)), start.line, end.line)
  }

  ghost function Resolve(id: string, scan: seq<FileScan>): Resolution
    requires forall f :: 0 <= f < |scan| ==> IsOrderly(scan[f])
  {
    var verdict := Judge(id, MarksOfAll(scan));
    if verdict.At? then
      var file := scan[HitFile(id, MarksOfAll(scan))];
      JudgeIsInBounds(id, MarksOfAll(scan));
      Resolved(LocationIn(file, verdict.start, verdict.end))
    else Unresolved(verdict)
  }

  lemma JudgeIsInBounds(id: string, files: seq<seq<Mark>>)
    requires Judge(id, files).At?
    ensures Judge(id, files).start < Judge(id, files).end < |files[HitFile(id, files)]|
  {
    var f := HitFile(id, files);
    ResolvesIff(id, files[f], Judge(id, files).start, Judge(id, files).end);
  }

  lemma ScanFileIsOrderly(language: Option<CommentSyntax>, path: string, text: string)
    ensures IsOrderly(ScanFile(language, path, text))
  {
    ScanIsOrdered(language, text);
    var marks, segments := LineMarks(language, Segments(text)), Segments(text);
    forall i | 0 <= i < |FindMarkers(language, text)|
      ensures 0 < FindMarkers(language, text)[i].line <= |segments|
    {
      assert IsMarkerOf(marks, segments, |segments|, FindMarkers(language, text)[i]);
    }
  }

  /** One file, given by its lines. */
  ghost function ResolveOne(id: string, file: FileScan): Resolution
    requires IsOrderly(file)
  {
    var verdict := JudgeOne(id, MarksOf(file.markers));
    if verdict.At? then
      ResolvesIff(id, MarksOf(file.markers), verdict.start, verdict.end);
      Resolved(LocationIn(file, verdict.start, verdict.end))
    else Unresolved(verdict)
  }

  /** A selection resolves in a scan as it does in the one file that holds its identifier. */
  lemma ResolveIsLocal(id: string, scan: seq<FileScan>, f: nat)
    requires f < |scan| && forall g :: 0 <= g < |scan| ==> IsOrderly(scan[g])
    requires HasHit(id, MarksOf(scan[f].markers))
    ensures (forall g :: 0 <= g < |scan| && g != f ==> !HasHit(id, MarksOf(scan[g].markers))) ==>
              Resolve(id, scan) == ResolveOne(id, scan[f])
    ensures Resolve(id, scan).Resolved? ==>
              Resolve(id, scan) == ResolveOne(id, scan[f])
              && forall g :: 0 <= g < |scan| && g != f ==> !HasHit(id, MarksOf(scan[g].markers))
  {
    var files := MarksOfAll(scan);
    ResolvesInOneFile(id, files, f);
  }

  // ---------------------------------------------------------------- the markers of a file are determined

  lemma {:induction false} MarkersAreUnique(marks: seq<Option<Mark>>, segments: seq<string>, n: nat,
                                            x: seq<Marker>, y: seq<Marker>)
    requires n <= |segments| == |marks|
    requires AreMarkersOf(marks, segments, n, x) && AreMarkersOf(marks, segments, n, y)
    ensures x == y
    decreases n
  {
    hide Offset;
    if x != [] || y != [] {
      var marker := if x != [] then x[0] else y[0];
      assert IsMarkerOf(marks, segments, n, marker);
      LastMarker(marks, segments, n, x);
      LastMarker(marks, segments, n, y);
      if marks[n - 1].Some? {
        MarkersAreUnique(marks, segments, n - 1, x[..|x| - 1], y[..|y| - 1]);
        assert x == x[..|x| - 1] + [x[|x| - 1]] && y == y[..|y| - 1] + [y[|y| - 1]];
      } else {
        MarkersAreUnique(marks, segments, n - 1, x, y);
      }
    }
  }

  lemma LastMarker(marks: seq<Option<Mark>>, segments: seq<string>, n: nat, x: seq<Marker>)
    requires 0 < n <= |segments| == |marks| && AreMarkersOf(marks, segments, n, x)
    ensures marks[n - 1].Some? ==>
              && x != []
              && x[|x| - 1] == Marker(marks[n - 1].value, n, Offset(segments, n - 1), Offset(segments, n))
              && AreMarkersOf(marks, segments, n - 1, x[..|x| - 1])
    ensures marks[n - 1].None? ==> AreMarkersOf(marks, segments, n - 1, x)
  {
    hide Offset;
    var k := if marks[n - 1].Some? then |x| - 1 else |x|;
    if marks[n - 1].Some? {
      assert IsMarked(x, n);
      var i :| 0 <= i < |x| && x[i].line == n;
      assert IsMarkerOf(marks, segments, n, x[|x| - 1]);
      assert i == |x| - 1;
    }
    var rest := x[..k];
    forall i | 0 <= i < |rest|
      ensures IsMarkerOf(marks, segments, n - 1, rest[i])
    {
      assert IsMarkerOf(marks, segments, n, x[i]);
    }
    forall line | 0 < line <= n - 1 && marks[line - 1].Some?
      ensures IsMarked(rest, line)
    {
      assert IsMarked(x, line);
      var i :| 0 <= i < |x| && x[i].line == line;
      assert rest[i].line == line;
    }
    assert marks[n - 1].None? ==> rest == x;
  }
}
