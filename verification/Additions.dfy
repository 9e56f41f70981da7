// Adding or deleting lines without markers outside a selection: its lines move, its verdict and its
// content stay. Deleting is adding the other way round.
module Additions {
  import opened Anchors
  import opened Markers
  import opened Nesting
  import opened Tracker
  import opened Surroundings

  /** y is x with some lines without markers after the first p lines. */
  ghost predicate AreAdded(language: Option<CommentSyntax>, x: seq<string>, y: seq<string>, p: nat, count: nat) {
    && p <= |x| && |y| == |x| + count
    && (forall i {:trigger IsLine(i)} :: 0 <= i < p && IsLine(i) ==> y[i] == x[i])
    && (forall i {:trigger IsLine(i)} :: p <= i < |x| && IsLine(i) ==> y[i + count] == x[i])
    && (forall i {:trigger IsLine(i)} :: p <= i < p + count && IsLine(i) ==> MarkOf(language, y[i]).None?)
  }

  function Moved(p: nat, count: nat, line: nat): nat { if line <= p then line else line + count }

  lemma {:induction false} NoMarkLines(marks: seq<Option<Mark>>, lo: nat, hi: nat)
    requires lo <= hi <= |marks| && forall k :: lo <= k < hi ==> marks[k].None?
    ensures MarkLines(marks, lo, hi) == []
    decreases hi
  {
    if lo < hi { NoMarkLines(marks, lo, hi - 1); }
  }

  lemma TwoParts(u: seq<nat>, v: seq<nat>, u': seq<nat>, v': seq<nat>, all: seq<nat>, all': seq<nat>, p: nat,
                 count: nat)
    requires all == u + v && all' == u' + v'
    requires AreBetweenLines(u, 0, p) && IsTranslate(u, u', 0, 0) && IsTranslate(v, v', p, p + count)
    ensures AreShifted(all, all', p, count)
  {
  }

  ghost predicate AreShifted(all: seq<nat>, all': seq<nat>, p: nat, count: nat) {
    |all'| == |all| && forall i :: 0 <= i < |all| ==> all'[i] == Moved(p, count, all[i])
  }

  lemma MarkLinesAdded(marks: seq<Option<Mark>>, marks': seq<Option<Mark>>, p: nat, count: nat)
    requires p <= |marks| && |marks'| == |marks| + count
    requires AreMoved(marks, marks', 0, 0, p) && AreMoved(marks, marks', p, p + count, |marks| - p)
    requires forall k :: p <= k < p + count ==> marks'[k].None?
    ensures AreShifted(MarkLines(marks, 0, |marks|), MarkLines(marks', 0, |marks'|), p, count)
  {
    hide *;
    MarkLinesAppend(marks, 0, p, |marks|);
    MarkLinesSkip(marks', p, p + count);
    MarkLinesMoved(marks, marks', 0, p, 0, p);
    MarkLinesMoved(marks, marks', p, |marks|, p + count, |marks'|);
    MarkLinesAre(marks, 0, p);
    TwoParts(MarkLines(marks, 0, p), MarkLines(marks, p, |marks|), MarkLines(marks', 0, p),
             MarkLines(marks', p + count, |marks'|), MarkLines(marks, 0, |marks|), MarkLines(marks', 0, |marks'|), p,
                 count);
  }

  lemma MarkLinesSkip(marks: seq<Option<Mark>>, lo: nat, hi: nat)
    requires lo <= hi <= |marks| && forall k :: lo <= k < hi ==> marks[k].None?
    ensures MarkLines(marks, 0, |marks|) == MarkLines(marks, 0, lo) + MarkLines(marks, hi, |marks|)
  {
    MarkLinesAppend(marks, 0, lo, |marks|);
    MarkLinesAppend(marks, lo, hi, |marks|);
    NoMarkLines(marks, lo, hi);
    assert [] + MarkLines(marks, hi, |marks|) == MarkLines(marks, hi, |marks|);
  }

  /** The markers of the file with the added lines. */
  ghost predicate HaveShifted(x: seq<Marker>, y: seq<Marker>, p: nat, count: nat) {
    && |x| == |y| && MarksOf(x) == MarksOf(y)
    && forall i :: 0 <= i < |x| ==> y[i].line == Moved(p, count, x[i].line)
  }

  lemma MarkersShifted(language: Option<CommentSyntax>, before: string, after: string, p: nat, count: nat)
    requires AreAdded(language, Segments(before), Segments(after), p, count)
    ensures HaveShifted(FindMarkers(language, before), FindMarkers(language, after), p, count)
  {
    var x, y := Segments(before), Segments(after);
    var marks, marks' := LineMarks(language, x), LineMarks(language, y);
    forall k | 0 <= k < |x|
      ensures marks[k] == marks'[if k < p then k else k + count]
    {
      assert IsLine(k);
    }
    forall k | p <= k < p + count
      ensures marks'[k].None?
    {
      assert IsLine(k);
    }
    ScanIsOrdered(language, before);
    ScanIsOrdered(language, after);
    MarkLinesAdded(marks, marks', p, count);
    MarkersAreMarkLines(marks, x, |x|, FindMarkers(language, before));
    MarkersAreMarkLines(marks', y, |y|, FindMarkers(language, after));
    ShiftedMarksAgree(marks, x, FindMarkers(language, before), marks', y, FindMarkers(language, after), p, count);
  }

  lemma ShiftedMarksAgree(marks: seq<Option<Mark>>, x: seq<string>, m: seq<Marker>, marks': seq<Option<Mark>>,
                          y: seq<string>, m': seq<Marker>, p: nat, count: nat)
    requires IsScanned(marks, x, m) && IsScanned(marks', y, m') && |m| == |m'| && p <= |marks|
             && |marks'| == |marks| + count
    requires AreMoved(marks, marks', 0, 0, p) && AreMoved(marks, marks', p, p + count, |marks| - p)
    requires forall i :: 0 <= i < |m| ==> m'[i].line == Moved(p, count, m[i].line)
    ensures MarksOf(m) == MarksOf(m')
  {
    forall i | 0 <= i < |m|
      ensures m[i].mark == m'[i].mark
    {
      assert IsMarkerOf(marks, x, |x|, m[i]) && IsMarkerOf(marks', y, |y|, m'[i]);
      assert marks[m[i].line - 1] == marks'[m'[i].line - 1];
    }
  }

  // ---------------------------------------------------------------- content

  lemma DroppedShifted(x: seq<Marker>, y: seq<Marker>, p: nat, count: nat, a: nat, b: nat, line: nat)
    requires HaveShifted(x, y, p, count) && a < |x| && b < |x|
    ensures line in DroppedLines(x, (a, b)) <==> Moved(p, count, line) in DroppedLines(y, (a, b))
  {
    if line in DroppedLines(x, (a, b)) {
      var k :| 0 <= k < |x| && IsChildMark(MarksOf(x), (a, b), k) && x[k].line == line;
      assert y[k].line == Moved(p, count, line);
    }
    if Moved(p, count, line) in DroppedLines(y, (a, b)) {
      var k :| 0 <= k < |y| && IsChildMark(MarksOf(y), (a, b), k) && y[k].line == Moved(p, count, line);
      assert x[k].line == line;
    }
  }

  /** Lines on one side of the added ones are the same lines, moved. */
  lemma SliceShifted(language: Option<CommentSyntax>, x: seq<string>, y: seq<string>, p: nat, count: nat, from: nat,
                     upTo: nat, by_: nat)
    requires AreAdded(language, x, y, p, count) && from <= upTo <= |x| && upTo + by_ <= |y|
    requires if p <= from then by_ == count else by_ == 0 && upTo <= p
    ensures x[from..from + (upTo - from)] == y[from + by_..from + by_ + (upTo - from)]
  {
    forall i | from <= i < upTo
      ensures x[i] == y[i + by_]
    {
      assert IsLine(i);
    }
  }

  /** Markers on one side of the added lines move alike. */
  lemma BothMoved(m: seq<Marker>, m': seq<Marker>, p: nat, count: nat, a: nat, b: nat)
    requires |m| == |m'| && a < |m| && b < |m| && m[a].line < m[b].line && (p < m[a].line || m[b].line <= p)
    requires forall i :: 0 <= i < |m| ==> m'[i].line == Moved(p, count, m[i].line)
    ensures var by_ := if p < m[a].line then count else 0;
            m'[a].line == m[a].line + by_ && m'[b].line == m[b].line + by_
  {
    assert m'[a].line == Moved(p, count, m[a].line) && m'[b].line == Moved(p, count, m[b].line);
  }

  lemma ContentShifted(language: Option<CommentSyntax>, x: seq<string>, m: seq<Marker>, y: seq<string>, m': seq<Marker>,
                       p: nat, count: nat, a: nat, b: nat)
    requires AreAdded(language, x, y, p, count) && HaveShifted(m, m', p, count)
    requires a < |m| && b < |m| && m[a].line < m[b].line <= |x| && (p < m[a].line || m[b].line <= p)
    ensures m'[a].line < m'[b].line <= |y| && ContentOf(x, m, (a, b)) == ContentOf(y, m', (a, b))
  {
    hide KeepLines, DroppedLines;
    var from, upTo := m[a].line, m[b].line - 1;
    var by_ := if p < from then count else 0;
    var drop, drop' := DroppedLines(m, (a, b)), DroppedLines(m', (a, b));
    BothMoved(m, m', p, count, a, b);
    forall line | from < line <= upTo
      ensures line in drop <==> line - from + (from + by_) in drop'
    {
      DroppedShifted(m, m', p, count, a, b, line);
    }
    SliceShifted(language, x, y, p, count, from, upTo, by_);
    KeepMoved(x, from, drop, y, from + by_, drop', upTo - from);
  }

  /** Lines without markers outside a selection leave its verdict and its content alone; its marker
      lines move with the lines around them. */
  lemma OutsideLinesAreHarmless(language: Option<CommentSyntax>, path: string, before: string, after: string, p: nat,
                                count: nat, id: string)
    requires AreAdded(language, Segments(before), Segments(after), p, count)
    requires var file := ScanFile(language, path, before);
             IsOrderly(file) && (ResolveOne(id, file).Resolved? ==>
               p < ResolveOne(id, file).location.startMarkerLine || ResolveOne(id, file).location.endMarkerLine <= p)
    ensures var x, y := ScanFile(language, path, before), ScanFile(language, path, after);
            && IsOrderly(y) && JudgeOne(id, MarksOf(y.markers)) == JudgeOne(id, MarksOf(x.markers))
            && (ResolveOne(id, x).Resolved? ==>
                  var loc, loc' := ResolveOne(id, x).location, ResolveOne(id, y).location;
                  && loc'.content == loc.content
                  && loc'.startMarkerLine == Moved(p, count, loc.startMarkerLine)
                  && loc'.endMarkerLine == Moved(p, count, loc.endMarkerLine))
  {
    var x, y := ScanFile(language, path, before), ScanFile(language, path, after);
    ScanFileIsOrderly(language, path, after);
    MarkersShifted(language, before, after, p, count);
    if ResolveOne(id, x).Resolved? {
      var a, b := JudgeOne(id, MarksOf(x.markers)).start, JudgeOne(id, MarksOf(x.markers)).end;
      ResolvesIff(id, MarksOf(x.markers), a, b);
      ContentShifted(language, x.segments, x.markers, y.segments, y.markers, p, count, a, b);
    }
  }
}
