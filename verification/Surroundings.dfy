// A write confined to the lines between two markers leaves the markers and lines around them alone.
module Surroundings {
  import opened Anchors
  import opened Markers
  import opened Nesting
  import opened Tracker
  import opened Guard
  import opened Verify

  // ---------------------------------------------------------------- marks depend on plain lines

  lemma PlainIsContent(segment: string)
    requires IsSegment(segment)
    ensures IsClosed(segment) ==> PlainLine(segment) == Content(segment)
    ensures PlainLine(segment) == Content(segment) || PlainLine(segment) == Content(segment) + "\r"
  {
    if !IsClosed(segment) && segment[|segment| - 1] == '\r' {
      assert segment == segment[..|segment| - 1] + "\r";
    }
  }

  lemma SamePlainSameMark(language: Option<CommentSyntax>, x: string, y: string)
    requires IsSegment(x) && IsSegment(y) && PlainLine(x) == PlainLine(y)
    ensures MarkOf(language, x) == MarkOf(language, y)
  {
    PlainIsContent(x);
    PlainIsContent(y);
    TrimDropsEnd(Content(x), "\r");
    TrimDropsEnd(Content(y), "\r");
  }

  // ---------------------------------------------------------------- marker lines

  /** The numbers of the lines lo + 1 .. hi that hold a marker. */
  function MarkLines(marks: seq<Option<Mark>>, lo: nat, hi: nat): seq<nat>
    decreases hi
  {
    if hi <= lo || hi > |marks| then [] else MarkLines(marks, lo, hi - 1) + if marks[hi - 1].Some? then [hi] else []
  }

  lemma {:induction false} MarkersAreMarkLines(marks: seq<Option<Mark>>, segments: seq<string>, n: nat,
                                               markers: seq<Marker>)
    requires n <= |segments| == |marks| && AreMarkersOf(marks, segments, n, markers)
    ensures |MarkLines(marks, 0, n)| == |markers|
    ensures forall i :: 0 <= i < |markers| ==> markers[i].line == MarkLines(marks, 0, n)[i]
    decreases n
  {
    if n == 0 {
      MarkerIsOnLine(marks, segments, n, markers, 0);
    } else {
      LastMarker(marks, segments, n, markers);
      if marks[n - 1].Some? {
        MarkersAreMarkLines(marks, segments, n - 1, markers[..|markers| - 1]);
      } else {
        MarkersAreMarkLines(marks, segments, n - 1, markers);
      }
    }
  }

  lemma MarkerIsOnLine(marks: seq<Option<Mark>>, segments: seq<string>, n: nat, markers: seq<Marker>, i: nat)
    requires n <= |segments| == |marks| && AreMarkersOf(marks, segments, n, markers)
    ensures i < |markers| ==> 0 < markers[i].line <= n
  {
    if i < |markers| { assert IsMarkerOf(marks, segments, n, markers[i]); }
  }

  lemma {:induction false} MarkLinesAppend(marks: seq<Option<Mark>>, lo: nat, mid: nat, hi: nat)
    requires lo <= mid <= hi <= |marks|
    ensures MarkLines(marks, lo, hi) == MarkLines(marks, lo, mid) + MarkLines(marks, mid, hi)
    decreases hi
  {
    if mid < hi { MarkLinesAppend(marks, lo, mid, hi - 1); }
  }

  ghost predicate AreBetweenLines(numbers: seq<nat>, lo: nat, hi: nat) {
    forall i :: 0 <= i < |numbers| ==> lo < numbers[i] <= hi
  }

  lemma {:induction false} MarkLinesAre(marks: seq<Option<Mark>>, lo: nat, hi: nat)
    requires hi <= |marks|
    ensures AreBetweenLines(MarkLines(marks, lo, hi), lo, hi)
    decreases hi
  {
    if lo < hi { MarkLinesAre(marks, lo, hi - 1); }
  }

  /** The marks from lo on are those from lo' on. */
  ghost predicate AreMoved(marks: seq<Option<Mark>>, marks': seq<Option<Mark>>, lo: nat, lo': nat, count: nat) {
    && lo + count <= |marks| && lo' + count <= |marks'|
    && forall k {:trigger marks[k]} :: lo <= k < lo + count ==> marks[k] == marks'[k - lo + lo']
  }

  /** Numbers moved by a distance. */
  ghost predicate IsTranslate(numbers: seq<nat>, numbers': seq<nat>, lo: nat, lo': nat) {
    && |numbers'| == |numbers|
    && forall i :: 0 <= i < |numbers| ==> lo < numbers[i] && numbers'[i] == numbers[i] - lo + lo'
  }

  /** Lines moved by a distance keep their markers. */
  lemma {:induction false} MarkLinesMoved(marks: seq<Option<Mark>>, marks': seq<Option<Mark>>, lo: nat, hi: nat,
                                          lo': nat, hi': nat)
    requires lo <= hi && lo' <= hi' && hi - lo == hi' - lo' && AreMoved(marks, marks', lo, lo', hi - lo)
    ensures IsTranslate(MarkLines(marks, lo, hi), MarkLines(marks', lo', hi'), lo, lo')
    decreases hi
  {
    if lo < hi {
      assert marks[hi - 1] == marks'[hi' - 1];
      MarkLinesMoved(marks, marks', lo, hi - 1, lo', hi' - 1);
    }
  }

  /** Where the markers are when everything up to line `from` and from line `upTo` on is the same: the
      first ones are where they were, the last ones have moved by a fixed distance, and the others are
      in between. */
  ghost predicate HaveMoved(x: seq<Marker>, y: seq<Marker>, from: nat, upTo: nat, upTo': nat) {
    && |x| == |y| && from < upTo && from < upTo'
    && forall i :: 0 <= i < |x| ==> HasMoved(x[i].line, y[i].line, from, upTo, upTo')
  }

  predicate HasMoved(line: nat, line': nat, from: nat, upTo: nat, upTo': nat) {
    if line <= from then line' == line
    else if line < upTo then from < line' < upTo'
    else line' == line - upTo + upTo'
  }

  lemma MarkLinesSplit(marks: seq<Option<Mark>>, from: nat, upTo: nat)
    requires from < upTo <= |marks|
    ensures MarkLines(marks, 0, |marks|)
            == MarkLines(marks, 0, from) + MarkLines(marks, from, upTo - 1) + MarkLines(marks, upTo - 1, |marks|)
  {
    hide *;
    MarkLinesAppend(marks, 0, from, |marks|);
    MarkLinesAppend(marks, from, upTo - 1, |marks|);
  }

  lemma PartsHaveMoved(marks: seq<Option<Mark>>, marks': seq<Option<Mark>>, from: nat, upTo: nat, upTo': nat, rest: nat)
    requires from < upTo && from < upTo' && |marks| == upTo + rest && |marks'| == upTo' + rest
    requires AreMoved(marks, marks', 0, 0, from) && AreMoved(marks, marks', upTo - 1, upTo' - 1, rest + 1)
    ensures AreBetweenLines(MarkLines(marks, 0, from), 0, from)
    ensures IsTranslate(MarkLines(marks, 0, from), MarkLines(marks', 0, from), 0, 0)
    ensures AreBetweenLines(MarkLines(marks, from, upTo - 1), from, upTo - 1)
    ensures AreBetweenLines(MarkLines(marks', from, upTo' - 1), from, upTo' - 1)
    ensures IsTranslate(MarkLines(marks, upTo - 1, |marks|), MarkLines(marks', upTo' - 1, |marks'|), upTo - 1,
                        upTo' - 1)
  {
    MarkLinesAre(marks, 0, from);
    MarkLinesMoved(marks, marks', 0, from, 0, from);
    MarkLinesAre(marks, from, upTo - 1);
    MarkLinesAre(marks', from, upTo' - 1);
    MarkLinesMoved(marks, marks', upTo - 1, |marks|, upTo' - 1, |marks'|);
  }

  lemma LinesHaveMoved(p: seq<nat>, m: seq<nat>, s: seq<nat>, p': seq<nat>, m': seq<nat>, s': seq<nat>, all: seq<nat>,
                       all': seq<nat>, from: nat, upTo: nat, upTo': nat)
    requires all == p + m + s && all' == p' + m' + s' && |all| == |all'| && from < upTo && from < upTo'
    requires AreBetweenLines(p, 0, from) && IsTranslate(p, p', 0, 0)
    requires AreBetweenLines(m, from, upTo - 1) && AreBetweenLines(m', from, upTo' - 1)
    requires IsTranslate(s, s', upTo - 1, upTo' - 1)
    ensures forall i :: 0 <= i < |all| ==> HasMoved(all[i], all'[i], from, upTo, upTo')
  {
    forall i | 0 <= i < |all|
      ensures HasMoved(all[i], all'[i], from, upTo, upTo')
    {
      ThreeParts(p, m, s, p', m', s', all, all', from, upTo, upTo', i);
    }
  }

  lemma ThreeParts(p: seq<nat>, m: seq<nat>, s: seq<nat>, p': seq<nat>, m': seq<nat>, s': seq<nat>, all: seq<nat>,
                   all': seq<nat>, from: nat, upTo: nat, upTo': nat, i: nat)
    requires all == p + m + s && all' == p' + m' + s' && |all| == |all'| && i < |all| && from < upTo && from < upTo'
    requires AreBetweenLines(p, 0, from) && IsTranslate(p, p', 0, 0)
    requires AreBetweenLines(m, from, upTo - 1) && AreBetweenLines(m', from, upTo' - 1)
    requires IsTranslate(s, s', upTo - 1, upTo' - 1)
    ensures HasMoved(all[i], all'[i], from, upTo, upTo')
  {
    if i < |p| {
      assert all[i] == p[i] && all'[i] == p'[i];
    } else if i < |p| + |m| {
      assert all[i] == m[i - |p|] && all'[i] == m'[i - |p|];
    } else {
      assert all[i] == s[i - |p| - |m|] && all'[i] == s'[i - |p| - |m|];
    }
  }

  predicate IsLine(k: int) { true }

  /** Two texts agree on the lines before and from a changed part on. */
  ghost predicate AgreeAround(x: seq<string>, y: seq<string>, from: nat, upTo: nat, upTo': nat, rest: nat) {
    && from < upTo && from < upTo' && |x| == upTo + rest && |y| == upTo' + rest
    && (forall k {:trigger IsLine(k)} :: 0 <= k < from && IsLine(k) ==> PlainLine(x[k]) == PlainLine(y[k]))
    && (forall k {:trigger IsLine(k)} :: upTo - 1 <= k < |x| && IsLine(k) ==>
          PlainLine(x[k]) == PlainLine(y[k - upTo + upTo']))
  }

  lemma SameMarksAround(language: Option<CommentSyntax>, x: seq<string>, y: seq<string>, marks: seq<Option<Mark>>,
                        marks': seq<Option<Mark>>, from: nat, upTo: nat, upTo': nat, rest: nat)
    requires WellSegmented(x) && WellSegmented(y) && AgreeAround(x, y, from, upTo, upTo', rest)
    requires marks == LineMarks(language, x) && marks' == LineMarks(language, y)
    ensures AreMoved(marks, marks', 0, 0, from) && AreMoved(marks, marks', upTo - 1, upTo' - 1, rest + 1)
  {
    forall k | 0 <= k < from
      ensures marks[k] == marks'[k]
    {
      assert IsLine(k);
      SamePlainSameMark(language, x[k], y[k]);
    }
    forall k | upTo - 1 <= k < |x|
      ensures marks[k] == marks'[k - upTo + upTo']
    {
      assert IsLine(k);
      SamePlainSameMark(language, x[k], y[k - upTo + upTo']);
    }
  }

  /** The same for the markers of two texts. */
  lemma MarkersHaveMoved(language: Option<CommentSyntax>, before: string, after: string, from: nat, upTo: nat,
                         upTo': nat, rest: nat)
    requires AgreeAround(Segments(before), Segments(after), from, upTo, upTo', rest)
    requires |FindMarkers(language, before)| == |FindMarkers(language, after)|
    ensures HaveMoved(FindMarkers(language, before), FindMarkers(language, after), from, upTo, upTo')
  {
    var x, y := Segments(before), Segments(after);
    SegmentsJoin(before);
    SegmentsJoin(after);
    ScanIsOrdered(language, before);
    ScanIsOrdered(language, after);
    SameMarksAround(language, x, y, LineMarks(language, x), LineMarks(language, y), from, upTo, upTo', rest);
    ScansHaveMoved(LineMarks(language, x), x, FindMarkers(language, before), LineMarks(language, y), y,
                   FindMarkers(language, after), from, upTo, upTo', rest);
  }

  lemma ScansHaveMoved(marks: seq<Option<Mark>>, x: seq<string>, markers: seq<Marker>, marks': seq<Option<Mark>>,
                       y: seq<string>, markers': seq<Marker>, from: nat, upTo: nat, upTo': nat, rest: nat)
    requires IsScanned(marks, x, markers) && IsScanned(marks', y, markers') && |markers| == |markers'|
    requires from < upTo && from < upTo' && |marks| == upTo + rest && |marks'| == upTo' + rest
    requires AreMoved(marks, marks', 0, 0, from) && AreMoved(marks, marks', upTo - 1, upTo' - 1, rest + 1)
    ensures HaveMoved(markers, markers', from, upTo, upTo')
  {
    PartsHaveMoved(marks, marks', from, upTo, upTo', rest);
    MarkLinesSplit(marks, from, upTo);
    MarkLinesSplit(marks', from, upTo');
    MarkersAreMarkLines(marks, x, |x|, markers);
    MarkersAreMarkLines(marks', y, |y|, markers');
    LinesHaveMoved(MarkLines(marks, 0, from), MarkLines(marks, from, upTo - 1), MarkLines(marks, upTo - 1, |marks|),
                   MarkLines(marks', 0, from), MarkLines(marks', from, upTo' - 1),
                       MarkLines(marks', upTo' - 1, |marks'|),
                   MarkLines(marks, 0, |marks|), MarkLines(marks', 0, |marks'|), from, upTo, upTo');
  }

  // ---------------------------------------------------------------- what is outside

  /** A line outside the changed part, before and after. */
  predicate IsSameLine(m: nat, m': nat, from: nat, upTo: nat, upTo': nat) {
    (m <= from && m' == m) || (m >= upTo && m' == m - upTo + upTo')
  }

  lemma {:induction false} SelectionLineMoved(x: seq<Marker>, y: seq<Marker>, from: nat, upTo: nat, upTo': nat, m: nat,
                                              m': nat)
    requires HaveMoved(x, y, from, upTo, upTo') && IsSameLine(m, m', from, upTo, upTo')
    requires forall i :: 0 <= i < |x| ==> x[i].mark == y[i].mark
    ensures IsSelectionLine(x, m) == IsSelectionLine(y, m')
  {
    if x != [] {
      assert HasMoved(x[0].line, y[0].line, from, upTo, upTo');
      assert x[0].line == m <==> y[0].line == m';
      SelectionLineMoved(x[1..], y[1..], from, upTo, upTo', m, m');
    }
  }

  ghost predicate IsMovedNested(n: Nested, n': Nested, from: nat, upTo: nat, upTo': nat) {
    && n'.first == n.first && n'.last == n.last
    && HasMoved(n.start, n'.start, from, upTo, upTo') && HasMoved(n.end, n'.end, from, upTo, upTo')
  }

  ghost predicate AreMovedNested(nested: seq<Nested>, nested': seq<Nested>, from: nat, upTo: nat, upTo': nat) {
    && |nested| == |nested'| && from < upTo && from < upTo'
    && forall k :: 0 <= k < |nested| ==> IsMovedNested(nested[k], nested'[k], from, upTo, upTo')
  }

  lemma {:induction false} InteriorMoved(nested: seq<Nested>, nested': seq<Nested>, from: nat, upTo: nat, upTo': nat,
                                         m: nat, m': nat)
    requires AreMovedNested(nested, nested', from, upTo, upTo') && IsSameLine(m, m', from, upTo, upTo')
    ensures IsInterior(nested, m) == IsInterior(nested', m')
  {
    if nested != [] {
      assert IsMovedNested(nested[0], nested'[0], from, upTo, upTo');
      InteriorMoved(nested[1..], nested'[1..], from, upTo, upTo', m, m');
    }
  }

  /** The same checkpoint lines. */
  ghost predicate HaveSameOrigins(nested: seq<Nested>, nested': seq<Nested>) {
    && |nested| == |nested'|
    && forall k :: 0 <= k < |nested| ==> nested[k].first == nested'[k].first && nested[k].last == nested'[k].last
  }

  lemma {:induction false} OriginLineStays(nested: seq<Nested>, nested': seq<Nested>, line: nat)
    requires HaveSameOrigins(nested, nested')
    ensures IsOriginLine(nested, line) == IsOriginLine(nested', line)
  {
    if nested != [] { OriginLineStays(nested[1..], nested'[1..], line); }
  }

  lemma {:induction false} BaselineStays(lines: seq<string>, first: nat, nested: seq<Nested>, nested': seq<Nested>,
                                         n: nat)
    requires HaveSameOrigins(nested, nested') && n <= |lines|
    ensures BaselineOutside(lines, first, nested, n) == BaselineOutside(lines, first, nested', n)
  {
    if n > 0 {
      BaselineStays(lines, first, nested, nested', n - 1);
      OriginLineStays(nested, nested', first + n - 1);
    }
  }

  lemma {:induction false} OutsideAppend(segments: seq<string>, markers: seq<Marker>, nested: seq<Nested>, lo: nat,
                                         mid: nat, hi: nat)
    requires lo <= mid <= hi <= |segments|
    ensures Outside(segments, markers, nested, lo, hi)
            == Outside(segments, markers, nested, lo, mid) + Outside(segments, markers, nested, mid, hi)
    decreases hi
  {
    hide Content;
    if mid < hi { OutsideAppend(segments, markers, nested, lo, mid, hi - 1); }
  }

  lemma {:induction false} OutsideNothing(x: seq<string>, markers: seq<Marker>, nested: seq<Nested>, lo: nat, hi: nat)
    requires lo <= hi <= |x| && forall m :: lo < m <= hi ==> IsInterior(nested, m)
    ensures Outside(x, markers, nested, lo, hi) == ""
    decreases hi
  {
    if lo < hi {
      assert IsInterior(nested, hi);
      OutsideNothing(x, markers, nested, lo, hi - 1);
    }
  }

  lemma {:induction false} InteriorOf(nested: seq<Nested>, k: nat, m: nat)
    requires k < |nested| && nested[k].start < m < nested[k].end
    ensures IsInterior(nested, m)
  {
    if k > 0 { InteriorOf(nested[1..], k - 1, m); }
  }

  ghost predicate AreLines(x: seq<string>) {
    forall i {:trigger IsLine(i)} :: 0 <= i < |x| && IsLine(i) ==> IsSegment(x[i]) && (i < |x| - 1 ==> IsClosed(x[i]))
  }

  /** A file before and after a change between lines `from` and `upTo`, with its nested targets. */
  datatype Edit = Edit(x: seq<string>, markers: seq<Marker>, nested: seq<Nested>,
                       y: seq<string>, markers': seq<Marker>, nested': seq<Nested>,
                       from: nat, upTo: nat, upTo': nat, rest: nat)

  ghost predicate IsConfined(e: Edit) {
    && AreLines(e.x) && AreLines(e.y) && AgreeAround(e.x, e.y, e.from, e.upTo, e.upTo', e.rest)
    && HaveMoved(e.markers, e.markers', e.from, e.upTo, e.upTo')
    && (forall i :: 0 <= i < |e.markers| ==> e.markers[i].mark == e.markers'[i].mark)
    && AreMovedNested(e.nested, e.nested', e.from, e.upTo, e.upTo')
  }

  lemma LineReadsSame(e: Edit, m: nat, m': nat)
    requires IsConfined(e) && IsSameLine(m, m', e.from, e.upTo, e.upTo') && 0 < m < |e.x|
    ensures 0 < m' <= |e.y| && Content(e.x[m - 1]) == Content(e.y[m' - 1])
    ensures IsLeftOut(e.markers, e.nested, m) == IsLeftOut(e.markers', e.nested', m')
  {
    SelectionLineMoved(e.markers, e.markers', e.from, e.upTo, e.upTo', m, m');
    InteriorMoved(e.nested, e.nested', e.from, e.upTo, e.upTo', m, m');
    assert IsLine(m - 1) && IsLine(m' - 1);
    PlainIsContent(e.x[m - 1]);
    PlainIsContent(e.y[m' - 1]);
  }

  lemma {:induction false} OutsideKept(e: Edit, lo: nat, hi: nat, lo': nat, hi': nat)
    requires IsConfined(e) && lo <= hi < |e.x| && lo' <= hi' <= |e.y| && hi - lo == hi' - lo'
    requires (hi <= e.from && lo' == lo) || (e.upTo - 1 <= lo && lo' == lo - e.upTo + e.upTo')
    ensures Outside(e.x, e.markers, e.nested, lo, hi) == Outside(e.y, e.markers', e.nested', lo', hi')
    decreases hi
  {
    hide Content;
    if lo < hi {
      LineReadsSame(e, hi, hi');
      OutsideKept(e, lo, hi - 1, lo', hi' - 1);
    }
  }

  lemma OutsideInThree(x: seq<string>, markers: seq<Marker>, nested: seq<Nested>, k: nat, from: nat, upTo: nat,
                       mid: nat, a: nat, b: nat)
    requires k < |nested| && nested[k].start == from && nested[k].end == upTo && a <= from <= mid <= b <= |x|
             && mid + 1 == upTo
    ensures Outside(x, markers, nested, a, b) == Outside(x, markers, nested, a, from)
            + Outside(x, markers, nested, mid, b)
  {
    hide *;
    MiddleIsNothing(x, markers, nested, k, from, upTo);
    OutsideAppend(x, markers, nested, a, from, b);
    OutsideAppend(x, markers, nested, from, mid, b);
    var rest := Outside(x, markers, nested, mid, b);
    assert "" + rest == rest;
  }

  lemma MiddleIsNothing(x: seq<string>, markers: seq<Marker>, nested: seq<Nested>, k: nat, from: nat, upTo: nat)
    requires k < |nested| && nested[k].start == from && nested[k].end == upTo && from < upTo <= |x| + 1
    ensures Outside(x, markers, nested, from, upTo - 1) == ""
  {
    MiddleIsInterior(nested, k);
    OutsideNothing(x, markers, nested, from, upTo - 1);
  }

  /** When only the interior of a nested target changed, everything outside is as it was. */
  lemma OutsideUnchanged(e: Edit, k: nat, a: nat, b: nat, b': nat)
    requires IsConfined(e) && k < |e.nested| && e.nested[k].start == e.from && e.nested[k].end == e.upTo
    requires a <= e.from && e.upTo <= b < |e.x| && b' == b - e.upTo + e.upTo'
    ensures b' <= |e.y| && Outside(e.x, e.markers, e.nested, a, b) == Outside(e.y, e.markers', e.nested', a, b')
  {
    hide Outside;
    TargetMoved(e, k);
    OutsideInThree(e.x, e.markers, e.nested, k, e.from, e.upTo, e.upTo - 1, a, b);
    OutsideInThree(e.y, e.markers', e.nested', k, e.from, e.upTo', e.upTo' - 1, a, b');
    PartsKept(e, a, b, b');
  }

  lemma TargetMoved(e: Edit, k: nat)
    requires IsConfined(e) && k < |e.nested| && e.nested[k].start == e.from && e.nested[k].end == e.upTo
    ensures k < |e.nested'| && e.nested'[k].start == e.from && e.nested'[k].end == e.upTo' && e.from < e.upTo
            && e.from < e.upTo'
  {
    assert IsMovedNested(e.nested[k], e.nested'[k], e.from, e.upTo, e.upTo');
  }

  lemma PartsKept(e: Edit, a: nat, b: nat, b': nat)
    requires IsConfined(e) && a <= e.from && e.upTo <= b < |e.x| && b' == b - e.upTo + e.upTo'
    ensures b' <= |e.y| && Outside(e.x, e.markers, e.nested, a, e.from)
            == Outside(e.y, e.markers', e.nested', a, e.from)
    ensures Outside(e.x, e.markers, e.nested, e.upTo - 1, b) == Outside(e.y, e.markers', e.nested', e.upTo' - 1, b')
  {
    hide Outside;
    OutsideKept(e, a, e.from, a, e.from);
    OutsideKept(e, e.upTo - 1, b, e.upTo' - 1, b');
  }

  lemma MiddleIsInterior(nested: seq<Nested>, k: nat)
    requires k < |nested|
    ensures forall m :: nested[k].start < m < nested[k].end ==> IsInterior(nested, m)
  {
    forall m: nat | nested[k].start < m < nested[k].end
      ensures IsInterior(nested, m)
    {
      InteriorOf(nested, k, m);
    }
  }

  // ---------------------------------------------------------------- nested targets before and after

  lemma {:induction false} WellEndsFollowMarks(id: string, boundary: Boundary, x: seq<Marker>, y: seq<Marker>, n: nat)
    requires n <= |x| && MarksOf(x) == MarksOf(y)
    ensures |x| == |y| && WellEnds(id, boundary, x, n) == WellEnds(id, boundary, y, n)
  {
    assert |MarksOf(x)| == |MarksOf(y)|;
    if n > 0 {
      assert MarksOf(x)[n - 1] == MarksOf(y)[n - 1];
      WellEndsFollowMarks(id, boundary, x, y, n - 1);
    }
  }

  /** The same two markers, in two versions of a file. */
  ghost predicate AreSamePlace(loc: Location, loc': Location, x: seq<Marker>, y: seq<Marker>, a: nat, b: nat) {
    && AreInOrder(x) && AreInOrder(y) && MarksOf(x) == MarksOf(y) && a < b < |x|
    && loc.startMarkerLine == x[a].line && loc.endMarkerLine == x[b].line
    && loc'.startMarkerLine == y[a].line && loc'.endMarkerLine == y[b].line
  }

  lemma LinesInOrder(x: seq<Marker>, i: nat, j: nat)
    requires AreInOrder(x) && i < |x| && j < |x|
    ensures x[i].line < x[j].line <==> i < j
  {
  }

  lemma ChildStays(child: Record, loc: Location, loc': Location, x: seq<Marker>, y: seq<Marker>, a: nat, b: nat)
    requires AreSamePlace(loc, loc', x, y, a, b)
    ensures ChildAt(child, loc, x) == ChildAt(child, loc', y)
    ensures ChildAt(child, loc, x).Some? ==>
              ChildAt(child, loc, x).value.0 < |x| && ChildAt(child, loc, x).value.1 < |x|
  {
    assert |MarksOf(x)| == |MarksOf(y)|;
    WellEndsFollowMarks(child.id, Start, x, y, |x|);
    WellEndsFollowMarks(child.id, End, x, y, |x|);
    var starts, ends := WellEnds(child.id, Start, x, |x|), WellEnds(child.id, End, x, |x|);
    if |starts| == 1 && |ends| == 1 && starts[0] < |x| && ends[0] < |x| {
      LinesInOrder(x, a, starts[0]);
      LinesInOrder(y, a, starts[0]);
      LinesInOrder(x, ends[0], b);
      LinesInOrder(y, ends[0], b);
    }
  }

  lemma {:induction false} OriginsStay(registry: seq<Record>, parent: Record, loc: Location, loc': Location,
                                       x: seq<Marker>, y: seq<Marker>, a: nat, b: nat)
    requires AreSamePlace(loc, loc', x, y, a, b)
    ensures NestedTargets(registry, parent, loc, x).Some? <==> NestedTargets(registry, parent, loc', y).Some?
    ensures NestedTargets(registry, parent, loc, x).Some? ==>
              HaveSameOrigins(NestedTargets(registry, parent, loc, x).value,
                              NestedTargets(registry, parent, loc', y).value)
  {
    if registry != [] {
      OriginsStay(registry[..|registry| - 1], parent, loc, loc', x, y, a, b);
      ChildStays(registry[|registry| - 1], loc, loc', x, y, a, b);
    }
  }

  lemma {:induction false} NestedStay(registry: seq<Record>, parent: Record, loc: Location, loc': Location,
                                      x: seq<Marker>, y: seq<Marker>, a: nat, b: nat, from: nat, upTo: nat, upTo': nat)
    requires AreSamePlace(loc, loc', x, y, a, b) && HaveMoved(x, y, from, upTo, upTo')
    ensures NestedTargets(registry, parent, loc, x).Some? <==> NestedTargets(registry, parent, loc', y).Some?
    ensures NestedTargets(registry, parent, loc, x).Some? ==>
              AreMovedNested(NestedTargets(registry, parent, loc, x).value,
                             NestedTargets(registry, parent, loc', y).value, from, upTo, upTo')
  {
    if registry != [] {
      NestedStay(registry[..|registry| - 1], parent, loc, loc', x, y, a, b, from, upTo, upTo');
      ChildStays(registry[|registry| - 1], loc, loc', x, y, a, b);
    }
  }

  /** A child found inside is one of the nested targets. */
  lemma {:induction false} ChildIsNested(registry: seq<Record>, parent: Record, loc: Location, x: seq<Marker>,
                                         child: Record, i: nat, j: nat) returns (k: nat)
    requires child in registry && IsTargetChild(child, parent) && ChildAt(child, loc, x) == Some((i, j)) && i < |x|
             && j < |x|
    requires NestedTargets(registry, parent, loc, x).Some?
    ensures var nested := NestedTargets(registry, parent, loc, x).value;
            k < |nested| && nested[k].start == x[i].line && nested[k].end == x[j].line
  {
    var rest := registry[..|registry| - 1];
    if registry[|registry| - 1] == child {
      k := |NestedTargets(rest, parent, loc, x).value|;
    } else {
      assert child in rest;
      k := ChildIsNested(rest, parent, loc, x, child, i, j);
    }
  }
}
