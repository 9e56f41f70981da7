// The pre-write guard (src/hooks/enforce.rs) and the post-write verifier (src/governance/verify.rs):
// when an allowed write leaves a passing preserve command passing.
module Preserving {
  import opened Anchors
  import opened Markers
  import opened Nesting
  import opened Tracker
  import opened Guard
  import opened Verify
  import opened Surroundings
  import opened Alignment
  import Enforce
  import LineRanges

  // ---------------------------------------------------------------- equal lines, equal content

  lemma {:induction false} KeptNormalized(x: seq<string>, y: seq<string>, from: nat, upTo: nat, drop: set<nat>)
    requires from <= upTo < |x| && |x| == |y|
    requires forall i {:trigger IsLine(i)} :: 0 <= i < |x| && IsLine(i) ==>
               IsSegment(x[i]) && IsSegment(y[i]) && PlainLine(x[i]) == PlainLine(y[i])
                   && (i < |x| - 1 ==> IsClosed(x[i]) && IsClosed(y[i]))
    ensures Normalize(KeepLines(x, from, upTo, drop)) == Normalize(KeepLines(y, from, upTo, drop))
    ensures IsClosed(KeepLines(x, from, upTo, drop)) <==> KeepLines(x, from, upTo, drop) != ""
    ensures IsClosed(KeepLines(y, from, upTo, drop)) <==> KeepLines(y, from, upTo, drop) != ""
    decreases upTo
  {
    hide Normalize;
    if from < upTo {
      KeptNormalized(x, y, from, upTo - 1, drop);
      assert IsLine(upTo - 1);
      var u, v := KeepLines(x, from, upTo - 1, drop), KeepLines(y, from, upTo - 1, drop);
      if upTo in drop {
        assert u + "" == u && v + "" == v;
      } else {
        NormalizeAppend(u, x[upTo - 1]);
        NormalizeAppend(v, y[upTo - 1]);
        NormalizedLine(x[upTo - 1]);
        NormalizedLine(y[upTo - 1]);
      }
    }
  }

  lemma NormalizedLine(segment: string)
    requires IsSegment(segment) && IsClosed(segment)
    ensures Normalize(segment) == PlainLine(segment) + "\n"
  {
    var x := segment[..|segment| - 1];
    assert segment == x + "\n";
    NormalizeLine(x);
  }

  /** Files with equal plain lines and equal marks hold the same content between the same markers. */
  lemma SameLinesSameContent(x: FileScan, y: FileScan, a: nat, b: nat)
    requires IsOrderly(x) && IsOrderly(y) && a < b < |x.markers| && MarksOf(x.markers) == MarksOf(y.markers)
    requires WellSegmented(x.segments) && WellSegmented(y.segments) && PlainLines(x.segments) == PlainLines(y.segments)
    requires |x.markers| == |y.markers| && forall i :: 0 <= i < |x.markers| ==> x.markers[i].line == y.markers[i].line
    ensures ContentOf(x.segments, x.markers, (a, b)) == ContentOf(y.segments, y.markers, (a, b))
  {
    hide PlainLines, KeepLines;
    PlainLinesAre(x.segments);
    PlainLinesAre(y.segments);
    forall i | 0 <= i < |x.segments|
      ensures PlainLine(x.segments[i]) == PlainLine(y.segments[i])
    {
      assert PlainLines(x.segments)[i] == PlainLines(y.segments)[i];
    }
    assert DroppedLines(x.markers, (a, b)) == DroppedLines(y.markers, (a, b));
    KeptNormalized(x.segments, y.segments, x.markers[a].line, x.markers[b].line - 1, DroppedLines(x.markers, (a, b)));
  }

  lemma SameLinesSameMarkerLines(language: Option<CommentSyntax>, before: string, after: string)
    requires PlainLines(Segments(before)) == PlainLines(Segments(after))
    ensures var x, y := FindMarkers(language, before), FindMarkers(language, after);
            |x| == |y| && forall i :: 0 <= i < |x| ==> x[i].line == y[i].line
  {
    var x, y := Segments(before), Segments(after);
    var marks, marks' := LineMarks(language, x), LineMarks(language, y);
    SegmentsJoin(before);
    SegmentsJoin(after);
    PlainLinesAre(x);
    PlainLinesAre(y);
    forall k | 0 <= k < |marks|
      ensures marks[k] == marks'[k]
    {
      assert PlainLines(x)[k] == PlainLines(y)[k];
      SamePlainSameMark(language, x[k], y[k]);
    }
    assert marks == marks';
    ScanIsOrdered(language, before);
    ScanIsOrdered(language, after);
    MarkersAreMarkLines(marks, x, |x|, FindMarkers(language, before));
    MarkersAreMarkLines(marks', y, |y|, FindMarkers(language, after));
  }

  // ---------------------------------------------------------------- a passing command

  /** The nested targets sit at their own places in the checkpoint content: a line of the selection is
      inside one of them now exactly when its checkpoint line was. */
  ghost predicate SitsAtOrigin(file: FileScan, a: nat, b: nat, nested: seq<Nested>, first: nat)
    requires IsOrderly(file) && a < b < |file.markers|
  {
    forall m :: file.markers[a].line < m < file.markers[b].line ==>
      IsAligned(file.segments, file.markers, nested, first, DroppedLines(file.markers, (a, b)), file.markers[a].line, m)
  }

  /** No line of the selection outside its nested targets ends with three carriage returns. */
  ghost predicate HasPlainOutside(file: FileScan, a: nat, b: nat, nested: seq<Nested>)
    requires IsOrderly(file) && a < b < |file.markers|
  {
    && file.markers[a].line < file.markers[b].line <= |file.segments|
    && IsPlainOutside(file.segments, nested, DroppedLines(file.markers, (a, b)), file.markers[a].line,
                      file.markers[b].line - 1)
  }

  /** A selection that holds its checkpoint content passes the comparison outside its nested targets exactly when the
      lines there are plain. */
  lemma PassesOutside(file: FileScan, a: nat, b: nat, nested: seq<Nested>, parent: Record)
    requires IsOrderly(file) && a < b < |file.markers| && SitsAtOrigin(file, a, b, nested, parent.origin.startLine)
    requires ContentOf(file.segments, file.markers, (a, b)) == parent.origin.content
    ensures (NormalizeContent(Outside(file.segments, file.markers, nested, file.markers[a].line,
                                      file.markers[b].line - 1))
             == OutsideThen(parent, nested))
            <==> HasPlainOutside(file, a, b, nested)
  {
    hide Normalize, NormalizeContent, Outside, PlainLines, Pairs, Segments, IsPlainOutside, OutsideThen, IsAligned;
    var from, upTo := file.markers[a].line, file.markers[b].line - 1;
    var drop, first := DroppedLines(file.markers, (a, b)), parent.origin.startLine;
    var kept := KeptSegments(file.segments, from, upTo, drop);
    LinesInOrder(file.markers, a, b);
    ComparesLineByLine(file.segments, file.markers, nested, first, drop, from, upTo);
    JoinKept(file.segments, from, upTo, drop);
    KeptAreClosed(file, a, b, nested, first, upTo);
    OutsideThenIs(parent, nested, kept);
    ComparedAsContents(Compare(file.segments, file.markers, nested, first, drop, from, upTo),
                       IsPlainOutside(file.segments, nested, drop, from, upTo));
  }

  lemma OutsideThenIs(parent: Record, nested: seq<Nested>, kept: seq<string>)
    requires AreClosed(kept) && parent.origin.content == NormalizeContent(Join(kept))
    ensures var lines := BaseLines(kept);
            OutsideThen(parent, nested)
            == NormalizeContent(BaselineOutside(lines, parent.origin.startLine, nested, |lines|))
  {
    hide NormalizeContent, Segments, BaselineOutside, Join, PlainLines, NormalizeAll, AreClosed;
    ContentLines(kept);
  }

  lemma ComparedAsContents(c: Compared, equal: bool)
    requires ComparesEqual(c, equal)
    ensures NormalizeContent(c.now) == NormalizeContent(c.then_) <==> equal
  {
    hide Normalize, IsClosed;
    NormalizeClosed(c.now);
    NormalizeClosed(c.then_);
  }

  lemma NormalizeClosed(s: string)
    requires s == "" || IsClosed(s)
    ensures NormalizeContent(s) == Normalize(s)
  {
    if s != "" { NormalizedIsClosed(s); }
  }

  lemma {:induction false} KeptAreClosed(file: FileScan, a: nat, b: nat, nested: seq<Nested>, first: nat, upTo: nat)
    requires IsOrderly(file) && a < b < |file.markers| && SitsAtOrigin(file, a, b, nested, first)
    requires file.markers[a].line <= upTo < file.markers[b].line
    ensures AreClosed(KeptSegments(file.segments, file.markers[a].line, upTo, DroppedLines(file.markers, (a, b))))
    decreases upTo
  {
    if file.markers[a].line < upTo {
      KeptAreClosed(file, a, b, nested, first, upTo - 1);
      assert IsAligned(file.segments, file.markers, nested, first, DroppedLines(file.markers, (a, b)),
                       file.markers[a].line, upTo);
    }
  }

  // ---------------------------------------------------------------- the target that holds the change

  lemma {:induction false} ExcuseHasTarget(registry: seq<Record>, id: string, old_: Location, markers: seq<Marker>,
                                           changed: seq<(nat, nat)>)
    returns (child: Record)
    requires Excused(registry, id, old_, markers, changed)
    ensures child in registry && ExcusedBy(child, id, old_, markers, changed)
  {
    if ExcusedBy(registry[0], id, old_, markers, changed) {
      child := registry[0];
    } else {
      child := ExcuseHasTarget(registry[1..], id, old_, markers, changed);
    }
  }

  lemma {:induction false} OneWellEnd(id: string, boundary: Boundary, markers: seq<Marker>, n: nat, i: nat)
    requires n <= |markers| && i < |markers|
    requires forall k :: 0 <= k < |markers| ==> (IsWellEnd(id, boundary, markers[k].mark) <==> k == i)
    ensures WellEnds(id, boundary, markers, n) == if i < n then [i] else []
  {
    if n > 0 { OneWellEnd(id, boundary, markers, n - 1, i); }
  }

  lemma {:induction false} MarkerLineIsSelection(markers: seq<Marker>, i: nat)
    requires i < |markers| && markers[i].mark.kind.Selection?
    ensures IsSelectionLine(markers, markers[i].line)
  {
    if i > 0 { MarkerLineIsSelection(markers[1..], i - 1); }
  }

  lemma OnlyEndIsWell(id: string, boundary: Boundary, markers: seq<Marker>, i: nat)
    requires HasEnd(id, boundary, MarksOf(markers)) && !HasTwoEnds(id, boundary, MarksOf(markers))
    requires i == TheEnd(id, boundary, MarksOf(markers)) && markers[i].mark.problem.None?
    ensures WellEnds(id, boundary, markers, |markers|) == [i]
  {
    OnlyEnd(id, boundary, MarksOf(markers), i);
    forall k | 0 <= k < |markers|
      ensures IsWellEnd(id, boundary, markers[k].mark) <==> k == i
    {
      assert MarksOf(markers)[k] == markers[k].mark;
    }
    OneWellEnd(id, boundary, markers, |markers|, i);
  }

  /** A nested target whose well-formed markers strictly hold every change. */
  predicate IsHolder(child: Record, parent: Record, loc: Location, markers: seq<Marker>, changed: seq<(nat, nat)>) {
    && IsTargetChild(child, parent)
    && var at := ChildAt(child, loc, markers);
       at.Some? && at.value.0 < |markers| && at.value.1 < |markers|
       && AreBetween(changed, markers[at.value.0].line, markers[at.value.1].line)
  }

  /** Some nested target strictly holds every change. */
  ghost predicate HoldsEveryChange(registry: seq<Record>, parent: Record, loc: Location, markers: seq<Marker>,
                                   changed: seq<(nat, nat)>) {
    exists child :: child in registry && IsHolder(child, parent, loc, markers, changed)
  }

  /** The end of such a target comes after its start, and both are inside the selection. */
  lemma HolderIsInside(file: FileScan, a: nat, b: nat, loc: Location, child: Record, parent: Record,
                       changed: seq<(nat, nat)>) returns (s: nat, e: nat)
    requires IsOrderly(file) && a < b < |file.markers|
    requires loc.startMarkerLine == file.markers[a].line && loc.endMarkerLine == file.markers[b].line
    requires IsHolder(child, parent, loc, file.markers, changed) && changed != [] && changed[0].0 <= changed[0].1
    ensures a < s < e < b && ChildAt(child, loc, file.markers) == Some((s, e))
    ensures AreBetween(changed, file.markers[s].line, file.markers[e].line)
  {
    hide WellEnds;
    s, e := ChildAt(child, loc, file.markers).value.0, ChildAt(child, loc, file.markers).value.1;
    assert file.markers[s].line < changed[0].0 && changed[0].1 < file.markers[e].line;
    LinesInOrder(file.markers, a, s);
    LinesInOrder(file.markers, s, e);
    LinesInOrder(file.markers, e, b);
  }

  /** A target excuses a change that no nested target holds only when one of its markers is malformed. */
  lemma ExcuseIsHolder(registry: seq<Record>, parent: Record, loc: Location, markers: seq<Marker>,
                       changed: seq<(nat, nat)>, child: Record)
    requires child in registry && ExcusedBy(child, parent.id, loc, markers, changed)
    ensures HoldsEveryChange(registry, parent, loc, markers, changed) || HasProblem(child.id, MarksOf(markers))
  {
    var marks := MarksOf(markers);
    var s, e := TheEnd(child.id, Start, marks), TheEnd(child.id, End, marks);
    assert IsHit(child.id, marks[s]) && IsHit(child.id, marks[e]);
    if !HasProblem(child.id, marks) {
      OnlyEndIsWell(child.id, Start, markers, s);
      OnlyEndIsWell(child.id, End, markers, e);
      assert IsHolder(child, parent, loc, markers, changed);
    }
  }

  lemma PlainLineAt(x: seq<string>, k: nat)
    ensures |PlainLines(x)| == |x| && (k < |x| ==> PlainLines(x)[k] == PlainLine(x[k]))
  {
    PlainLinesAre(x);
  }

  /** The lines around a changed part agree, one by one. */
  ghost predicate AgreeOneByOne<T>(p: seq<T>, q: seq<T>, from: nat, upTo: nat, shift: nat) {
    && from < upTo <= |p| && from <= shift && shift + (|p| - (upTo - 1)) == |q|
    && (forall k {:trigger IsLine(k)} :: 0 <= k < from && IsLine(k) ==> p[k] == q[k])
    && (forall k {:trigger IsLine(k)} :: upTo - 1 <= k < |p| && IsLine(k) ==> p[k] == q[k - (upTo - 1) + shift])
  }

  lemma SlicesAgree<T>(p: seq<T>, q: seq<T>, from: nat, upTo: nat, shift: nat)
    requires from < upTo <= |p| && from <= shift && shift + (|p| - (upTo - 1)) == |q|
    requires p[..from] == q[..from] && p[upTo - 1..] == q[shift..]
    ensures AgreeOneByOne(p, q, from, upTo, shift)
  {
    forall k {:trigger IsLine(k)} | 0 <= k < from
      ensures p[k] == q[k]
    {
      assert p[..from][k] == q[..from][k];
    }
    forall k {:trigger IsLine(k)} | upTo - 1 <= k < |p|
      ensures p[k] == q[k - (upTo - 1) + shift]
    {
      assert p[upTo - 1..][k - (upTo - 1)] == q[shift..][k - (upTo - 1)];
    }
  }

  lemma OutsideAgrees(p: seq<string>, q: seq<string>, from: nat, upTo: nat)
    requires AgreeOutside(p, q, from, upTo) && p != q
    ensures |p| - upTo <= |q| - 1 && from < upTo && AgreeOneByOne(p, q, from, upTo, |q| - 1 - (|p| - upTo))
  {
    SlicesAgree(p, q, from, upTo, |q| - (|p| - (upTo - 1)));
  }

  /** Agreement of the plain lines is agreement of the lines. */
  lemma AgreementAround(x: seq<string>, y: seq<string>, from: nat, upTo: nat, upTo': nat)
    requires |PlainLines(x)| == |x| && |PlainLines(y)| == |y| && upTo' > 0
    requires AgreeOneByOne(PlainLines(x), PlainLines(y), from, upTo, upTo' - 1)
    ensures AgreeAround(x, y, from, upTo, upTo', |x| - upTo)
  {
    forall k {:trigger IsLine(k)} | 0 <= k < from
      ensures PlainLine(x[k]) == PlainLine(y[k])
    {
      assert IsLine(k);
      PlainLineAt(x, k);
      PlainLineAt(y, k);
    }
    forall k {:trigger IsLine(k)} | upTo - 1 <= k < |x|
      ensures PlainLine(x[k]) == PlainLine(y[k - upTo + upTo'])
    {
      assert IsLine(k);
      PlainLineAt(x, k);
      PlainLineAt(y, k - upTo + upTo');
    }
  }

  // ---------------------------------------------------------------- guard and verifier

  /** A write of one file that the guard meets with no objection. */
  ghost predicate IsAllowed(registry: seq<Record>, x: FileScan, y: FileScan, changed: seq<(nat, nat)>) {
    && IsOrderly(x) && IsOrderly(y) && MarksOf(x.markers) == MarksOf(y.markers)
    && LineRanges.Covers(PlainLines(x.segments), PlainLines(y.segments), changed)
    && (changed == [] <==> PlainLines(x.segments) == PlainLines(y.segments))
    && Objections(registry, 0, x, y, changed) == []
  }

  /** The nested targets of a selection resolved at markers a and b. */
  function NestedAt(registry: seq<Record>, parent: Record, file: FileScan, loc: Location): seq<Nested> {
    match NestedTargets(registry, parent, loc, file.markers)
    case Some(nested) => nested
    case None => []
  }

  /** When the content changes inside a nested target, everything outside the nested targets stays. */
  lemma TargetChangeKeepsOutside(language: Option<CommentSyntax>, path: string, before: string, after: string,
                                 registry: seq<Record>, parent: Record, changed: seq<(nat, nat)>, a: nat, b: nat,
                                 child: Record)
    requires var x, y := ScanFile(language, path, before), ScanFile(language, path, after);
             && IsAllowed(registry, x, y, changed) && a < b < |x.markers| && b < |y.markers| && changed != []
             && child in registry && IsHolder(child, parent, LocationIn(x, a, b), x.markers, changed)
             && NestedTargets(registry, parent, LocationIn(x, a, b), x.markers).Some?
    ensures var x, y := ScanFile(language, path, before), ScanFile(language, path, after);
            var loc, loc' := LocationIn(x, a, b), LocationIn(y, a, b);
            && NestedTargets(registry, parent, loc', y.markers).Some? && NestedAt(registry, parent, x, loc) != []
            && OutsideNow(x, NestedAt(registry, parent, x, loc), loc)
               == OutsideNow(y, NestedAt(registry, parent, y, loc'), loc')
  {
    var x, y := ScanFile(language, path, before), ScanFile(language, path, after);
    var s, e, upTo' := TargetChangeMoves(language, path, before, after, x, y, registry, parent, changed, a, b, child);
    MovedKeepsOutside(before, after, x, y, registry, parent, LocationIn(x, a, b), LocationIn(y, a, b), a, b, child, s,
                      e, upTo');
  }

  lemma TargetChangeMoves(language: Option<CommentSyntax>, path: string, before: string, after: string, x: FileScan,
                          y: FileScan, registry: seq<Record>, parent: Record, changed: seq<(nat, nat)>, a: nat, b: nat,
                          child: Record)
    returns (s: nat, e: nat, upTo': nat)
    requires x == ScanFile(language, path, before) && y == ScanFile(language, path, after)
    requires IsAllowed(registry, x, y, changed) && a < b < |x.markers| && changed != []
    requires IsHolder(child, parent, LocationIn(x, a, b), x.markers, changed)
    ensures a < s < e < b && ChildAt(child, LocationIn(x, a, b), x.markers) == Some((s, e))
    ensures AgreeAround(x.segments, y.segments, x.markers[s].line, x.markers[e].line, upTo',
                        |x.segments| - x.markers[e].line)
    ensures HaveMoved(x.markers, y.markers, x.markers[s].line, x.markers[e].line, upTo')
  {
    hide AreInOrder, FindMarkers, Objection, IsHolder;
    s, e := HolderIsInside(x, a, b, LocationIn(x, a, b), child, parent, changed);
    var from, upTo := x.markers[s].line, x.markers[e].line;
    upTo' := ChangeIsAround(x, y, changed, from, upTo);
    assert |MarksOf(x.markers)| == |MarksOf(y.markers)|;
    MarkersHaveMoved(language, before, after, from, upTo, upTo', |x.segments| - upTo);
  }

  lemma MovedKeepsOutside(before: string, after: string, x: FileScan, y: FileScan, registry: seq<Record>,
                          parent: Record, loc: Location, loc': Location, a: nat, b: nat, child: Record, s: nat, e: nat,
                          upTo': nat)
    requires x.segments == Segments(before) && y.segments == Segments(after)
    requires AreSamePlace(loc, loc', x.markers, y.markers, a, b) && a < s < e < b && loc.endMarkerLine <= |x.segments|
    requires child in registry && IsTargetChild(child, parent) && ChildAt(child, loc, x.markers) == Some((s, e))
    requires AgreeAround(x.segments, y.segments, x.markers[s].line, x.markers[e].line, upTo',
                         |x.segments| - x.markers[e].line)
    requires HaveMoved(x.markers, y.markers, x.markers[s].line, x.markers[e].line, upTo')
    requires NestedTargets(registry, parent, loc, x.markers).Some?
    ensures NestedTargets(registry, parent, loc', y.markers).Some? && IsPlace(x, loc) && IsPlace(y, loc')
    ensures NestedAt(registry, parent, x, loc) != []
    ensures OutsideNow(x, NestedAt(registry, parent, x, loc), loc)
            == OutsideNow(y, NestedAt(registry, parent, y, loc'), loc')
  {
    hide ChildAt;
    var nested, nested' := NestedAt(registry, parent, x, loc), NestedAt(registry, parent, y, loc');
    var from, upTo := x.markers[s].line, x.markers[e].line;
    NestedStay(registry, parent, loc, loc', x.markers, y.markers, a, b, from, upTo, upTo');
    var k := ChildIsNested(registry, parent, loc, x.markers, child, s, e);
    ParentMoved(x.markers, y.markers, from, upTo, upTo', a, s, e, b);
    var edit := Edit(x.segments, x.markers, nested, y.segments, y.markers, nested', from, upTo, upTo',
                     |x.segments| - upTo);
    SameNow(before, after, x, y, edit, k, loc, loc');
  }

  lemma SameNow(before: string, after: string, x: FileScan, y: FileScan, e: Edit, k: nat, loc: Location, loc': Location)
    requires x.segments == Segments(before) && y.segments == Segments(after) && e.x == x.segments && e.y == y.segments
    requires e.markers == x.markers && e.markers' == y.markers && MarksOf(x.markers) == MarksOf(y.markers)
    requires AgreeAround(e.x, e.y, e.from, e.upTo, e.upTo', e.rest)
             && HaveMoved(e.markers, e.markers', e.from, e.upTo, e.upTo')
    requires AreMovedNested(e.nested, e.nested', e.from, e.upTo, e.upTo')
    requires k < |e.nested| && e.nested[k].start == e.from && e.nested[k].end == e.upTo
    requires loc'.startMarkerLine == loc.startMarkerLine < e.from && e.upTo < loc.endMarkerLine <= |x.segments|
    requires loc'.endMarkerLine == loc.endMarkerLine - e.upTo + e.upTo'
    ensures IsPlace(x, loc) && IsPlace(y, loc') && OutsideNow(x, e.nested, loc) == OutsideNow(y, e.nested', loc')
  {
    EditIsConfined(before, after, e);
    ConfinedSameNow(x, y, e, k, loc, loc');
  }

  lemma ConfinedSameNow(x: FileScan, y: FileScan, e: Edit, k: nat, loc: Location, loc': Location)
    requires e.x == x.segments && e.y == y.segments && e.markers == x.markers && e.markers' == y.markers
             && IsConfined(e)
    requires k < |e.nested| && e.nested[k].start == e.from && e.nested[k].end == e.upTo
    requires loc'.startMarkerLine == loc.startMarkerLine < e.from && e.upTo < loc.endMarkerLine <= |x.segments|
    requires loc'.endMarkerLine == loc.endMarkerLine - e.upTo + e.upTo'
    ensures IsPlace(x, loc) && IsPlace(y, loc') && OutsideNow(x, e.nested, loc) == OutsideNow(y, e.nested', loc')
  {
    hide Outside;
    OutsideUnchanged(e, k, loc.startMarkerLine, loc.endMarkerLine - 1, loc'.endMarkerLine - 1);
    SameOutsideNow(x, y, e.nested, e.nested', loc, loc');
  }

  lemma SameOutsideNow(x: FileScan, y: FileScan, nested: seq<Nested>, nested': seq<Nested>, loc: Location,
                       loc': Location)
    requires IsPlace(x, loc) && IsPlace(y, loc')
    requires Outside(x.segments, x.markers, nested, loc.startMarkerLine, loc.endMarkerLine - 1)
             == Outside(y.segments, y.markers, nested', loc'.startMarkerLine, loc'.endMarkerLine - 1)
    ensures OutsideNow(x, nested, loc) == OutsideNow(y, nested', loc')
  {
    hide Outside;
  }

  lemma ChangeIsAround(x: FileScan, y: FileScan, changed: seq<(nat, nat)>, from: nat, upTo: nat) returns (upTo': nat)
    requires LineRanges.Covers(PlainLines(x.segments), PlainLines(y.segments), changed) && changed != []
    requires PlainLines(x.segments) != PlainLines(y.segments) && AreBetween(changed, from, upTo)
             && 0 < from < upTo <= |x.segments|
    ensures AgreeAround(x.segments, y.segments, from, upTo, upTo', |x.segments| - upTo)
  {
    hide *;
    var p, q := PlainLines(x.segments), PlainLines(y.segments);
    PlainLinesAre(x.segments);
    PlainLinesAre(y.segments);
    ConfinedAgree(p, q, changed, from, upTo);
    OutsideAgrees(p, q, from, upTo);
    upTo' := |q| - (|p| - upTo);
    AgreementAround(x.segments, y.segments, from, upTo, upTo');
  }

  lemma EditIsConfined(before: string, after: string, e: Edit)
    requires e.x == Segments(before) && e.y == Segments(after) && AgreeAround(e.x, e.y, e.from, e.upTo, e.upTo', e.rest)
    requires HaveMoved(e.markers, e.markers', e.from, e.upTo, e.upTo') && MarksOf(e.markers) == MarksOf(e.markers')
    requires AreMovedNested(e.nested, e.nested', e.from, e.upTo, e.upTo')
    ensures IsConfined(e)
  {
    SegmentsJoin(before);
    SegmentsJoin(after);
    forall i | 0 <= i < |e.markers|
      ensures e.markers[i].mark == e.markers'[i].mark
    {
      assert MarksOf(e.markers)[i] == MarksOf(e.markers')[i];
    }
  }

  lemma ParentMoved(x: seq<Marker>, y: seq<Marker>, from: nat, upTo: nat, upTo': nat, a: nat, s: nat, e: nat, b: nat)
    requires AreInOrder(x) && HaveMoved(x, y, from, upTo, upTo') && a < s < e < b < |x| && from == x[s].line
             && upTo == x[e].line
    ensures y[a].line == x[a].line < from && upTo < x[b].line && y[b].line == x[b].line - upTo + upTo'
  {
    assert HasMoved(x[a].line, y[a].line, from, upTo, upTo');
    assert HasMoved(x[b].line, y[b].line, from, upTo, upTo');
  }

  /** The verdicts are the same, and no change means the same content. */
  lemma AllowedKeepsPlace(language: Option<CommentSyntax>, path: string, before: string, after: string,
                          registry: seq<Record>, parent: Record, changed: seq<(nat, nat)>, a: nat, b: nat)
    requires var x, y := ScanFile(language, path, before), ScanFile(language, path, after);
             IsAllowed(registry, x, y, changed) && JudgeOne(parent.id, MarksOf(x.markers)) == At(a, b)
    ensures var x, y := ScanFile(language, path, before), ScanFile(language, path, after);
            && a < b < |x.markers| && b < |y.markers|
            && ResolveOne(parent.id, x) == Resolved(LocationIn(x, a, b))
            && ResolveOne(parent.id, y) == Resolved(LocationIn(y, a, b))
            && AreSamePlace(LocationIn(x, a, b), LocationIn(y, a, b), x.markers, y.markers, a, b)
            && (changed == [] ==> LocationIn(x, a, b).content == LocationIn(y, a, b).content)
  {
    var x, y := ScanFile(language, path, before), ScanFile(language, path, after);
    assert |MarksOf(x.markers)| == |MarksOf(y.markers)|;
    ResolvesIff(parent.id, MarksOf(x.markers), a, b);
    if changed == [] {
      SegmentsJoin(before);
      SegmentsJoin(after);
      SameLinesSameMarkerLines(language, before, after);
      SameLinesSameContent(x, y, a, b);
    }
  }

  /** An allowed write that changes the content was excused by a nested target. */
  lemma ChangeIsExcused(registry: seq<Record>, parent: Record, x: FileScan, y: FileScan, changed: seq<(nat, nat)>,
                        a: nat, b: nat)
    requires IsAllowed(registry, x, y, changed) && a < b < |x.markers| && b < |y.markers|
    requires JudgeOne(parent.id, MarksOf(x.markers)) == At(a, b)
    requires ResolveOne(parent.id, x) == Resolved(LocationIn(x, a, b))
             && ResolveOne(parent.id, y) == Resolved(LocationIn(y, a, b))
    requires FindRecord(registry, parent.id) == Some(parent) && parent.command == Preserve
    requires LocationIn(x, a, b).content != LocationIn(y, a, b).content
    ensures Excused(registry, parent.id, LocationIn(x, a, b), x.markers, changed)
  {
    ResolvesIff(parent.id, MarksOf(x.markers), a, b);
    assert IsEnd(parent.id, Start, MarksOf(x.markers)[a]);
    NoObjectionToAny(registry, x, y, changed, a);
  }

  /** What the verifier compares: the text outside the nested targets. */
  ghost function OutsideText(registry: seq<Record>, parent: Record, file: FileScan): string
    requires IsOrderly(file)
  {
    var r := ResolveOne(parent.id, file);
    if r.Resolved? && IsPlace(file, r.location)
        then OutsideNow(file, NestedAt(registry, parent, file, r.location), r.location) else ""
  }

  /** When a passing preserve command still passes after an allowed write. A write that leaves the content alone is one
      the guard skips: then the content was the checkpoint's, or the text outside the nested targets must stay. A
      write inside one nested target passes when the comparison outside them already passed before it. Any other
      write is judged anew. */
  ghost predicate KeepsPassing(registry: seq<Record>, parent: Record, available: bool, x: FileScan, y: FileScan,
                               changed: seq<(nat, nat)>)
    requires IsOrderly(x) && IsOrderly(y)
    requires ResolveOne(parent.id, x).Resolved? && ResolveOne(parent.id, y).Resolved?
  {
    var held, holds := ResolveOne(parent.id, x).location, ResolveOne(parent.id, y).location;
    if held.content == holds.content then
      held.content == parent.origin.content || OutsideText(registry, parent, y) == OutsideText(registry, parent, x)
    else if HoldsEveryChange(registry, parent, held, x.markers, changed) then
      UnchangedExceptNestedTargets(registry, parent, available, x, held)
    else
      holds.content == parent.origin.content
      || UnchangedExceptNestedTargets(registry, parent, available, y, holds)
  }

  /** The guard implies the verifier exactly under the condition above, for every allowed write to the file of a
      preserved selection whose command passes. */
  lemma GuardImpliesVerifier(language: Option<CommentSyntax>, path: string, before: string, after: string,
                             registry: seq<Record>, parent: Record, available: bool, changed: seq<(nat, nat)>)
    requires var x, y := ScanFile(language, path, before), ScanFile(language, path, after);
             && IsAllowed(registry, x, y, changed)
             && FindRecord(registry, parent.id) == Some(parent) && parent.command == Preserve
             && JudgePreserve(registry, parent, available, x) == Pass
    ensures var x, y := ScanFile(language, path, before), ScanFile(language, path, after);
            && ResolveOne(parent.id, x).Resolved? && ResolveOne(parent.id, y).Resolved?
            && (JudgePreserve(registry, parent, available, y) == Pass
                <==> KeepsPassing(registry, parent, available, x, y, changed))
  {
    hide FindRecord, LocationIn, MarksOf, OutsideText, ScanFile, UnchangedExceptNestedTargets, AreInOrder,
         LineRanges.Covers, HasHit, IsHolder, Objections, Segments, HasEnd, HasOverlap, IsHit, Pairs;
    var x, y := ScanFile(language, path, before), ScanFile(language, path, after);
    var a, b := PassesAt(registry, parent, available, x);
    var loc, loc' := LocationIn(x, a, b), LocationIn(y, a, b);
    AllowedKeepsPlace(language, path, before, after, registry, parent, changed, a, b);
    if loc.content == loc'.content {
      SameContentPasses(registry, parent, available, x, y, a, b);
    } else if HoldsEveryChange(registry, parent, loc, x.markers, changed) {
      HeldChangePasses(language, path, before, after, registry, parent, available, changed, a, b);
    }
  }

  lemma PassesAt(registry: seq<Record>, parent: Record, available: bool, file: FileScan) returns (a: nat, b: nat)
    requires IsOrderly(file) && JudgePreserve(registry, parent, available, file) == Pass
    ensures JudgeOne(parent.id, MarksOf(file.markers)) == At(a, b)
  {
    a, b := JudgeOne(parent.id, MarksOf(file.markers)).start, JudgeOne(parent.id, MarksOf(file.markers)).end;
  }

  /** The condition, when the selection is in the written file. */
  ghost predicate KeepsPassingHere(registry: seq<Record>, parent: Record, available: bool, x: FileScan, y: FileScan,
                                   changed: seq<(nat, nat)>)
    requires IsOrderly(x) && IsOrderly(y)
  {
    HasHit(parent.id, MarksOf(x.markers)) ==>
      && ResolveOne(parent.id, x).Resolved? && ResolveOne(parent.id, y).Resolved?
      && KeepsPassing(registry, parent, available, x, y, changed)
  }

  /** The same in the scan of the whole repository, where the written file replaces the old one: a selection in another
      file keeps passing, and one in this file passes exactly under the same condition. */
  lemma GuardImpliesVerifierInScan(scan: seq<FileScan>, f: nat, language: Option<CommentSyntax>, before: string,
                                   after: string, registry: seq<Record>, parent: Record, available: bool,
                                   changed: seq<(nat, nat)>)
    requires HasDistinctPaths(scan) && f < |scan| && forall g :: 0 <= g < |scan| ==> IsOrderly(scan[g])
    requires scan[f] == ScanFile(language, scan[f].path, before)
    requires IsAllowed(registry, scan[f], ScanFile(language, scan[f].path, after), changed)
    requires FindRecord(registry, parent.id) == Some(parent) && parent.command == Preserve
    requires JudgeInScan(registry, parent, available, scan) == Pass
    ensures var y := ScanFile(language, scan[f].path, after);
            JudgeInScan(registry, parent, available, scan[f := y]) == Pass
            <==> KeepsPassingHere(registry, parent, available, scan[f], y, changed)
  {
    hide KeepsPassing, JudgePreserve, JudgeInScan, HasHit, HasDistinctPaths, JudgeOne, LineRanges.Covers, Objections;
    var x, y := scan[f], ScanFile(language, scan[f].path, after);
    if HasHit(parent.id, MarksOf(x.markers)) {
      PassesInFile(registry, parent, available, scan, f);
      GuardImpliesVerifier(language, x.path, before, after, registry, parent, available, changed);
    }
    ReplacedPasses(registry, parent, available, scan, f, y);
  }

  lemma PassesInFile(registry: seq<Record>, parent: Record, available: bool, scan: seq<FileScan>, f: nat)
    requires HasDistinctPaths(scan) && f < |scan| && forall g :: 0 <= g < |scan| ==> IsOrderly(scan[g])
    requires JudgeInScan(registry, parent, available, scan) == Pass && HasHit(parent.id, MarksOf(scan[f].markers))
    ensures JudgePreserve(registry, parent, available, scan[f]) == Pass
  {
    hide JudgePreserve, HasHit, HasDistinctPaths, JudgeOne, UnchangedExceptNestedTargets;
    var g := ResolvedFile(parent.id, scan);
    JudgeIsLocal(registry, parent, available, scan, g);
  }

  /** A command that passes in a scan still does after one file is replaced, when that file has the same path and marks,
      exactly if it does in that file, should the selection be there. */
  lemma ReplacedPasses(registry: seq<Record>, parent: Record, available: bool, scan: seq<FileScan>, f: nat, y: FileScan)
    requires HasDistinctPaths(scan) && f < |scan| && forall g :: 0 <= g < |scan| ==> IsOrderly(scan[g])
    requires IsOrderly(y) && y.path == scan[f].path && MarksOf(y.markers) == MarksOf(scan[f].markers)
    requires JudgeInScan(registry, parent, available, scan) == Pass
    ensures JudgeInScan(registry, parent, available, scan[f := y]) == Pass
            <==> (HasHit(parent.id, MarksOf(scan[f].markers)) ==> JudgePreserve(registry, parent, available, y) == Pass)
  {
    hide JudgePreserve, HasHit, HasDistinctPaths, JudgeOne, UnchangedExceptNestedTargets;
    var g := ResolvedFile(parent.id, scan);
    JudgeIsLocal(registry, parent, available, scan, g);
    ReplacedScan(scan, f, y);
    JudgeIsLocal(registry, parent, available, scan[f := y], g);
  }

  /** Replacing a file by one with the same path and marks leaves everything where it is. */
  lemma ReplacedScan(scan: seq<FileScan>, f: nat, y: FileScan)
    requires HasDistinctPaths(scan) && f < |scan| && y.path == scan[f].path
    requires MarksOf(y.markers) == MarksOf(scan[f].markers)
    ensures HasDistinctPaths(scan[f := y])
    ensures forall g :: 0 <= g < |scan| ==> scan[f := y][g].path == scan[g].path
    ensures forall g :: 0 <= g < |scan| ==> MarksOf(scan[f := y][g].markers) == MarksOf(scan[g].markers)
  {
  }

  /** A write that changes the content without any nested target holding the change was excused by targets with
      malformed markers only: the guard counts those, the verifier does not. */
  lemma OtherExcusesAreMalformed(registry: seq<Record>, parent: Record, x: FileScan, y: FileScan,
                                 changed: seq<(nat, nat)>)
    requires IsAllowed(registry, x, y, changed)
    requires FindRecord(registry, parent.id) == Some(parent) && parent.command == Preserve
    requires ResolveOne(parent.id, x).Resolved? && ResolveOne(parent.id, y).Resolved?
    requires ResolveOne(parent.id, x).location.content != ResolveOne(parent.id, y).location.content
    requires !HoldsEveryChange(registry, parent, ResolveOne(parent.id, x).location, x.markers, changed)
    ensures exists child :: child in registry && child.command == Target && HasProblem(child.id, MarksOf(x.markers))
    ensures var held := ResolveOne(parent.id, x).location;
            forall child | child in registry && ExcusedBy(child, parent.id, held, x.markers, changed) ::
              HasProblem(child.id, MarksOf(x.markers))
  {
    var a, b := JudgeOne(parent.id, MarksOf(x.markers)).start, JudgeOne(parent.id, MarksOf(x.markers)).end;
    var loc := ResolveOne(parent.id, x).location;
    SameMarksSamePlace(parent.id, x, y, a, b);
    ChangeIsExcused(registry, parent, x, y, changed, a, b);
    var child := ExcuseHasTarget(registry, parent.id, loc, x.markers, changed);
    forall other | other in registry && ExcusedBy(other, parent.id, loc, x.markers, changed)
      ensures HasProblem(other.id, MarksOf(x.markers))
    {
      ExcuseIsHolder(registry, parent, loc, x.markers, changed, other);
    }
  }

  lemma SameMarksSamePlace(id: string, x: FileScan, y: FileScan, a: nat, b: nat)
    requires IsOrderly(x) && IsOrderly(y) && MarksOf(x.markers) == MarksOf(y.markers)
    requires JudgeOne(id, MarksOf(x.markers)) == At(a, b)
    ensures a < b < |x.markers| && b < |y.markers|
    ensures ResolveOne(id, x) == Resolved(LocationIn(x, a, b)) && ResolveOne(id, y) == Resolved(LocationIn(y, a, b))
  {
    assert |MarksOf(x.markers)| == |MarksOf(y.markers)|;
    ResolvesIff(id, MarksOf(x.markers), a, b);
  }

  /** The checkpoint side of the comparison does not depend on where the markers are. */
  lemma SameThen(registry: seq<Record>, parent: Record, x: FileScan, y: FileScan, a: nat, b: nat)
    requires IsOrderly(x) && IsOrderly(y) && a < b < |x.markers| && b < |y.markers|
    requires AreSamePlace(LocationIn(x, a, b), LocationIn(y, a, b), x.markers, y.markers, a, b)
    ensures var n := NestedTargets(registry, parent, LocationIn(x, a, b), x.markers);
            var n' := NestedTargets(registry, parent, LocationIn(y, a, b), y.markers);
            && (n.Some? <==> n'.Some?)
            && (n.Some? ==> (n.value == [] <==> n'.value == []))
            && (n.Some? ==> OutsideThen(parent, n.value) == OutsideThen(parent, n'.value))
  {
    OriginsStay(registry, parent, LocationIn(x, a, b), LocationIn(y, a, b), x.markers, y.markers, a, b);
    var n := NestedTargets(registry, parent, LocationIn(x, a, b), x.markers);
    var n' := NestedTargets(registry, parent, LocationIn(y, a, b), y.markers);
    if n.Some? {
      var lines := PlainLines(Segments(parent.origin.content));
      BaselineStays(lines, parent.origin.startLine, n.value, n'.value, |lines|);
    }
  }

  lemma SameContentPasses(registry: seq<Record>, parent: Record, available: bool, x: FileScan, y: FileScan, a: nat,
                          b: nat)
    requires IsOrderly(x) && IsOrderly(y) && a < b < |x.markers| && b < |y.markers|
    requires ResolveOne(parent.id, x) == Resolved(LocationIn(x, a, b))
             && ResolveOne(parent.id, y) == Resolved(LocationIn(y, a, b))
    requires AreSamePlace(LocationIn(x, a, b), LocationIn(y, a, b), x.markers, y.markers, a, b)
    requires LocationIn(x, a, b).content == LocationIn(y, a, b).content
    requires JudgePreserve(registry, parent, available, x) == Pass
    ensures JudgePreserve(registry, parent, available, y) == Pass
            <==> LocationIn(x, a, b).content == parent.origin.content
                 || OutsideText(registry, parent, y) == OutsideText(registry, parent, x)
  {
    hide OutsideThen, OutsideNow;
    SameThen(registry, parent, x, y, a, b);
  }

  /** A change inside a nested target passes exactly when the comparison outside the targets passed before. */
  lemma HeldChangePasses(language: Option<CommentSyntax>, path: string, before: string, after: string,
                         registry: seq<Record>, parent: Record, available: bool, changed: seq<(nat, nat)>, a: nat,
                         b: nat)
    requires var x, y := ScanFile(language, path, before), ScanFile(language, path, after);
             && IsAllowed(registry, x, y, changed) && JudgeOne(parent.id, MarksOf(x.markers)) == At(a, b)
             && a < b < |x.markers| && b < |y.markers|
             && LocationIn(x, a, b).content != LocationIn(y, a, b).content
             && HoldsEveryChange(registry, parent, LocationIn(x, a, b), x.markers, changed)
             && JudgePreserve(registry, parent, available, x) == Pass
    ensures var x, y := ScanFile(language, path, before), ScanFile(language, path, after);
            JudgePreserve(registry, parent, available, y) == Pass
            <==> UnchangedExceptNestedTargets(registry, parent, available, x, LocationIn(x, a, b))
  {
    hide IsHolder, LocationIn, NestedTargets, OutsideThen, ScanFile, ChildAt, LineRanges.Covers, HasHit, JudgeFile,
         Objections;
    var x, y := ScanFile(language, path, before), ScanFile(language, path, after);
    var loc, loc' := LocationIn(x, a, b), LocationIn(y, a, b);
    AllowedKeepsPlace(language, path, before, after, registry, parent, changed, a, b);
    SameThen(registry, parent, x, y, a, b);
    var child :| child in registry && IsHolder(child, parent, loc, x.markers, changed);
    if NestedTargets(registry, parent, loc, x.markers).Some? {
      TargetChangeKeepsOutside(language, path, before, after, registry, parent, changed, a, b, child);
    }
  }

  // ---------------------------------------------------------------- targets where the checkpoint had them

  /** The nested targets of a preserved selection lie within it at the checkpoint; while it still holds its checkpoint
      content, they sit at their own places in it. */
  ghost predicate HasSoundTargets(registry: seq<Record>, parent: Record, file: FileScan, a: nat, b: nat)
    requires IsOrderly(file) && a < b < |file.markers|
  {
    var loc := LocationIn(file, a, b);
    && NestedTargets(registry, parent, loc, file.markers).Some?
    && (loc.content == parent.origin.content ==>
          SitsAtOrigin(file, a, b, NestedAt(registry, parent, file, loc), parent.origin.startLine))
  }

  /** While a selection holds its checkpoint content, with its nested targets where the checkpoint had them, the
      comparison outside them passes exactly when no line there ends with three carriage returns. */
  lemma HeldContentPasses(registry: seq<Record>, parent: Record, available: bool, file: FileScan, a: nat, b: nat)
    requires IsOrderly(file) && a < b < |file.markers| && HasSoundTargets(registry, parent, file, a, b)
    requires LocationIn(file, a, b).content == parent.origin.content
    ensures var loc := LocationIn(file, a, b);
            var nested := NestedAt(registry, parent, file, loc);
            UnchangedExceptNestedTargets(registry, parent, available, file, loc)
            <==> nested != [] && available && HasPlainOutside(file, a, b, nested)
  {
    hide AreInOrder, UnchangedExceptNestedTargets, NestedTargets, SitsAtOrigin, HasPlainOutside, NormalizeContent;
    var loc := LocationIn(file, a, b);
    LinesInOrder(file.markers, a, b);
    ComparesOutside(registry, parent, available, file, loc);
    PassesOutside(file, a, b, NestedAt(registry, parent, file, loc), parent);
  }

  lemma ComparesOutside(registry: seq<Record>, parent: Record, available: bool, file: FileScan, loc: Location)
    requires NestedTargets(registry, parent, loc, file.markers).Some? && IsPlace(file, loc)
    ensures var nested := NestedAt(registry, parent, file, loc);
            UnchangedExceptNestedTargets(registry, parent, available, file, loc)
            <==> nested != [] && available && OutsideThen(parent, nested) == OutsideNow(file, nested, loc)
  {
    hide NestedTargets, OutsideThen, OutsideNow;
  }

  /** A rewrite that breaks no rule of the guard is an allowed write. */
  lemma UnbrokenIsAllowed(registry: seq<Record>, path: string, language: Option<CommentSyntax>, before: string,
                          after: string, changed: seq<(nat, nat)>)
    requires Enforce.IsJudged(registry, path, language, before, after, changed, [])
    ensures IsAllowed(registry, ScanFile(language, path, before), ScanFile(language, path, after), changed)
  {
    hide LineRanges.AreChanged;
    SameShapeSameMarks(language, before, after);
    LineRanges.ChangedCover(PlainLines(Segments(before)), PlainLines(Segments(after)), changed);
  }
}
