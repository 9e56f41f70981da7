// src/governance/verify.rs: whether a preserved selection is still as it was at its checkpoint,
// except inside the target selections nested in it.
module Verify {
  import opened Anchors
  import opened Markers
  import opened Nesting
  import opened Tracker
  import opened Resolving
  import opened Guard

  datatype Outcome = Pass | Fail | Unresolvable

  /** A target selection inside a preserved one: its marker lines now and its lines at the checkpoint. */
  datatype Nested = Nested(start: nat, end: nat, first: nat, last: nat)

  predicate IsWellEnd(id: string, boundary: Boundary, mark: Mark) { IsEnd(id, boundary, mark) && mark.problem.None? }

  /** The well-formed markers of this end of a selection. */
  function WellEnds(id: string, boundary: Boundary, markers: seq<Marker>, n: nat): (ends: seq<nat>)
    requires n <= |markers|
  {
    if n == 0 then []
    else WellEnds(id, boundary, markers, n - 1) + if IsWellEnd(id, boundary, markers[n - 1].mark) then [n - 1] else []
  }

  /** The markers of a child strictly inside a location, when it has exactly one of each. */
  function ChildAt(child: Record, location: Location, markers: seq<Marker>): Option<(nat, nat)> {
    var starts, ends := WellEnds(child.id, Start, markers, |markers|), WellEnds(child.id, End, markers, |markers|);
    if |starts| == 1 && |ends| == 1 && starts[0] < |markers| && ends[0] < |markers|
       && markers[starts[0]].line > location.startMarkerLine && markers[ends[0]].line < location.endMarkerLine
    then Some((starts[0], ends[0])) else None
  }

  /** A child lies strictly inside its parent at the checkpoint. */
  predicate IsWithin(child: Record, parent: Record) {
    && child.origin.commit == parent.origin.commit && child.origin.path == parent.origin.path
    && parent.origin.startLine < child.origin.startLine && child.origin.endLine < parent.origin.endLine
  }

  predicate IsTargetChild(child: Record, parent: Record) { child.command == Target && child.id != parent.id }

  /** The nested targets of a preserved selection; None when one of them is not within it at the
      checkpoint. */
  function NestedTargets(registry: seq<Record>, parent: Record, location: Location,
                         markers: seq<Marker>): Option<seq<Nested>> {
    if registry == [] then Some([])
    else
      var child := registry[|registry| - 1];
      var before := NestedTargets(registry[..|registry| - 1], parent, location, markers);
      if before.None? || !IsTargetChild(child, parent) then before
      else
        var at := ChildAt(child, location, markers);
        if at.None? then before
        else if !IsWithin(child, parent) then None
        else if at.value.0 < |markers| && at.value.1 < |markers| then
          Some(before.value + [Nested(markers[at.value.0].line, markers[at.value.1].line, child.origin.startLine,
                                      child.origin.endLine)])
        else before
  }

  predicate IsInterior(nested: seq<Nested>, line: nat) {
    nested != [] && (nested[0].start < line < nested[0].end || IsInterior(nested[1..], line))
  }

  predicate IsOriginLine(nested: seq<Nested>, line: nat) {
    nested != [] && (nested[0].first <= line <= nested[0].last || IsOriginLine(nested[1..], line))
  }

  predicate IsSelectionLine(markers: seq<Marker>, line: nat) {
    markers != [] && ((markers[0].mark.kind.Selection? && markers[0].line == line)
                      || IsSelectionLine(markers[1..], line))
  }

  /** The first n lines of the checkpoint content, without those of nested targets. */
  function BaselineOutside(lines: seq<string>, first: nat, nested: seq<Nested>, n: nat): string
    requires n <= |lines|
  {
    if n == 0 then ""
    else BaselineOutside(lines, first, nested, n - 1)
         + if IsOriginLine(nested, first + n - 1) then "" else lines[n - 1] + "\n"
  }

  predicate IsLeftOut(markers: seq<Marker>, nested: seq<Nested>, line: nat) {
    IsSelectionLine(markers, line) || IsInterior(nested, line)
  }

  /** The lines from + 1 .. upTo now, without marker lines and the interior of nested targets. */
  function Outside(segments: seq<string>, markers: seq<Marker>, nested: seq<Nested>, from: nat, upTo: nat): string
    requires from <= upTo <= |segments|
    decreases upTo
  {
    if from == upTo then ""
    else Outside(segments, markers, nested, from, upTo - 1)
         + if IsLeftOut(markers, nested, upTo) then "" else Content(segments[upTo - 1]) + "\n"
  }

  predicate IsPlace(file: FileScan, location: Location) {
    location.startMarkerLine >= 0 && location.startMarkerLine < location.endMarkerLine <= |file.segments|
  }

  /** Everything outside the nested targets, now. */
  function OutsideNow(file: FileScan, nested: seq<Nested>, location: Location): string
    requires IsPlace(file, location)
  {
    NormalizeContent(Outside(file.segments, file.markers, nested, location.startMarkerLine, location.endMarkerLine - 1))
  }

  /** Everything outside the nested targets, at the checkpoint. */
  function OutsideThen(parent: Record, nested: seq<Nested>): string {
    var lines := PlainLines(Segments(parent.origin.content));
    NormalizeContent(BaselineOutside(lines, parent.origin.startLine, nested, |lines|))
  }

  predicate UnchangedExceptNestedTargets(registry: seq<Record>, parent: Record, available: bool, file: FileScan,
                                         location: Location) {
    var nested := NestedTargets(registry, parent, location, file.markers);
    && nested.Some? && nested.value != [] && available && IsPlace(file, location)
    && OutsideThen(parent, nested.value) == OutsideNow(file, nested.value, location)
  }

  /** Evaluate a preserve command. The checkpoint content is available when its commit is there and
      still matches the signed digest. */
  ghost function JudgePreserve(registry: seq<Record>, parent: Record, available: bool, file: FileScan): Outcome
    requires IsOrderly(file)
  {
    var r := ResolveOne(parent.id, file);
    if r.Unresolved? then Unresolvable
    else if r.location.content == parent.origin.content then Pass
    else if UnchangedExceptNestedTargets(registry, parent, available, file, r.location) then Pass
    else Fail
  }

  // ---------------------------------------------------------------- which targets are nested

  lemma {:induction false} WellEndsAre(id: string, boundary: Boundary, markers: seq<Marker>, n: nat)
    requires n <= |markers|
    ensures forall i :: 0 <= i < |WellEnds(id, boundary, markers, n)| ==>
              && WellEnds(id, boundary, markers, n)[i] < n
              && IsWellEnd(id, boundary, markers[WellEnds(id, boundary, markers, n)[i]].mark)
    ensures forall k :: 0 <= k < n && IsWellEnd(id, boundary, markers[k].mark) ==>
              k in WellEnds(id, boundary, markers, n)
    ensures forall i, j :: 0 <= i < j < |WellEnds(id, boundary, markers, n)| ==>
              WellEnds(id, boundary, markers, n)[i] < WellEnds(id, boundary, markers, n)[j]
  {
    hide IsWellEnd;
    if n > 0 { WellEndsAre(id, boundary, markers, n - 1); }
  }

  /** Marker a is the one well-formed marker of this end of a selection. */
  ghost predicate IsOnlyWellEnd(id: string, boundary: Boundary, markers: seq<Marker>, a: nat) {
    a < |markers| && forall k :: 0 <= k < |markers| ==> (IsWellEnd(id, boundary, markers[k].mark) <==> k == a)
  }

  lemma OnlyWellEndIs(id: string, boundary: Boundary, markers: seq<Marker>, a: nat)
    ensures IsOnlyWellEnd(id, boundary, markers, a) <==> WellEnds(id, boundary, markers, |markers|) == [a]
  {
    hide IsWellEnd, WellEnds;
    var ends := WellEnds(id, boundary, markers, |markers|);
    WellEndsAre(id, boundary, markers, |markers|);
    assert |ends| > 1 ==> ends[0] < ends[1];
    if IsOnlyWellEnd(id, boundary, markers, a) {
      assert a in ends;
      assert forall i :: 0 <= i < |ends| ==> ends[i] == a;
    }
    if ends == [a] {
      assert ends[0] == a;
      assert forall k :: k in ends <==> k == a;
    }
  }

  /** A child is inside a location when it has one well-formed marker of each end, both strictly inside. */
  lemma ChildMeans(child: Record, location: Location, markers: seq<Marker>, a: nat, b: nat)
    ensures ChildAt(child, location, markers) == Some((a, b))
            <==> && IsOnlyWellEnd(child.id, Start, markers, a) && IsOnlyWellEnd(child.id, End, markers, b)
                 && markers[a].line > location.startMarkerLine && markers[b].line < location.endMarkerLine
  {
    hide WellEnds, IsOnlyWellEnd;
    OnlyWellEndIs(child.id, Start, markers, a);
    OnlyWellEndIs(child.id, End, markers, b);
    OnlyEndsFit(child.id, Start, markers, a);
    OnlyEndsFit(child.id, End, markers, b);
  }

  lemma OnlyEndsFit(id: string, boundary: Boundary, markers: seq<Marker>, a: nat)
    ensures IsOnlyWellEnd(id, boundary, markers, a) ==> a < |markers|
  {
  }

  /** Record i of the registry is a target inside the location of another selection. */
  predicate IsInside(registry: seq<Record>, i: nat, parent: Record, location: Location, markers: seq<Marker>) {
    i < |registry| && IsTargetChild(registry[i], parent) && ChildAt(registry[i], location, markers).Some?
  }

  /** The nested target that a record stands for. */
  function NestedOf(child: Record, location: Location, markers: seq<Marker>): Nested
    requires ChildAt(child, location, markers).Some?
  {
    var at := ChildAt(child, location, markers).value;
    Nested(markers[at.0].line, markers[at.1].line, child.origin.startLine, child.origin.endLine)
  }

  /** At the checkpoint the child is elsewhere, or not strictly inside its parent. */
  predicate IsForeign(child: Record, parent: Record) {
    || child.origin.commit != parent.origin.commit || child.origin.path != parent.origin.path
    || child.origin.startLine <= parent.origin.startLine || parent.origin.endLine <= child.origin.endLine
  }

  ghost predicate HasForeign(registry: seq<Record>, parent: Record, location: Location, markers: seq<Marker>) {
    exists i: nat :: IsInside(registry, i, parent, location, markers) && IsForeign(registry[i], parent)
  }

  ghost predicate IsNestedIn(registry: seq<Record>, parent: Record, location: Location, markers: seq<Marker>,
                             nested: Nested) {
    exists i: nat :: IsInside(registry, i, parent, location, markers)
                     && nested == NestedOf(registry[i], location, markers)
  }

  /** One foreign target inside, and there is nothing to compare. Otherwise the nested targets are the ones inside, each
      with its marker lines and its checkpoint lines. */
  lemma {:induction false} NestedMeans(registry: seq<Record>, parent: Record, location: Location, markers: seq<Marker>)
    ensures NestedTargets(registry, parent, location, markers).None?
            <==> HasForeign(registry, parent, location, markers)
    ensures var nested := NestedTargets(registry, parent, location, markers);
            nested.Some? ==>
              forall y :: y in nested.value <==> IsNestedIn(registry, parent, location, markers, y)
  {
    if registry != [] {
      hide ChildAt, IsTargetChild, HasForeign, IsNestedIn;
      var rest, last := registry[..|registry| - 1], |registry| - 1;
      NestedMeans(rest, parent, location, markers);
      ForeignStep(registry, parent, location, markers);
      forall y
        ensures IsNestedIn(registry, parent, location, markers, y)
                <==> || IsNestedIn(rest, parent, location, markers, y)
                     || (IsInside(registry, last, parent, location, markers)
                         && y == NestedOf(registry[last], location, markers))
      {
        NestedStep(registry, parent, location, markers, y);
      }
    }
  }

  ghost predicate HasInside(registry: seq<Record>, parent: Record, location: Location, markers: seq<Marker>) {
    exists i: nat :: IsInside(registry, i, parent, location, markers)
  }

  /** When a preserve command passes: it holds its checkpoint content, or some target is inside, none is foreign, the
      checkpoint is available, and everything outside the targets reads as it did. It is unresolved exactly when its
      selection is. */
  lemma JudgeMeans(registry: seq<Record>, parent: Record, available: bool, file: FileScan)
    requires IsOrderly(file)
    ensures JudgePreserve(registry, parent, available, file) == Unresolvable
            <==> ResolveOne(parent.id, file).Unresolved?
    ensures ResolveOne(parent.id, file).Resolved? ==>
              var at := ResolveOne(parent.id, file).location;
              JudgePreserve(registry, parent, available, file) == Pass
              <==> || at.content == parent.origin.content
                   || (available && HasInside(registry, parent, at, file.markers)
                       && !HasForeign(registry, parent, at, file.markers) && IsPlace(file, at)
                       && var nested := NestedTargets(registry, parent, at, file.markers);
                          nested.Some? && OutsideThen(parent, nested.value) == OutsideNow(file, nested.value, at))
  {
    hide ResolveOne, OutsideThen, OutsideNow, NestedTargets, IsInside, HasForeign;
    if ResolveOne(parent.id, file).Resolved? {
      var at := ResolveOne(parent.id, file).location;
      NestedMeans(registry, parent, at, file.markers);
      if NestedTargets(registry, parent, at, file.markers).Some? {
        SomeIsInside(registry, parent, at, file.markers);
      }
    }
  }

  lemma SomeIsInside(registry: seq<Record>, parent: Record, location: Location, markers: seq<Marker>)
    requires NestedTargets(registry, parent, location, markers).Some?
    ensures HasInside(registry, parent, location, markers)
            <==> NestedTargets(registry, parent, location, markers).value != []
  {
    hide NestedTargets, IsInside, NestedOf;
    var nested := NestedTargets(registry, parent, location, markers).value;
    NestedMeans(registry, parent, location, markers);
    if nested != [] { assert IsNestedIn(registry, parent, location, markers, nested[0]); }
    if i: nat :| IsInside(registry, i, parent, location, markers) {
      InsideIsChild(registry, i, parent, location, markers);
      assert IsNestedIn(registry, parent, location, markers, NestedOf(registry[i], location, markers));
    }
  }

  lemma InsideIsChild(registry: seq<Record>, i: nat, parent: Record, location: Location, markers: seq<Marker>)
    requires IsInside(registry, i, parent, location, markers)
    ensures i < |registry| && ChildAt(registry[i], location, markers).Some?
  {
  }

  lemma InsideStep(registry: seq<Record>, i: nat, parent: Record, location: Location, markers: seq<Marker>)
    requires i < |registry| - 1
    ensures IsInside(registry, i, parent, location, markers)
            <==> IsInside(registry[..|registry| - 1], i, parent, location, markers)
  {
  }

  lemma ForeignStep(registry: seq<Record>, parent: Record, location: Location, markers: seq<Marker>)
    requires registry != []
    ensures var last := |registry| - 1;
            HasForeign(registry, parent, location, markers)
            <==> || HasForeign(registry[..last], parent, location, markers)
                 || (IsInside(registry, last, parent, location, markers) && IsForeign(registry[last], parent))
  {
    hide ChildAt, IsTargetChild, IsForeign;
    var rest := registry[..|registry| - 1];
    if HasForeign(registry, parent, location, markers) {
      var i: nat :| IsInside(registry, i, parent, location, markers) && IsForeign(registry[i], parent);
      if i < |rest| { assert IsInside(rest, i, parent, location, markers) && IsForeign(rest[i], parent); }
    }
    if HasForeign(rest, parent, location, markers) {
      var i: nat :| IsInside(rest, i, parent, location, markers) && IsForeign(rest[i], parent);
      assert IsInside(registry, i, parent, location, markers);
    }
  }

  lemma NestedStep(registry: seq<Record>, parent: Record, location: Location, markers: seq<Marker>, y: Nested)
    requires registry != []
    ensures var last := |registry| - 1;
            IsNestedIn(registry, parent, location, markers, y)
            <==> || IsNestedIn(registry[..last], parent, location, markers, y)
                 || (IsInside(registry, last, parent, location, markers)
                     && y == NestedOf(registry[last], location, markers))
  {
    hide ChildAt, IsTargetChild, NestedOf;
    var rest := registry[..|registry| - 1];
    if IsNestedIn(registry, parent, location, markers, y) {
      var i: nat :| IsInside(registry, i, parent, location, markers) && y == NestedOf(registry[i], location, markers);
      if i < |rest| { assert IsInside(rest, i, parent, location, markers); }
    }
    if IsNestedIn(rest, parent, location, markers, y) {
      var i: nat :| IsInside(rest, i, parent, location, markers) && y == NestedOf(rest[i], location, markers);
      assert IsInside(registry, i, parent, location, markers);
    }
  }

  // ---------------------------------------------------------------- the command in the repository scan

  /** A scan keeps the texts of its files by path. */
  ghost predicate HasDistinctPaths(scan: seq<FileScan>) {
    forall f, g :: 0 <= f < g < |scan| ==> scan[f].path != scan[g].path
  }

  /** The number of the file with a path, or how many files there are. */
  function FileAt(scan: seq<FileScan>, path: string): (f: nat)
    ensures f <= |scan| && (f < |scan| ==> scan[f].path == path)
  {
    if scan == [] || scan[0].path == path then 0 else 1 + FileAt(scan[1..], path)
  }

  lemma {:induction false} FileAtIs(scan: seq<FileScan>, f: nat)
    requires HasDistinctPaths(scan) && f < |scan|
    ensures FileAt(scan, scan[f].path) == f
  {
    if f > 0 {
      FileAtIs(scan[1..], f - 1);
    }
  }

  /** Evaluate a preserve command in a scan: resolve there, then compare in the file where the selection is. */
  ghost function JudgeInScan(registry: seq<Record>, parent: Record, available: bool, scan: seq<FileScan>): Outcome
    requires forall f :: 0 <= f < |scan| ==> IsOrderly(scan[f])
  {
    var r := Resolve(parent.id, scan);
    if r.Unresolved? then Unresolvable
    else if r.location.content == parent.origin.content then Pass
    else
      var f := FileAt(scan, r.location.path);
      if f < |scan| && UnchangedExceptNestedTargets(registry, parent, available, scan[f], r.location) then Pass
      else Fail
  }

  /** A resolved selection is in the only file that holds its identifier. */
  lemma ResolvedFile(id: string, scan: seq<FileScan>) returns (f: nat)
    requires HasDistinctPaths(scan) && forall g :: 0 <= g < |scan| ==> IsOrderly(scan[g])
    requires Resolve(id, scan).Resolved?
    ensures f < |scan| && HasHit(id, MarksOf(scan[f].markers)) && Resolve(id, scan) == ResolveOne(id, scan[f])
    ensures forall g :: 0 <= g < |scan| && g != f ==> !HasHit(id, MarksOf(scan[g].markers))
    ensures FileAt(scan, Resolve(id, scan).location.path) == f
  {
    hide HasDistinctPaths, HasHit, JudgeOne;
    f := HitFile(id, MarksOfAll(scan));
    ResolveIsLocal(id, scan, f);
    FileAtIs(scan, f);
  }

  /** A command whose selection is in one file only is judged as in that file. */
  lemma JudgeIsLocal(registry: seq<Record>, parent: Record, available: bool, scan: seq<FileScan>, f: nat)
    requires HasDistinctPaths(scan) && forall g :: 0 <= g < |scan| ==> IsOrderly(scan[g])
    requires f < |scan| && HasHit(parent.id, MarksOf(scan[f].markers))
    requires forall g :: 0 <= g < |scan| && g != f ==> !HasHit(parent.id, MarksOf(scan[g].markers))
    ensures JudgeInScan(registry, parent, available, scan) == JudgePreserve(registry, parent, available, scan[f])
  {
    hide HasDistinctPaths, HasHit, JudgeOne, UnchangedExceptNestedTargets;
    ResolveIsLocal(parent.id, scan, f);
    FileAtIs(scan, f);
  }

  // ---------------------------------------------------------------- evaluating a command

  lemma {:induction false} NoneStays(registry: seq<Record>, n: nat, parent: Record, location: Location,
                                     markers: seq<Marker>)
    requires n <= |registry| && NestedTargets(registry[..n], parent, location, markers).None?
    ensures NestedTargets(registry, parent, location, markers).None?
    decreases |registry|
  {
    if n == |registry| {
      assert registry[..n] == registry;
    } else {
      assert registry[..|registry| - 1][..n] == registry[..n];
      NoneStays(registry[..|registry| - 1], n, parent, location, markers);
    }
  }

  method FindNested(registry: seq<Record>, parent: Record, location: Location, markers: seq<Marker>)
    returns (nested: Option<seq<Nested>>)
    ensures nested == NestedTargets(registry, parent, location, markers)
  {
    var found: seq<Nested> := [];
    for n := 0 to |registry|
      invariant NestedTargets(registry[..n], parent, location, markers) == Some(found)
    {
      var child := registry[n];
      assert registry[..n + 1][..n] == registry[..n];
      if IsTargetChild(child, parent) {
        var at := ChildAt(child, location, markers);
        if at.Some? {
          if !IsWithin(child, parent) {
            NoneStays(registry, n + 1, parent, location, markers);
            return None;
          }
          found := found + [Nested(markers[at.value.0].line, markers[at.value.1].line, child.origin.startLine,
                                   child.origin.endLine)];
        }
      }
    }
    assert registry[..|registry|] == registry;
    nested := Some(found);
  }

  method ProjectBaseline(lines: seq<string>, first: nat, nested: seq<Nested>) returns (text: string)
    ensures text == BaselineOutside(lines, first, nested, |lines|)
  {
    text := "";
    for index := 0 to |lines|
      invariant text == BaselineOutside(lines, first, nested, index)
    {
      if !IsOriginLine(nested, first + index) {
        text := text + (lines[index] + "\n");
      } else {
        assert text + "" == text;
      }
    }
  }

  method ProjectCurrent(segments: seq<string>, markers: seq<Marker>, nested: seq<Nested>, from: nat, upTo: nat)
    returns (text: string)
    requires from <= upTo <= |segments|
    ensures text == Outside(segments, markers, nested, from, upTo)
  {
    text := "";
    for number := from to upTo
      invariant text == Outside(segments, markers, nested, from, number)
    {
      if !IsLeftOut(markers, nested, number + 1) {
        text := text + (Content(segments[number]) + "\n");
      } else {
        assert text + "" == text;
      }
    }
  }

  method CheckOutside(registry: seq<Record>, parent: Record, available: bool, file: FileScan, location: Location)
    returns (same: bool)
    requires IsPlace(file, location)
    ensures same == UnchangedExceptNestedTargets(registry, parent, available, file, location)
  {
    hide Outside;
    var nested := FindNested(registry, parent, location, file.markers);
    if nested.None? || nested.value == [] || !available { return false; }
    var then_ := ProjectBaseline(PlainLines(Segments(parent.origin.content)), parent.origin.startLine, nested.value);
    var now := ProjectCurrent(file.segments, file.markers, nested.value, location.startMarkerLine,
                              location.endMarkerLine - 1);
    same := NormalizeContent(then_) == NormalizeContent(now);
  }

  lemma ResolvedPlace(id: string, file: FileScan)
    requires IsOrderly(file) && ResolveOne(id, file).Resolved?
    ensures IsPlace(file, ResolveOne(id, file).location)
  {
    var verdict := JudgeOne(id, MarksOf(file.markers));
    ResolvesIff(id, MarksOf(file.markers), verdict.start, verdict.end);
  }

  method FindFile(scan: seq<FileScan>, path: string) returns (f: nat)
    ensures f == FileAt(scan, path)
  {
    f := 0;
    while f < |scan| && scan[f].path != path
      invariant f <= |scan| && FileAt(scan, path) == f + FileAt(scan[f..], path)
    {
      assert scan[f..][1..] == scan[f + 1..];
      f := f + 1;
    }
  }

  /** Evaluate a preserve command in a scan of the repository. */
  method Evaluate(registry: seq<Record>, parent: Record, available: bool, scan: seq<FileScan>,
                  ghost lineMarks: seq<seq<Option<Mark>>>) returns (outcome: Outcome)
    requires |lineMarks| == |scan| && HasDistinctPaths(scan) && forall f :: 0 <= f < |scan| ==> IsOrderly(scan[f])
    requires forall f :: 0 <= f < |scan| ==> IsScanned(lineMarks[f], scan[f].segments, scan[f].markers)
    ensures outcome == JudgeInScan(registry, parent, available, scan)
  {
    hide HasDistinctPaths, IsScanned, UnchangedExceptNestedTargets, IsPlace, JudgeOne;
    var r := ResolveScan(parent.id, scan, lineMarks);
    if r.Unresolved? { return Unresolvable; }
    if r.location.content == parent.origin.content { return Pass; }
    var f := FindFile(scan, r.location.path);
    ghost var g := ResolvedFile(parent.id, scan);
    ResolvedPlace(parent.id, scan[f]);
    var same := CheckOutside(registry, parent, available, scan[f], r.location);
    outcome := if same then Pass else Fail;
  }
}
