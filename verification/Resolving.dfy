// src/selection/tracker.rs, resolve: the steps that find out where a selection is.
module Resolving {
  import opened Anchors
  import opened Markers
  import opened Nesting
  import opened Tracker

  /** The markers of a selection in the files before f and, in file f, before marker n. */
  ghost predicate AreHits(id: string, scan: seq<FileScan>, hits: seq<(nat, nat)>, f: nat, n: nat) {
    && (forall k :: 0 <= k < |hits| ==>
          IsHitAt(id, scan, hits[k]) && (hits[k].0 < f || (hits[k].0 == f && hits[k].1 < n)))
    && (forall g: nat, i: nat :: IsHitAt(id, scan, (g, i)) && (g < f || (g == f && i < n)) ==> (g, i) in hits)
  }

  predicate IsHitAt(id: string, scan: seq<FileScan>, hit: (nat, nat)) {
    hit.0 < |scan| && hit.1 < |scan[hit.0].markers| && IsHit(id, scan[hit.0].markers[hit.1].mark)
  }

  /** Every marker with the identifier, as file and position. */
  method Hits(id: string, scan: seq<FileScan>) returns (hits: seq<(nat, nat)>)
    ensures AreHits(id, scan, hits, |scan|, 0)
  {
    hits := [];
    for f := 0 to |scan|
      invariant AreHits(id, scan, hits, f, 0)
    {
      for n := 0 to |scan[f].markers|
        invariant AreHits(id, scan, hits, f, n)
      {
        if IsHit(id, scan[f].markers[n].mark) {
          hits := hits + [(f, n)];
        }
      }
    }
  }

  /** Whether some hit is malformed, and whether the hits are in several files. */
  method Inspect(id: string, scan: seq<FileScan>, hits: seq<(nat, nat)>) returns (malformed: bool, scattered: bool)
    requires hits != [] && AreHits(id, scan, hits, |scan|, 0)
    ensures malformed <==> exists f :: 0 <= f < |scan| && HasProblem(id, MarksOf(scan[f].markers))
    ensures scattered <==> exists f, g ::
              0 <= f < g < |scan| && HasHit(id, MarksOf(scan[f].markers)) && HasHit(id, MarksOf(scan[g].markers))
  {
    malformed, scattered := false, false;
    for k := 0 to |hits|
      invariant malformed <==> exists j :: 0 <= j < k && scan[hits[j].0].markers[hits[j].1].mark.problem.Some?
      invariant scattered <==> exists j :: 0 <= j < k && hits[j].0 != hits[0].0
    {
      var hit := hits[k];
      malformed := malformed || scan[hit.0].markers[hit.1].mark.problem.Some?;
      scattered := scattered || hit.0 != hits[0].0;
    }
    HitsTell(id, scan, hits);
  }

  lemma HitsTell(id: string, scan: seq<FileScan>, hits: seq<(nat, nat)>)
    requires hits != [] && AreHits(id, scan, hits, |scan|, 0)
    ensures (exists j :: 0 <= j < |hits| && scan[hits[j].0].markers[hits[j].1].mark.problem.Some?)
            <==> exists f :: 0 <= f < |scan| && HasProblem(id, MarksOf(scan[f].markers))
    ensures (exists j :: 0 <= j < |hits| && hits[j].0 != hits[0].0)
            <==> exists f, g ::
                   0 <= f < g < |scan| && HasHit(id, MarksOf(scan[f].markers)) && HasHit(id, MarksOf(scan[g].markers))
  {
    forall j | 0 <= j < |hits|
      ensures IsHitAt(id, scan, hits[j]) && HasHit(id, MarksOf(scan[hits[j].0].markers))
      ensures scan[hits[j].0].markers[hits[j].1].mark.problem.Some? ==> HasProblem(id, MarksOf(scan[hits[j].0].markers))
    {
      var marks := MarksOf(scan[hits[j].0].markers);
      assert IsHit(id, marks[hits[j].1]);
    }
    forall f | 0 <= f < |scan| && HasHit(id, MarksOf(scan[f].markers))
      ensures exists j :: 0 <= j < |hits| && hits[j].0 == f
    {
      var i :| 0 <= i < |MarksOf(scan[f].markers)| && IsHit(id, MarksOf(scan[f].markers)[i]);
      assert IsHitAt(id, scan, (f, i));
      assert (f, i) in hits;
    }
    forall f | 0 <= f < |scan| && HasProblem(id, MarksOf(scan[f].markers))
      ensures exists j :: 0 <= j < |hits| && scan[hits[j].0].markers[hits[j].1].mark.problem.Some?
    {
      var marks := MarksOf(scan[f].markers);
      var i :| 0 <= i < |marks| && IsHit(id, marks[i]) && marks[i].problem.Some?;
      assert IsHitAt(id, scan, (f, i));
      assert (f, i) in hits;
    }
  }

  /** The start or the end markers of a selection in one file. */
  method Ends(id: string, boundary: Boundary, markers: seq<Marker>) returns (ends: seq<nat>)
    ensures |ends| == 0 <==> !HasEnd(id, boundary, MarksOf(markers))
    ensures |ends| > 1 <==> HasTwoEnds(id, boundary, MarksOf(markers))
    ensures |ends| == 1 ==> ends[0] == TheEnd(id, boundary, MarksOf(markers))
  {
    ghost var marks := MarksOf(markers);
    ends := [];
    for n := 0 to |markers|
      invariant forall k :: 0 <= k < |ends| ==> ends[k] < n && IsEnd(id, boundary, marks[ends[k]])
      invariant forall j, k :: 0 <= j < k < |ends| ==> ends[j] < ends[k]
      invariant forall i :: 0 <= i < n && IsEnd(id, boundary, marks[i]) ==> i in ends
    {
      if IsEnd(id, boundary, markers[n].mark) {
        ends := ends + [n];
      }
    }
    if |ends| > 1 {
      assert IsEnd(id, boundary, marks[ends[0]]) && IsEnd(id, boundary, marks[ends[1]]);
    }
    if |ends| == 1 {
      assert IsEnd(id, boundary, marks[ends[0]]);
    }
  }

  /** The selection is one of the intervals. */
  method IsMatched(id: string, markers: seq<Marker>, a: nat, b: nat, intervals: seq<(string, nat, nat)>)
    returns (matched: bool)
    requires AreIntervalsOf(markers, |markers|, intervals) && AreInOrder(markers) && a < |markers| && b < |markers|
    requires markers[a].mark.id == Some(id)
    ensures matched <==> (a, b) in Pairs(MarksOf(markers))
  {
    matched := false;
    for k := 0 to |intervals|
      invariant matched <==> exists j :: 0 <= j < k && intervals[j] == (id, markers[a].line, markers[b].line)
    {
      matched := matched || intervals[k] == (id, markers[a].line, markers[b].line);
    }
    if matched {
      var j :| 0 <= j < |intervals| && intervals[j] == (id, markers[a].line, markers[b].line);
      assert IsInterval(markers, Pairs(MarksOf(markers)), intervals[j]);
    }
    if (a, b) in Pairs(MarksOf(markers)) {
      assert IntervalOf(markers, (a, b)) in intervals;
    }
  }

  predicate CrossesLines(from: nat, upTo: nat, other: (string, nat, nat)) {
    (from < other.1 < upTo && upTo < other.2) || (other.1 < from < other.2 && other.2 < upTo)
  }

  /** The selection partially overlaps an interval of another one. */
  method IsOverlapped(id: string, markers: seq<Marker>, a: nat, b: nat, intervals: seq<(string, nat, nat)>)
    returns (overlapped: bool)
    requires AreIntervalsOf(markers, |markers|, intervals) && AreInOrder(markers) && a < |markers| && b < |markers|
    ensures overlapped <==> HasOverlap(id, MarksOf(markers), (a, b))
  {
    overlapped := false;
    for k := 0 to |intervals|
      invariant overlapped <==> exists j :: 0 <= j < k && IsOther(id, markers[a].line, markers[b].line, intervals[j])
    {
      overlapped := overlapped || IsOther(id, markers[a].line, markers[b].line, intervals[k]);
    }
    OverlapInLines(id, markers, a, b, intervals);
  }

  lemma OverlapInLines(id: string, markers: seq<Marker>, a: nat, b: nat, intervals: seq<(string, nat, nat)>)
    requires AreIntervalsOf(markers, |markers|, intervals) && AreInOrder(markers) && a < |markers| && b < |markers|
    ensures (exists j :: 0 <= j < |intervals| && IsOther(id, markers[a].line, markers[b].line, intervals[j]))
            <==> HasOverlap(id, MarksOf(markers), (a, b))
  {
    var marks := MarksOf(markers);
    forall j | 0 <= j < |intervals| && IsOther(id, markers[a].line, markers[b].line, intervals[j])
      ensures HasOverlap(id, marks, (a, b))
    {
      assert IsInterval(markers, Pairs(marks), intervals[j]);
      var y :| y in Pairs(marks) && y.0 < |markers| && y.1 < |markers| && IntervalOf(markers, y) == intervals[j];
      OtherPair(id, markers, a, b, y);
      assert marks[y.0].id != Some(id) && Crosses((a, b), y);
    }
    if HasOverlap(id, marks, (a, b)) {
      var y :| y in Pairs(marks) && marks[y.0].id != Some(id) && Crosses((a, b), y);
      OtherPair(id, markers, a, b, y);
      assert IntervalOf(markers, y) in intervals;
    }
  }

  /** Crossing by line is crossing by position. */
  lemma OtherPair(id: string, markers: seq<Marker>, a: nat, b: nat, y: (nat, nat))
    requires AreInOrder(markers) && a < |markers| && b < |markers| && y in Pairs(MarksOf(markers))
    ensures y.0 < |markers| && y.1 < |markers|
    ensures IsOther(id, markers[a].line, markers[b].line, IntervalOf(markers, y))
            <==> markers[y.0].mark.id != Some(id) && Crosses((a, b), y)
  {
    PairJoins(MarksOf(markers), |markers|, y.0, y.1);
    assert MarksOf(markers)[y.0] == markers[y.0].mark;
    LineOrder(markers, a, y.0);
    LineOrder(markers, y.0, b);
    LineOrder(markers, b, y.1);
    LineOrder(markers, a, y.1);
  }

  lemma LineOrder(markers: seq<Marker>, i: nat, j: nat)
    requires AreInOrder(markers) && i < |markers| && j < |markers|
    ensures markers[i].line < markers[j].line <==> i < j
    ensures markers[j].line < markers[i].line <==> j < i
  {
  }

  predicate IsOther(id: string, from: nat, upTo: nat, interval: (string, nat, nat)) {
    interval.0 != id && CrossesLines(from, upTo, interval)
  }

  /** Resolve a selection in one file, none of its markers malformed. */
  method ResolveInFile(id: string, file: FileScan, ghost marks: seq<Option<Mark>>) returns (r: Resolution)
    requires IsScanned(marks, file.segments, file.markers) && IsOrderly(file)
    ensures var verdict := JudgeFile(id, MarksOf(file.markers));
            if verdict.At? then
              && verdict.start < verdict.end < |file.markers|
              && r == Resolved(LocationIn(file, verdict.start, verdict.end))
            else r == Unresolved(verdict)
  {
    hide IsScanned, HasEnd;
    var starts := Ends(id, Start, file.markers);
    var ends := Ends(id, End, file.markers);
    if |starts| == 0 || |ends| == 0 { return Unresolved(Unmatched); }
    if |starts| > 1 || |ends| > 1 { return Unresolved(Duplicated); }
    var a, b := starts[0], ends[0];
    if file.markers[a].line >= file.markers[b].line { return Unresolved(Inverted); }
    var intervals := SelectionIntervals(file.markers);
    var matched := IsMatched(id, file.markers, a, b, intervals);
    if !matched { return Unresolved(Crossed); }
    var overlapped := IsOverlapped(id, file.markers, a, b, intervals);
    if overlapped { return Unresolved(Overlap); }
    var content := ProjectedContent(Join(file.segments), file.markers, a, b, intervals, file.segments, marks);
    var start, end := file.markers[a], file.markers[b];
    r := Resolved(Location(file.path, start.line + 1, end.line - 1, start.end, end.start, content, start.line,
                           end.line));
  }

  /** Resolve a selection in a scan. */
  method ResolveScan(id: string, scan: seq<FileScan>, ghost lineMarks: seq<seq<Option<Mark>>>) returns (r: Resolution)
    requires |lineMarks| == |scan| && forall f :: 0 <= f < |scan| ==> IsOrderly(scan[f])
    requires forall f :: 0 <= f < |scan| ==> IsScanned(lineMarks[f], scan[f].segments, scan[f].markers)
    ensures r == Resolve(id, scan)
  {
    var hits := Hits(id, scan);
    if hits == [] {
      NoHits(id, scan);
      return Unresolved(Missing);
    }
    var malformed, scattered := Inspect(id, scan, hits);
    var f := hits[0].0;
    JudgedByHits(id, scan, hits, malformed, scattered);
    if malformed { return Unresolved(Verdict.Malformed); }
    if scattered { return Unresolved(DuplicatedFiles); }
    r := ResolveInFile(id, scan[f], lineMarks[f]);
  }

  lemma JudgedByHits(id: string, scan: seq<FileScan>, hits: seq<(nat, nat)>, malformed: bool, scattered: bool)
    requires hits != [] && AreHits(id, scan, hits, |scan|, 0)
    requires malformed <==> exists f :: 0 <= f < |scan| && HasProblem(id, MarksOf(scan[f].markers))
    requires scattered <==> exists f, g ::
               0 <= f < g < |scan| && HasHit(id, MarksOf(scan[f].markers)) && HasHit(id, MarksOf(scan[g].markers))
    ensures IsHitAt(id, scan, hits[0]) && HitSomewhere(id, MarksOfAll(scan))
    ensures Judge(id, MarksOfAll(scan))
            == if malformed then Verdict.Malformed else if scattered then DuplicatedFiles
               else JudgeFile(id, MarksOf(scan[hits[0].0].markers))
    ensures !scattered ==> HitFile(id, MarksOfAll(scan)) == hits[0].0
  {
    hide HasEnd, JudgeFile;
    var files := MarksOfAll(scan);
    var f := hits[0].0;
    assert IsHitAt(id, scan, hits[0]) && IsHit(id, files[f][hits[0].1]);
    assert HasHit(id, files[f]);
    assert malformed <==> exists f :: 0 <= f < |files| && HasProblem(id, files[f]) by {
      if malformed {
        var g :| 0 <= g < |scan| && HasProblem(id, MarksOf(scan[g].markers));
        assert HasProblem(id, files[g]);
      }
    }
    if scattered {
      var g, h :| 0 <= g < h < |scan| && HasHit(id, MarksOf(scan[g].markers)) && HasHit(id, MarksOf(scan[h].markers));
      assert HasHit(id, files[g]) && HasHit(id, files[h]);
    } else {
      var h := HitFile(id, files);
      assert HasHit(id, MarksOf(scan[h].markers)) && HasHit(id, MarksOf(scan[f].markers));
    }
  }

  lemma NoHits(id: string, scan: seq<FileScan>)
    requires AreHits(id, scan, [], |scan|, 0)
    ensures Judge(id, MarksOfAll(scan)) == Missing
  {
    var files := MarksOfAll(scan);
    forall f, i | 0 <= f < |files| && 0 <= i < |files[f]|
      ensures !IsHit(id, files[f][i])
    {
      assert IsHitAt(id, scan, (f, i)) <==> IsHit(id, files[f][i]);
    }
  }

  /** A scan of one file. */
  lemma SingleFile(id: string, file: FileScan)
    requires IsOrderly(file)
    ensures Resolve(id, [file]) == ResolveOne(id, file)
  {
    if HasHit(id, MarksOf(file.markers)) {
      ResolveIsLocal(id, [file], 0);
    } else {
      assert MarksOfAll([file]) == [MarksOf(file.markers)];
    }
  }

  /** A resolved selection is between its two markers: its lines are the ones between them, and its offsets cut those
      lines out of the text. */
  lemma ResolvedSpan(id: string, file: FileScan, marks: seq<Option<Mark>>) returns (a: nat, b: nat)
    requires IsOrderly(file) && IsScanned(marks, file.segments, file.markers) && ResolveOne(id, file).Resolved?
    ensures var at, text := ResolveOne(id, file).location, Join(file.segments);
            && at.path == file.path && a < b < |file.markers|
            && IsEnd(id, Start, file.markers[a].mark) && at.startMarkerLine == file.markers[a].line
            && IsEnd(id, End, file.markers[b].mark) && at.endMarkerLine == file.markers[b].line
            && at.startLine == at.startMarkerLine + 1 && at.endLine == at.endMarkerLine - 1
            && 0 < at.startMarkerLine < at.endMarkerLine <= |file.segments|
            && at.startOffset <= at.endOffset <= |text|
            && text[at.startOffset..at.endOffset] == Join(file.segments[at.startMarkerLine..at.endMarkerLine - 1])
  {
    hide ContentOf, Join, JudgeFile;
    var verdict := JudgeOne(id, MarksOf(file.markers));
    a, b := verdict.start, verdict.end;
    ResolvesIff(id, MarksOf(file.markers), a, b);
    assert IsMarkerOf(marks, file.segments, |file.segments|, file.markers[a]);
    assert IsMarkerOf(marks, file.segments, |file.segments|, file.markers[b]);
    JoinSlice(file.segments, file.markers[a].line, file.markers[b].line - 1);
  }
}
