// What inserting the markers of a new selection does to the contents of the existing ones.
module Contents {
  import opened Anchors
  import opened Markers
  import opened Nesting
  import opened Tracker
  import opened Insertion

  // ---------------------------------------------------------------- what an insertion does to contents

  /** The parts of an insertion that contents depend on. */
  ghost predicate IsMarkerInsertion(lines: seq<string>, markers: seq<Marker>, lines': seq<string>,
                                    markers': seq<Marker>, id: string, s: nat, e: nat, p: nat, q: nat) {
    && AreLinesInserted(lines, lines', s, e) && AreInOrder(markers)
    && p == Rank(markers, s - 1) && q == Rank(markers, e) && p <= q
    && |markers'| == |markers| + 2 && markers'[p].line == s && markers'[q + 1].line == e + 2
    && (forall i :: 0 <= i < |markers| ==> 0 < markers[i].line <= |lines|)
    && (forall i {:trigger Shift(p, q, i)} :: 0 <= i < |markers| ==>
          markers'[Shift(p, q, i)].line == ShiftLine(s, e, markers[i].line))
    && IsHarmless(MarksOf(markers), MarksOf(markers'), id, p, q)
  }

  /** Moving markers keeps which pair lies inside which. */
  lemma InsideMoves(p: nat, q: nat, x: (nat, nat), y: (nat, nat))
    requires p <= q
    ensures Inside(ShiftPair(p, q, y), ShiftPair(p, q, x)) <==> Inside(y, x)
  {
    OrderKept(p, q, x.0, y.0);
    OrderKept(p, q, y.1, x.1);
  }

  lemma OrderKept(p: nat, q: nat, i: nat, j: nat)
    requires p <= q
    ensures Shift(p, q, i) < Shift(p, q, j) <==> i < j
    ensures Shift(p, q, i) == Shift(p, q, j) <==> i == j
  {
  }

  lemma IsChildOf(marks: seq<Mark>, x: (nat, nat), k: nat, y: (nat, nat))
    requires x.0 < |marks| && y in Pairs(marks) && marks[y.0].id != marks[x.0].id && Inside(y, x)
    requires k == y.0 || k == y.1
    ensures IsChildMark(marks, x, k)
  {
  }

  lemma PairMoves(marks: seq<Mark>, marks': seq<Mark>, id: string, p: nat, q: nat, y: (nat, nat))
    requires IsHarmless(marks, marks', id, p, q) && y in Pairs(marks)
    ensures ShiftPair(p, q, y) in Pairs(marks') && y.0 < |marks|
  {
    InsertionAddsOnePair(marks, marks', id, p, q);
  }

  lemma ChildMarkMoves(marks: seq<Mark>, marks': seq<Mark>, id: string, p: nat, q: nat, x: (nat, nat), k: nat)
    requires IsHarmless(marks, marks', id, p, q) && x.0 < |marks| && x.1 < |marks| && k < |marks|
    ensures Shift(p, q, x.0) < |marks'|
    ensures IsChildMark(marks, x, k) ==> IsChildMark(marks', ShiftPair(p, q, x), Shift(p, q, k))
  {
    MarkKept(marks, marks', id, p, q, x.0);
    if IsChildMark(marks, x, k) {
      var y :| y in Pairs(marks) && marks[y.0].id != marks[x.0].id && Inside(y, x) && (k == y.0 || k == y.1);
      PairMoves(marks, marks', id, p, q, y);
      MarkKept(marks, marks', id, p, q, y.0);
      InsideMoves(p, q, x, y);
      IsChildOf(marks', ShiftPair(p, q, x), Shift(p, q, k), ShiftPair(p, q, y));
    }
  }

  lemma PairMovesBack(marks: seq<Mark>, marks': seq<Mark>, id: string, p: nat, q: nat, y': (nat, nat))
    returns (y: (nat, nat))
    requires IsHarmless(marks, marks', id, p, q) && y' in Pairs(marks') && y' != (p, q + 1)
    ensures y in Pairs(marks) && y.0 < |marks| && ShiftPair(p, q, y) == y'
  {
    InsertionAddsOnePair(marks, marks', id, p, q);
    assert IsShift(p, q, Pairs(marks), y');
    y :| y in Pairs(marks) && ShiftPair(p, q, y) == y';
  }

  lemma NewPairHoldsNoOld(p: nat, q: nat, k: nat)
    requires p <= q
    ensures Shift(p, q, k) != p && Shift(p, q, k) != q + 1
  {
  }

  lemma ChildMarkMovesBack(marks: seq<Mark>, marks': seq<Mark>, id: string, p: nat, q: nat, x: (nat, nat), k: nat)
    requires IsHarmless(marks, marks', id, p, q) && x.0 < |marks| && x.1 < |marks| && k < |marks|
    requires Shift(p, q, x.0) < |marks'| && IsChildMark(marks', ShiftPair(p, q, x), Shift(p, q, k))
    ensures IsChildMark(marks, x, k)
  {
    var x', k' := ShiftPair(p, q, x), Shift(p, q, k);
    var y' :| y' in Pairs(marks') && marks'[y'.0].id != marks'[x'.0].id && Inside(y', x') && (k' == y'.0 || k' == y'.1);
    NewPairHoldsNoOld(p, q, k);
    var y := PairMovesBack(marks, marks', id, p, q, y');
    MarkKept(marks, marks', id, p, q, x.0);
    MarkKept(marks, marks', id, p, q, y.0);
    InsideMoves(p, q, x, y);
    OrderKept(p, q, k, y.0);
    OrderKept(p, q, k, y.1);
    IsChildOf(marks, x, k, y);
  }

  lemma LineMoves(lines: seq<string>, markers: seq<Marker>, lines': seq<string>, markers': seq<Marker>,
                  id: string, s: nat, e: nat, p: nat, q: nat, k: nat)
    requires IsMarkerInsertion(lines, markers, lines', markers', id, s, e, p, q) && k < |markers|
    ensures Shift(p, q, k) < |markers'| && markers'[Shift(p, q, k)].line == ShiftLine(s, e, markers[k].line)
  {
  }

  lemma DropsLineOf(markers: seq<Marker>, x: (nat, nat), k: nat)
    requires x.0 < |markers| && k < |markers| && IsChildMark(MarksOf(markers), x, k)
    ensures markers[k].line in DroppedLines(markers, x)
  {
  }

  lemma DroppedMarker(markers: seq<Marker>, x: (nat, nat), line: nat) returns (k: nat)
    requires x.0 < |markers| && line in DroppedLines(markers, x)
    ensures k < |markers| && IsChildMark(MarksOf(markers), x, k) && markers[k].line == line
  {
    k :| 0 <= k < |markers| && IsChildMark(MarksOf(markers), x, k) && markers[k].line == line;
  }

  lemma ChildrenAreHarmless(lines: seq<string>, markers: seq<Marker>, lines': seq<string>, markers': seq<Marker>,
                            id: string, s: nat, e: nat, p: nat, q: nat)
    requires IsMarkerInsertion(lines, markers, lines', markers', id, s, e, p, q)
    ensures IsHarmless(MarksOf(markers), MarksOf(markers'), id, p, q) && p <= q && |markers'| == |markers| + 2
  {
  }

  lemma DropMoved(lines: seq<string>, markers: seq<Marker>, lines': seq<string>, markers': seq<Marker>,
                  id: string, s: nat, e: nat, p: nat, q: nat, x: (nat, nat), line: nat)
    requires IsMarkerInsertion(lines, markers, lines', markers', id, s, e, p, q)
    requires x.0 < |markers| && x.1 < |markers| && 0 < line <= |lines|
    ensures Shift(p, q, x.0) < |markers'|
    ensures line in DroppedLines(markers, x) ==> ShiftLine(s, e, line) in DroppedLines(markers', ShiftPair(p, q, x))
  {
    LineMoves(lines, markers, lines', markers', id, s, e, p, q, x.0);
    if line in DroppedLines(markers, x) {
      var k := DroppedMarker(markers, x, line);
      ChildMarkMoves(MarksOf(markers), MarksOf(markers'), id, p, q, x, k);
      LineMoves(lines, markers, lines', markers', id, s, e, p, q, k);
      DropsLineOf(markers', ShiftPair(p, q, x), Shift(p, q, k));
    }
  }

  lemma PreimageIsMark(marks: seq<Mark>, marks': seq<Mark>, id: string, p: nat, q: nat, x: (nat, nat), k': nat)
    returns (k: nat)
    requires IsHarmless(marks, marks', id, p, q) && x.0 < |marks| && k' < |marks'|
    requires Shift(p, q, x.0) < |marks'| && IsChildMark(marks', ShiftPair(p, q, x), k') && k' != p && k' != q + 1
    ensures k < |marks| && Shift(p, q, k) == k'
  {
    k := Preimage(p, q, k');
  }

  lemma DropMovedBack(lines: seq<string>, markers: seq<Marker>, lines': seq<string>, markers': seq<Marker>,
                      id: string, s: nat, e: nat, p: nat, q: nat, x: (nat, nat), line: nat)
    requires IsMarkerInsertion(lines, markers, lines', markers', id, s, e, p, q)
    requires x.0 < |markers| && x.1 < |markers| && 0 < line <= |lines|
    requires Shift(p, q, x.0) < |markers'| && ShiftLine(s, e, line) in DroppedLines(markers', ShiftPair(p, q, x))
    ensures line in DroppedLines(markers, x)
  {
    var k' := DroppedMarker(markers', ShiftPair(p, q, x), ShiftLine(s, e, line));
    NewLineIsNotOld(s, e, line);
    assert k' != p && k' != q + 1;
    ChildrenAreHarmless(lines, markers, lines', markers', id, s, e, p, q);
    var k := PreimageIsMark(MarksOf(markers), MarksOf(markers'), id, p, q, x, k');
    LineMoves(lines, markers, lines', markers', id, s, e, p, q, k);
    LineOrderKept(s, e, markers[k].line, line);
    ChildMarkMovesBack(MarksOf(markers), MarksOf(markers'), id, p, q, x, k);
    DropsLineOf(markers, x, k);
  }

  lemma NewLineIsNotOld(s: nat, e: nat, line: nat)
    requires 0 < s <= e
    ensures ShiftLine(s, e, line) != s && ShiftLine(s, e, line) != e + 2
  {
  }

  lemma LineOrderKept(s: nat, e: nat, i: nat, j: nat)
    requires ShiftLine(s, e, i) == ShiftLine(s, e, j)
    requires 0 < s <= e
    ensures i == j
  {
  }

  /** The same lines are dropped before and after. */
  ghost predicate DropsAgree(drop: set<nat>, drop': set<nat>, s: nat, e: nat, n: nat) {
    forall line {:trigger ShiftLine(s, e, line)} :: 0 < line <= n ==> (ShiftLine(s, e, line) in drop' <==> line in drop)
  }

  lemma DropsMove(lines: seq<string>, markers: seq<Marker>, lines': seq<string>, markers': seq<Marker>,
                  id: string, s: nat, e: nat, p: nat, q: nat, x: (nat, nat))
    requires IsMarkerInsertion(lines, markers, lines', markers', id, s, e, p, q)
    requires x.0 < |markers| && x.1 < |markers|
    ensures Shift(p, q, x.0) < |markers'|
    ensures DropsAgree(DroppedLines(markers, x), DroppedLines(markers', ShiftPair(p, q, x)), s, e, |lines|)
  {
    ChildMarkMoves(MarksOf(markers), MarksOf(markers'), id, p, q, x, x.0);
    forall line | 0 < line <= |lines|
      ensures ShiftLine(s, e, line) in DroppedLines(markers', ShiftPair(p, q, x)) <==> line in DroppedLines(markers, x)
    {
      DropMoved(lines, markers, lines', markers', id, s, e, p, q, x, line);
      if ShiftLine(s, e, line) in DroppedLines(markers', ShiftPair(p, q, x)) {
        DropMovedBack(lines, markers, lines', markers', id, s, e, p, q, x, line);
      }
    }
  }

  /** The lines from + 1 to upTo are all before, between or after the new markers, and move by by'. */
  predicate IsRun(s: nat, e: nat, from: nat, upTo: nat, by': nat) {
    if by' == 0 then upTo < s else if by' == 1 then s <= from + 1 && upTo <= e else by' == 2 && e <= from
  }

  lemma RunShifts(s: nat, e: nat, from: nat, upTo: nat, by': nat, line: nat)
    requires 0 < s <= e && from < line <= upTo && IsRun(s, e, from, upTo, by')
    ensures ShiftLine(s, e, line) == line + by'
  {
  }

  lemma RunSlices(lines: seq<string>, lines': seq<string>, s: nat, e: nat, from: nat, upTo: nat, by': nat)
    requires AreLinesInserted(lines, lines', s, e) && from <= upTo < |lines| && IsRun(s, e, from, upTo, by')
    ensures upTo + by' <= |lines'| && lines'[from + by'..upTo + by'] == lines[from..upTo]
  {
    if by' == 0 {
      SameSlices(lines, lines', from, upTo, 0);
    } else if by' == 1 {
      SameSlices(lines, lines', from, upTo, 1);
    } else {
      SameSlices(lines, lines', from, upTo, 2);
    }
  }

  lemma SameSlices<T>(x: seq<T>, y: seq<T>, from: nat, upTo: nat, by': nat)
    requires from <= upTo <= |x| && upTo + by' <= |y|
    requires forall k {:trigger x[k]} :: from <= k < upTo ==> y[k + by'] == x[k]
    ensures y[from + by'..upTo + by'] == x[from..upTo]
  {
    forall k | 0 <= k < upTo - from
      ensures y[from + by'..upTo + by'][k] == x[from..upTo][k]
    {
      assert y[from + k + by'] == x[from + k];
    }
  }

  /** A run of old lines on one side of the new markers reads the same. */
  lemma RunMoved(lines: seq<string>, drop: set<nat>, lines': seq<string>, drop': set<nat>, s: nat, e: nat,
                 from: nat, upTo: nat, by': nat)
    requires AreLinesInserted(lines, lines', s, e) && DropsAgree(drop, drop', s, e, |lines|) && from <= upTo < |lines|
    requires IsRun(s, e, from, upTo, by')
    ensures KeepLines(lines', from + by', upTo + by', drop') == KeepLines(lines, from, upTo, drop)
  {
    forall line | from < line <= upTo
      ensures line in drop <==> line - from + (from + by') in drop'
    {
      RunShifts(s, e, from, upTo, by', line);
    }
    RunSlices(lines, lines', s, e, from, upTo, by');
    KeepMoved(lines, from, drop, lines', from + by', drop', upTo - from);
  }

  lemma RunBefore(lines: seq<string>, drop: set<nat>, lines': seq<string>, drop': set<nat>, s: nat, e: nat, a: nat)
    requires AreLinesInserted(lines, lines', s, e) && DropsAgree(drop, drop', s, e, |lines|) && a < s <= e < |lines|
    ensures KeepLines(lines', a, s - 1, drop') == KeepLines(lines, a, s - 1, drop)
  {
    RunMoved(lines, drop, lines', drop', s, e, a, s - 1, 0);
  }

  lemma RunBetween(lines: seq<string>, drop: set<nat>, lines': seq<string>, drop': set<nat>, s: nat, e: nat)
    requires AreLinesInserted(lines, lines', s, e) && DropsAgree(drop, drop', s, e, |lines|) && e < |lines|
    ensures KeepLines(lines', s, e + 1, drop') == KeepLines(lines, s - 1, e, drop)
  {
    RunMoved(lines, drop, lines', drop', s, e, s - 1, e, 1);
  }

  lemma RunBehind(lines: seq<string>, drop: set<nat>, lines': seq<string>, drop': set<nat>, s: nat, e: nat, b: nat)
    requires AreLinesInserted(lines, lines', s, e) && DropsAgree(drop, drop', s, e, |lines|) && e < b <= |lines|
    ensures KeepLines(lines', e + 2, b + 1, drop') == KeepLines(lines, e, b - 1, drop)
  {
    RunMoved(lines, drop, lines', drop', s, e, e, b - 1, 2);
  }

  /** A selection around the new markers does not see their lines. */
  lemma AroundMoved(lines: seq<string>, drop: set<nat>, lines': seq<string>, drop': set<nat>, s: nat, e: nat, a: nat,
                    b: nat)
    requires AreLinesInserted(lines, lines', s, e) && DropsAgree(drop, drop', s, e, |lines|)
    requires a < s && e < b <= |lines| && s in drop' && e + 2 in drop'
    ensures KeepLines(lines', a, b + 1, drop') == KeepLines(lines, a, b - 1, drop)
  {
    RunBefore(lines, drop, lines', drop', s, e, a);
    RunBetween(lines, drop, lines', drop', s, e);
    RunBehind(lines, drop, lines', drop', s, e, b);
    KeepInThree(lines, a, s - 1, e, b - 1, drop);
    KeepWithoutTwo(lines', a, s, e + 2, b + 1, drop');
  }

  lemma KeepInThree(lines: seq<string>, from: nat, x: nat, y: nat, upTo: nat, drop: set<nat>)
    requires from <= x <= y <= upTo <= |lines|
    ensures KeepLines(lines, from, upTo, drop)
            == KeepLines(lines, from, x, drop) + KeepLines(lines, x, y, drop) + KeepLines(lines, y, upTo, drop)
  {
    KeepAppend(lines, from, x, y, drop);
    KeepAppend(lines, from, y, upTo, drop);
  }

  lemma KeepWithoutTwo(lines: seq<string>, from: nat, x: nat, y: nat, upTo: nat, drop: set<nat>)
    requires from < x < y <= upTo <= |lines| && x in drop && y in drop
    ensures KeepLines(lines, from, upTo, drop)
            == KeepLines(lines, from, x - 1, drop) + KeepLines(lines, x, y - 1, drop) + KeepLines(lines, y, upTo, drop)
  {
    KeepAppend(lines, from, x, upTo, drop);
    KeepAppend(lines, x, y, upTo, drop);
  }

  /** The new marker lines are not part of a selection around them. */
  lemma NewLinesDropped(lines: seq<string>, markers: seq<Marker>, lines': seq<string>, markers': seq<Marker>,
                        id: string, s: nat, e: nat, p: nat, q: nat, x: (nat, nat))
    requires IsMarkerInsertion(lines, markers, lines', markers', id, s, e, p, q)
    requires x.0 < p && q <= x.1 < |markers|
    ensures s in DroppedLines(markers', ShiftPair(p, q, x)) && e + 2 in DroppedLines(markers', ShiftPair(p, q, x))
  {
    var marks', x' := MarksOf(markers'), ShiftPair(p, q, x);
    var y := (p, q + 1);
    assert marks'[Shift(p, q, x.0)] == MarksOf(markers)[x.0];
    assert y in Pairs(marks') && marks'[y.0].id != marks'[x'.0].id && Inside(y, x');
    assert IsChildMark(marks', x', p) && IsChildMark(marks', x', q + 1);
    assert markers'[p].line == s && markers'[q + 1].line == e + 2;
  }

  /** Where the two markers of an existing pair are now. */
  lemma PairMoved(lines: seq<string>, markers: seq<Marker>, lines': seq<string>, markers': seq<Marker>,
                  id: string, s: nat, e: nat, p: nat, q: nat, x: (nat, nat))
    requires IsMarkerInsertion(lines, markers, lines', markers', id, s, e, p, q)
    requires x in Pairs(MarksOf(markers))
    ensures var x', a, b := ShiftPair(p, q, x), markers[x.0].line, markers[x.1].line;
            && x'.0 < x'.1 < |markers'| && a < b <= |lines|
            && markers'[x'.0].line == ShiftLine(s, e, a) && markers'[x'.1].line == ShiftLine(s, e, b)
            && ((x.0 < p && q <= x.1 && a < s && e < b) || (x.1 < p && b < s)
                || (p <= x.0 && x.1 < q && s <= a && b <= e) || (q <= x.0 && e < a))
  {
    assert markers'[Shift(p, q, x.0)].line == ShiftLine(s, e, markers[x.0].line);
    assert markers'[Shift(p, q, x.1)].line == ShiftLine(s, e, markers[x.1].line);
    NestedOrApart(MarksOf(markers), MarksOf(markers'), id, p, q, x);
  }

  /** The kept lines between two markers, wherever the new markers are. */
  lemma LinesKept(lines: seq<string>, drop: set<nat>, lines': seq<string>, drop': set<nat>, s: nat, e: nat, a: nat,
                  b: nat)
    requires AreLinesInserted(lines, lines', s, e) && DropsAgree(drop, drop', s, e, |lines|) && a < b <= |lines|
    requires (a < s && e < b && s in drop' && e + 2 in drop') || b < s || (s <= a && b <= e) || e < a
    ensures KeepLines(lines', ShiftLine(s, e, a), ShiftLine(s, e, b) - 1, drop') == KeepLines(lines, a, b - 1, drop)
  {
    if a < s && e < b {
      AroundMoved(lines, drop, lines', drop', s, e, a, b);
    } else {
      var by' := if b < s then 0 else if b <= e then 1 else 2;
      assert ShiftLine(s, e, a) == a + by' && ShiftLine(s, e, b) == b + by';
      assert IsRun(s, e, a, b - 1, by');
      RunMoved(lines, drop, lines', drop', s, e, a, b - 1, by');
    }
  }

  /** The kept lines of a pair are the same before and after. */
  lemma {:induction false} PairKept(lines: seq<string>, markers: seq<Marker>, lines': seq<string>,
                                    markers': seq<Marker>, id: string, s: nat, e: nat, p: nat, q: nat, x: (nat, nat),
                                    a: nat, b: nat, a': nat, b': nat)
    requires IsMarkerInsertion(lines, markers, lines', markers', id, s, e, p, q)
    requires x.0 < |markers| && x.1 < |markers| && 0 < a < b <= |lines|
    requires (x.0 < p && q <= x.1 && a < s && e < b) || b < s || (s <= a && b <= e) || e < a
    requires a' == ShiftLine(s, e, a) && b' == ShiftLine(s, e, b)
    ensures Shift(p, q, x.0) < |markers'| && a' < b' <= |lines'|
    ensures KeepLines(lines', a', b' - 1, DroppedLines(markers', ShiftPair(p, q, x)))
            == KeepLines(lines, a, b - 1, DroppedLines(markers, x))
  {
    hide IsChildMark, IsHarmless, KeepLines;
    DropsMove(lines, markers, lines', markers', id, s, e, p, q, x);
    if a < s && e < b {
      NewLinesDropped(lines, markers, lines', markers', id, s, e, p, q, x);
    }
    LinesKept(lines, DroppedLines(markers, x), lines', DroppedLines(markers', ShiftPair(p, q, x)), s, e, a, b);
  }

  lemma {:induction false} ContentIs(lines: seq<string>, markers: seq<Marker>, x: (nat, nat), kept: string)
    requires x.0 < |markers| && x.1 < |markers| && markers[x.0].line < markers[x.1].line <= |lines|
    requires KeepLines(lines, markers[x.0].line, markers[x.1].line - 1, DroppedLines(markers, x)) == kept
    ensures ContentOf(lines, markers, x) == NormalizeContent(kept)
  {
  }

  /** Every existing pair of matched markers keeps its content. */
  lemma {:induction false} ContentKept(lines: seq<string>, markers: seq<Marker>, lines': seq<string>,
                                       markers': seq<Marker>, id: string, s: nat, e: nat, p: nat, q: nat, x: (nat, nat))
    requires IsMarkerInsertion(lines, markers, lines', markers', id, s, e, p, q)
    requires x in Pairs(MarksOf(markers))
    ensures var x' := ShiftPair(p, q, x);
            && x'.0 < x'.1 < |markers'| && markers[x.0].line < markers[x.1].line
            && markers'[x'.0].line < markers'[x'.1].line <= |lines'|
            && ContentOf(lines', markers', x') == ContentOf(lines, markers, x)
  {
    hide Shift, KeepLines;
    PairMoved(lines, markers, lines', markers', id, s, e, p, q, x);
    var x' := ShiftPair(p, q, x);
    var a, b, a', b' := markers[x.0].line, markers[x.1].line, markers'[x'.0].line, markers'[x'.1].line;
    PairKept(lines, markers, lines', markers', id, s, e, p, q, x, a, b, a', b');
    var kept := KeepLines(lines, a, b - 1, DroppedLines(markers, x));
    ContentIs(lines, markers, x, kept);
    ContentIs(lines', markers', x', kept);
  }

  /** The new markers lie inside, around or beside every existing pair. */
  lemma NestedOrApart(marks: seq<Mark>, marks': seq<Mark>, id: string, p: nat, q: nat, x: (nat, nat))
    requires IsHarmless(marks, marks', id, p, q) && x in Pairs(marks)
    ensures x.0 < x.1 < |marks|
    ensures (x.0 < p && q <= x.1) || (p <= x.0 && x.1 < q) || x.1 < p || q <= x.0
  {
    InsertionKeepsPair(marks, marks', id, p, q, x);
    PairsAreLaminar(marks');
    var x', y := ShiftPair(p, q, x), (p, q + 1);
    assert Apart(x', y) || Inside(x', y) || Inside(y, x');
  }
}
