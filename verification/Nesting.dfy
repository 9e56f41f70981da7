// src/selection/tracker.rs, selection_intervals and resolve: matching start and end markers with a
// stack. Everything here depends only on what the markers of a file say and in which order, so
// markers are named by their position in the file's marker list.
module Nesting {
  import opened Anchors
  import opened Markers

  /** A well-formed selection marker. */
  predicate IsEvent(mark: Mark) {
    mark.kind.Selection? && mark.problem.None? && mark.id.Some? && mark.boundary.Some?
  }

  /** The markers still open, innermost last, and the matched pairs so far. */
  datatype Nest = Nest(open: seq<nat>, pairs: set<(nat, nat)>)

  function Step(marks: seq<Mark>, nest: Nest, i: nat): Nest
    requires i < |marks| && forall k :: 0 <= k < |nest.open| ==> nest.open[k] < |marks|
  {
    if !IsEvent(marks[i]) then nest
    else if marks[i].boundary == Some(Start) then nest.(open := nest.open + [i])
    else if nest.open != [] && marks[nest.open[|nest.open| - 1]].id == marks[i].id then
      Nest(nest.open[..|nest.open| - 1], nest.pairs + {(nest.open[|nest.open| - 1], i)})
    else nest
  }

  /** The stack and the pairs after the first n markers. */
  function NestAfter(marks: seq<Mark>, n: nat): (nest: Nest)
    requires n <= |marks|
    ensures forall k :: 0 <= k < |nest.open| ==> nest.open[k] < n
    ensures forall a, b :: (a, b) in nest.pairs ==> a < b < n
  {
    if n == 0 then Nest([], {}) else Step(marks, NestAfter(marks, n - 1), n - 1)
  }

  /** The matched pairs of start and end markers of a file. */
  function Pairs(marks: seq<Mark>): (pairs: set<(nat, nat)>)
    ensures forall a, b :: (a, b) in pairs ==> a < b < |marks|
  {
    NestAfter(marks, |marks|).pairs
  }

  // ---------------------------------------------------------------- pairs nest or are disjoint

  predicate Apart(x: (nat, nat), y: (nat, nat)) { x.1 < y.0 || y.1 < x.0 }

  predicate Inside(x: (nat, nat), y: (nat, nat)) { y.0 < x.0 && x.1 < y.1 }

  ghost predicate IsLaminar(pairs: set<(nat, nat)>) {
    forall x, y :: x in pairs && y in pairs && x != y ==> Apart(x, y) || Inside(x, y) || Inside(y, x)
  }

  /** An open marker lies inside no pair, and open markers are in order. */
  ghost predicate IsNested(nest: Nest) {
    && IsLaminar(nest.pairs)
    && (forall i, j :: 0 <= i < j < |nest.open| ==> nest.open[i] < nest.open[j])
    && (forall i, x :: 0 <= i < |nest.open| && x in nest.pairs ==> nest.open[i] < x.0 || x.1 < nest.open[i])
  }

  lemma {:induction false} AfterIsNested(marks: seq<Mark>, n: nat)
    requires n <= |marks|
    ensures IsNested(NestAfter(marks, n))
  {
    if n > 0 {
      AfterIsNested(marks, n - 1);
      var before := NestAfter(marks, n - 1);
      var after := NestAfter(marks, n);
      assert after == Step(marks, before, n - 1);
      if after.pairs != before.pairs {
        var top := before.open[|before.open| - 1];
        forall x, y | x in after.pairs && y in after.pairs && x != y
          ensures Apart(x, y) || Inside(x, y) || Inside(y, x)
        {
          assert x == (top, n - 1) || x in before.pairs;
          assert y == (top, n - 1) || y in before.pairs;
        }
      }
    }
  }

  /** The pairs of a file are pairwise nested or disjoint. */
  lemma PairsAreLaminar(marks: seq<Mark>)
    ensures IsLaminar(Pairs(marks))
  {
    AfterIsNested(marks, |marks|);
  }

  /** A pair joins a start marker to an end marker with the same identifier. */
  lemma {:induction false} PairJoins(marks: seq<Mark>, n: nat, a: nat, b: nat)
    requires n <= |marks| && (a, b) in NestAfter(marks, n).pairs
    ensures a < b < n && IsEvent(marks[a]) && IsEvent(marks[b]) && marks[a].id == marks[b].id
    ensures marks[a].boundary == Some(Start) && marks[b].boundary == Some(End)
  {
    OpenIsStart(marks, n - 1);
    assert NestAfter(marks, n) == Step(marks, NestAfter(marks, n - 1), n - 1);
    var before := NestAfter(marks, n - 1);
    if (a, b) in before.pairs {
      PairJoins(marks, n - 1, a, b);
    } else {
      assert IsEvent(marks[n - 1]) && before.open != [];
      assert (a, b) == (before.open[|before.open| - 1], n - 1);
      assert marks[n - 1].boundary.value == Start || marks[n - 1].boundary.value == End;
    }
  }

  lemma {:induction false} OpenIsStart(marks: seq<Mark>, n: nat)
    requires n <= |marks|
    ensures forall k :: 0 <= k < |NestAfter(marks, n).open| ==>
              IsEvent(marks[NestAfter(marks, n).open[k]]) && marks[NestAfter(marks, n).open[k]].boundary == Some(Start)
  {
    if n > 0 { OpenIsStart(marks, n - 1); }
  }

  // ---------------------------------------------------------------- verdicts

  datatype Verdict = Missing | Malformed | DuplicatedFiles | Unmatched | Duplicated | Inverted | Crossed | Overlap
                   | At(start: nat, end: nat)

  predicate IsHit(id: string, mark: Mark) { mark.kind.Selection? && mark.id == Some(id) }

  predicate IsEnd(id: string, boundary: Boundary, mark: Mark) { IsHit(id, mark) && mark.boundary == Some(boundary) }

  ghost predicate HasHit(id: string, marks: seq<Mark>) {
    exists i :: 0 <= i < |marks| && IsHit(id, marks[i])
  }

  ghost predicate HasProblem(id: string, marks: seq<Mark>) {
    exists i :: 0 <= i < |marks| && IsHit(id, marks[i]) && marks[i].problem.Some?
  }

  ghost predicate HasEnd(id: string, boundary: Boundary, marks: seq<Mark>) {
    exists i :: 0 <= i < |marks| && IsEnd(id, boundary, marks[i])
  }

  ghost predicate HasTwoEnds(id: string, boundary: Boundary, marks: seq<Mark>) {
    exists i, j :: 0 <= i < j < |marks| && IsEnd(id, boundary, marks[i]) && IsEnd(id, boundary, marks[j])
  }

  ghost function TheEnd(id: string, boundary: Boundary, marks: seq<Mark>): (i: nat)
    requires HasEnd(id, boundary, marks)
    ensures i < |marks| && IsEnd(id, boundary, marks[i])
  {
    var i :| 0 <= i < |marks| && IsEnd(id, boundary, marks[i]);
    i
  }

  predicate Crosses(x: (nat, nat), y: (nat, nat)) {
    (x.0 < y.0 < x.1 && x.1 < y.1) || (y.0 < x.0 < y.1 && y.1 < x.1)
  }

  /** Some pair of another selection partially overlaps x. */
  ghost predicate HasOverlap(id: string, marks: seq<Mark>, x: (nat, nat)) {
    exists y :: y in Pairs(marks) && marks[y.0].id != Some(id) && Crosses(x, y)
  }

  /** How a selection resolves in a file that holds all its markers, none of them malformed. */
  ghost function JudgeFile(id: string, marks: seq<Mark>): Verdict {
    if !HasEnd(id, Start, marks) || !HasEnd(id, End, marks) then Unmatched
    else if HasTwoEnds(id, Start, marks) || HasTwoEnds(id, End, marks) then Duplicated
    else
      var a, b := TheEnd(id, Start, marks), TheEnd(id, End, marks);
      if a >= b then Inverted
      else if (a, b) !in Pairs(marks) then Crossed
      else if HasOverlap(id, marks, (a, b)) then Overlap
      else At(a, b)
  }

  /** How a selection resolves in one file, all its markers considered. */
  ghost function JudgeOne(id: string, marks: seq<Mark>): Verdict {
    if !HasHit(id, marks) then Missing
    else if HasProblem(id, marks) then Verdict.Malformed
    else JudgeFile(id, marks)
  }

  /** How a selection resolves in the files with these markers. */
  ghost function Judge(id: string, files: seq<seq<Mark>>): Verdict {
    if !HitSomewhere(id, files) then Missing
    else if exists f :: 0 <= f < |files| && HasProblem(id, files[f]) then Verdict.Malformed
    else if exists f, g :: 0 <= f < g < |files| && HasHit(id, files[f]) && HasHit(id, files[g]) then DuplicatedFiles
    else JudgeFile(id, files[HitFile(id, files)])
  }

  ghost predicate HitSomewhere(id: string, files: seq<seq<Mark>>) {
    exists f :: 0 <= f < |files| && HasHit(id, files[f])
  }

  ghost function HitFile(id: string, files: seq<seq<Mark>>): (f: nat)
    requires HitSomewhere(id, files)
    ensures f < |files| && HasHit(id, files[f])
  {
    var f :| 0 <= f < |files| && HasHit(id, files[f]);
    f
  }

  /** A selection resolves in a scan exactly when it resolves in one file and no other file holds its
      identifier. */
  lemma ResolvesInOneFile(id: string, files: seq<seq<Mark>>, f: nat)
    requires f < |files| && HasHit(id, files[f])
    ensures (forall g :: 0 <= g < |files| && g != f ==> !HasHit(id, files[g])) ==>
              HitFile(id, files) == f && Judge(id, files) == JudgeOne(id, files[f])
    ensures Judge(id, files).At? ==> HitFile(id, files) == f && Judge(id, files) == JudgeOne(id, files[f])
                                     && forall g :: 0 <= g < |files| && g != f ==> !HasHit(id, files[g])
  {
    if forall g :: 0 <= g < |files| && g != f ==> !HasHit(id, files[g]) {
      if HasProblem(id, files[f]) {
        assert 0 <= f < |files| && HasProblem(id, files[f]);
      }
      forall g | 0 <= g < |files| && g != f
        ensures !HasProblem(id, files[g])
      {
        ProblemIsHit(id, files[g]);
      }
    }
    if Judge(id, files).At? {
      var h := HitFile(id, files);
    }
  }

  lemma ProblemIsHit(id: string, marks: seq<Mark>)
    ensures HasProblem(id, marks) ==> HasHit(id, marks)
  {
  }

  /** The overlap branch cannot be reached. */
  lemma OverlapIsUnreachable(id: string, marks: seq<Mark>)
    ensures JudgeFile(id, marks) != Overlap
  {
    PairsAreLaminar(marks);
  }

  /** A selection resolves exactly when its two markers are the only ones with its identifier and
      the stack matches them. */
  lemma OnlyEnd(id: string, boundary: Boundary, marks: seq<Mark>, a: nat)
    ensures HasEnd(id, boundary, marks) && !HasTwoEnds(id, boundary, marks) && TheEnd(id, boundary, marks) == a
            <==> a < |marks| && forall i :: 0 <= i < |marks| ==> (IsEnd(id, boundary, marks[i]) <==> i == a)
  {
    if a < |marks| && forall i :: 0 <= i < |marks| ==> (IsEnd(id, boundary, marks[i]) <==> i == a) {
      assert IsEnd(id, boundary, marks[a]);
    }
  }

  lemma ResolvesIff(id: string, marks: seq<Mark>, a: nat, b: nat)
    ensures JudgeFile(id, marks) == At(a, b)
            <==> && a < b < |marks| && (a, b) in Pairs(marks)
                 && (forall i :: 0 <= i < |marks| ==> (IsEnd(id, Start, marks[i]) <==> i == a))
                 && (forall i :: 0 <= i < |marks| ==> (IsEnd(id, End, marks[i]) <==> i == b))
  {
    OverlapIsUnreachable(id, marks);
    OnlyEnd(id, Start, marks, a);
    OnlyEnd(id, End, marks, b);
  }

  // ---------------------------------------------------------------- inserting a pair of markers

  function StartMark(id: string): Mark { Mark(Selection, Some(id), Some(Start), None) }

  function EndMark(id: string): Mark { Mark(Selection, Some(id), Some(End), None) }

  /** Where an old marker goes. */
  function Shift(p: nat, q: nat, i: nat): nat { if i < p then i else if i < q then i + 1 else i + 2 }

  function ShiftPair(p: nat, q: nat, x: (nat, nat)): (nat, nat) { (Shift(p, q, x.0), Shift(p, q, x.1)) }

  function ShiftAll(p: nat, q: nat, open: seq<nat>): (r: seq<nat>)
    ensures |r| == |open| && forall i :: 0 <= i < |open| ==> r[i] == Shift(p, q, open[i])
  {
    seq(|open|, i requires 0 <= i < |open| => Shift(p, q, open[i]))
  }

  /** marks' is marks with the two markers of a new selection around positions p..q. */
  ghost predicate IsInsertion(marks: seq<Mark>, marks': seq<Mark>, id: string, p: nat, q: nat) {
    && p <= q <= |marks| && |marks'| == |marks| + 2
    && marks'[p] == StartMark(id) && marks'[q + 1] == EndMark(id)
    && (forall i {:trigger Shift(p, q, i)} :: 0 <= i < |marks| ==> marks'[Shift(p, q, i)] == marks[i])
    && (forall i :: 0 <= i < |marks| ==> marks[i].id != Some(id))
  }

  lemma MarkKept(marks: seq<Mark>, marks': seq<Mark>, id: string, p: nat, q: nat, i: nat)
    requires IsInsertion(marks, marks', id, p, q) && i < |marks|
    ensures Shift(p, q, i) < |marks'| && marks'[Shift(p, q, i)] == marks[i]
  {
  }

  ghost predicate IsShifted(p: nat, q: nat, pairs: set<(nat, nat)>, pairs': set<(nat, nat)>) {
    && (forall x :: x in pairs ==> ShiftPair(p, q, x) in pairs')
    && (forall y :: y in pairs' ==> IsShift(p, q, pairs, y))
  }

  ghost predicate IsShift(p: nat, q: nat, pairs: set<(nat, nat)>, y: (nat, nat)) {
    exists x :: x in pairs && ShiftPair(p, q, x) == y
  }

  lemma ShiftOneMore(p: nat, q: nat, pairs: set<(nat, nat)>, pairs': set<(nat, nat)>, x: (nat, nat))
    requires IsShifted(p, q, pairs, pairs')
    ensures IsShifted(p, q, pairs + {x}, pairs' + {ShiftPair(p, q, x)})
  {
    forall y | y in pairs' + {ShiftPair(p, q, x)}
      ensures IsShift(p, q, pairs + {x}, y)
    {
      if y == ShiftPair(p, q, x) {
        assert x in pairs + {x};
      } else {
        assert IsShift(p, q, pairs, y);
        var z :| z in pairs && ShiftPair(p, q, z) == y;
        assert z in pairs + {x};
      }
    }
  }

  ghost predicate IsPairedEnd(pairs: set<(nat, nat)>, b: nat) { exists a :: (a, b) in pairs }

  /** What makes an insertion harmless: the new pair is matched, and so is every end marker between
      the new markers. */
  ghost predicate IsHarmless(marks: seq<Mark>, marks': seq<Mark>, id: string, p: nat, q: nat) {
    && IsInsertion(marks, marks', id, p, q)
    && (p, q + 1) in Pairs(marks')
    && (forall k :: p <= k < q && IsEvent(marks[k]) && marks[k].boundary == Some(End) ==>
          IsPairedEnd(Pairs(marks'), k + 1))
  }

  /** A pair is found when its end marker is processed: its start is then the innermost open one. */
  lemma {:induction false} PairIsTop(marks: seq<Mark>, n: nat, a: nat, b: nat)
    requires n <= |marks| && (a, b) in NestAfter(marks, n).pairs
    ensures b < n && IsEvent(marks[b])
    ensures var open := NestAfter(marks, b).open;
            open != [] && open[|open| - 1] == a && marks[a].id == marks[b].id
  {
    assert NestAfter(marks, n) == Step(marks, NestAfter(marks, n - 1), n - 1);
    if (a, b) in NestAfter(marks, n - 1).pairs {
      PairIsTop(marks, n - 1, a, b);
    }
  }

  lemma {:induction false} BeforeInsertion(marks: seq<Mark>, marks': seq<Mark>, id: string, p: nat, q: nat, n: nat)
    requires IsInsertion(marks, marks', id, p, q) && n <= p
    ensures NestAfter(marks', n) == NestAfter(marks, n)
  {
    if n > 0 {
      BeforeInsertion(marks, marks', id, p, q, n - 1);
      assert marks'[Shift(p, q, n - 1)] == marks[n - 1];
      var before := NestAfter(marks, n - 1);
      forall k | 0 <= k < |before.open|
        ensures marks'[before.open[k]] == marks[before.open[k]]
      {
        assert marks'[Shift(p, q, before.open[k])] == marks[before.open[k]];
      }
    }
  }

  /** Between the new markers the stack is the old one, with the new start marker inserted below
      everything opened since. */
  ghost predicate IsLifted(p: nat, q: nat, base: seq<nat>, nest: Nest, nest': Nest) {
    && |base| <= |nest.open| && nest.open[..|base|] == base
    && nest'.open == base + [p] + ShiftAll(p, q, nest.open[|base|..])
    && IsShifted(p, q, nest.pairs, nest'.pairs)
  }

  /** If marker n is an end marker, it closes a marker opened since p. */
  ghost predicate ClosesOwn(marks: seq<Mark>, p: nat, n: nat)
    requires p <= n < |marks|
  {
    IsEvent(marks[n]) && marks[n].boundary == Some(End) ==>
      var open := NestAfter(marks, n).open;
      |NestAfter(marks, p).open| < |open| && marks[open[|open| - 1]].id == marks[n].id
  }

  /** An end marker between the markers of a harmless insertion closes a marker opened since p. */
  lemma LiftedTop(marks: seq<Mark>, marks': seq<Mark>, id: string, p: nat, q: nat, n: nat)
    requires IsHarmless(marks, marks', id, p, q) && p <= n < q
    requires IsLifted(p, q, NestAfter(marks, p).open, NestAfter(marks, n), NestAfter(marks', n + 1))
    requires IsEvent(marks[n]) && marks[n].boundary == Some(End)
    ensures ClosesOwn(marks, p, n)
  {
    hide NestAfter;
    assert marks'[Shift(p, q, n)] == marks[n];
    assert IsPairedEnd(Pairs(marks'), n + 1);
    var a :| (a, n + 1) in Pairs(marks');
    PairIsTop(marks', |marks'|, a, n + 1);
    var open := NestAfter(marks, n).open;
    assert |NestAfter(marks, p).open| == |open| ==> a == p;
    assert a == Shift(p, q, open[|open| - 1]);
  }

  lemma Pop(p: nat, q: nat, base: seq<nat>, open: seq<nat>, open': seq<nat>)
    requires |base| < |open| && open[..|base|] == base && open' == base + [p] + ShiftAll(p, q, open[|base|..])
    ensures open' != [] && open'[|open'| - 1] == Shift(p, q, open[|open| - 1])
    ensures open[..|open| - 1][..|base|] == base
    ensures open'[..|open'| - 1] == base + [p] + ShiftAll(p, q, open[..|open| - 1][|base|..])
  {
    var tail := open[|base|..];
    assert open[..|open| - 1][|base|..] == tail[..|tail| - 1];
    assert ShiftAll(p, q, tail)[..|tail| - 1] == ShiftAll(p, q, tail[..|tail| - 1]);
  }

  lemma StepEnd(marks: seq<Mark>, n: nat, top: nat)
    requires n < |marks| && IsEvent(marks[n]) && marks[n].boundary == Some(End)
    requires NestAfter(marks, n).open != [] && NestAfter(marks, n).open[|NestAfter(marks, n).open| - 1] == top
    requires marks[top].id == marks[n].id
    ensures var nest := NestAfter(marks, n);
            NestAfter(marks, n + 1) == Nest(nest.open[..|nest.open| - 1], nest.pairs + {(top, n)})
  {
  }

  lemma LiftedEnd(marks: seq<Mark>, marks': seq<Mark>, id: string, p: nat, q: nat, n: nat)
    requires IsInsertion(marks, marks', id, p, q) && p <= n < q && ClosesOwn(marks, p, n)
    requires IsLifted(p, q, NestAfter(marks, p).open, NestAfter(marks, n), NestAfter(marks', n + 1))
    requires IsEvent(marks[n]) && marks[n].boundary == Some(End)
    ensures IsLifted(p, q, NestAfter(marks, p).open, NestAfter(marks, n + 1), NestAfter(marks', n + 2))
  {
    hide NestAfter, IsShift, Step;
    var nest, nest' := NestAfter(marks, n), NestAfter(marks', n + 1);
    Pop(p, q, NestAfter(marks, p).open, nest.open, nest'.open);
    var top := nest.open[|nest.open| - 1];
    assert marks'[Shift(p, q, n)] == marks[n] && marks'[Shift(p, q, top)] == marks[top];
    StepEnd(marks, n, top);
    StepEnd(marks', n + 1, Shift(p, q, top));
    ShiftOneMore(p, q, nest.pairs, nest'.pairs, (top, n));
  }

  lemma StepStart(marks: seq<Mark>, n: nat)
    requires n < |marks| && IsEvent(marks[n]) && marks[n].boundary == Some(Start)
    ensures NestAfter(marks, n + 1) == Nest(NestAfter(marks, n).open + [n], NestAfter(marks, n).pairs)
  {
  }

  lemma StepNone(marks: seq<Mark>, n: nat)
    requires n < |marks| && !IsEvent(marks[n])
    ensures NestAfter(marks, n + 1) == NestAfter(marks, n)
  {
  }

  /** The new start marker is put on the stack. */
  lemma LiftedFirst(marks: seq<Mark>, marks': seq<Mark>, id: string, p: nat, q: nat)
    requires IsInsertion(marks, marks', id, p, q)
    ensures IsLifted(p, q, NestAfter(marks, p).open, NestAfter(marks, p), NestAfter(marks', p + 1))
  {
    var nest := NestAfter(marks, p);
    BeforeInsertion(marks, marks', id, p, q, p);
    StepStart(marks', p);
    NothingLifted(p, q, nest);
  }

  lemma NothingLifted(p: nat, q: nat, nest: Nest)
    requires forall a, b :: (a, b) in nest.pairs ==> a < p && b < p
    ensures IsLifted(p, q, nest.open, nest, Nest(nest.open + [p], nest.pairs))
  {
    var base := nest.open;
    assert base[..|base|] == base && base[|base|..] == [] && ShiftAll(p, q, []) == [];
    assert base + [p] + [] == base + [p];
    forall x | x in nest.pairs
      ensures ShiftPair(p, q, x) == x
    {
      assert (x.0, x.1) in nest.pairs;
    }
    forall y | y in nest.pairs
      ensures IsShift(p, q, nest.pairs, y)
    {
      assert ShiftPair(p, q, y) == y;
    }
  }

  lemma PushLifted(p: nat, q: nat, base: seq<nat>, nest: Nest, nest': Nest, n: nat)
    requires IsLifted(p, q, base, nest, nest') && p <= n < q
    ensures IsLifted(p, q, base, Nest(nest.open + [n], nest.pairs), Nest(nest'.open + [n + 1], nest'.pairs))
  {
    var tail := nest.open[|base|..];
    assert (nest.open + [n])[|base|..] == tail + [n];
    assert (nest.open + [n])[..|base|] == base;
    assert ShiftAll(p, q, tail + [n]) == ShiftAll(p, q, tail) + [n + 1];
    assert base + [p] + ShiftAll(p, q, tail) + [n + 1] == base + [p] + (ShiftAll(p, q, tail) + [n + 1]);
  }

  lemma {:induction false} InsideInsertion(marks: seq<Mark>, marks': seq<Mark>, id: string, p: nat, q: nat, n: nat)
    requires IsHarmless(marks, marks', id, p, q) && p <= n <= q
    ensures IsLifted(p, q, NestAfter(marks, p).open, NestAfter(marks, n), NestAfter(marks', n + 1))
    decreases n - p
  {
    hide NestAfter, IsLifted;
    if n == p {
      LiftedFirst(marks, marks', id, p, q);
    } else {
      InsideInsertion(marks, marks', id, p, q, n - 1);
      if IsEvent(marks[n - 1]) && marks[n - 1].boundary == Some(End) { LiftedTop(marks, marks', id, p, q, n - 1); }
      LiftedStep(marks, marks', id, p, q, n - 1);
    }
  }

  lemma LiftedStep(marks: seq<Mark>, marks': seq<Mark>, id: string, p: nat, q: nat, n: nat)
    requires IsInsertion(marks, marks', id, p, q) && p <= n < q && ClosesOwn(marks, p, n)
    requires IsLifted(p, q, NestAfter(marks, p).open, NestAfter(marks, n), NestAfter(marks', n + 1))
    ensures IsLifted(p, q, NestAfter(marks, p).open, NestAfter(marks, n + 1), NestAfter(marks', n + 2))
  {
    var base := NestAfter(marks, p).open;
    MarkKept(marks, marks', id, p, q, n);
    if !IsEvent(marks[n]) {
      StepNone(marks, n);
      StepNone(marks', n + 1);
    } else if marks[n].boundary == Some(Start) {
      StepStart(marks, n);
      StepStart(marks', n + 1);
      PushLifted(p, q, base, NestAfter(marks, n), NestAfter(marks', n + 1), n);
    } else {
      assert marks[n].boundary.value == End;
      LiftedEnd(marks, marks', id, p, q, n);
    }
  }

  // ---------------------------------------------------------------- around whole selections

  /** Marker k belongs to a matched pair at the positions p..q. */
  ghost predicate IsGrouped(marks: seq<Mark>, p: nat, q: nat, k: nat) {
    exists y :: y in Pairs(marks) && p <= y.0 && y.1 < q && (k == y.0 || k == y.1)
  }

  /** Every marker at the positions p..q belongs to a matched pair there. */
  ghost predicate AreGrouped(marks: seq<Mark>, p: nat, q: nat) {
    forall k :: p <= k < q ==> IsGrouped(marks, p, q, k)
  }

  lemma {:induction false} PairIsKept(marks: seq<Mark>, m: nat, n: nat, y: (nat, nat))
    requires m <= n <= |marks| && y in NestAfter(marks, m).pairs
    ensures y in NestAfter(marks, n).pairs
    decreases n
  {
    if m < n {
      PairIsKept(marks, m, n - 1, y);
      assert NestAfter(marks, n) == Step(marks, NestAfter(marks, n - 1), n - 1);
    }
  }

  lemma {:induction false} PairIsEarly(marks: seq<Mark>, m: nat, n: nat, y: (nat, nat))
    requires m <= n <= |marks| && y in NestAfter(marks, n).pairs && y.1 < m
    ensures y in NestAfter(marks, m).pairs
    decreases n
  {
    if m < n {
      assert NestAfter(marks, n) == Step(marks, NestAfter(marks, n - 1), n - 1);
      PairIsEarly(marks, m, n - 1, y);
    }
  }

  /** An end marker of a group closes a marker of the group. */
  lemma GroupClosesOwn(marks: seq<Mark>, p: nat, q: nat, n: nat)
    requires p <= n < q <= |marks| && IsGrouped(marks, p, q, n)
    requires |NestAfter(marks, p).open| <= |NestAfter(marks, n).open|
    requires NestAfter(marks, n).open[..|NestAfter(marks, p).open|] == NestAfter(marks, p).open
    ensures ClosesOwn(marks, p, n)
  {
    hide NestAfter;
    if IsEvent(marks[n]) && marks[n].boundary == Some(End) {
      var y :| y in Pairs(marks) && p <= y.0 && y.1 < q && (n == y.0 || n == y.1);
      PairJoins(marks, |marks|, y.0, y.1);
      PairIsTop(marks, |marks|, y.0, n);
      var open, base := NestAfter(marks, n).open, NestAfter(marks, p).open;
      assert |base| == |open| ==> base == open;
    }
  }

  lemma {:induction false} InsideGroup(marks: seq<Mark>, marks': seq<Mark>, id: string, p: nat, q: nat, n: nat)
    requires IsInsertion(marks, marks', id, p, q) && AreGrouped(marks, p, q) && p <= n <= q
    ensures IsLifted(p, q, NestAfter(marks, p).open, NestAfter(marks, n), NestAfter(marks', n + 1))
    decreases n - p
  {
    hide NestAfter, IsShifted, IsGrouped, ClosesOwn;
    if n == p {
      LiftedFirst(marks, marks', id, p, q);
    } else {
      InsideGroup(marks, marks', id, p, q, n - 1);
      GroupClosesOwn(marks, p, q, n - 1);
      LiftedStep(marks, marks', id, p, q, n - 1);
    }
  }

  /** Behind a group nothing of it is open. */
  lemma GroupIsClosed(marks: seq<Mark>, p: nat, q: nat, i: nat)
    requires p <= q <= |marks| && AreGrouped(marks, p, q) && i < |NestAfter(marks, q).open|
    ensures NestAfter(marks, q).open[i] < p
  {
    hide NestAfter;
    var k := NestAfter(marks, q).open[i];
    if p <= k {
      assert IsGrouped(marks, p, q, k);
      var y :| y in Pairs(marks) && p <= y.0 && y.1 < q && (k == y.0 || k == y.1);
      PairIsEarly(marks, q, |marks|, y);
      AfterIsNested(marks, q);
      assert false;
    }
  }

  /** A pair around whole selections is matched, and so is what is between its markers. */
  lemma GroupIsHarmless(marks: seq<Mark>, marks': seq<Mark>, id: string, p: nat, q: nat)
    requires IsInsertion(marks, marks', id, p, q) && AreGrouped(marks, p, q)
    ensures IsHarmless(marks, marks', id, p, q)
  {
    hide NestAfter, IsGrouped;
    var nest, nest' := NestAfter(marks, q), NestAfter(marks', q + 1);
    var base := NestAfter(marks, p).open;
    InsideGroup(marks, marks', id, p, q, q);
    if |base| < |nest.open| {
      GroupIsClosed(marks, p, q, |base|);
      OpenIsLater(marks, p, q, |base|);
    }
    assert nest.open == base && nest'.open == base + [p] + ShiftAll(p, q, []);
    StepEnd(marks', q + 1, p);
    PairIsKept(marks', q + 2, |marks'|, (p, q + 1));
    forall k | p <= k < q && IsEvent(marks[k]) && marks[k].boundary == Some(End)
      ensures IsPairedEnd(Pairs(marks'), k + 1)
    {
      GroupedEnd(marks, p, q, k);
      var a :| (a, k) in Pairs(marks);
      PairIsEarly(marks, q, |marks|, (a, k));
      PairIsKept(marks', q + 1, |marks'|, ShiftPair(p, q, (a, k)));
    }
  }

  lemma GroupedEnd(marks: seq<Mark>, p: nat, q: nat, k: nat)
    requires p <= k < q <= |marks| && IsGrouped(marks, p, q, k) && marks[k].boundary == Some(End)
    ensures IsPairedEnd(Pairs(marks), k)
  {
    var y :| y in Pairs(marks) && p <= y.0 && y.1 < q && (k == y.0 || k == y.1);
    PairJoins(marks, |marks|, y.0, y.1);
  }

  /** What is on the stack above its state after p markers was put there later. */
  lemma {:induction false} OpenIsLater(marks: seq<Mark>, p: nat, n: nat, i: nat)
    requires p <= n <= |marks| && |NestAfter(marks, p).open| <= i < |NestAfter(marks, n).open|
    ensures p <= NestAfter(marks, n).open[i]
    decreases n
  {
    if p < n {
      assert NestAfter(marks, n) == Step(marks, NestAfter(marks, n - 1), n - 1);
      if i < |NestAfter(marks, n - 1).open| { OpenIsLater(marks, p, n - 1, i); }
    }
  }

  /** From the new end marker on, the stack is the old one. */
  ghost predicate IsRestored(p: nat, q: nat, nest: Nest, nest': Nest) {
    && nest'.open == ShiftAll(p, q, nest.open)
    && (p, q + 1) in nest'.pairs && IsShifted(p, q, nest.pairs, nest'.pairs - {(p, q + 1)})
  }

  lemma NoShiftIsP(p: nat, q: nat, base: seq<nat>, open: seq<nat>, open': seq<nat>)
    requires |base| <= |open| && open[..|base|] == base && open' == base + [p] + ShiftAll(p, q, open[|base|..])
    ensures |base| == |open| || open'[|open'| - 1] != p
  {
    if |base| < |open| {
      Pop(p, q, base, open, open');
    }
  }

  /** The new end marker closes the new start marker: everything opened between them was closed. */
  lemma ClosesNewPair(marks: seq<Mark>, marks': seq<Mark>, id: string, p: nat, q: nat)
    requires IsHarmless(marks, marks', id, p, q)
    ensures IsRestored(p, q, NestAfter(marks, q), NestAfter(marks', q + 2))
  {
    hide NestAfter, IsShifted;
    var base := NestAfter(marks, p).open;
    var nest, nest' := NestAfter(marks, q), NestAfter(marks', q + 1);
    InsideInsertion(marks, marks', id, p, q, q);
    PairIsTop(marks', |marks'|, p, q + 1);
    NoShiftIsP(p, q, base, nest.open, nest'.open);
    assert nest.open == base && nest'.open == base + [p];
    StepEnd(marks', q + 1, p);
    assert ShiftAll(p, q, base) == base;
  }

  lemma PushRestored(p: nat, q: nat, nest: Nest, nest': Nest, n: nat)
    requires IsRestored(p, q, nest, nest') && p <= q <= n
    ensures IsRestored(p, q, Nest(nest.open + [n], nest.pairs), Nest(nest'.open + [n + 2], nest'.pairs))
  {
    assert ShiftAll(p, q, nest.open + [n]) == ShiftAll(p, q, nest.open) + [n + 2];
  }

  lemma PopRestored(p: nat, q: nat, nest: Nest, nest': Nest, n: nat)
    requires IsRestored(p, q, nest, nest') && p <= q <= n && nest.open != []
    ensures nest'.open != []
    ensures var top, top' := nest.open[|nest.open| - 1], nest'.open[|nest'.open| - 1];
            && top' == Shift(p, q, top)
            && IsRestored(p, q, Nest(nest.open[..|nest.open| - 1], nest.pairs + {(top, n)}),
                          Nest(nest'.open[..|nest'.open| - 1], nest'.pairs + {(top', n + 2)}))
  {
    var top := nest.open[|nest.open| - 1];
    assert ShiftAll(p, q, nest.open)[..|nest.open| - 1] == ShiftAll(p, q, nest.open[..|nest.open| - 1]);
    ShiftOneMore(p, q, nest.pairs, nest'.pairs - {(p, q + 1)}, (top, n));
    AddAndRemove(nest'.pairs, ShiftPair(p, q, (top, n)), (p, q + 1));
  }

  lemma AddAndRemove<T>(all: set<T>, x: T, y: T)
    requires x != y
    ensures all + {x} - {y} == all - {y} + {x}
  {
  }

  lemma RestoredStep(marks: seq<Mark>, marks': seq<Mark>, id: string, p: nat, q: nat, n: nat)
    requires IsInsertion(marks, marks', id, p, q) && q <= n < |marks|
    requires IsRestored(p, q, NestAfter(marks, n), NestAfter(marks', n + 2))
    ensures IsRestored(p, q, NestAfter(marks, n + 1), NestAfter(marks', n + 3))
  {
    var nest, nest' := NestAfter(marks, n), NestAfter(marks', n + 2);
    MarkKept(marks, marks', id, p, q, n);
    if !IsEvent(marks[n]) {
      StepNone(marks, n);
      StepNone(marks', n + 2);
    } else if marks[n].boundary == Some(Start) {
      StepStart(marks, n);
      StepStart(marks', n + 2);
      PushRestored(p, q, nest, nest', n);
    } else {
      assert marks[n].boundary.value == End;
      RestoredEnd(marks, marks', id, p, q, n);
    }
  }

  lemma StepStray(marks: seq<Mark>, n: nat)
    requires n < |marks| && IsEvent(marks[n]) && marks[n].boundary == Some(End)
    requires var open := NestAfter(marks, n).open; open == [] || marks[open[|open| - 1]].id != marks[n].id
    ensures NestAfter(marks, n + 1) == NestAfter(marks, n)
  {
  }

  lemma RestoredEnd(marks: seq<Mark>, marks': seq<Mark>, id: string, p: nat, q: nat, n: nat)
    requires IsInsertion(marks, marks', id, p, q) && q <= n < |marks|
    requires IsRestored(p, q, NestAfter(marks, n), NestAfter(marks', n + 2))
    requires IsEvent(marks[n]) && marks[n].boundary == Some(End)
    ensures IsRestored(p, q, NestAfter(marks, n + 1), NestAfter(marks', n + 3))
  {
    hide IsShifted;
    var nest, nest' := NestAfter(marks, n), NestAfter(marks', n + 2);
    MarkKept(marks, marks', id, p, q, n);
    if nest.open == [] {
      StepStray(marks, n);
      StepStray(marks', n + 2);
    } else {
      var top := nest.open[|nest.open| - 1];
      PopRestored(p, q, nest, nest', n);
      MarkKept(marks, marks', id, p, q, top);
      if marks[top].id == marks[n].id {
        StepEnd(marks, n, top);
        StepEnd(marks', n + 2, Shift(p, q, top));
      } else {
        StepStray(marks, n);
        StepStray(marks', n + 2);
      }
    }
  }

  lemma {:induction false} AfterInsertion(marks: seq<Mark>, marks': seq<Mark>, id: string, p: nat, q: nat, n: nat)
    requires IsHarmless(marks, marks', id, p, q) && q <= n <= |marks|
    ensures IsRestored(p, q, NestAfter(marks, n), NestAfter(marks', n + 2))
    decreases n - q
  {
    hide Step;
    if n == q {
      ClosesNewPair(marks, marks', id, p, q);
    } else {
      AfterInsertion(marks, marks', id, p, q, n - 1);
      RestoredStep(marks, marks', id, p, q, n - 1);
    }
  }

  /** A harmless insertion adds exactly its own pair. */
  lemma InsertionAddsOnePair(marks: seq<Mark>, marks': seq<Mark>, id: string, p: nat, q: nat)
    requires IsHarmless(marks, marks', id, p, q)
    ensures IsShifted(p, q, Pairs(marks), Pairs(marks') - {(p, q + 1)})
  {
    AfterInsertion(marks, marks', id, p, q, |marks|);
  }

  lemma Preimage(p: nat, q: nat, i': nat) returns (i: nat)
    requires p <= q && i' != p && i' != q + 1
    ensures Shift(p, q, i) == i'
  {
    i := if i' < p then i' else if i' < q + 1 then i' - 1 else i' - 2;
  }

  /** The markers of another selection stay the same ones. */
  lemma InsertionKeepsEnds(marks: seq<Mark>, marks': seq<Mark>, id: string, p: nat, q: nat, other: string,
                           boundary: Boundary, a: nat)
    requires IsInsertion(marks, marks', id, p, q) && other != id && a < |marks|
    ensures (forall i :: 0 <= i < |marks| ==> (IsEnd(other, boundary, marks[i]) <==> i == a))
            <==> (forall i' :: 0 <= i' < |marks'| ==> (IsEnd(other, boundary, marks'[i']) <==> i' == Shift(p, q, a)))
  {
    if forall i :: 0 <= i < |marks| ==> (IsEnd(other, boundary, marks[i]) <==> i == a) {
      forall i' | 0 <= i' < |marks'|
        ensures IsEnd(other, boundary, marks'[i']) <==> i' == Shift(p, q, a)
      {
        if i' != p && i' != q + 1 {
          var i := Preimage(p, q, i');
          assert marks'[Shift(p, q, i)] == marks[i];
        }
      }
    }
    if forall i' :: 0 <= i' < |marks'| ==> (IsEnd(other, boundary, marks'[i']) <==> i' == Shift(p, q, a)) {
      forall i | 0 <= i < |marks|
        ensures IsEnd(other, boundary, marks[i]) <==> i == a
      {
        assert marks'[Shift(p, q, i)] == marks[i];
      }
    }
  }

  lemma InsertionKeepsPair(marks: seq<Mark>, marks': seq<Mark>, id: string, p: nat, q: nat, x: (nat, nat))
    requires IsHarmless(marks, marks', id, p, q)
    ensures x in Pairs(marks) <==> ShiftPair(p, q, x) in Pairs(marks')
  {
    InsertionAddsOnePair(marks, marks', id, p, q);
    if ShiftPair(p, q, x) in Pairs(marks') {
      assert IsShift(p, q, Pairs(marks), ShiftPair(p, q, x));
    }
  }

  /** Every other selection resolves at the same two markers, or still does not resolve. */
  lemma InsertionKeepsVerdicts(marks: seq<Mark>, marks': seq<Mark>, id: string, p: nat, q: nat, other: string,
                               a: nat, b: nat)
    requires IsHarmless(marks, marks', id, p, q) && other != id && a < |marks| && b < |marks|
    ensures JudgeFile(other, marks) == At(a, b)
            <==> JudgeFile(other, marks') == At(Shift(p, q, a), Shift(p, q, b))
  {
    InsertionKeepsPair(marks, marks', id, p, q, (a, b));
    InsertionKeepsEnds(marks, marks', id, p, q, other, Start, a);
    InsertionKeepsEnds(marks, marks', id, p, q, other, End, b);
    ResolvesIff(other, marks, a, b);
    ResolvesIff(other, marks', Shift(p, q, a), Shift(p, q, b));
  }

  /** Nothing but the new selection starts to resolve at the new markers. */
  lemma InsertionResolvesNothingElse(marks: seq<Mark>, marks': seq<Mark>, id: string, p: nat, q: nat, other: string)
    requires IsHarmless(marks, marks', id, p, q) && other != id && JudgeFile(other, marks').At?
    ensures JudgeFile(other, marks).At?
  {
    var a', b' := JudgeFile(other, marks').start, JudgeFile(other, marks').end;
    ResolvesIff(other, marks', a', b');
    assert IsEnd(other, Start, marks'[a']) && IsEnd(other, End, marks'[b']);
    var a := Preimage(p, q, a');
    var b := Preimage(p, q, b');
    InsertionKeepsVerdicts(marks, marks', id, p, q, other, a, b);
  }
}
