// src/selection/create.rs: creating a selection never breaks an existing one.
module Create {
  import opened Anchors
  import opened Markers
  import opened Nesting
  import opened Tracker
  import opened Insertion
  import opened Contents
  import opened Resolving
  import Diff

  // ---------------------------------------------------------------- counting lines

  function Newlines(s: string): nat {
    if s == "" then 0 else (if s[0] == '\n' then 1 else 0) + Newlines(s[1..])
  }

  lemma {:induction false} NewlinesAppend(a: string, b: string)
    ensures Newlines(a + b) == Newlines(a) + Newlines(b)
  {
    if a == "" {
      assert a + b == b;
    } else {
      NewlinesAppend(a[1..], b);
      assert (a + b)[1..] == a[1..] + b;
    }
  }

  lemma ReturnIsNoNewline(s: string)
    requires |s| > 1 && s[0] == '\r' && s[1] == '\n'
    ensures Newlines(s) == 1 + Newlines(s[2..]) && (IsClosed(s) <==> s[2..] == "" || IsClosed(s[2..]))
  {
    assert s[1..][1..] == s[2..];
  }

  lemma {:induction false} NormalizeKeepsNewlines(s: string)
    ensures Newlines(Normalize(s)) == Newlines(s)
    ensures IsClosed(Normalize(s)) <==> IsClosed(s)
    ensures Normalize(s) == "" <==> s == ""
    decreases |s|
  {
    hide Normalize;
    if s == "" {
      NormalizeNone();
    } else if s[0] == '\r' && |s| > 1 && s[1] == '\n' {
      NormalizeKeepsNewlines(s[2..]);
      NormalizeReturn(s);
      ReturnIsNoNewline(s);
      NewlinesAppend("\n", Normalize(s[2..]));
    } else {
      NormalizeKeepsNewlines(s[1..]);
      NormalizeOther(s);
      NewlinesAppend([s[0]], Normalize(s[1..]));
    }
  }

  lemma NormalizeNone()
    ensures Normalize("") == ""
  {
  }

  lemma NormalizeReturn(s: string)
    requires |s| > 1 && s[0] == '\r' && s[1] == '\n'
    ensures Normalize(s) == "\n" + Normalize(s[2..])
  {
  }

  lemma NormalizeOther(s: string)
    requires s != "" && !(s[0] == '\r' && |s| > 1 && s[1] == '\n')
    ensures Normalize(s) == [s[0]] + Normalize(s[1..])
  {
  }

  lemma ContentNewlines(s: string)
    ensures Newlines(NormalizeContent(s)) == Newlines(s) + if s == "" || IsClosed(s) then 0 else 1
  {
    NormalizeKeepsNewlines(s);
    NewlinesAppend(Normalize(s), "\n");
  }

  lemma {:induction false} OneLine(s: string)
    requires IsSegment(s)
    ensures Newlines(s) == if IsClosed(s) then 1 else 0
  {
    if |s| > 1 { OneLine(s[1..]); }
  }

  /** One more line in front of n lines, the last of which may have no ending. */
  lemma OneMoreLine(first: string, rest: string, n: nat, isEnded: bool)
    requires IsSegment(first) && (n > 0 ==> IsClosed(first))
    requires Newlines(rest) == n - if n == 0 || isEnded then 0 else 1
    requires (IsClosed(rest) <==> n > 0 && isEnded) && (rest == "" <==> n == 0)
    ensures var ends := if n == 0 then IsClosed(first) else isEnded;
            && Newlines(first + rest) == n + (if ends then 1 else 0)
            && (IsClosed(first + rest) <==> ends) && first + rest != ""
  {
    OneLine(first);
    NewlinesAppend(first, rest);
    if n == 0 { assert first + rest == first; }
  }

  lemma JoinStep(segments: seq<string>)
    requires segments != []
    ensures Join(segments) == segments[0] + Join(segments[1..])
  {
  }

  lemma {:induction false} JoinNewlines(segments: seq<string>)
    requires WellSegmented(segments)
    ensures Newlines(Join(segments))
            == |segments| - if segments == [] || IsClosed(segments[|segments| - 1]) then 0 else 1
    ensures IsClosed(Join(segments)) <==> segments != [] && IsClosed(segments[|segments| - 1])
    ensures Join(segments) == "" <==> segments == []
    decreases |segments|
  {
    if segments != [] {
      hide Join, Newlines;
      var rest := segments[1..];
      JoinNewlines(rest);
      JoinStep(segments);
      OneMoreLine(segments[0], Join(rest), |rest|, rest != [] && IsClosed(rest[|rest| - 1]));
    }
  }

  /** The content of n lines has n newlines. */
  lemma LinesInContent(segments: seq<string>)
    requires WellSegmented(segments)
    ensures Newlines(NormalizeContent(Join(segments))) == |segments|
  {
    JoinNewlines(segments);
    ContentNewlines(Join(segments));
  }

  /** How many of the lines s..n are not in `out`. */
  function Count(out: set<nat>, s: nat, n: nat): nat {
    if n < s then 0
    else if n == 0 then (if 0 in out then 0 else 1)
    else Count(out, s, n - 1) + if n in out then 0 else 1
  }

  /** A line left out of the moved range was left out before. */
  predicate WasOut(marked: set<nat>, drop: set<nat>, line: nat) { line + 1 in drop ==> line in marked }

  predicate StaysOut(marked: set<nat>, drop: set<nat>, line: nat) { line in marked ==> line + 1 in drop }

  /** Equally many lines are left of a range and of the same range moved by one, so the same lines
      are left out. */
  lemma {:induction false} SameCountSameLines(drop: set<nat>, marked: set<nat>, s: nat, n: nat)
    requires 0 < s && forall line :: s <= line <= n ==> WasOut(marked, drop, line)
    ensures Count(marked, s, n) <= Count(drop, s + 1, n + 1)
    ensures Count(marked, s, n) == Count(drop, s + 1, n + 1) ==>
              forall line :: s <= line <= n ==> StaysOut(marked, drop, line)
    decreases n
  {
    if s <= n {
      assert WasOut(marked, drop, n);
      SameCountSameLines(drop, marked, s, n - 1);
    }
  }

  /** The number of kept lines is the number of newlines they hold. */
  lemma {:induction false} KeptNewlines(lines: seq<string>, drop: set<nat>, from: nat, upTo: nat)
    requires from <= upTo <= |lines| && AllClosed(lines[from..upTo])
    ensures var kept := KeepLines(lines, from, upTo, drop);
            Newlines(kept) == Count(drop, from + 1, upTo) && (kept == "" || IsClosed(kept))
    decreases upTo
  {
    if from < upTo {
      var last := lines[from..upTo][upTo - 1 - from];
      assert lines[from..upTo - 1] == lines[from..upTo][..upTo - 1 - from];
      KeptNewlines(lines, drop, from, upTo - 1);
      OneLine(last);
      NewlinesAppend(KeepLines(lines, from, upTo - 1, drop), last);
      assert KeepLines(lines, from, upTo - 1, drop) + "" == KeepLines(lines, from, upTo - 1, drop);
    }
  }

  // ---------------------------------------------------------------- what the checks establish

  /** A file before and after inserting the markers of a new selection around lines s..e, whether or
      not they cross existing ones. */
  ghost predicate IsInserted(lines: seq<string>, markers: seq<Marker>, lines': seq<string>, markers': seq<Marker>,
                             id: string, s: nat, e: nat, p: nat, q: nat) {
    && AreLinesInserted(lines, lines', s, e) && AllClosed(lines'[s..e + 1])
    && AreInOrder(markers) && AreInOrder(markers')
    && p == Rank(markers, s - 1) && q == Rank(markers, e)
    && (forall i :: 0 <= i < |markers| ==> 0 < markers[i].line <= |lines|)
    && IsInsertion(MarksOf(markers), MarksOf(markers'), id, p, q)
    && markers'[p].line == s && markers'[q + 1].line == e + 2
    && (forall i {:trigger Shift(p, q, i)} :: 0 <= i < |markers| ==>
          markers'[Shift(p, q, i)].line == ShiftLine(s, e, markers[i].line))
  }

  function MarkerLines(markers: seq<Marker>): set<nat> { set k | 0 <= k < |markers| :: markers[k].line }

  lemma InsertedMiddle(text: string, lines: seq<string>, syntax: CommentSyntax, id: string, s: nat, e: nat)
    requires 0 < s <= e <= |lines| && WellSegmented(lines)
    ensures AllClosed(InsertLines(text, lines, syntax, id, s, e)[s..e + 1])
  {
    InsertLinesAt(text, lines, syntax, id, s, e);
    PartsAreSegmented(lines, LineEnding(text), s - 1, e);
  }

  lemma InsertGivesInserted(text: string, syntax: CommentSyntax, id: string, s: nat, e: nat)
    requires 0 < s <= e <= |Segments(text)| && IsSyntax(syntax) && IsSelectionId(id)
    requires forall m :: m in FindMarkers(Some(syntax), text) ==> m.mark.id != Some(id)
    ensures var lines, markers := Segments(text), FindMarkers(Some(syntax), text);
            var lines' := InsertLines(text, lines, syntax, id, s, e);
            && Insert(text, syntax, id, s, e) == Ok(Join(lines')) && Segments(Join(lines')) == lines'
            && IsInserted(lines, markers, lines', FindMarkers(Some(syntax), Join(lines')), id, s, e,
                          Rank(markers, s - 1), Rank(markers, e))
  {
    var lines, markers := Segments(text), FindMarkers(Some(syntax), text);
    SegmentsJoin(text);
    InsertIsInsertLines(text, syntax, id, s, e);
    var lines' := InsertLines(text, lines, syntax, id, s, e);
    var text' := Join(lines');
    InsertedMiddle(text, lines, syntax, id, s, e);
    InsertedOldLines(text, lines, syntax, id, s, e);
    InsertedMarks(text, lines, syntax, id, s, e);
    ScanIsOrdered(Some(syntax), text);
    ScanIsOrdered(Some(syntax), text');
    ScansAreInserted(lines, LineMarks(Some(syntax), lines), markers, lines', LineMarks(Some(syntax), lines'),
                     FindMarkers(Some(syntax), text'), id, s, e);
  }

  lemma ScansAreInserted(lines: seq<string>, marks: seq<Option<Mark>>, markers: seq<Marker>,
                         lines': seq<string>, marks': seq<Option<Mark>>, markers': seq<Marker>, id: string, s: nat,
                         e: nat)
    requires IsScanned(marks, lines, markers) && IsScanned(marks', lines', markers')
    requires AreMarksInserted(marks, marks', id, s, e) && AreLinesInserted(lines, lines', s, e)
    requires AllClosed(lines'[s..e + 1]) && forall m :: m in markers ==> m.mark.id != Some(id)
    ensures IsInserted(lines, markers, lines', markers', id, s, e, Rank(markers, s - 1), Rank(markers, e))
  {
    hide Rank;
    InsertedMarkers(lines, marks, markers, lines', marks', markers', id, s, e);
    forall i | 0 <= i < |markers|
      ensures 0 < markers[i].line <= |lines| && markers[i].mark.id != Some(id)
    {
      assert IsMarkerOf(marks, lines, |lines|, markers[i]);
      assert markers[i] in markers;
    }
  }

  /** A dropped line between the new markers is the line of an old marker. */
  lemma DroppedIsMarked(lines: seq<string>, markers: seq<Marker>, lines': seq<string>, markers': seq<Marker>,
                        id: string, s: nat, e: nat, p: nat, q: nat, line: nat)
    requires IsInserted(lines, markers, lines', markers', id, s, e, p, q) && s <= line <= e
    requires line + 1 in DroppedLines(markers', (p, q + 1))
    ensures line in MarkerLines(markers)
  {
    var k' :| 0 <= k' < |markers'| && IsChildMark(MarksOf(markers'), (p, q + 1), k') && markers'[k'].line == line + 1;
    var k := Preimage(p, q, k');
    assert markers'[Shift(p, q, k)].line == ShiftLine(s, e, markers[k].line);
    assert markers[k].line == line;
  }

  /** When every marker line between the new markers is dropped, every end marker there is matched. */
  lemma DroppedIsPaired(lines: seq<string>, markers: seq<Marker>, lines': seq<string>, markers': seq<Marker>,
                        id: string, s: nat, e: nat, p: nat, q: nat, k: nat)
    requires IsInserted(lines, markers, lines', markers', id, s, e, p, q) && p <= k < q
    requires markers[k].line + 1 in DroppedLines(markers', (p, q + 1))
    requires MarksOf(markers)[k].boundary == Some(End)
    ensures IsPairedEnd(Pairs(MarksOf(markers')), k + 1)
  {
    hide NestAfter;
    var marks' := MarksOf(markers');
    assert markers'[Shift(p, q, k)].line == ShiftLine(s, e, markers[k].line);
    assert marks'[Shift(p, q, k)] == MarksOf(markers)[k];
    var k' :| 0 <= k' < |markers'| && IsChildMark(marks', (p, q + 1), k') && markers'[k'].line == markers[k].line + 1;
    assert k' == k + 1;
    var y :| y in Pairs(marks') && marks'[y.0].id != marks'[p].id && Inside(y, (p, q + 1)) && (k' == y.0 || k' == y.1);
    PairJoins(marks', |marks'|, y.0, y.1);
    assert k' == y.1;
  }

  /** The content has as many lines as there are lines without markers, so every marker line between
      the new markers is dropped. */
  lemma EveryMarkerIsDropped(lines': seq<string>, drop: set<nat>, marked: set<nat>, s: nat, e: nat)
    requires 0 < s <= e < |lines'| && AllClosed(lines'[s..e + 1])
    requires forall line :: s <= line <= e ==> WasOut(marked, drop, line)
    requires Newlines(NormalizeContent(KeepLines(lines', s, e + 1, drop))) == Count(marked, s, e)
    ensures forall line :: s <= line <= e ==> StaysOut(marked, drop, line)
  {
    hide KeepLines, Newlines, NormalizeContent, Count, WasOut, StaysOut;
    KeptNewlines(lines', drop, s, e + 1);
    ContentNewlines(KeepLines(lines', s, e + 1, drop));
    SameCountSameLines(drop, marked, s, e);
  }

  lemma DroppedWereOut(lines: seq<string>, markers: seq<Marker>, lines': seq<string>, markers': seq<Marker>,
                       id: string, s: nat, e: nat, p: nat, q: nat, drop: set<nat>, marked: set<nat>)
    requires IsInserted(lines, markers, lines', markers', id, s, e, p, q)
    requires drop == DroppedLines(markers', (p, q + 1)) && marked == MarkerLines(markers)
    ensures forall line :: s <= line <= e ==> WasOut(marked, drop, line)
  {
    forall line | s <= line <= e
      ensures WasOut(marked, drop, line)
    {
      if line + 1 in drop { DroppedIsMarked(lines, markers, lines', markers', id, s, e, p, q, line); }
    }
  }

  lemma MarkersAreDropped(lines: seq<string>, markers: seq<Marker>, lines': seq<string>, markers': seq<Marker>,
                          id: string, s: nat, e: nat, p: nat, q: nat, k: nat)
    requires IsInserted(lines, markers, lines', markers', id, s, e, p, q) && p <= k < q
    requires Newlines(ContentOf(lines', markers', (p, q + 1))) == Count(MarkerLines(markers), s, e)
    ensures s <= markers[k].line <= e && markers[k].line + 1 in DroppedLines(markers', (p, q + 1))
  {
    hide NormalizeContent, KeepLines;
    var drop, marked := DroppedLines(markers', (p, q + 1)), MarkerLines(markers);
    DroppedWereOut(lines, markers, lines', markers', id, s, e, p, q, drop, marked);
    EveryMarkerIsDropped(lines', drop, marked, s, e);
    assert markers[k].line in marked;
    assert StaysOut(marked, drop, markers[k].line);
  }

  /** A matched pair that drops every marker line it encloses is harmless. */
  lemma ChecksGiveHarmless(lines: seq<string>, markers: seq<Marker>, lines': seq<string>, markers': seq<Marker>,
                           id: string, s: nat, e: nat, p: nat, q: nat)
    requires IsInserted(lines, markers, lines', markers', id, s, e, p, q)
    requires (p, q + 1) in Pairs(MarksOf(markers'))
    requires Newlines(ContentOf(lines', markers', (p, q + 1))) == Count(MarkerLines(markers), s, e)
    ensures IsMarkerInsertion(lines, markers, lines', markers', id, s, e, p, q)
  {
    hide ContentOf, AreInOrder, AreLinesInserted, Pairs;
    forall k | p <= k < q && MarksOf(markers)[k].boundary == Some(End)
      ensures IsPairedEnd(Pairs(MarksOf(markers')), k + 1)
    {
      MarkersAreDropped(lines, markers, lines', markers', id, s, e, p, q, k);
      DroppedIsPaired(lines, markers, lines', markers', id, s, e, p, q, k);
    }
  }

  // ---------------------------------------------------------------- the new file

  ghost predicate HasNoProblem(marks: seq<Mark>) { forall i :: 0 <= i < |marks| ==> marks[i].problem.None? }

  lemma JudgedWithoutProblems(id: string, marks: seq<Mark>)
    requires HasNoProblem(marks)
    ensures JudgeOne(id, marks).At? <==> JudgeFile(id, marks).At?
    ensures JudgeOne(id, marks).At? ==> JudgeOne(id, marks) == JudgeFile(id, marks)
  {
    if JudgeFile(id, marks).At? {
      ResolvesIff(id, marks, JudgeFile(id, marks).start, JudgeFile(id, marks).end);
      assert IsHit(id, marks[JudgeFile(id, marks).start]);
    }
  }

  lemma InsertionAddsNoProblem(marks: seq<Mark>, marks': seq<Mark>, id: string, p: nat, q: nat)
    requires IsInsertion(marks, marks', id, p, q) && HasNoProblem(marks)
    ensures HasNoProblem(marks')
  {
    forall i' | 0 <= i' < |marks'|
      ensures marks'[i'].problem.None?
    {
      if i' != p && i' != q + 1 {
        var i := Preimage(p, q, i');
        assert marks'[Shift(p, q, i)] == marks[i];
      }
    }
  }

  /** A selection is in the file, and resolves there, before exactly when it does after, with the same
      content, and its markers move with the lines. */
  ghost predicate KeepsSelection(other: string, before: FileScan, after: FileScan, s: nat, e: nat)
    requires IsOrderly(before) && IsOrderly(after)
  {
    var r, r' := ResolveOne(other, before), ResolveOne(other, after);
    && (HasHit(other, MarksOf(before.markers)) <==> HasHit(other, MarksOf(after.markers)))
    && (r.Resolved? <==> r'.Resolved?)
    && (r.Resolved? ==>
          && r'.location.content == r.location.content
          && r'.location.startMarkerLine == ShiftLine(s, e, r.location.startMarkerLine)
          && r'.location.endMarkerLine == ShiftLine(s, e, r.location.endMarkerLine))
  }

  lemma HitKept(marks: seq<Mark>, marks': seq<Mark>, id: string, p: nat, q: nat, other: string)
    requires IsInsertion(marks, marks', id, p, q) && other != id
    ensures HasHit(other, marks) <==> HasHit(other, marks')
  {
    if HasHit(other, marks) {
      var i :| 0 <= i < |marks| && IsHit(other, marks[i]);
      assert marks'[Shift(p, q, i)] == marks[i];
    }
    if HasHit(other, marks') {
      var i' :| 0 <= i' < |marks'| && IsHit(other, marks'[i']);
      var i := Preimage(p, q, i');
      assert marks'[Shift(p, q, i)] == marks[i];
    }
  }

  lemma SelectionKept(before: FileScan, after: FileScan, id: string, s: nat, e: nat, p: nat, q: nat, other: string)
    requires IsOrderly(before) && IsOrderly(after) && HasNoProblem(MarksOf(before.markers)) && other != id
    requires IsMarkerInsertion(before.segments, before.markers, after.segments, after.markers, id, s, e, p, q)
    ensures KeepsSelection(other, before, after, s, e)
  {
    var marks, marks' := MarksOf(before.markers), MarksOf(after.markers);
    InsertionAddsNoProblem(marks, marks', id, p, q);
    HitKept(marks, marks', id, p, q, other);
    JudgedWithoutProblems(other, marks);
    JudgedWithoutProblems(other, marks');
    if JudgeFile(other, marks').At? {
      InsertionResolvesNothingElse(marks, marks', id, p, q, other);
    }
    if JudgeFile(other, marks).At? {
      var x := (JudgeFile(other, marks).start, JudgeFile(other, marks).end);
      ResolvesIff(other, marks, x.0, x.1);
      InsertionKeepsVerdicts(marks, marks', id, p, q, other, x.0, x.1);
      ContentKept(before.segments, before.markers, after.segments, after.markers, id, s, e, p, q, x);
      PairMoved(before.segments, before.markers, after.segments, after.markers, id, s, e, p, q, x);
    }
  }

  /** What a successful creation promises. */
  ghost predicate IsSafe(path: string, text: string, language: Option<CommentSyntax>, id: string, s: nat, e: nat,
                         text': string, content: string) {
    var before, after := ScanFile(language, path, text), ScanFile(language, path, text');
    && IsOrderly(before) && IsOrderly(after)
    && (forall other :: other != id ==> KeepsSelection(other, before, after, s, e))
    && ResolveOne(id, after).Resolved?
    && ResolveOne(id, after).location.content == content
    && ResolveOne(id, after).location.startMarkerLine == s && ResolveOne(id, after).location.endMarkerLine == e + 2
    && IsRestorable(text, s, e, text')
  }

  /** Deleting the two marker lines gives the old text, up to a final line ending. */
  predicate IsRestorable(text: string, s: nat, e: nat, text': string) {
    var lines := Segments(text');
    && 0 < s <= e && e + 2 <= |lines|
    && var restored := Join(lines[..s - 1] + lines[s..e + 1] + lines[e + 2..]);
       restored == text || restored == text + LineEnding(text)
  }

  lemma CreationIsSafe(path: string, text: string, syntax: CommentSyntax, id: string, s: nat, e: nat, text': string)
    requires 0 < s <= e <= |Segments(text)| && IsSyntax(syntax) && IsSelectionId(id)
    requires HasNoProblem(MarksOf(FindMarkers(Some(syntax), text)))
    requires forall m :: m in FindMarkers(Some(syntax), text) ==> m.mark.id != Some(id)
    requires Insert(text, syntax, id, s, e) == Ok(text')
    requires IsOrderly(ScanFile(Some(syntax), path, text')) && IsOrderly(ScanFile(Some(syntax), path, text))
    requires ResolveOne(id, ScanFile(Some(syntax), path, text')).Resolved?
    requires Newlines(ResolveOne(id, ScanFile(Some(syntax), path, text')).location.content)
             == Count(MarkerLines(FindMarkers(Some(syntax), text)), s, e)
    ensures IsSafe(path, text, Some(syntax), id, s, e, text',
                   ResolveOne(id, ScanFile(Some(syntax), path, text')).location.content)
  {
    var before, after := ScanFile(Some(syntax), path, text), ScanFile(Some(syntax), path, text');
    var p, q := Rank(before.markers, s - 1), Rank(before.markers, e);
    InsertGivesInserted(text, syntax, id, s, e);
    DeletingMarkersRestores(text, syntax, id, s, e);
    NewPairIsFound(before, after, id, s, e, p, q);
    ChecksGiveHarmless(before.segments, before.markers, after.segments, after.markers, id, s, e, p, q);
    OthersAreKept(before, after, id, s, e, p, q);
    NewLines(before.segments, before.markers, after.segments, after.markers, id, s, e, p, q);
  }

  lemma OthersAreKept(before: FileScan, after: FileScan, id: string, s: nat, e: nat, p: nat, q: nat)
    requires IsOrderly(before) && IsOrderly(after) && HasNoProblem(MarksOf(before.markers))
    requires IsMarkerInsertion(before.segments, before.markers, after.segments, after.markers, id, s, e, p, q)
    ensures forall other :: other != id ==> KeepsSelection(other, before, after, s, e)
  {
    hide KeepsSelection, IsMarkerInsertion, HasNoProblem;
    forall other | other != id
      ensures KeepsSelection(other, before, after, s, e)
    {
      SelectionKept(before, after, id, s, e, p, q, other);
    }
  }

  lemma NewLines(lines: seq<string>, markers: seq<Marker>, lines': seq<string>, markers': seq<Marker>, id: string,
                 s: nat, e: nat, p: nat, q: nat)
    requires IsInserted(lines, markers, lines', markers', id, s, e, p, q)
    ensures p <= q && q + 1 < |markers'| && markers'[p].line == s && markers'[q + 1].line == e + 2
  {
  }

  lemma NewPairIsFound(before: FileScan, after: FileScan, id: string, s: nat, e: nat, p: nat, q: nat)
    requires IsOrderly(after) && ResolveOne(id, after).Resolved?
    requires IsInserted(before.segments, before.markers, after.segments, after.markers, id, s, e, p, q)
    ensures p < |after.markers| && q + 1 < |after.markers|
    ensures (p, q + 1) in Pairs(MarksOf(after.markers))
            && ResolveOne(id, after) == Resolved(LocationIn(after, p, q + 1))
  {
    hide JudgeFile, LocationIn, Pairs, Rank;
    var marks' := MarksOf(after.markers);
    var verdict := JudgeOne(id, marks');
    ResolvesIff(id, marks', verdict.start, verdict.end);
    assert IsEnd(id, Start, marks'[p]) && IsEnd(id, End, marks'[q + 1]);
  }

  /** A selection resolves in a scan before exactly when it resolves there after: as it was when it is in
      another file, and moved with the lines of the edited file otherwise. */
  ghost predicate KeepsSelectionIn(other: string, scan: seq<FileScan>, f: nat, after: FileScan, s: nat, e: nat)
    requires f < |scan| && IsOrderly(after) && forall g :: 0 <= g < |scan| ==> IsOrderly(scan[g])
  {
    var r, r' := Resolve(other, scan), Resolve(other, scan[f := after]);
    && (r.Resolved? <==> r'.Resolved?)
    && (r.Resolved? ==>
          if HasHit(other, MarksOf(scan[f].markers)) then
            && r == ResolveOne(other, scan[f]) && r' == ResolveOne(other, after)
            && KeepsSelection(other, scan[f], after, s, e)
          else r' == r)
  }

  /** A creation that is safe in its file is safe among all files: every other selection keeps resolving,
      wherever it is, and the new one resolves as it does in its file. */
  lemma SafeInScan(scan: seq<FileScan>, f: nat, text: string, language: Option<CommentSyntax>, id: string,
                   s: nat, e: nat, text': string, content: string)
    requires f < |scan| && forall g :: 0 <= g < |scan| ==> IsOrderly(scan[g])
    requires scan[f] == ScanFile(language, scan[f].path, text)
    requires IsSafe(scan[f].path, text, language, id, s, e, text', content)
    requires forall g :: 0 <= g < |scan| && g != f ==> !HasHit(id, MarksOf(scan[g].markers))
    ensures var after := ScanFile(language, scan[f].path, text');
            && (forall other :: other != id ==> KeepsSelectionIn(other, scan, f, after, s, e))
            && Resolve(id, scan[f := after]) == ResolveOne(id, after)
  {
    var after := ScanFile(language, scan[f].path, text');
    forall other | other != id
      ensures KeepsSelectionIn(other, scan, f, after, s, e)
    {
      KeptInScan(other, scan, f, after, s, e);
    }
    AloneInScan(id, scan, f, after);
  }

  lemma AloneInScan(id: string, scan: seq<FileScan>, f: nat, after: FileScan)
    requires f < |scan| && IsOrderly(after) && forall g :: 0 <= g < |scan| ==> IsOrderly(scan[g])
    requires ResolveOne(id, after).Resolved?
    requires forall g :: 0 <= g < |scan| && g != f ==> !HasHit(id, MarksOf(scan[g].markers))
    ensures Resolve(id, scan[f := after]) == ResolveOne(id, after)
  {
    var scan' := scan[f := after];
    ResolveIsLocal(id, scan', f);
  }

  lemma KeptInScan(other: string, scan: seq<FileScan>, f: nat, after: FileScan, s: nat, e: nat)
    requires f < |scan| && IsOrderly(after) && forall g :: 0 <= g < |scan| ==> IsOrderly(scan[g])
    requires KeepsSelection(other, scan[f], after, s, e)
    ensures KeepsSelectionIn(other, scan, f, after, s, e)
  {
    var scan' := scan[f := after];
    assert scan'[f := scan[f]] == scan;
    if HasHit(other, MarksOf(scan[f].markers)) {
      FollowsFile(other, scan, f, after);
      FollowsFile(other, scan', f, scan[f]);
    } else {
      StaysElsewhere(other, scan, f, after);
      StaysElsewhere(other, scan', f, scan[f]);
    }
  }

  lemma FollowsFile(other: string, scan: seq<FileScan>, f: nat, after: FileScan)
    requires f < |scan| && IsOrderly(after) && forall g :: 0 <= g < |scan| ==> IsOrderly(scan[g])
    requires HasHit(other, MarksOf(scan[f].markers)) && HasHit(other, MarksOf(after.markers))
    requires ResolveOne(other, scan[f]).Resolved? <==> ResolveOne(other, after).Resolved?
    ensures Resolve(other, scan).Resolved? ==>
              Resolve(other, scan) == ResolveOne(other, scan[f])
                  && Resolve(other, scan[f := after]) == ResolveOne(other, after)
  {
    var scan' := scan[f := after];
    ResolveIsLocal(other, scan, f);
    ResolveIsLocal(other, scan', f);
    assert forall g :: 0 <= g < |scan| && g != f ==> scan'[g] == scan[g];
  }

  lemma StaysElsewhere(other: string, scan: seq<FileScan>, f: nat, after: FileScan)
    requires f < |scan| && IsOrderly(after) && forall g :: 0 <= g < |scan| ==> IsOrderly(scan[g])
    requires !HasHit(other, MarksOf(scan[f].markers)) && !HasHit(other, MarksOf(after.markers))
    ensures Resolve(other, scan).Resolved? ==> Resolve(other, scan[f := after]) == Resolve(other, scan)
  {
    var scan' := scan[f := after];
    if Resolve(other, scan).Resolved? {
      var g := HitFile(other, MarksOfAll(scan));
      ResolveIsLocal(other, scan, g);
      assert scan'[g] == scan[g];
      ResolveIsLocal(other, scan', g);
      assert forall h :: 0 <= h < |scan| && h != f ==> scan'[h] == scan[h];
    }
  }

  // ---------------------------------------------------------------- the overlap filter

  /** The range check against one existing selection: its start and end marker lines. */
  predicate Rejects(first: nat, last: nat, start: nat, end: nat) {
    var sourceFirst := first + 1;
    var sourceLast := if last == 0 then 0 else last - 1;
    var intersects := sourceFirst <= sourceLast && start <= sourceLast && end >= sourceFirst;
    var candidateContains := start <= sourceFirst && end >= sourceLast;
    var existingContains := sourceFirst <= start && sourceLast >= end;
    var touchesMarker := start <= first <= end || start <= last <= end;
    (intersects && !candidateContains && !existingContains) || (touchesMarker && !candidateContains)
  }

  /** What the range check lets through: ranges inside, beside or around the selection, but also two
      that hold only one of its markers. An end marker in front of its start marker stops nothing. */
  lemma FilterIff(first: nat, last: nat, start: nat, end: nat)
    requires 0 < first && 0 < start <= end
    ensures !Rejects(first, last, start, end)
            <==> || last <= first
                 || end < first || last < start || (first < start && end < last) || (start <= first && last <= end)
                 || (start <= first && end == last - 1) || (start == first + 1 && last <= end)
                 || (start == first + 1 && end == last - 1)
  {
  }

  /** Crossing ranges pass the range check; the resolve check refuses them. */
  lemma FilterAcceptsCrossing(first: nat, last: nat)
    requires 0 < first && first + 1 < last
    ensures !Rejects(first, last, first, last - 1) && !Rejects(first, last, first + 1, last)
  {
  }

  /** What the resolve and content checks accept, the range check accepts too. */
  lemma FilterIsImplied(lines: seq<string>, markers: seq<Marker>, lines': seq<string>, markers': seq<Marker>,
                        id: string, s: nat, e: nat, p: nat, q: nat, x: (nat, nat))
    requires IsMarkerInsertion(lines, markers, lines', markers', id, s, e, p, q) && x in Pairs(MarksOf(markers))
    ensures x.0 < |markers| && x.1 < |markers| && !Rejects(markers[x.0].line, markers[x.1].line, s, e)
  {
    PairMoved(lines, markers, lines', markers', id, s, e, p, q, x);
  }

  // ---------------------------------------------------------------- creating

  datatype CreateError = NoSyntax | BrokenMarkers | NothingToSelect | InvalidRange | Overlaps | Differs | NoFreshId
                       | DoesNotResolve | ContentDiffers

  /** The lines to select, the base lines they are mapped to, and the content of those. */
  datatype Range = Range(start: nat, end: nat, baseFirst: nat, baseLast: nat,
                         content: string) | Invalid(error: CreateError)

  datatype Outcome = Created(id: string, text: string, range: Range) | Refused(error: CreateError)

  const ID_ATTEMPTS := 32

  /** The first of the drawn identifiers that is well-formed and not taken. */
  method FreshId(taken: set<string>, drawn: seq<string>) returns (id: Option<string>)
    requires |drawn| == ID_ATTEMPTS
    ensures id.Some? ==>
              exists k :: 0 <= k < |drawn| && drawn[k] == id.value && IsSelectionId(id.value) && id.value !in taken
                                     && forall j :: 0 <= j < k ==> !IsSelectionId(drawn[j]) || drawn[j] in taken
    ensures id.None? ==> forall j :: 0 <= j < |drawn| ==> !IsSelectionId(drawn[j]) || drawn[j] in taken
  {
    for k := 0 to ID_ATTEMPTS
      invariant forall j :: 0 <= j < k ==> !IsSelectionId(drawn[j]) || drawn[j] in taken
    {
      if IsSelectionId(drawn[k]) && drawn[k] !in taken { return Some(drawn[k]); }
    }
    id := None;
  }

  /** The line of the end marker of a selection, or the last line of the file. */
  function EndLine(markers: seq<Marker>, id: Option<string>, lineCount: nat): nat {
    if markers == [] then lineCount
    else if markers[0].mark.kind.Selection? && markers[0].mark.id == id && markers[0].mark.boundary == Some(End)
        then markers[0].line
    else EndLine(markers[1..], id, lineCount)
  }

  /** The range check against the selections that start at some of the markers. */
  predicate AnyRejects(markers: seq<Marker>, starts: seq<Marker>, lineCount: nat, start: nat, end: nat) {
    starts != []
    && var marker := starts[0];
       || (marker.mark.kind.Selection? && marker.mark.boundary == Some(Start)
           && Rejects(marker.line, EndLine(markers, marker.mark.id, lineCount), start, end))
       || AnyRejects(markers, starts[1..], lineCount, start, end)
  }

  /** A start marker without an end marker counts as reaching to the last line. What the range check lets through is
      then ranges before the marker, ranges behind it that stop short of the last line, and ranges around all of it. */
  lemma UnmatchedFilterIff(first: nat, lineCount: nat, start: nat, end: nat)
    requires 0 < first <= lineCount && 0 < start <= end <= lineCount
    ensures !Rejects(first, lineCount, start, end)
            <==> end < first || (first < start && end < lineCount) || (start <= first + 1 && lineCount - 1 <= end)
  {
  }

  lemma {:induction false} EndOfUnmatched(markers: seq<Marker>, id: string, lineCount: nat)
    requires !HasEnd(id, End, MarksOf(markers))
    ensures EndLine(markers, Some(id), lineCount) == lineCount
  {
    if markers != [] {
      assert !IsEnd(id, End, MarksOf(markers)[0]);
      forall i | 0 <= i < |markers| - 1
        ensures !IsEnd(id, End, MarksOf(markers[1..])[i])
      {
        assert MarksOf(markers[1..])[i] == MarksOf(markers)[i + 1];
      }
      EndOfUnmatched(markers[1..], id, lineCount);
    }
  }

  /** The end of a selection is the line of its first end marker. */
  lemma {:induction false} EndOfMatched(markers: seq<Marker>, id: string, lineCount: nat, k: nat)
    requires k < |markers| && IsEnd(id, End, markers[k].mark)
    requires forall i :: 0 <= i < k ==> !IsEnd(id, End, markers[i].mark)
    ensures EndLine(markers, Some(id), lineCount) == markers[k].line
  {
    if k > 0 {
      assert markers[1..][k - 1] == markers[k];
      EndOfMatched(markers[1..], id, lineCount, k - 1);
    }
  }

  /** The selection that starts at marker i keeps lines start..end from being selected. */
  predicate IsInTheWay(markers: seq<Marker>, starts: seq<Marker>, i: nat, lineCount: nat, start: nat, end: nat) {
    && i < |starts| && starts[i].mark.kind.Selection? && starts[i].mark.boundary == Some(Start)
    && Rejects(starts[i].line, EndLine(markers, starts[i].mark.id, lineCount), start, end)
  }

  ghost predicate IsObstructed(markers: seq<Marker>, starts: seq<Marker>, lineCount: nat, start: nat, end: nat) {
    exists i: nat :: IsInTheWay(markers, starts, i, lineCount, start, end)
  }

  lemma {:induction false} AnyRejectsMeans(markers: seq<Marker>, starts: seq<Marker>, lineCount: nat, start: nat,
                                           end: nat)
    ensures AnyRejects(markers, starts, lineCount, start, end)
            <==> IsObstructed(markers, starts, lineCount, start, end)
  {
    hide Rejects, EndLine;
    if starts != [] {
      var rest := starts[1..];
      AnyRejectsMeans(markers, rest, lineCount, start, end);
      if IsObstructed(markers, rest, lineCount, start, end) {
        var i: nat :| IsInTheWay(markers, rest, i, lineCount, start, end);
        assert IsInTheWay(markers, starts, i + 1, lineCount, start, end);
      }
      if IsInTheWay(markers, starts, 0, lineCount, start, end) {
        assert IsObstructed(markers, starts, lineCount, start, end);
      } else if IsObstructed(markers, starts, lineCount, start, end) {
        var i: nat :| IsInTheWay(markers, starts, i, lineCount, start, end);
        assert IsInTheWay(markers, rest, i - 1, lineCount, start, end);
      }
    }
  }

  /** A selection may be created behind every marker of a file and up to its last line: nothing else changes and the
      new one resolves. The range check refuses that when a start marker before the range has no end marker and is
      not on the line just before it. */
  lemma FilterRefusesSafe(before: FileScan, after: FileScan, id: string, s: nat, p: nat, other: string, i: nat)
    requires IsOrderly(before) && IsOrderly(after) && HasNoProblem(MarksOf(before.markers)) && 0 < s
    requires IsInserted(before.segments, before.markers, after.segments, after.markers, id, s, |before.segments|, p, p)
    requires p == |before.markers| && i < p
    requires IsEnd(other, Start, MarksOf(before.markers)[i]) && !HasEnd(other, End, MarksOf(before.markers))
    ensures forall x :: x != id ==> KeepsSelection(x, before, after, s, |before.segments|)
    ensures ResolveOne(id, after) == Resolved(LocationIn(after, p, p + 1))
    ensures before.markers[i].line < s
    ensures before.markers[i].line + 1 < s
            <==> Rejects(before.markers[i].line, EndLine(before.markers, Some(other), |before.segments|), s,
                         |before.segments|)
    ensures before.markers[i].line + 1 < s ==>
              AnyRejects(before.markers, before.markers, |before.segments|, s, |before.segments|)
  {
    hide KeepsSelection, LocationIn, Pairs, AnyRejects, EndLine, JudgeFile, Rejects;
    var n := |before.segments|;
    var marks, marks' := MarksOf(before.markers), MarksOf(after.markers);
    GroupIsHarmless(marks, marks', id, p, p);
    forall x | x != id
      ensures KeepsSelection(x, before, after, s, n)
    {
      SelectionKept(before, after, id, s, n, p, p, x);
    }
    HarmlessResolves(marks, marks', id, p, p);
    BehindIsLater(before.markers, s, p, i);
    EndOfUnmatched(before.markers, other, n);
    UnmatchedFilterIff(before.markers[i].line, n, s, n);
    if before.markers[i].line + 1 < s {
      assert IsInTheWay(before.markers, before.markers, i, n, s, n);
      AnyRejectsMeans(before.markers, before.markers, n, s, n);
    }
  }

  lemma BehindIsLater(markers: seq<Marker>, s: nat, p: nat, i: nat)
    requires AreInOrder(markers) && 0 < s && p == |markers| == Rank(markers, s - 1) && i < p
    ensures markers[i].line < s
  {
  }

  /** The new selection resolves when its markers are matched. */
  lemma HarmlessResolves(marks: seq<Mark>, marks': seq<Mark>, id: string, p: nat, q: nat)
    requires IsHarmless(marks, marks', id, p, q) && HasNoProblem(marks)
    ensures JudgeOne(id, marks') == At(p, q + 1)
  {
    hide Pairs, JudgeFile;
    InsertionAddsNoProblem(marks, marks', id, p, q);
    forall k' | 0 <= k' < |marks'| && k' != p && k' != q + 1
      ensures !IsHit(id, marks'[k'])
    {
      var k := Preimage(p, q, k');
      assert marks'[Shift(p, q, k)] == marks[k];
    }
    ResolvesIff(id, marks', p, q + 1);
    JudgedWithoutProblems(id, marks');
  }

  /** A shebang or an XML declaration is not selected unless asked for. */
  function DefaultStart(segments: seq<string>): nat {
    if |segments| > 1 && ("#!" <= Content(segments[0]) || "<?xml" <= Content(segments[0])) then 2 else 1
  }

  /** It starts behind such a line when there is another one: a newline before the last character. */
  lemma DefaultStartMeans(text: string)
    ensures DefaultStart(Segments(text)) == 2
            <==> ("#!" <= text || "<?xml" <= text) && exists k :: 0 <= k < |text| - 1 && text[k] == '\n'
  {
    hide Segments, Content;
    EmptyHasNoLines(text);
    if text != "" {
      FirstLineReads(text, "#!");
      FirstLineReads(text, "<?xml");
      SecondLine(text);
    }
  }

  lemma FirstLineReads(text: string, word: string)
    requires text != "" && word != "" && forall i :: 0 <= i < |word| ==> word[i] != '\n' && word[i] != '\r'
    ensures Segments(text) != [] && (word <= Content(Segments(text)[0]) <==> word <= text)
  {
    hide Segments, Content;
    SegmentsStep(text);
    StartsAlike(text, text[..FirstCut(text)], word);
  }

  lemma SecondLine(text: string)
    requires text != ""
    ensures |Segments(text)| > 1 <==> exists k :: 0 <= k < |text| - 1 && text[k] == '\n'
  {
    hide Segments;
    var cut := FirstCut(text);
    SegmentsStep(text);
    EmptyHasNoLines(text[cut..]);
    if cut < |text| { assert text[cut - 1] == '\n'; }
  }

  /** A text starts with a word without line endings when its first line does. */
  lemma StartsAlike(text: string, first: string, word: string)
    requires first <= text && first != "" && (IsClosed(first) || first == text)
    requires word != "" && forall i :: 0 <= i < |word| ==> word[i] != '\n' && word[i] != '\r'
    requires forall i :: 0 <= i < |first| - 1 ==> first[i] != '\n'
    ensures word <= Content(first) <==> word <= text
  {
    var n := |Content(first)|;
    assert n < |first| ==> text[n] == first[n] && (first[n] == '\r' || first[n] == '\n');
    assert n == |first| ==> first == text;
    assert word <= text ==> forall i :: 0 <= i < |word| ==> text[i] == word[i];
  }

  /** The numbers of the lines s..n that hold no marker. */
  function Unmarked(marked: set<nat>, s: nat, n: nat): (numbers: seq<nat>)
    decreases n
  {
    if n < s || n == 0 then [] else Unmarked(marked, s, n - 1) + if n in marked then [] else [n]
  }

  function TextAt(segments: seq<string>, number: nat): string {
    if 0 < number <= |segments| then Content(segments[number - 1]) else ""
  }

  /** The texts of some lines, given by their numbers. */
  function TextsAt(segments: seq<string>, numbers: seq<nat>): seq<string> {
    if numbers == [] then []
    else TextsAt(segments, numbers[..|numbers| - 1]) + [TextAt(segments, numbers[|numbers| - 1])]
  }

  function LineTexts(segments: seq<string>): seq<string> {
    if segments == [] then [] else LineTexts(segments[..|segments| - 1]) + [Content(segments[|segments| - 1])]
  }

  lemma {:induction false} LineTextsAre(segments: seq<string>)
    ensures |LineTexts(segments)| == |segments|
    ensures forall i :: 0 <= i < |segments| ==> LineTexts(segments)[i] == Content(segments[i])
  {
    if segments != [] {
      var rest := segments[..|segments| - 1];
      LineTextsAre(rest);
      assert forall i :: 0 <= i < |rest| ==> rest[i] == segments[i];
    }
  }

  lemma {:induction false} TextsAre(segments: seq<string>, numbers: seq<nat>)
    ensures |TextsAt(segments, numbers)| == |numbers|
    ensures forall i :: 0 <= i < |numbers| ==> TextsAt(segments, numbers)[i] == TextAt(segments, numbers[i])
  {
    hide TextAt;
    if numbers != [] { TextsAre(segments, numbers[..|numbers| - 1]); }
  }

  lemma {:induction false} UnmarkedAre(marked: set<nat>, s: nat, n: nat)
    requires 0 < s
    ensures |Unmarked(marked, s, n)| == Count(marked, s, n)
    ensures forall number :: number in Unmarked(marked, s, n) ==> s <= number <= n
    decreases n
  {
    if s <= n { UnmarkedAre(marked, s, n - 1); }
  }

  lemma {:induction false} UnmarkedAppend(marked: set<nat>, s: nat, m: nat, n: nat)
    requires 0 < s <= m + 1 && m <= n
    ensures Unmarked(marked, s, n) == Unmarked(marked, s, m) + Unmarked(marked, m + 1, n)
    decreases n
  {
    if m < n { UnmarkedAppend(marked, s, m, n - 1); }
  }

  /** The lines s..e without a marker are, in order, the base lines f..l. */
  predicate IsOrigin(segments: seq<string>, marked: set<nat>, s: nat, e: nat, base: seq<string>, f: nat, l: nat) {
    && 0 < s <= e <= |segments| && f <= l < |base|
    && TextsAt(segments, Unmarked(marked, s, e)) == LineTexts(base[f..l + 1])
  }

  /** The part of the mapping that belongs to the lines s..e. */
  method Select(logical: seq<nat>, mapping: seq<Diff.Option<nat>>, s: nat, e: nat, ghost lo: nat, ghost hi: nat)
    returns (mapped: seq<Diff.Option<nat>>)
    requires |mapping| == |logical| && lo <= hi <= |logical|
    requires forall i :: 0 <= i < |logical| ==> (s <= logical[i] <= e <==> lo <= i < hi)
    ensures mapped == mapping[lo..hi]
  {
    mapped := [];
    for index := 0 to |logical|
      invariant mapped == if index <= lo then [] else if index <= hi then mapping[lo..index] else mapping[lo..hi]
    {
      if s <= logical[index] <= e { mapped := mapped + [mapping[index]]; }
    }
  }

  /** Lines mapped to consecutive base lines. */
  predicate AreConsecutive(mapped: seq<Diff.Option<nat>>) {
    && mapped != [] && mapped[0].Some?
    && forall k :: 0 <= k < |mapped| ==> mapped[k] == Diff.Some(mapped[0].value + k)
  }

  /** The first of the consecutive base lines a range is mapped to, if they are consecutive. */
  function FirstMapped(mapped: seq<Diff.Option<nat>>): Option<nat> {
    if AreConsecutive(mapped) then Some(mapped[0].value) else None
  }

  method Consecutive<T>(mapped: seq<Diff.Option<nat>>, ghost old_: seq<T>, ghost new_: seq<T>)
    returns (first: Option<nat>)
    requires Diff.IsSound(old_, new_, mapped)
    ensures first == FirstMapped(mapped)
    ensures first.Some? ==>
              new_ != [] && first.value + |new_| <= |old_| && new_ == old_[first.value..first.value + |new_|]
  {
    if mapped == [] || mapped[0].None? { return None; }
    for offset := 0 to |mapped|
      invariant forall k :: 0 <= k < offset ==> mapped[k] == Diff.Some(mapped[0].value + k)
    {
      if mapped[offset] != Diff.Some(mapped[0].value + offset) { return None; }
    }
    assert mapped[|mapped| - 1].value < |old_|;
    first := Some(mapped[0].value);
  }

  lemma LogicalParts(marked: set<nat>, n: nat, s: nat, e: nat)
    requires 0 < s <= e <= n
    ensures var logical, lo, hi := Unmarked(marked, 1, n), |Unmarked(marked, 1, s - 1)|, |Unmarked(marked, 1, e)|;
            && lo <= hi <= |logical| && logical[lo..hi] == Unmarked(marked, s, e)
            && (forall i :: 0 <= i < |logical| ==> 0 < logical[i] <= n && (s <= logical[i] <= e <==> lo <= i < hi))
  {
    hide *;
    UnmarkedAppend(marked, 1, e, n);
    UnmarkedAppend(marked, 1, s - 1, e);
    UnmarkedAre(marked, 1, s - 1);
    UnmarkedAre(marked, s, e);
    UnmarkedAre(marked, e + 1, n);
    var a, b, c := Unmarked(marked, 1, s - 1), Unmarked(marked, s, e), Unmarked(marked, e + 1, n);
    assert Unmarked(marked, 1, n) == a + b + c;
    forall i | 0 <= i < |a + b + c|
      ensures 0 < (a + b + c)[i] <= n && (s <= (a + b + c)[i] <= e <==> |a| <= i < |a| + |b|)
    {
      if i < |a| { assert a[i] in a; } else if i < |a| + |b| { assert b[i - |a|] in b; }
          else { assert c[i - |a| - |b|] in c; }
    }
  }

  /** The part of a longest mapping of the unmarked lines that belongs to the lines s..e. */
  ghost predicate IsMappedPart(segments: seq<string>, marked: set<nat>, base: seq<string>, s: nat, e: nat,
                               mapping: seq<Diff.Option<nat>>, mapped: seq<Diff.Option<nat>>) {
    && Diff.IsLongest(LineTexts(base), TextsAt(segments, Unmarked(marked, 1, |segments|)), mapping) && 0 < s
    && var lo, hi := |Unmarked(marked, 1, s - 1)|, |Unmarked(marked, 1, e)|;
       lo <= hi <= |mapping| && mapped == mapping[lo..hi]
  }

  /** The base lines of the lines s..e without a marker. */
  method MapSelected(segments: seq<string>, marked: set<nat>, base: seq<string>, s: nat, e: nat)
    returns (mapped: seq<Diff.Option<nat>>, ghost mapping: seq<Diff.Option<nat>>)
    requires 0 < s <= e <= |segments|
    ensures Diff.IsSound(LineTexts(base), TextsAt(segments, Unmarked(marked, s, e)), mapped)
    ensures IsMappedPart(segments, marked, base, s, e, mapping, mapped)
  {
    var logical := Unmarked(marked, 1, |segments|);
    ghost var lo, hi := |Unmarked(marked, 1, s - 1)|, |Unmarked(marked, 1, e)|;
    LogicalParts(marked, |segments|, s, e);
    TextsSlice(segments, logical, lo, hi);
    var lines := Diff.MapLines(LineTexts(base), TextsAt(segments, logical));
    mapping := lines;
    mapped := Select(logical, lines, s, e, lo, hi);
    SoundSlice(LineTexts(base), TextsAt(segments, logical), mapping, lo, hi);
  }

  lemma SoundSlice<T>(old_: seq<T>, new_: seq<T>, mapping: seq<Diff.Option<nat>>, lo: nat, hi: nat)
    requires Diff.IsSound(old_, new_, mapping) && lo <= hi <= |new_|
    ensures Diff.IsSound(old_, new_[lo..hi], mapping[lo..hi])
  {
  }

  /** Some longest mapping maps the lines s..e to consecutive lines that begin there, or not to consecutive lines. */
  ghost predicate HasMapping(segments: seq<string>, marked: set<nat>, base: seq<string>, s: nat, e: nat,
                             first: Option<nat>) {
    exists mapping, mapped ::
      IsMappedPart(segments, marked, base, s, e, mapping, mapped) && FirstMapped(mapped) == first
  }

  /** The base lines the lines s..e are mapped to, when those are consecutive. */
  method Origin(segments: seq<string>, marked: set<nat>, base: seq<string>, s: nat, e: nat)
    returns (r: Option<(nat, nat)>)
    requires 0 < s <= e <= |segments|
    ensures r.Some? ==> IsOrigin(segments, marked, s, e, base, r.value.0, r.value.1)
    ensures HasMapping(segments, marked, base, s, e, if r.Some? then Some(r.value.0) else None)
  {
    hide IsMappedPart, FirstMapped, TextsAt, Unmarked, LineTexts;
    var mapped, mapping := MapSelected(segments, marked, base, s, e);
    ghost var texts := TextsAt(segments, Unmarked(marked, s, e));
    var first := Consecutive(mapped, LineTexts(base), texts);
    if first.None? { return None; }
    LineTextsSlice(base, first.value, first.value + |texts|);
    r := Some((first.value, first.value + |mapped| - 1));
  }

  /** In a file whose unmarked lines are those of the base version, every range with such a line is mapped to
      those same lines of it, by every longest mapping. */
  lemma UnchangedIsAccepted(segments: seq<string>, marked: set<nat>, base: seq<string>, s: nat, e: nat,
                            first: Option<nat>)
    requires HasMapping(segments, marked, base, s, e, first) && 0 < s <= e
    requires TextsAt(segments, Unmarked(marked, 1, |segments|)) == LineTexts(base)
    ensures first == if Unmarked(marked, s, e) != [] then Some(|Unmarked(marked, 1, s - 1)|) else None
  {
    hide TextsAt, LineTexts, Unmarked, FirstMapped, Diff.IsLongest;
    var mapping, mapped :|
      IsMappedPart(segments, marked, base, s, e, mapping, mapped) && FirstMapped(mapped) == first;
    Diff.SameIsMappedToItself(LineTexts(base), mapping);
    UnmarkedAppend(marked, 1, s - 1, e);
    SliceOfItself(mapping, |Unmarked(marked, 1, s - 1)|, |Unmarked(marked, 1, e)|);
  }

  lemma SliceOfItself(mapping: seq<Diff.Option<nat>>, lo: nat, hi: nat)
    requires lo <= hi <= |mapping| && forall j :: 0 <= j < |mapping| ==> mapping[j] == Diff.Some(j)
    ensures FirstMapped(mapping[lo..hi]) == if lo < hi then Some(lo) else None
  {
  }

  lemma {:induction false} LineTextsSlice(segments: seq<string>, i: nat, j: nat)
    requires i <= j <= |LineTexts(segments)|
    ensures |LineTexts(segments)| == |segments| && LineTexts(segments)[i..j] == LineTexts(segments[i..j])
  {
    LineTextsAre(segments);
    LineTextsAre(segments[i..j]);
  }

  lemma TextsSlice(segments: seq<string>, numbers: seq<nat>, i: nat, j: nat)
    requires i <= j <= |numbers|
    ensures |TextsAt(segments, numbers)| == |numbers|
            && TextsAt(segments, numbers)[i..j] == TextsAt(segments, numbers[i..j])
  {
    hide *;
    TextsAre(segments, numbers);
    TextsAre(segments, numbers[i..j]);
  }

  /** The normalized text of the base lines f..l. */
  method ContentAt(base: string, f: nat, l: nat) returns (content: string)
    requires f <= l < |Segments(base)|
    ensures content == NormalizeContent(Join(Segments(base)[f..l + 1])) && Newlines(content) == l - f + 1
  {
    var segments := Segments(base);
    SegmentsJoin(base);
    JoinSlice(segments, f, l + 1);
    SliceIsWellSegmented(segments, f, l + 1);
    LinesInContent(segments[f..l + 1]);
    content := NormalizeContent(base[Offset(segments, f)..Offset(segments, l + 1)]);
  }

  lemma OriginLines(segments: seq<string>, marked: set<nat>, s: nat, e: nat, base: seq<string>, f: nat, l: nat)
    requires IsOrigin(segments, marked, s, e, base, f, l)
    ensures Count(marked, s, e) == l - f + 1
  {
    LineTextsAre(base[f..l + 1]);
    TextsAre(segments, Unmarked(marked, s, e));
    UnmarkedAre(marked, s, e);
  }

  /** The first line asked for. */
  function FirstLine(text: string, startLine: Option<nat>): nat {
    if startLine.Some? then startLine.value else DefaultStart(Segments(text))
  }

  /** The last line asked for. */
  function LastLine(text: string, endLine: Option<nat>): nat {
    if endLine.Some? then endLine.value else |Segments(text)|
  }

  /** Lines of a readable file that no existing selection keeps from being selected. */
  ghost predicate IsOpen(text: string, markers: seq<Marker>, s: nat, e: nat) {
    HasNoProblem(MarksOf(markers)) && 0 < s <= e <= |Segments(text)|
    && !IsObstructed(markers, markers, |Segments(text)|, s, e)
  }

  /** The range asked for, accepted by the checks on it, with its lines unchanged since the checkpoint. */
  ghost predicate IsLocated(text: string, markers: seq<Marker>, base: string, startLine: Option<nat>,
                            endLine: Option<nat>, r: Range) {
    && r.Range? && r.start == FirstLine(text, startLine) && r.end == LastLine(text, endLine)
    && IsOpen(text, markers, r.start, r.end) && IsUnchanged(text, markers, base, r.start, r.end, r)
  }

  predicate HasBrokenMarker(markers: seq<Marker>) {
    markers != [] && (markers[0].mark.problem.Some? || HasBrokenMarker(markers[1..]))
  }

  lemma {:induction false} BrokenMeans(markers: seq<Marker>)
    ensures HasBrokenMarker(markers) <==> !HasNoProblem(MarksOf(markers))
  {
    if markers != [] {
      BrokenMeans(markers[1..]);
      forall i | 0 < i < |markers|
        ensures MarksOf(markers)[i] == MarksOf(markers[1..])[i - 1]
      {
      }
      if HasBrokenMarker(markers[1..]) {
        var i :| 0 <= i < |markers| - 1 && MarksOf(markers[1..])[i].problem.Some?;
        assert MarksOf(markers)[i + 1].problem.Some?;
      }
    }
  }

  /** The lines to select, checked against the existing selections and the checkpoint version. */
  method Locate(text: string, markers: seq<Marker>, base: string, startLine: Option<nat>, endLine: Option<nat>)
    returns (r: Range)
    ensures r.Range? || r.error in {BrokenMarkers, NothingToSelect, InvalidRange, Overlaps, Differs}
    ensures r == Invalid(BrokenMarkers) <==> !HasNoProblem(MarksOf(markers))
    ensures HasNoProblem(MarksOf(markers)) ==> (r == Invalid(NothingToSelect) <==> text == "")
    ensures var s, e := FirstLine(text, startLine), LastLine(text, endLine);
            HasNoProblem(MarksOf(markers)) && text != "" ==>
              && (r == Invalid(InvalidRange) <==> !(0 < s <= e <= |Segments(text)|))
              && (0 < s <= e <= |Segments(text)| ==>
                    (r == Invalid(Overlaps) <==> IsObstructed(markers, markers, |Segments(text)|, s, e)))
    ensures r == Invalid(Differs) ==>
              HasMapping(Segments(text), MarkerLines(markers), Segments(base), FirstLine(text, startLine),
                         LastLine(text, endLine), None)
    ensures r.Range? ==> IsLocated(text, markers, base, startLine, endLine, r)
    ensures r.Range? ==> Newlines(r.content) == Count(MarkerLines(markers), r.start, r.end)
  {
    hide AnyRejects, HasBrokenMarker, NormalizeContent, Segments, Unmarked, HasNoProblem, IsObstructed, HasMapping,
      IsOrigin, Newlines, Count;
    BrokenMeans(markers);
    if HasBrokenMarker(markers) { return Invalid(BrokenMarkers); }
    var all := Segments(text);
    EmptyHasNoLines(text);
    if all == [] { return Invalid(NothingToSelect); }
    var start := if startLine.Some? then startLine.value else DefaultStart(all);
    var end := if endLine.Some? then endLine.value else |all|;
    if start == 0 || end < start || end > |all| { return Invalid(InvalidRange); }
    AnyRejectsMeans(markers, markers, |all|, start, end);
    if AnyRejects(markers, markers, |all|, start, end) { return Invalid(Overlaps); }
    r := MapOrigin(all, MarkerLines(markers), base, start, end);
  }

  lemma EmptyHasNoLines(text: string)
    ensures Segments(text) == [] <==> text == ""
  {
  }

  /** Map the lines to select to the checkpoint version, and take their content from there. */
  method MapOrigin(all: seq<string>, marked: set<nat>, base: string, start: nat, end: nat) returns (r: Range)
    requires 0 < start <= end <= |all|
    ensures r.Range? || r == Invalid(Differs)
    ensures HasMapping(all, marked, Segments(base), start, end, if r.Range? then Some(r.baseFirst) else None)
    ensures r.Range? ==>
              && r.start == start && r.end == end
              && IsOrigin(all, marked, start, end, Segments(base), r.baseFirst, r.baseLast)
              && r.content == NormalizeContent(Join(Segments(base)[r.baseFirst..r.baseLast + 1]))
              && Newlines(r.content) == Count(marked, start, end)
  {
    hide HasMapping, Unmarked, TextsAt, LineTexts, Count, Newlines, NormalizeContent, Segments, Join;
    var origin := Origin(all, marked, Segments(base), start, end);
    if origin.None? { return Invalid(Differs); }
    var baseFirst, baseLast := origin.value.0, origin.value.1;
    var content := ContentAt(base, baseFirst, baseLast);
    OriginLines(all, marked, start, end, Segments(base), baseFirst, baseLast);
    r := Range(start, end, baseFirst, baseLast, content);
  }

  /** An identifier that a new selection may get. */
  predicate IsFree(markers: seq<Marker>, taken: set<string>, id: string) {
    IsSelectionId(id) && id !in taken && forall i :: 0 <= i < |markers| ==> markers[i].mark.id != Some(id)
  }

  predicate IsFirstFree(markers: seq<Marker>, taken: set<string>, drawn: seq<string>, k: nat) {
    && k < |drawn| && IsFree(markers, taken, drawn[k])
    && forall j :: 0 <= j < k ==> !IsFree(markers, taken, drawn[j])
  }

  method FreshIn(markers: seq<Marker>, taken: set<string>, drawn: seq<string>)
    returns (id: Option<string>, ghost k: nat)
    requires |drawn| == ID_ATTEMPTS
    ensures id.Some? ==> IsFirstFree(markers, taken, drawn, k) && id.value == drawn[k]
    ensures id.None? ==> forall j :: 0 <= j < |drawn| ==> !IsFree(markers, taken, drawn[j])
  {
    var inFile := set i | 0 <= i < |markers| && markers[i].mark.id.Some? :: markers[i].mark.id.value;
    id := FreshId(taken + inFile, drawn);
    k := 0;
    if id.Some? {
      k :| 0 <= k < |drawn| && drawn[k] == id.value && IsSelectionId(id.value) && id.value !in taken + inFile
           && forall j :: 0 <= j < k ==> !IsSelectionId(drawn[j]) || drawn[j] in taken + inFile;
    }
  }

  /** The answer after the markers of `id` were put into the text: what resolving them decides. */
  ghost predicate IsDecided(id: string, after: FileScan, text': string, range: Range, r: Outcome)
    requires IsOrderly(after) && range.Range?
  {
    var found := ResolveOne(id, after);
    && (r == Refused(DoesNotResolve) <==> found.Unresolved?)
    && (r == Refused(ContentDiffers) <==> found.Resolved? && found.location.content != range.content)
    && (r == Created(id, text', range) <==> found.Resolved? && found.location.content == range.content)
  }

  /** The answer to a request for these lines, made with the first free identifier. */
  ghost predicate IsPlaced(path: string, text: string, syntax: CommentSyntax, range: Range, taken: set<string>,
                           drawn: seq<string>, k: nat, r: Outcome) {
    && range.Range? && IsFirstFree(FindMarkers(Some(syntax), text), taken, drawn, k)
    && var inserted := Insert(text, syntax, drawn[k], range.start, range.end);
    && inserted.Ok? && IsOrderly(ScanFile(Some(syntax), path, inserted.value))
    && IsDecided(drawn[k], ScanFile(Some(syntax), path, inserted.value), inserted.value, range, r)
  }

  /** Insert the markers and check that they resolve to the content of the checkpoint. */
  method Place(path: string, text: string, language: Option<CommentSyntax>, range: Range, taken: set<string>,
               drawn: seq<string>)
    returns (r: Outcome)
    requires language.Some? && IsSyntax(language.value) && |drawn| == ID_ATTEMPTS
    requires range.Range? && 0 < range.start <= range.end <= |Segments(text)|
    requires HasNoProblem(MarksOf(FindMarkers(language, text)))
    requires Newlines(range.content) == Count(MarkerLines(FindMarkers(language, text)), range.start, range.end)
    ensures r.Created? || r.error in {NoFreshId, DoesNotResolve, ContentDiffers}
    ensures IsMapped(path, text, language.value, FindMarkers(language, text), range, taken, drawn, r)
    ensures r.Created? ==>
              && r.range == range && Insert(text, language.value, r.id, range.start, range.end) == Ok(r.text)
              && IsSafe(path, text, language, r.id, range.start, range.end, r.text, range.content)
              && r.id in drawn && r.id !in taken && IsSelectionId(r.id)
  {
    hide FindMarkers, Resolve, Segments, HasNoProblem, IsSafe, Newlines, Count, ResolveOne, Insert;
    var markers := FindMarkers(language, text);
    var id, k := FreshIn(markers, taken, drawn);
    if id.None? { return Refused(NoFreshId); }
    InsertSucceeds(text, language.value, id.value, range.start, range.end);
    var inserted := Insert(text, language.value, id.value, range.start, range.end);
    var after := ScanFile(language, path, inserted.value);
    ScanFileIsOrderly(language, path, text);
    ScanFileIsOrderly(language, path, inserted.value);
    ScanIsOrdered(language, inserted.value);
    SingleFile(id.value, after);
    var resolution := ResolveScan(id.value, [after], [LineMarks(language, after.segments)]);
    if resolution.Unresolved? {
      r := Refused(DoesNotResolve);
    } else if resolution.location.content != range.content {
      r := Refused(ContentDiffers);
    } else {
      CreationIsSafe(path, text, language.value, id.value, range.start, range.end, inserted.value);
      r := Created(id.value, inserted.value, range);
    }
    assert IsPlaced(path, text, language.value, range, taken, drawn, k, r);
  }

  lemma InsertSucceeds(text: string, syntax: CommentSyntax, id: string, s: nat, e: nat)
    ensures Insert(text, syntax, id, s, e).Ok? <==> 0 < s <= e <= |Segments(text)|
  {
  }

  /** When each answer is given to a request for lines s..e, whose comment syntax is supported. */
  ghost predicate IsAnswer(path: string, text: string, syntax: CommentSyntax, markers: seq<Marker>, base: string,
                           s: nat, e: nat, taken: set<string>, drawn: seq<string>, r: Outcome) {
    var isReadable, isInFile := HasNoProblem(MarksOf(markers)), 0 < s <= e <= |Segments(text)|;
    && (r == Refused(BrokenMarkers) <==> !isReadable)
    && (isReadable ==> (r == Refused(NothingToSelect) <==> text == ""))
    && (isReadable && text != "" ==> (r == Refused(InvalidRange) <==> !isInFile))
    && (isReadable && isInFile ==>
          (r == Refused(Overlaps) <==> IsObstructed(markers, markers, |Segments(text)|, s, e)))
    && (IsOpen(text, markers, s, e) ==>
          if r == Refused(Differs) then HasMapping(Segments(text), MarkerLines(markers), Segments(base), s, e, None)
          else exists range :: && IsUnchanged(text, markers, base, s, e, range)
                               && IsMapped(path, text, syntax, markers, range, taken, drawn, r))
  }

  /** When each answer is given to a request for lines that are unchanged since the checkpoint. */
  ghost predicate IsMapped(path: string, text: string, syntax: CommentSyntax, markers: seq<Marker>, range: Range,
                           taken: set<string>, drawn: seq<string>, r: Outcome) {
    if r == Refused(NoFreshId) then forall k :: 0 <= k < |drawn| ==> !IsFree(markers, taken, drawn[k])
    else exists k :: IsPlaced(path, text, syntax, range, taken, drawn, k, r)
  }

  /** The lines s..e without markers are mapped to lines of the checkpoint version, and `range` holds those and their
      content. */
  ghost predicate IsUnchanged(text: string, markers: seq<Marker>, base: string, s: nat, e: nat, range: Range) {
    && range.Range? && range.start == s && range.end == e
    && IsOrigin(Segments(text), MarkerLines(markers), s, e, Segments(base), range.baseFirst, range.baseLast)
    && HasMapping(Segments(text), MarkerLines(markers), Segments(base), s, e, Some(range.baseFirst))
    && range.content == NormalizeContent(Join(Segments(base)[range.baseFirst..range.baseLast + 1]))
  }

  /** Create a selection over lines of a file whose checkpoint version is `base`. Identifiers already
      in use elsewhere are given; those in the file count too. The signed record and the policy text
      are not part of this. */
  method Create(path: string, text: string, language: Option<CommentSyntax>, base: string, startLine: Option<nat>,
                endLine: Option<nat>, taken: set<string>, drawn: seq<string>)
    returns (r: Outcome)
    requires (language.Some? ==> IsSyntax(language.value)) && |drawn| == ID_ATTEMPTS
    ensures r == Refused(NoSyntax) <==> language.None?
    ensures language.Some? ==>
              var markers, s, e := FindMarkers(language, text), FirstLine(text, startLine), LastLine(text, endLine);
              IsAnswer(path, text, language.value, markers, base, s, e, taken, drawn, r)
    ensures r.Created? ==>
              && language.Some? && r.range.Range?
              && Insert(text, language.value, r.id, r.range.start, r.range.end) == Ok(r.text)
              && IsSafe(path, text, language, r.id, r.range.start, r.range.end, r.text, r.range.content)
              && r.id in drawn && r.id !in taken && IsSelectionId(r.id)
    ensures r.Created? ==> IsLocated(text, FindMarkers(language, text), base, startLine, endLine, r.range)
  {
    hide FindMarkers, Segments, HasNoProblem, IsObstructed, HasMapping, IsOrigin, Newlines, Count, IsSafe, IsMapped,
      Insert, NormalizeContent;
    if language.None? { return Refused(NoSyntax); }
    EmptyHasNoLines(text);
    var range := Locate(text, FindMarkers(language, text), base, startLine, endLine);
    if range.Invalid? { return Refused(range.error); }
    r := Place(path, text, language, range, taken, drawn);
    assert IsUnchanged(text, FindMarkers(language, text), base, range.start, range.end, range);
  }
}
