// src/selection/anchors.rs, insert: putting a pair of markers around a range of lines, and what that
// does to the markers and the contents of the file.
module Insertion {
  import opened Anchors
  import opened Markers
  import opened Nesting
  import opened Tracker

  // ---------------------------------------------------------------- the inserted text

  function LineEnding(text: string): string { if Contains(text, "\r\n") then "\r\n" else "\n" }

  /** Leading whitespace of a line. */
  function Indentation(segment: string): string {
    var content := Content(segment);
    TrimStartSplits(content);
    content[..|content| - |TrimStart(content)|]
  }

  /** It is all the whitespace the line begins with. */
  lemma IndentationMeans(segment: string)
    ensures Indentation(segment) <= Content(segment) && AllSpace(Indentation(segment))
    ensures var n := |Indentation(segment)|; n < |Content(segment)| ==> !IsSpace(Content(segment)[n])
  {
    TrimStartSplits(Content(segment));
  }

  function MarkerLine(text: string, segment: string, syntax: CommentSyntax, id: string, boundary: Boundary): string {
    Indentation(segment) + Render(syntax, id, boundary) + LineEnding(text)
  }

  /** Insert start and end markers around lines s..e, indented like line s; a last line without an
      ending gets one. */
  function Insert(text: string, syntax: CommentSyntax, id: string, s: nat, e: nat): Result<string> {
    var all := Segments(text);
    if s == 0 || e < s || e > |all| then Err
    else
      var first, last := Offset(all, s - 1), Offset(all, e);
      SegmentsJoin(text);
      JoinSlice(all, s - 1, e);
      Ok(text[..first]
         + MarkerLine(text, all[s - 1], syntax, id, Start)
         + text[first..last]
         + (if EndsWith(text[..last], "\n") then "" else LineEnding(text))
         + MarkerLine(text, all[s - 1], syntax, id, End)
         + text[last..])
  }

  /** Give the last line of a range an ending if it has none. */
  function Closed(segments: seq<string>, ending: string): (r: seq<string>)
    requires segments != []
    ensures |r| == |segments|
  {
    var last := segments[|segments| - 1];
    if IsClosed(last) then segments else segments[..|segments| - 1] + [last + ending]
  }

  function InsertLines(text: string, segments: seq<string>, syntax: CommentSyntax, id: string, s: nat, e: nat)
    : (r: seq<string>)
    requires 0 < s <= e <= |segments|
    ensures |r| == |segments| + 2
  {
    segments[..s - 1]
    + [MarkerLine(text, segments[s - 1], syntax, id, Start)]
    + Closed(segments[s - 1..e], LineEnding(text))
    + [MarkerLine(text, segments[s - 1], syntax, id, End)]
    + segments[e..]
  }

  /** Both markers are comments in the syntax of the file, indented like the first line of the range. */
  lemma MarkersRead(text: string, segments: seq<string>, syntax: CommentSyntax, id: string, s: nat, e: nat)
    requires 0 < s <= e <= |segments|
    ensures var r, indentation := InsertLines(text, segments, syntax, id, s, e), Indentation(segments[s - 1]);
            var ending := if Contains(text, "\r\n") then "\r\n" else "\n";
            && r[s - 1] == indentation + Comment(syntax, "@crane:selection:" + id + ":start") + ending
            && r[e + 1] == indentation + Comment(syntax, "@crane:selection:" + id + ":end") + ending
  {
    hide Indentation, Contains, Comment, Render, InsertLines;
    InsertLinesAt(text, segments, syntax, id, s, e);
    MarkerReads(syntax, id, Start, ":start");
    MarkerReads(syntax, id, End, ":end");
  }

  function Comment(syntax: CommentSyntax, body: string): string {
    match syntax
    case LineComment(opener) => opener + " " + body
    case BlockComment(opener, closer) => opener + " " + body + " " + closer
  }

  lemma MarkerReads(syntax: CommentSyntax, id: string, boundary: Boundary, ending: string)
    requires ending == if boundary == Start then ":start" else ":end"
    ensures Render(syntax, id, boundary) == Comment(syntax, "@crane:selection:" + id + ending)
  {
    var before := "@crane:selection:" + id;
    assert before + ":" + Name(boundary) == before + (":" + Name(boundary));
    assert ":" + Name(boundary) == ending;
    hide Name;
  }

  lemma MarkerLineIsSegment(text: string, segment: string, syntax: CommentSyntax, id: string, boundary: Boundary)
    requires IsSegment(segment) && IsSyntax(syntax) && IsSelectionId(id)
    ensures var line := MarkerLine(text, segment, syntax, id, boundary);
            IsSegment(line) && IsClosed(line)
            && MarkOf(Some(syntax), line) == Some(Mark(Selection, Some(id), Some(boundary), None))
  {
    hide RenderKind, TrimStart, IsSyntax, ParseMark;
    var line := MarkerLine(text, segment, syntax, id, boundary);
    var m, indent, ending := Render(syntax, id, boundary), Indentation(segment), LineEnding(text);
    TrimStartSplits(Content(segment));
    RenderedFacts(syntax, id, boundary);
    assert IsOneLine(indent);
    OneLineConcat(indent, m);
    var body := indent + m;
    LastOfConcat(indent, m);
    assert line == body + ending;
    BodyWithEnding(body, ending);
    assert body == indent + m + "";
    TrimPadded(indent, m, "");
    RenderedParses(syntax, Selection, id, boundary);
  }

  lemma BodyWithEnding(body: string, ending: string)
    requires body != "" && IsOneLine(body) && !IsSpace(body[|body| - 1]) && (ending == "\n" || ending == "\r\n")
    ensures IsSegment(body + ending) && IsClosed(body + ending) && Content(body + ending) == body
  {
    var line := body + ending;
    if ending == "\r\n" {
      assert line[|line| - 2] == '\r' && line[..|line| - 2] == body;
    } else {
      assert line[..|line| - 1] == body && line[|line| - 2] == body[|body| - 1];
    }
  }

  /** Giving the last line of a file an ending does not change what it says as a marker. */
  lemma ClosingKeepsMark(language: Option<CommentSyntax>, segment: string, ending: string)
    requires IsSegment(segment) && !IsClosed(segment) && (ending == "\n" || ending == "\r\n")
    ensures IsSegment(segment + ending) && IsClosed(segment + ending)
    ensures MarkOf(language, segment + ending) == MarkOf(language, segment)
  {
    var line := segment + ending;
    assert IsOneLine(segment);
    if ending == "\r\n" {
      assert line[..|line| - 2] == segment;
      assert Content(line) == segment;
    } else {
      assert line[..|line| - 1] == segment;
      assert Content(line) == Content(segment);
    }
    assert segment == Content(segment) + segment[|Content(segment)|..];
    TrimDropsEnd(Content(segment), segment[|Content(segment)|..]);
  }

  lemma InsertLinesAt(text: string, segments: seq<string>, syntax: CommentSyntax, id: string, s: nat, e: nat)
    requires 0 < s <= e <= |segments|
    ensures var r := InsertLines(text, segments, syntax, id, s, e);
            && r[..s - 1] == segments[..s - 1]
            && r[s - 1] == MarkerLine(text, segments[s - 1], syntax, id, Start)
            && r[s..e + 1] == Closed(segments[s - 1..e], LineEnding(text))
            && r[e + 1] == MarkerLine(text, segments[s - 1], syntax, id, End)
            && r[e + 2..] == segments[e..]
  {
    FiveAt(segments[..s - 1], MarkerLine(text, segments[s - 1], syntax, id, Start),
           Closed(segments[s - 1..e], LineEnding(text)), MarkerLine(text, segments[s - 1], syntax, id, End),
           segments[e..]);
  }

  lemma FiveAt<T>(a: seq<T>, x: T, b: seq<T>, y: T, c: seq<T>)
    ensures var r := a + [x] + b + [y] + c;
            && |r| == |a| + |b| + |c| + 2 && r[..|a|] == a && r[|a|] == x && r[|a| + 1..|a| + 1 + |b|] == b
            && r[|a| + 1 + |b|] == y && r[|a| + |b| + 2..] == c
  {
  }

  lemma ClosedAt(segments: seq<string>, ending: string)
    requires segments != [] && WellSegmented(segments) && (ending == "\n" || ending == "\r\n")
    ensures var r := Closed(segments, ending);
            && (forall i :: 0 <= i < |r| - 1 ==> r[i] == segments[i])
            && (forall i :: 0 <= i < |r| ==> IsSegment(r[i]) && IsClosed(r[i]))
            && Join(r) == Join(segments) + (if IsClosed(segments[|segments| - 1]) then "" else ending)
  {
    hide Content, IsSelectionId, MarkOf;
    var n := |segments| - 1;
    var last := segments[n];
    if !IsClosed(last) {
      ClosingKeepsMark(None, last, ending);
      JoinAppend(segments[..n], [last]);
      JoinAppend(segments[..n], [last + ending]);
      assert segments == segments[..n] + [last];
      assert Join([last]) == last && Join([last + ending]) == last + ending;
    }
  }

  predicate AllClosed(segments: seq<string>) {
    forall i :: 0 <= i < |segments| ==> IsSegment(segments[i]) && IsClosed(segments[i])
  }

  lemma FiveWellSegmented(a: seq<string>, x: string, b: seq<string>, y: string, c: seq<string>)
    requires AllClosed(a) && AllClosed([x]) && AllClosed(b) && AllClosed([y]) && WellSegmented(c)
    ensures WellSegmented(a + [x] + b + [y] + c)
  {
    AllClosedConcat(a, [x]);
    AllClosedConcat(a + [x], b);
    AllClosedConcat(a + [x] + b, [y]);
    WellSegmentedConcat(a + [x] + b + [y], c);
  }

  lemma PartsAreSegmented(segments: seq<string>, ending: string, i: nat, j: nat)
    requires i < j <= |segments| && WellSegmented(segments) && (ending == "\n" || ending == "\r\n")
    ensures AllClosed(segments[..i]) && AllClosed(Closed(segments[i..j], ending)) && WellSegmented(segments[j..])
  {
    ClosedAt(segments[i..j], ending);
  }

  lemma AllClosedConcat(a: seq<string>, b: seq<string>)
    requires AllClosed(a) && AllClosed(b)
    ensures AllClosed(a + b)
  {
  }

  lemma WellSegmentedConcat(a: seq<string>, b: seq<string>)
    requires AllClosed(a) && WellSegmented(b)
    ensures WellSegmented(a + b)
  {
  }

  lemma InsertedIsWellSegmented(text: string, segments: seq<string>, syntax: CommentSyntax, id: string, s: nat, e: nat)
    requires 0 < s <= e <= |segments| && WellSegmented(segments) && IsSyntax(syntax) && IsSelectionId(id)
    ensures WellSegmented(InsertLines(text, segments, syntax, id, s, e))
  {
    hide MarkOf, MarkerLine, Closed;
    var x, y := MarkerLine(text, segments[s - 1], syntax, id, Start),
        MarkerLine(text, segments[s - 1], syntax, id, End);
    MarkerLineIsSegment(text, segments[s - 1], syntax, id, Start);
    MarkerLineIsSegment(text, segments[s - 1], syntax, id, End);
    assert AllClosed([x]) && AllClosed([y]);
    PartsAreSegmented(segments, LineEnding(text), s - 1, e);
    FiveWellSegmented(segments[..s - 1], x, Closed(segments[s - 1..e], LineEnding(text)), y, segments[e..]);
  }

  lemma JoinInserted(text: string, all: seq<string>, x: string, y: string, ending: string, s: nat, e: nat)
    requires 0 < s <= e <= |all| && WellSegmented(all) && text == Join(all) && (ending == "\n" || ending == "\r\n")
    ensures Offset(all, s - 1) <= Offset(all, e) <= |text|
    ensures var first, last := Offset(all, s - 1), Offset(all, e);
            Join(all[..s - 1] + [x] + Closed(all[s - 1..e], ending) + [y] + all[e..])
            == text[..first] + x + (text[first..last] + (if EndsWith(text[..last], "\n") then "" else ending)) + y
                + text[last..]
  {
    var first, last := Offset(all, s - 1), Offset(all, e);
    JoinSlice(all, s - 1, e);
    JoinSlice(all, s - 1, s - 1);
    var middle := ClosedText(all, ending, s, e);
    JoinFive(all[..s - 1], x, Closed(all[s - 1..e], ending), y, all[e..]);
    assert middle == text[first..last] + (if EndsWith(text[..last], "\n") then "" else ending);
  }

  lemma ClosedText(all: seq<string>, ending: string, s: nat, e: nat) returns (middle: string)
    requires 0 < s <= e <= |all| && WellSegmented(all) && (ending == "\n" || ending == "\r\n")
    ensures middle == Join(Closed(all[s - 1..e], ending))
    ensures middle == Join(all[s - 1..e]) + (if EndsWith(Join(all[..e]), "\n") then "" else ending)
  {
    middle := Join(Closed(all[s - 1..e], ending));
    ClosedAt(all[s - 1..e], ending);
    EndsClosed(all, e);
    assert all[s - 1..e][|all[s - 1..e]| - 1] == all[e - 1];
  }

  /** The inserted text, line by line. */
  lemma InsertIsInsertLines(text: string, syntax: CommentSyntax, id: string, s: nat, e: nat)
    requires 0 < s <= e <= |Segments(text)| && IsSyntax(syntax) && IsSelectionId(id)
    ensures var lines := InsertLines(text, Segments(text), syntax, id, s, e);
            Insert(text, syntax, id, s, e) == Ok(Join(lines)) && Segments(Join(lines)) == lines
  {
    SegmentsJoin(text);
    InsertedIsWellSegmented(text, Segments(text), syntax, id, s, e);
    JoinSegments(InsertLines(text, Segments(text), syntax, id, s, e));
    var all := Segments(text);
    JoinInserted(text, all, MarkerLine(text, all[s - 1], syntax, id, Start),
                 MarkerLine(text, all[s - 1], syntax, id, End), LineEnding(text), s, e);
    var first, last := Offset(all, s - 1), Offset(all, e);
    Regroup(text[..first] + MarkerLine(text, all[s - 1], syntax, id, Start), text[first..last],
            if EndsWith(text[..last], "\n") then "" else LineEnding(text));
  }

  lemma Regroup(a: string, b: string, c: string)
    ensures a + (b + c) == a + b + c
  {
  }

  lemma JoinFive(a: seq<string>, x: string, b: seq<string>, y: string, c: seq<string>)
    ensures Join(a + [x] + b + [y] + c) == Join(a) + x + Join(b) + y + Join(c)
  {
    JoinAppend(a + [x] + b + [y], c);
    JoinAppend(a + [x] + b, [y]);
    JoinAppend(a + [x], b);
    JoinAppend(a, [x]);
    assert Join([x]) == x && Join([y]) == y;
  }

  lemma EndsClosed(segments: seq<string>, e: nat)
    requires 0 < e <= |segments| && WellSegmented(segments)
    ensures EndsWith(Join(segments[..e]), "\n") <==> IsClosed(segments[e - 1])
  {
    assert segments[..e] == segments[..e - 1] + [segments[e - 1]];
    JoinAppend(segments[..e - 1], [segments[e - 1]]);
    assert Join([segments[e - 1]]) == segments[e - 1];
    var text := Join(segments[..e]);
    assert text[|text| - 1] == segments[e - 1][|segments[e - 1]| - 1];
    assert text[|text| - 1..] == [text[|text| - 1]];
  }

  lemma JoinWithoutMarkers(all: seq<string>, ending: string, s: nat, e: nat)
    requires 0 < s <= e <= |all| && WellSegmented(all) && (ending == "\n" || ending == "\r\n")
    ensures var restored := Join(all[..s - 1] + Closed(all[s - 1..e], ending) + all[e..]);
            restored == Join(all) || restored == Join(all) + ending
  {
    hide Join;
    var a, b, c := all[..s - 1], all[s - 1..e], all[e..];
    ThreeParts(all, s - 1, e);
    if IsClosed(all[e - 1]) {
      assert Closed(b, ending) == b;
    } else {
      assert c == [];
      JoinClosedLast(a, b, ending);
      assert a + Closed(b, ending) + c == a + Closed(b, ending) && a + b + c == a + b;
    }
  }

  lemma ThreeParts<T>(all: seq<T>, i: nat, j: nat)
    requires i <= j <= |all|
    ensures all[..i] + all[i..j] + all[j..] == all
  {
  }

  lemma JoinClosedLast(a: seq<string>, b: seq<string>, ending: string)
    requires b != [] && WellSegmented(b) && (ending == "\n" || ending == "\r\n") && !IsClosed(b[|b| - 1])
    ensures Join(a + Closed(b, ending)) == Join(a + b) + ending
  {
    hide *;
    JoinAppend(a, b);
    JoinAppend(a, Closed(b, ending));
    ClosedAt(b, ending);
  }

  /** Deleting the two inserted lines restores the text, up to a final line ending. */
  lemma DeletingMarkersRestores(text: string, syntax: CommentSyntax, id: string, s: nat, e: nat)
    requires 0 < s <= e <= |Segments(text)| && IsSyntax(syntax) && IsSelectionId(id)
    ensures var after := Insert(text, syntax, id, s, e);
            after.Ok?
            && var lines := Segments(after.value);
            |lines| == |Segments(text)| + 2
            && var restored := Join(lines[..s - 1] + lines[s..e + 1] + lines[e + 2..]);
               restored == text || restored == text + LineEnding(text)
  {
    SegmentsJoin(text);
    InsertIsInsertLines(text, syntax, id, s, e);
    InsertLinesAt(text, Segments(text), syntax, id, s, e);
    JoinWithoutMarkers(Segments(text), LineEnding(text), s, e);
  }

  // ---------------------------------------------------------------- lines and markers after an insertion

  /** Where an old line goes. */
  function ShiftLine(s: nat, e: nat, line: nat): nat {
    if line < s then line else if line <= e then line + 1 else line + 2
  }

  /** The lines of a file after inserting marker lines around lines s..e. The last line of the file
      may have got an ending. */
  ghost predicate AreLinesInserted(lines: seq<string>, lines': seq<string>, s: nat, e: nat) {
    && 0 < s <= e <= |lines| && |lines'| == |lines| + 2
    && (forall i :: 0 <= i < s - 1 ==> lines'[i] == lines[i])
    && (forall i :: s - 1 <= i < e && i < |lines| - 1 ==> lines'[i + 1] == lines[i])
    && (forall i :: e <= i < |lines| ==> lines'[i + 2] == lines[i])
  }

  ghost predicate AreMarksInserted(marks: seq<Option<Mark>>, marks': seq<Option<Mark>>, id: string, s: nat, e: nat) {
    && 0 < s <= e <= |marks| && |marks'| == |marks| + 2
    && marks'[s - 1] == Some(StartMark(id)) && marks'[e + 1] == Some(EndMark(id))
    && forall line :: 0 < line <= |marks| ==> marks'[ShiftLine(s, e, line) - 1] == marks[line - 1]
  }

  lemma SameLineSameMark(language: Option<CommentSyntax>, lines: seq<string>, lines': seq<string>)
    ensures forall i, j :: 0 <= i < |lines| && 0 <= j < |lines'| && lines'[j] == lines[i] ==>
              LineMarks(language, lines')[j] == LineMarks(language, lines)[i]
  {
  }

  lemma MarksFollowLines(lines: seq<string>, marks: seq<Option<Mark>>, lines': seq<string>, marks': seq<Option<Mark>>,
                         id: string, s: nat, e: nat)
    requires |marks| == |lines| && |marks'| == |lines'| && AreLinesInserted(lines, lines', s, e)
    requires forall i, j :: 0 <= i < |lines| && 0 <= j < |lines'| && lines'[j] == lines[i] ==> marks'[j] == marks[i]
    requires marks'[s - 1] == Some(StartMark(id)) && marks'[e + 1] == Some(EndMark(id))
    requires e == |lines| ==> marks'[e] == marks[e - 1]
    ensures AreMarksInserted(marks, marks', id, s, e)
  {
    forall line | 0 < line <= |marks|
      ensures marks'[ShiftLine(s, e, line) - 1] == marks[line - 1]
    {
      if !(s <= line && line == |lines|) {
        assert lines'[ShiftLine(s, e, line) - 1] == lines[line - 1];
      }
    }
  }

  lemma StartLineMark(text: string, lines: seq<string>, syntax: CommentSyntax, id: string, s: nat, e: nat, line: string)
    requires 0 < s <= e <= |lines| && WellSegmented(lines) && IsSyntax(syntax) && IsSelectionId(id)
    requires line == MarkerLine(text, lines[s - 1], syntax, id, Start)
    ensures MarkOf(Some(syntax), line) == Some(StartMark(id))
  {
    MarkerLineIsSegment(text, lines[s - 1], syntax, id, Start);
  }

  lemma EndLineMark(text: string, lines: seq<string>, syntax: CommentSyntax, id: string, s: nat, e: nat, line: string)
    requires 0 < s <= e <= |lines| && WellSegmented(lines) && IsSyntax(syntax) && IsSelectionId(id)
    requires line == MarkerLine(text, lines[s - 1], syntax, id, End)
    ensures MarkOf(Some(syntax), line) == Some(EndMark(id))
  {
    MarkerLineIsSegment(text, lines[s - 1], syntax, id, End);
  }

  /** The last old line of an insertion is the last of the closed range. */
  lemma LastOldLine(text: string, lines: seq<string>, syntax: CommentSyntax, id: string, s: nat, e: nat)
    requires 0 < s <= e <= |lines|
    ensures InsertLines(text, lines, syntax, id, s, e)[e] == Closed(lines[s - 1..e], LineEnding(text))[e - s]
  {
    var lines' := InsertLines(text, lines, syntax, id, s, e);
    InsertLinesAt(text, lines, syntax, id, s, e);
    assert lines'[e] == lines'[s..e + 1][e - s];
  }

  lemma LastOldLineMark(text: string, lines: seq<string>, syntax: CommentSyntax, id: string, s: nat, e: nat,
                        line: string)
    requires 0 < s <= e == |lines| && WellSegmented(lines) && line == Closed(lines[s - 1..e], LineEnding(text))[e - s]
    ensures MarkOf(Some(syntax), line) == MarkOf(Some(syntax), lines[e - 1])
  {
    hide MarkOf;
    LastLineMark(Some(syntax), lines, LineEnding(text), s);
    assert lines[s - 1..] == lines[s - 1..e];
  }

  lemma NewLineMarks(text: string, lines: seq<string>, syntax: CommentSyntax, id: string, s: nat, e: nat,
                     lines': seq<string>)
    requires 0 < s <= e <= |lines| && WellSegmented(lines) && IsSyntax(syntax) && IsSelectionId(id)
    requires lines' == InsertLines(text, lines, syntax, id, s, e)
    ensures MarkOf(Some(syntax), lines'[s - 1]) == Some(StartMark(id))
    ensures MarkOf(Some(syntax), lines'[e + 1]) == Some(EndMark(id))
    ensures e == |lines| ==> MarkOf(Some(syntax), lines'[e]) == MarkOf(Some(syntax), lines[e - 1])
  {
    InsertLinesAt(text, lines, syntax, id, s, e);
    LastOldLine(text, lines, syntax, id, s, e);
    StartLineMark(text, lines, syntax, id, s, e, lines'[s - 1]);
    EndLineMark(text, lines, syntax, id, s, e, lines'[e + 1]);
    if e == |lines| { LastOldLineMark(text, lines, syntax, id, s, e, lines'[e]); }
  }

  lemma InsertedMarks(text: string, lines: seq<string>, syntax: CommentSyntax, id: string, s: nat, e: nat)
    requires 0 < s <= e <= |lines| && WellSegmented(lines) && IsSyntax(syntax) && IsSelectionId(id)
    ensures AreMarksInserted(LineMarks(Some(syntax), lines),
                             LineMarks(Some(syntax), InsertLines(text, lines, syntax, id, s, e)), id, s, e)
  {
    var lines' := InsertLines(text, lines, syntax, id, s, e);
    NewLineMarks(text, lines, syntax, id, s, e, lines');
    InsertedOldLines(text, lines, syntax, id, s, e);
    SameLineSameMark(Some(syntax), lines, lines');
    MarksFollowLines(lines, LineMarks(Some(syntax), lines), lines', LineMarks(Some(syntax), lines'), id, s, e);
  }

  lemma LastLineMark(language: Option<CommentSyntax>, lines: seq<string>, ending: string, s: nat)
    requires 0 < s <= |lines| && WellSegmented(lines) && (ending == "\n" || ending == "\r\n")
    ensures MarkOf(language, Closed(lines[s - 1..], ending)[|lines| - s]) == MarkOf(language, lines[|lines| - 1])
  {
    hide MarkOf;
    var last := lines[|lines| - 1];
    assert lines[s - 1..][|lines| - s] == last;
    if !IsClosed(last) {
      ClosingKeepsMark(language, last, ending);
    }
  }

  lemma InsertedOldLines(text: string, lines: seq<string>, syntax: CommentSyntax, id: string, s: nat, e: nat)
    requires 0 < s <= e <= |lines| && WellSegmented(lines)
    ensures AreLinesInserted(lines, InsertLines(text, lines, syntax, id, s, e), s, e)
  {
    hide MarkerLine, InsertLines, LineEnding, Join, IsSegment, AreLinesInserted;
    var middle := Closed(lines[s - 1..e], LineEnding(text));
    InsertLinesAt(text, lines, syntax, id, s, e);
    EndingIsEnding(text);
    ClosedAt(lines[s - 1..e], LineEnding(text));
    SlicesAreInserted(lines, InsertLines(text, lines, syntax, id, s, e), middle, s, e);
  }

  lemma EndingIsEnding(text: string)
    ensures LineEnding(text) == "\n" || LineEnding(text) == "\r\n"
  {
  }

  lemma SlicesAreInserted(lines: seq<string>, lines': seq<string>, middle: seq<string>, s: nat, e: nat)
    requires 0 < s <= e <= |lines| && |lines'| == |lines| + 2 && |middle| == e - s + 1
    requires lines'[..s - 1] == lines[..s - 1] && lines'[s..e + 1] == middle && lines'[e + 2..] == lines[e..]
    requires forall i :: 0 <= i < |middle| && s - 1 + i < |lines| - 1 ==> middle[i] == lines[s - 1 + i]
    ensures AreLinesInserted(lines, lines', s, e)
  {
    forall i | 0 <= i < s - 1
      ensures lines'[i] == lines[i]
    {
      assert lines'[..s - 1][i] == lines[..s - 1][i];
    }
    forall i | s - 1 <= i < e && i < |lines| - 1
      ensures lines'[i + 1] == lines[i]
    {
      assert lines'[s..e + 1][i + 1 - s] == middle[i + 1 - s];
    }
    forall i | e <= i < |lines|
      ensures lines'[i + 2] == lines[i]
    {
      assert lines'[e + 2..][i - e] == lines[e..][i - e];
    }
  }

  /** How many markers are on the first `line` lines. */
  ghost function Rank(markers: seq<Marker>, line: nat): (n: nat)
    ensures n <= |markers|
    ensures AreInOrder(markers) ==> forall i :: 0 <= i < |markers| ==> (markers[i].line <= line <==> i < n)
    decreases |markers|
  {
    if markers == [] then 0
    else if markers[|markers| - 1].line <= line then |markers|
    else Rank(markers[..|markers| - 1], line)
  }

  function MarkerOn(lines: seq<string>, mark: Mark, line: nat): Marker
    requires 0 < line <= |lines|
  {
    Marker(mark, line, Offset(lines, line - 1), Offset(lines, line))
  }

  /** The markers after an insertion, in terms of those before it. */
  ghost function ShiftedMarkers(lines': seq<string>, markers: seq<Marker>, id: string, s: nat, e: nat, p: nat,
                                q: nat): (r: seq<Marker>)
    requires p <= q <= |markers| && 0 < s <= e && e + 2 <= |lines'|
    requires forall i :: 0 <= i < |markers| ==> 0 < markers[i].line && ShiftLine(s, e, markers[i].line) <= |lines'|
    ensures |r| == |markers| + 2
    ensures r[p] == MarkerOn(lines', StartMark(id), s) && r[q + 1] == MarkerOn(lines', EndMark(id), e + 2)
    ensures forall i {:trigger Shift(p, q, i)} :: 0 <= i < |markers| ==>
              r[Shift(p, q, i)] == MarkerOn(lines', markers[i].mark, ShiftLine(s, e, markers[i].line))
  {
    seq(|markers| + 2, k requires 0 <= k < |markers| + 2 =>
      if k == p then MarkerOn(lines', StartMark(id), s)
      else if k == q + 1 then MarkerOn(lines', EndMark(id), e + 2)
      else
        var i := if k < p then k else if k < q + 1 then k - 1 else k - 2;
        MarkerOn(lines', markers[i].mark, ShiftLine(s, e, markers[i].line)))
  }

  lemma InsertedMarkers(lines: seq<string>, marks: seq<Option<Mark>>, markers: seq<Marker>,
                        lines': seq<string>, marks': seq<Option<Mark>>, markers': seq<Marker>, id: string, s: nat,
                        e: nat)
    requires IsScanned(marks, lines, markers) && IsScanned(marks', lines', markers')
    requires AreMarksInserted(marks, marks', id, s, e)
    ensures var p, q := Rank(markers, s - 1), Rank(markers, e);
            && p <= q && |markers'| == |markers| + 2
            && markers'[p] == MarkerOn(lines', StartMark(id), s)
            && markers'[q + 1] == MarkerOn(lines', EndMark(id), e + 2)
            && forall i {:trigger Shift(p, q, i)} :: 0 <= i < |markers| ==>
                 ShiftLine(s, e, markers[i].line) <= |lines'| && 0 < markers[i].line
                 && markers'[Shift(p, q, i)] == MarkerOn(lines', markers[i].mark, ShiftLine(s, e, markers[i].line))
  {
    var p, q := Rank(markers, s - 1), Rank(markers, e);
    forall i | 0 <= i < |markers|
      ensures 0 < markers[i].line <= |lines| && marks[markers[i].line - 1] == Some(markers[i].mark)
    {
      assert IsMarkerOf(marks, lines, |lines|, markers[i]);
    }
    assert p <= q by {
      assert p > 0 ==> markers[p - 1].line <= s - 1;
    }
    var x := ShiftedMarkers(lines', markers, id, s, e, p, q);
    ShiftedAreMarkers(lines, marks, markers, lines', marks', id, s, e);
    MarkersAreUnique(marks', lines', |lines'|, x, markers');
  }

  lemma ShiftedAreMarkers(lines: seq<string>, marks: seq<Option<Mark>>, markers: seq<Marker>,
                          lines': seq<string>, marks': seq<Option<Mark>>, id: string, s: nat, e: nat)
    requires IsScanned(marks, lines, markers) && |marks'| == |lines'|
    requires AreMarksInserted(marks, marks', id, s, e)
    requires Rank(markers, s - 1) <= Rank(markers, e)
    requires forall i :: 0 <= i < |markers| ==>
               0 < markers[i].line <= |lines| && marks[markers[i].line - 1] == Some(markers[i].mark)
    ensures var x := ShiftedMarkers(lines', markers, id, s, e, Rank(markers, s - 1), Rank(markers, e));
            AreMarkersOf(marks', lines', |lines'|, x)
  {
    hide Rank, Offset;
    var p, q := Rank(markers, s - 1), Rank(markers, e);
    var x := ShiftedMarkers(lines', markers, id, s, e, p, q);
    forall k | 0 <= k < |x|
      ensures IsMarkerOf(marks', lines', |lines'|, x[k])
    {
      if k != p && k != q + 1 {
        var i := Preimage(p, q, k);
        assert x[Shift(p, q, i)] == MarkerOn(lines', markers[i].mark, ShiftLine(s, e, markers[i].line));
      }
    }
    forall k, l | 0 <= k < l < |x|
      ensures x[k].line < x[l].line
    {
      ShiftedInOrder(lines', markers, id, s, e, k, l);
    }
    forall line | 0 < line <= |lines'| && marks'[line - 1].Some?
      ensures IsMarked(x, line)
    {
      ShiftedIsMarked(lines, marks, markers, lines', marks', id, s, e, line);
    }
  }

  lemma ShiftedInOrder(lines': seq<string>, markers: seq<Marker>, id: string, s: nat, e: nat, k: nat, l: nat)
    requires 0 < s <= e && e + 2 <= |lines'| && AreInOrder(markers) && Rank(markers, s - 1) <= Rank(markers, e)
    requires forall i :: 0 <= i < |markers| ==> 0 < markers[i].line && ShiftLine(s, e, markers[i].line) <= |lines'|
    requires k < l < |markers| + 2
    ensures var x := ShiftedMarkers(lines', markers, id, s, e, Rank(markers, s - 1), Rank(markers, e));
            x[k].line < x[l].line
  {
    var p, q := Rank(markers, s - 1), Rank(markers, e);
    var x := ShiftedMarkers(lines', markers, id, s, e, p, q);
    if k != p && k != q + 1 {
      var i := Preimage(p, q, k);
      assert x[Shift(p, q, i)].line == ShiftLine(s, e, markers[i].line);
    }
    if l != p && l != q + 1 {
      var j := Preimage(p, q, l);
      assert x[Shift(p, q, j)].line == ShiftLine(s, e, markers[j].line);
    }
  }

  lemma ShiftedIsMarked(lines: seq<string>, marks: seq<Option<Mark>>, markers: seq<Marker>,
                        lines': seq<string>, marks': seq<Option<Mark>>, id: string, s: nat, e: nat, line: nat)
    requires IsScanned(marks, lines, markers) && |marks'| == |lines'|
    requires AreMarksInserted(marks, marks', id, s, e)
    requires Rank(markers, s - 1) <= Rank(markers, e)
    requires forall i :: 0 <= i < |markers| ==> 0 < markers[i].line <= |lines|
    requires 0 < line <= |lines'| && marks'[line - 1].Some?
    ensures IsMarked(ShiftedMarkers(lines', markers, id, s, e, Rank(markers, s - 1), Rank(markers, e)), line)
  {
    hide Rank;
    var p, q := Rank(markers, s - 1), Rank(markers, e);
    var x := ShiftedMarkers(lines', markers, id, s, e, p, q);
    if line == s {
      assert x[p].line == line;
    } else if line == e + 2 {
      assert x[q + 1].line == line;
    } else {
      var l := if line < s then line else if line < e + 2 then line - 1 else line - 2;
      assert ShiftLine(s, e, l) == line && marks[l - 1].Some?;
      assert IsMarked(markers, l);
      var i :| 0 <= i < |markers| && markers[i].line == l;
      assert x[Shift(p, q, i)].line == line;
    }
  }
}
