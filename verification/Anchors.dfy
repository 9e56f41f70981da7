// src/selection/anchors.rs: lines, marker comments, and inserting a pair of them. Text is a sequence
// of characters and offsets count characters.
module Anchors {

  datatype Option<+T> = None | Some(value: T)

  datatype Result<+T> = Ok(value: T) | Err

  // ---------------------------------------------------------------- strings

  /** Unicode White_Space. */
  predicate IsSpace(c: char) {
    var n := c as int;
    9 <= n <= 13 || n == 32 || n == 0x85 || n == 0xA0 || n == 0x1680 || 0x2000 <= n <= 0x200A
    || n == 0x2028 || n == 0x2029 || n == 0x202F || n == 0x205F || n == 0x3000
  }

  function TrimStart(s: string): string {
    if s != "" && IsSpace(s[0]) then TrimStart(s[1..]) else s
  }

  function TrimEnd(s: string): string {
    if s != "" && IsSpace(s[|s| - 1]) then TrimEnd(s[..|s| - 1]) else s
  }

  function Trim(s: string): string { TrimEnd(TrimStart(s)) }

  predicate AllSpace(s: string) { forall i :: 0 <= i < |s| ==> IsSpace(s[i]) }

  /** Position of the first occurrence of `part`. */
  function Find(s: string, part: string): Option<nat> {
    if part <= s then Some(0)
    else if s == "" then None
    else
      match Find(s[1..], part)
      case None => None
      case Some(k) => Some(k + 1)
  }

  predicate Contains(s: string, part: string) { Find(s, part).Some? }

  predicate EndsWith(s: string, part: string) { |part| <= |s| && s[|s| - |part|..] == part }

  // ---------------------------------------------------------------- lines

  /** Length of the first line of a non-empty text, with its ending. */
  function FirstCut(text: string): (cut: nat)
    requires text != ""
    ensures 0 < cut <= |text|
    ensures forall i :: 0 <= i < cut - 1 ==> text[i] != '\n'
    ensures text[cut - 1] == '\n' || cut == |text|
  {
    if text[0] == '\n' || |text| == 1 then 1 else 1 + FirstCut(text[1..])
  }

  /** The lines of a text with their endings. */
  function Segments(text: string): (segments: seq<string>) {
    if text == "" then [] else [text[..FirstCut(text)]] + Segments(text[FirstCut(text)..])
  }

  function Join(segments: seq<string>): string {
    if segments == [] then "" else segments[0] + Join(segments[1..])
  }

  /** A line with its ending: only its last character may be a newline. */
  predicate IsSegment(s: string) { s != "" && forall i :: 0 <= i < |s| - 1 ==> s[i] != '\n' }

  predicate IsClosed(s: string) { s != "" && s[|s| - 1] == '\n' }

  predicate WellSegmented(segments: seq<string>) {
    && (forall i :: 0 <= i < |segments| ==> IsSegment(segments[i]))
    && (forall i :: 0 <= i < |segments| - 1 ==> IsClosed(segments[i]))
  }

  lemma SliceIsWellSegmented(segments: seq<string>, i: nat, j: nat)
    requires WellSegmented(segments) && i <= j <= |segments|
    ensures WellSegmented(segments[i..j])
  {
    forall k | 0 <= k < j - i
      ensures IsSegment(segments[i..j][k]) && (k < j - i - 1 ==> IsClosed(segments[i..j][k]))
    {
      assert segments[i..j][k] == segments[i + k];
    }
  }

  /** A line without its LF or CRLF ending. */
  function Content(segment: string): string {
    var end := if IsClosed(segment) then |segment| - 1 else |segment|;
    if end > 0 && segment[end - 1] == '\r' then segment[..end - 1] else segment[..end]
  }

  datatype Line = Line(number: nat, start: nat, end: nat, text: string)

  function Offset(segments: seq<string>, i: nat): nat
    requires i <= |segments|
  {
    |Join(segments[..i])|
  }

  function LineAt(segments: seq<string>, i: nat): Line
    requires i < |segments|
  {
    Line(i + 1, Offset(segments, i), Offset(segments, i + 1), Content(segments[i]))
  }

  lemma {:induction false} SegmentsJoin(text: string)
    ensures Join(Segments(text)) == text && WellSegmented(Segments(text))
    decreases |text|
  {
    if text != "" {
      hide Segments, WellSegmented, Join;
      var cut := FirstCut(text);
      SegmentsJoin(text[cut..]);
      CutsFirst(text, cut);
      FirstOfSegments(text[..cut], Segments(text[cut..]));
    }
  }

  lemma SegmentsStep(text: string)
    requires text != ""
    ensures Segments(text) == [text[..FirstCut(text)]] + Segments(text[FirstCut(text)..])
  {
  }

  lemma NoSegments(text: string)
    requires text == ""
    ensures Segments(text) == []
  {
  }

  lemma CutsFirst(text: string, cut: nat)
    requires text != "" && cut == FirstCut(text)
    ensures text == text[..cut] + text[cut..]
    ensures Segments(text) == [text[..cut]] + Segments(text[cut..])
    ensures IsSegment(text[..cut]) && (IsClosed(text[..cut]) || Segments(text[cut..]) == [])
  {
    hide Segments, FirstCut;
    SegmentsStep(text);
    if cut == |text| { NoSegments(text[cut..]); }
  }

  lemma FirstOfSegments(first: string, rest: seq<string>)
    requires IsSegment(first) && WellSegmented(rest) && (IsClosed(first) || rest == [])
    ensures WellSegmented([first] + rest) && Join([first] + rest) == first + Join(rest)
  {
    assert ([first] + rest)[1..] == rest;
  }

  lemma {:induction false} JoinAppend(a: seq<string>, b: seq<string>)
    ensures Join(a + b) == Join(a) + Join(b)
    decreases |a|
  {
    if a == [] {
      assert a + b == b;
    } else {
      JoinAppend(a[1..], b);
      assert (a + b)[1..] == a[1..] + b;
    }
  }

  /** The first line of what is left from line i on. */
  lemma NextSegment(segments: seq<string>, i: nat)
    requires WellSegmented(segments) && i < |segments|
    ensures var rest := Join(segments[i..]);
            rest != "" && FirstCut(rest) == |segments[i]|
            && rest[..|segments[i]|] == segments[i] && rest[|segments[i]|..] == Join(segments[i + 1..])
  {
    var rest := Join(segments[i..]);
    assert segments[i..][0] == segments[i] && segments[i..][1..] == segments[i + 1..];
    assert rest == segments[i] + Join(segments[i + 1..]);
    if i + 1 == |segments| {
      assert rest == segments[i];
    }
    CutIsUnique(rest, |segments[i]|);
  }

  /** Splitting a text that was put together from lines gives those lines back. */
  lemma {:induction false} JoinSegments(segments: seq<string>)
    requires WellSegmented(segments)
    ensures Segments(Join(segments)) == segments
    decreases |segments|
  {
    if segments != [] {
      NextSegment(segments, 0);
      assert segments[0..] == segments;
      JoinSegments(segments[1..]);
    }
  }

  lemma CutIsUnique(text: string, cut: nat)
    requires 0 < cut <= |text|
    requires forall i :: 0 <= i < cut - 1 ==> text[i] != '\n'
    requires text[cut - 1] == '\n' || cut == |text|
    ensures FirstCut(text) == cut
  {
  }

  lemma OffsetStep(segments: seq<string>, i: nat)
    requires i < |segments|
    ensures Offset(segments, i + 1) == Offset(segments, i) + |segments[i]|
  {
    assert segments[..i + 1] == segments[..i] + [segments[i]];
    JoinAppend(segments[..i], [segments[i]]);
    assert Join([segments[i]]) == segments[i];
  }

  /** The text between two line starts. */
  lemma JoinSlice(segments: seq<string>, i: nat, j: nat)
    requires i <= j <= |segments|
    ensures Offset(segments, i) <= Offset(segments, j) <= |Join(segments)|
    ensures Join(segments)[Offset(segments, i)..Offset(segments, j)] == Join(segments[i..j])
    ensures Join(segments)[..Offset(segments, j)] == Join(segments[..j])
    ensures Join(segments)[Offset(segments, j)..] == Join(segments[j..])
  {
    JoinsParts(segments, segments[..j], segments[j..]);
    JoinsParts(segments[..j], segments[..i], segments[i..j]);
    SlicesOfSum(Join(segments[..i]), Join(segments[i..j]), Join(segments[j..]));
  }

  lemma JoinsParts(all: seq<string>, a: seq<string>, b: seq<string>)
    requires all == a + b
    ensures Join(all) == Join(a) + Join(b)
  {
    JoinAppend(a, b);
  }

  lemma SlicesOfSum(a: string, b: string, c: string)
    ensures var s := (a + b) + c; s[|a|..|a| + |b|] == b && s[..|a| + |b|] == a + b && s[|a| + |b|..] == c
  {
  }

  lemma SlicedAlike(text: string, start: nat, part: string, n: nat)
    requires start + |part| <= |text| && text[start..start + |part|] == part && n <= |part|
    ensures text[start..start + n] == part[..n]
    ensures forall i :: 0 <= i < |part| ==> text[start + i] == part[i]
  {
    forall i | 0 <= i < |part|
      ensures text[start + i] == part[i]
    {
      assert text[start..start + |part|][i] == text[start + i];
    }
    assert text[start..start + |part|][..n] == text[start..start + n];
  }

  /** Where the line starting at `start` ends, without and with its ending. */
  method LineEnd(text: string, start: nat, ghost segment: string) returns (contentEnd: nat, end: nat)
    requires start < |text| && IsSegment(segment) && start + |segment| <= |text|
    requires text[start..start + |segment|] == segment && (IsClosed(segment) || start + |segment| == |text|)
    ensures end == start + |segment| && start <= contentEnd <= end && text[start..contentEnd] == Content(segment)
  {
    var newline := start;
    while newline < |text| && text[newline] != '\n'
      invariant start <= newline <= start + |segment|
      invariant newline == start + |segment| ==> !IsClosed(segment)
    {
      assert newline < start + |segment|;
      assert text[newline] == segment[newline - start];
      newline := newline + 1;
    }
    if newline < start + |segment| {
      assert text[newline] == segment[newline - start];
    }
    end := if newline < |text| then newline + 1 else |text|;
    contentEnd := if newline > start && text[newline - 1] == '\r' then newline - 1 else newline;
    SlicedAlike(text, start, segment, contentEnd - start);
    assert newline > start ==> text[newline - 1] == segment[newline - start - 1];
  }

  /** Split text into lines, with the offsets of each. */
  method Lines(text: string) returns (result: seq<Line>)
    ensures |result| == |Segments(text)|
    ensures forall i :: 0 <= i < |result| ==> result[i] == LineAt(Segments(text), i)
  {
    SegmentsJoin(text);
    result := LinesOf(text, Segments(text));
  }

  method LinesOf(text: string, ghost all: seq<string>) returns (result: seq<Line>)
    requires WellSegmented(all) && Join(all) == text
    ensures |result| == |all| && forall i :: 0 <= i < |result| ==> result[i] == LineAt(all, i)
  {
    hide Content, FirstCut, IsClosed;
    result := [];
    var start := 0;
    assert all[0..] == all && text[0..] == text;
    while start < |text|
      invariant |result| <= |all| && start == Offset(all, |result|) <= |text|
      invariant Join(all[|result|..]) == text[start..]
      invariant forall i :: 0 <= i < |result| ==> result[i] == LineAt(all, i)
    {
      ghost var i := |result|;
      NextSegment(all, i);
      OffsetStep(all, i);
      assert text[start..][..|all[i]|] == text[start..start + |all[i]|];
      assert text[start..][|all[i]|..] == text[start + |all[i]|..];
      var contentEnd, end := LineEnd(text, start, all[i]);
      result := result + [Line(|result| + 1, start, end, text[start..contentEnd])];
      start := end;
    }
    if |result| < |all| {
      NextSegment(all, |result|);
    }
  }
}
