// src/selection/anchors.rs: marker comments. A marker is read from one trimmed line and the comment
// syntax of the file.
module Markers {
  import opened Anchors

  const MARKER_TAG := "@crane:selection:"
  const ZONE_MARKER_TAG := "@crane:zone:"
  const FLOW_MARKER_TAG := "@crane:flow:"
  const ANY_MARKER_TAG := "@crane:"

  const CANDIDATE_OPENERS: seq<string> := ["<!--", "//", "/*", "#", "--", ";", "%", "'"]

  datatype CommentSyntax = LineComment(opener: string) | BlockComment(opener: string, closer: string)

  /** The comment syntaxes of the supported languages. */
  predicate IsSyntax(syntax: CommentSyntax) {
    match syntax
    case LineComment(opener) => opener in ["//", "#", "--", "%", ";", "'"]
    case BlockComment(opener, closer) => (opener == "<!--" && closer == "-->") || (opener == "/*" && closer == "*/")
  }

  datatype Kind = Selection | Zone | Flow

  datatype Boundary = Start | End

  datatype Problem = Unsupported | UnknownType | UnreadableId | NoBoundary | Malformed

  /** What a marker line says, wherever the line is. */
  datatype Mark = Mark(kind: Kind, id: Option<string>, boundary: Option<Boundary>, problem: Option<Problem>)

  datatype Marker = Marker(mark: Mark, line: nat, start: nat, end: nat)

  function Tag(kind: Kind): string {
    match kind
    case Selection => MARKER_TAG
    case Zone => ZONE_MARKER_TAG
    case Flow => FLOW_MARKER_TAG
  }

  function Name(boundary: Boundary): string {
    match boundary
    case Start => "start"
    case End => "end"
  }

  predicate IsIdChar(c: char) { 'A' <= c <= 'Z' || '0' <= c <= '9' }

  predicate IsSelectionId(id: string) { |id| == 8 && forall i :: 0 <= i < |id| ==> IsIdChar(id[i]) }

  predicate IsNameStart(c: char) { 'a' <= c <= 'z' || 'A' <= c <= 'Z' }

  predicate IsNameChar(c: char) { IsNameStart(c) || '0' <= c <= '9' || c == '_' || c == '-' }

  predicate IsName(name: string) {
    0 < |name| <= 64 && IsNameStart(name[0]) && forall i :: 0 <= i < |name| ==> IsNameChar(name[i])
  }

  function RenderKind(syntax: CommentSyntax, kind: Kind, id: string, boundary: Boundary): string {
    var marker := Tag(kind) + id + ":" + Name(boundary);
    match syntax
    case LineComment(opener) => opener + " " + marker
    case BlockComment(opener, closer) => opener + " " + marker + " " + closer
  }

  function Render(syntax: CommentSyntax, id: string, boundary: Boundary): string {
    RenderKind(syntax, Selection, id, boundary)
  }

  /** A comment opener of any language followed by a tag: such a line is reported even when it is
      written in the wrong syntax. Every tag starts with the general one. */
  predicate IsCandidate(trimmed: string) {
    exists i :: 0 <= i < |CANDIDATE_OPENERS| && OpensMarker(CANDIDATE_OPENERS[i], trimmed)
  }

  predicate OpensMarker(opener: string, trimmed: string) {
    opener <= trimmed && ANY_MARKER_TAG <= TrimStart(trimmed[|opener|..])
  }

  function KindOf(trimmed: string): Option<Kind> {
    if Contains(trimmed, MARKER_TAG) then Some(Selection)
    else if Contains(trimmed, ZONE_MARKER_TAG) then Some(Zone)
    else if Contains(trimmed, FLOW_MARKER_TAG) then Some(Flow)
    else None
  }

  /** What follows the first occurrence of a tag. */
  function After(trimmed: string, tag: string): string {
    var offset := match Find(trimmed, tag) case Some(k) => k case None => 0;
    if offset + |tag| <= |trimmed| then trimmed[offset + |tag|..] else ""
  }

  function ReadBoundary(rest: string): Option<Boundary> {
    if ":" <= rest then
      if "start" <= rest[1..] then Some(Start) else if "end" <= rest[1..] then Some(End) else None
    else None
  }

  function ParseMark(language: Option<CommentSyntax>, trimmed: string): Mark {
    var recognized := KindOf(trimmed);
    var kind := if recognized.Some? then recognized.value else Selection;
    var after := After(trimmed, if recognized.Some? then Tag(kind) else ANY_MARKER_TAG);
    var idLength :=
      if kind == Selection then 8 else match Find(after, ":") case Some(k) => k case None => |after|;
    var readable := idLength <= |after|;
    var boundary := if readable then ReadBoundary(after[idLength..]) else None;
    var id :=
      if readable && (if kind == Selection then IsSelectionId(after[..idLength]) else IsName(after[..idLength]))
      then Some(after[..idLength]) else None;
    var problem :=
      if language.None? then Some(Unsupported)
      else if recognized.None? then Some(UnknownType)
      else if id.None? then Some(UnreadableId)
      else if boundary.None? then Some(NoBoundary)
      else if trimmed != RenderKind(language.value, kind, id.value, boundary.value) then Some(Malformed)
      else None;
    Mark(kind, id, boundary, problem)
  }

  /** The mark of a line, given with its ending. */
  function MarkOf(language: Option<CommentSyntax>, segment: string): Option<Mark> {
    var trimmed := Trim(Content(segment));
    if IsCandidate(trimmed) then Some(ParseMark(language, trimmed)) else None
  }

  /** The mark of every line. */
  function LineMarks(language: Option<CommentSyntax>, segments: seq<string>): (marks: seq<Option<Mark>>)
    ensures |marks| == |segments| && forall i :: 0 <= i < |segments| ==> marks[i] == MarkOf(language, segments[i])
  {
    seq(|segments|, i requires 0 <= i < |segments| => MarkOf(language, segments[i]))
  }

  /** The markers of the first n lines. */
  function MarkersUpTo(marks: seq<Option<Mark>>, segments: seq<string>, n: nat): seq<Marker>
    requires n <= |segments| == |marks|
  {
    if n == 0 then []
    else
      MarkersUpTo(marks, segments, n - 1)
      + if marks[n - 1].Some? then [Marker(marks[n - 1].value, n, Offset(segments, n - 1), Offset(segments, n))] else []
  }

  function AllMarkers(language: Option<CommentSyntax>, segments: seq<string>): seq<Marker> {
    MarkersUpTo(LineMarks(language, segments), segments, |segments|)
  }

  function FindMarkers(language: Option<CommentSyntax>, text: string): seq<Marker> {
    if !Contains(text, ANY_MARKER_TAG) then [] else AllMarkers(language, Segments(text))
  }

  // ---------------------------------------------------------------- searching text

  lemma {:induction false} FindOccurrence(s: string, part: string, k: nat)
    requires k + |part| <= |s| && s[k..k + |part|] == part
    ensures Contains(s, part) && Find(s, part).value <= k
    decreases k
  {
    if !(part <= s) {
      assert s[1..][k - 1..k - 1 + |part|] == part;
      FindOccurrence(s[1..], part, k - 1);
    }
  }

  lemma SliceOfDrop<T>(s: seq<T>, k: nat, n: nat)
    requires 1 + k + n <= |s|
    ensures s[k + 1..k + 1 + n] == s[1..][k..k + n]
  {
    var p, q := s[k + 1..k + 1 + n], s[1..][k..k + n];
    forall i | 0 <= i < |p|
      ensures p[i] == q[i]
    {
      assert p[i] == s[k + 1 + i] && q[i] == s[1..][k + i];
    }
  }

  lemma {:induction false} FindIsOccurrence(s: string, part: string)
    ensures Contains(s, part) ==>
              var k := Find(s, part).value;
              k + |part| <= |s| && s[k..k + |part|] == part
  {
    if part <= s {
      assert s[0..|part|] == part;
    } else if s != "" {
      FindIsOccurrence(s[1..], part);
      if Contains(s[1..], part) {
        var k := Find(s[1..], part).value;
        SliceOfDrop(s, k, |part|);
        assert Find(s, part) == Some(k + 1);
        assert s[k + 1..k + 1 + |part|] == part;
      }
    }
  }

  lemma ContainsInside(a: string, b: string, c: string, part: string)
    requires Contains(b, part)
    ensures Contains(a + b + c, part)
  {
    FindIsOccurrence(b, part);
    var k := Find(b, part).value;
    assert (a + b + c)[|a| + k..|a| + k + |part|] == part;
    FindOccurrence(a + b + c, part, |a| + k);
  }

  lemma SpaceInFront(s: string, rest: string, t: string)
    requires s != "" && IsSpace(s[0]) && rest == s[1..] && |t| <= |rest|
    requires rest[|rest| - |t|..] == t && AllSpace(rest[..|rest| - |t|])
    ensures s[|s| - |t|..] == t && AllSpace(s[..|s| - |t|])
  {
    forall i | 0 <= i < |s| - |t|
      ensures IsSpace(s[i])
    {
      if i > 0 { assert rest[..|rest| - |t|][i - 1] == s[i]; }
    }
  }

  lemma {:induction false} TrimStartSplits(s: string)
    ensures |TrimStart(s)| <= |s| && s[|s| - |TrimStart(s)|..] == TrimStart(s)
    ensures AllSpace(s[..|s| - |TrimStart(s)|])
    ensures TrimStart(s) == "" || !IsSpace(TrimStart(s)[0])
  {
    if s != "" && IsSpace(s[0]) {
      TrimStartSplits(s[1..]);
      SpaceInFront(s, s[1..], TrimStart(s[1..]));
    }
  }

  lemma {:induction false} TrimEndSplits(s: string)
    ensures |TrimEnd(s)| <= |s| && s[..|TrimEnd(s)|] == TrimEnd(s)
    ensures AllSpace(s[|TrimEnd(s)|..])
    ensures TrimEnd(s) == "" || !IsSpace(TrimEnd(s)[|TrimEnd(s)| - 1])
  {
    if s != "" && IsSpace(s[|s| - 1]) {
      var p := s[..|s| - 1];
      TrimEndSplits(p);
      var n := |TrimEnd(p)|;
      assert s[..n] == p[..n] && s[n..] == p[n..] + [s[|s| - 1]];
    }
  }

  /** Surrounding whitespace does not matter. */
  lemma {:induction false} TrimPadded(before: string, m: string, after: string)
    requires AllSpace(before) && AllSpace(after)
    requires m != "" && !IsSpace(m[0]) && !IsSpace(m[|m| - 1])
    ensures Trim(before + m + after) == m
    decreases |before| + |after|
  {
    if before != "" {
      assert (before + m + after)[1..] == before[1..] + m + after;
      TrimPadded(before[1..], m, after);
    } else if after != "" {
      assert before + m + after == m + after;
      assert (m + after)[..|m + after| - 1] == before + m + after[..|after| - 1];
      TrimPadded(before, m, after[..|after| - 1]);
      assert TrimStart(m + after) == m + after;
    } else {
      assert before + m + after == m;
    }
  }

  /** Dropping whitespace at the end does not change the trimmed text. */
  lemma TrimDropsEnd(s: string, after: string)
    requires AllSpace(after)
    ensures Trim(s + after) == Trim(s)
  {
    var before, trailing := TrimSplits(s);
    var m := Trim(s);
    if m == "" {
      AllSpaceTrims(s + after);
    } else {
      TrimStartSplits(s);
      TrimEndSplits(TrimStart(s));
      assert s + after == before + m + (trailing + after);
      TrimPadded(before, m, trailing + after);
    }
  }

  lemma {:induction false} AllSpaceTrims(s: string)
    requires AllSpace(s)
    ensures TrimStart(s) == ""
  {
    if s != "" { AllSpaceTrims(s[1..]); }
  }

  lemma CandidateHoldsTag(trimmed: string)
    requires IsCandidate(trimmed)
    ensures Contains(trimmed, ANY_MARKER_TAG)
  {
    hide TrimStart;
    var i :| 0 <= i < |CANDIDATE_OPENERS| && OpensMarker(CANDIDATE_OPENERS[i], trimmed);
    var opener := CANDIDATE_OPENERS[i];
    var rest := trimmed[|opener|..];
    TrimStartSplits(rest);
    var tag := TrimStart(rest);
    FindOccurrence(tag, ANY_MARKER_TAG, 0);
    assert trimmed == opener + rest[..|rest| - |tag|] + tag + "";
    ContainsInside(opener + rest[..|rest| - |tag|], tag, "", ANY_MARKER_TAG);
  }

  /** The pieces of whitespace that trimming removes. */
  lemma TrimSplits(s: string) returns (lead: string, trail: string)
    ensures s == lead + Trim(s) + trail && AllSpace(lead) && AllSpace(trail)
  {
    TrimStartSplits(s);
    TrimEndSplits(TrimStart(s));
    lead := s[..|s| - |TrimStart(s)|];
    trail := TrimStart(s)[|Trim(s)|..];
  }

  lemma MarkHoldsTag(language: Option<CommentSyntax>, segment: string)
    requires MarkOf(language, segment).Some?
    ensures Contains(Trim(Content(segment)), ANY_MARKER_TAG)
  {
    hide Trim, Contains, Find;
    CandidateHoldsTag(Trim(Content(segment)));
  }

  /** A line that is a candidate contains the general tag, so the early return of FindMarkers skips
      no marker. */
  lemma CandidateContainsTag(language: Option<CommentSyntax>, segment: string)
    requires MarkOf(language, segment).Some?
    ensures Contains(segment, ANY_MARKER_TAG)
  {
    hide Trim, MarkOf, Contains, Find;
    var content := Content(segment);
    var lead, trail := TrimSplits(content);
    MarkHoldsTag(language, segment);
    ContainsInside(lead, Trim(content), trail, ANY_MARKER_TAG);
    ContainsInside("", content, segment[|content|..], ANY_MARKER_TAG);
    assert segment == "" + content + segment[|content|..];
  }

  lemma JoinAround(segments: seq<string>, i: nat)
    requires i < |segments|
    ensures Join(segments) == Join(segments[..i]) + segments[i] + Join(segments[i + 1..])
  {
    assert segments == segments[..i] + segments[i..];
    JoinAppend(segments[..i], segments[i..]);
    assert segments[i..][1..] == segments[i + 1..];
  }

  lemma NoTagNoMark(language: Option<CommentSyntax>, segments: seq<string>, i: nat)
    requires i < |segments| && !Contains(Join(segments), ANY_MARKER_TAG)
    ensures MarkOf(language, segments[i]) == None
  {
    if MarkOf(language, segments[i]).Some? {
      CandidateContainsTag(language, segments[i]);
      JoinAround(segments, i);
      ContainsInside(Join(segments[..i]), segments[i], Join(segments[i + 1..]), ANY_MARKER_TAG);
    }
  }

  lemma {:induction false} NoMarksNoMarkers(marks: seq<Option<Mark>>, segments: seq<string>, n: nat)
    requires n <= |segments| == |marks| && forall i :: 0 <= i < n ==> marks[i] == None
    ensures MarkersUpTo(marks, segments, n) == []
  {
    if n > 0 { NoMarksNoMarkers(marks, segments, n - 1); }
  }

  lemma FindMarkersReadsEveryLine(language: Option<CommentSyntax>, text: string)
    ensures FindMarkers(language, text) == AllMarkers(language, Segments(text))
  {
    SegmentsJoin(text);
    var segments := Segments(text);
    if !Contains(text, ANY_MARKER_TAG) {
      forall i | 0 <= i < |segments|
        ensures MarkOf(language, segments[i]) == None
      {
        NoTagNoMark(language, segments, i);
      }
      NoMarksNoMarkers(LineMarks(language, segments), segments, |segments|);
    }
  }

  // ---------------------------------------------------------------- rendered markers read back

  /** The first occurrence of a tag whose first character does not occur before it. */
  lemma {:induction false} FindFirst(s: string, part: string, k: nat)
    requires part != "" && k + |part| <= |s| && s[k..k + |part|] == part
    requires forall i :: 0 <= i < k ==> s[i] != part[0]
    ensures Find(s, part) == Some(k)
    decreases k
  {
    if k == 0 {
      assert s[..|part|] == part;
    } else {
      assert s[0] != part[0];
      assert s[1..][k - 1..k - 1 + |part|] == part;
      FindFirst(s[1..], part, k - 1);
    }
  }

  function Closer(syntax: CommentSyntax): string {
    if syntax.LineComment? then "" else " " + syntax.closer
  }

  lemma SyntaxFacts(syntax: CommentSyntax)
    requires IsSyntax(syntax)
    ensures syntax.opener in CANDIDATE_OPENERS && syntax.opener != ""
    ensures forall c :: c in syntax.opener ==> !IsSpace(c) && c != '@'
    ensures forall c :: c in Closer(syntax) ==> c != '\n' && c != '@'
    ensures var closer := Closer(syntax);
            closer == "" || (closer[0] == ' ' && !IsSpace(closer[|closer| - 1]))
  {
    assert CANDIDATE_OPENERS[0] == "<!--" && CANDIDATE_OPENERS[1] == "//" && CANDIDATE_OPENERS[2] == "/*";
    assert CANDIDATE_OPENERS[3] == "#" && CANDIDATE_OPENERS[4] == "--" && CANDIDATE_OPENERS[5] == ";";
    assert CANDIDATE_OPENERS[6] == "%" && CANDIDATE_OPENERS[7] == "'";
  }

  function Body(syntax: CommentSyntax, boundary: Boundary): string {
    ":" + Name(boundary) + Closer(syntax)
  }

  lemma BodyFacts(syntax: CommentSyntax, boundary: Boundary)
    requires IsSyntax(syntax)
    ensures var body := Body(syntax, boundary);
            body != "" && !IsSpace(body[|body| - 1]) && (forall c :: c in body ==> c != '\n' && c != '@')
            && ReadBoundary(body) == Some(boundary) && body[0] == ':'
  {
    hide Closer, IsSyntax;
    SyntaxFacts(syntax);
    var body := Body(syntax, boundary);
    assert body[1..] == Name(boundary) + Closer(syntax);
    assert Name(boundary) <= body[1..];
    assert "start"[0] == 's' && "end"[0] == 'e';
    if Closer(syntax) != "" {
      assert body[|body| - 1] == Closer(syntax)[|Closer(syntax)| - 1];
    }
  }

  lemma RenderedShape(syntax: CommentSyntax, kind: Kind, id: string, boundary: Boundary)
    ensures RenderKind(syntax, kind, id, boundary)
            == syntax.opener + " " + (Tag(kind) + (id + Body(syntax, boundary)))
  {
    hide Name, Tag;
    match syntax
    case LineComment(opener) =>
      Reassociate(opener + " ", Tag(kind), id, ":", Name(boundary), "");
    case BlockComment(opener, closer) =>
      Reassociate(opener + " ", Tag(kind), id, ":", Name(boundary), " " + closer);
      assert opener + " " + (Tag(kind) + id + ":" + Name(boundary)) + " " + closer
             == opener + " " + (Tag(kind) + id + ":" + Name(boundary)) + (" " + closer);
  }

  lemma Reassociate(a: string, b: string, c: string, d: string, e: string, f: string)
    ensures a + (b + c + d + e) + f == a + (b + (c + (d + e + f)))
    ensures f == "" ==> a + (b + c + d + e) == a + (b + (c + (d + e + f)))
  {
    assert a + (b + c + d + e) + f == a + (b + (c + (d + e + f)));
    if f == "" { assert a + (b + c + d + e) + f == a + (b + c + d + e); }
  }

  predicate IsOneLine(s: string) { forall i :: 0 <= i < |s| ==> s[i] != '\n' }

  lemma NoNewlines(s: string)
    requires forall c :: c in s ==> c != '\n'
    ensures IsOneLine(s)
  {
    forall i | 0 <= i < |s|
      ensures s[i] != '\n'
    {
      assert s[i] in s;
    }
  }

  lemma OneLineConcat(a: string, b: string)
    requires IsOneLine(a) && IsOneLine(b)
    ensures IsOneLine(a + b)
  {
  }

  lemma RenderedFacts(syntax: CommentSyntax, id: string, boundary: Boundary)
    requires IsSyntax(syntax) && IsSelectionId(id)
    ensures var m := Render(syntax, id, boundary);
            m != "" && !IsSpace(m[0]) && !IsSpace(m[|m| - 1]) && IsOneLine(m)
  {
    hide RenderKind, Body, IsSyntax;
    SyntaxFacts(syntax);
    BodyFacts(syntax, boundary);
    RenderedShape(syntax, Selection, id, boundary);
    NoNewlines(syntax.opener);
    NoNewlines(id);
    NoNewlines(Body(syntax, boundary));
    assert IsOneLine(MARKER_TAG);
    FourParts(syntax.opener, MARKER_TAG, id, Body(syntax, boundary));
  }

  lemma FourParts(a: string, b: string, c: string, d: string)
    requires a != "" && d != "" && !IsSpace(a[0]) && !IsSpace(d[|d| - 1])
    requires IsOneLine(a) && IsOneLine(b) && IsOneLine(c) && IsOneLine(d)
    ensures var m := a + " " + (b + (c + d));
            m != "" && !IsSpace(m[0]) && !IsSpace(m[|m| - 1]) && IsOneLine(m)
  {
    OneLineConcat(b, c + d);
    OneLineConcat(a + " ", b + (c + d));
    LastOfConcat(b + c, d);
    assert b + (c + d) == b + c + d;
    LastOfConcat(a + " ", b + c + d);
  }

  lemma LastOfConcat(a: string, b: string)
    requires b != ""
    ensures (a != "" ==> (a + b)[0] == a[0]) && (a + b)[|a + b| - 1] == b[|b| - 1]
  {
  }

  /** A comment that opens with a tag is a candidate, whatever follows. */
  lemma TaggedIsCandidate(syntax: CommentSyntax, kind: Kind, rest: string)
    requires IsSyntax(syntax)
    ensures IsCandidate(syntax.opener + " " + (Tag(kind) + rest))
  {
    SyntaxFacts(syntax);
    var tail := Tag(kind) + rest;
    var m := syntax.opener + " " + tail;
    assert m[|syntax.opener|..] == " " + tail;
    assert tail[0] == '@';
    assert TrimStart(" " + tail) == tail by {
      assert (" " + tail)[1..] == tail;
    }
    assert ANY_MARKER_TAG <= Tag(kind) <= tail;
    assert OpensMarker(syntax.opener, m);
    var i :| 0 <= i < |CANDIDATE_OPENERS| && CANDIDATE_OPENERS[i] == syntax.opener;
  }

  /** What follows a tag whose first character does not occur before it. */
  lemma AfterFirst(before: string, tag: string, rest: string)
    requires tag != "" && forall i :: 0 <= i < |before| ==> before[i] != tag[0]
    ensures Contains(before + tag + rest, tag) && After(before + tag + rest, tag) == rest
  {
    var s := before + tag + rest;
    assert s[|before|..|before| + |tag|] == tag;
    FindFirst(s, tag, |before|);
  }

  /** In a text with one at sign, no tag occurs but the one that starts there. */
  lemma OnlyTag(before: string, tag: string, rest: string, other: string)
    requires tag != "" && other != "" && other[0] == '@'
    requires (forall c :: c in before ==> c != '@') && (forall c :: c in tag[1..] + rest ==> c != '@')
    ensures Contains(before + (tag + rest), other) ==> other <= tag + rest
  {
    var s, tail := before + (tag + rest), tag + rest;
    FindIsOccurrence(s, other);
    OneAt(before, tag, rest);
    if Contains(s, other) {
      var k := Find(s, other).value;
      assert s[k..k + |other|][0] == '@';
      assert k == |before| && s[k..] == tail;
      assert s[k..k + |other|] == s[k..][..|other|];
    }
  }

  lemma OneAt(before: string, tag: string, rest: string)
    requires tag != "" && (forall c :: c in before ==> c != '@') && (forall c :: c in tag[1..] + rest ==> c != '@')
    ensures var s := before + (tag + rest); forall i :: 0 <= i < |s| && i != |before| ==> s[i] != '@'
  {
    var s, more := before + (tag + rest), tag[1..] + rest;
    NoneIs(before, '@');
    NoneIs(more, '@');
    assert forall i :: 0 <= i < |more| ==> s[|before| + 1 + i] == more[i];
    forall i | 0 <= i < |s| && i != |before|
      ensures s[i] != '@'
    {
      if |before| < i { assert s[|before| + 1 + (i - |before| - 1)] == more[i - |before| - 1]; }
    }
  }

  lemma TagsDiffer(rest: string)
    ensures !(MARKER_TAG <= ZONE_MARKER_TAG + rest) && !(MARKER_TAG <= FLOW_MARKER_TAG + rest)
    ensures !(ZONE_MARKER_TAG <= FLOW_MARKER_TAG + rest)
  {
    assert MARKER_TAG[7] == 's' && ZONE_MARKER_TAG[7] == 'z' && FLOW_MARKER_TAG[7] == 'f';
    assert (ZONE_MARKER_TAG + rest)[7] == 'z' && (FLOW_MARKER_TAG + rest)[7] == 'f';
  }

  lemma NoneIs(s: string, c: char)
    requires forall d :: d in s ==> d != c
    ensures forall i :: 0 <= i < |s| ==> s[i] != c
  {
    assert forall i :: 0 <= i < |s| ==> s[i] in s;
  }

  lemma OneAtSign(kind: Kind)
    ensures Tag(kind) != "" && Tag(kind)[0] == '@' && forall c :: c in Tag(kind)[1..] ==> c != '@'
  {
    assert MARKER_TAG[1..] == "crane:selection:" && ZONE_MARKER_TAG[1..] == "crane:zone:";
    assert FLOW_MARKER_TAG[1..] == "crane:flow:";
  }

  /** The kind of a marker comment. */
  lemma TaggedKind(opener: string, kind: Kind, rest: string)
    requires (forall c :: c in opener ==> c != '@') && (forall c :: c in rest ==> c != '@')
    ensures KindOf(opener + " " + (Tag(kind) + rest)) == Some(kind)
    ensures After(opener + " " + (Tag(kind) + rest), Tag(kind)) == rest
  {
    hide Find;
    var before, tag := opener + " ", Tag(kind);
    OneAtSign(kind);
    NoneIs(before, '@');
    assert before + (tag + rest) == before + tag + rest;
    AfterFirst(before, tag, rest);
    OnlyTag(before, tag, rest, MARKER_TAG);
    OnlyTag(before, tag, rest, ZONE_MARKER_TAG);
    TagsDiffer(rest);
  }

  /** The identifier of a kind of marker. */
  predicate IsIdOf(kind: Kind, id: string) { if kind == Selection then IsSelectionId(id) else IsName(id) }

  lemma IdIsPlain(kind: Kind, id: string)
    requires IsIdOf(kind, id)
    ensures (forall c :: c in id ==> c != '@') && forall i :: 0 <= i < |id| ==> id[i] != ':'
  {
  }

  /** What a marker comment with a readable boundary says: it is malformed exactly when it is not the rendered one. */
  lemma TaggedParses(syntax: CommentSyntax, kind: Kind, id: string, body: string, boundary: Boundary)
    requires IsSyntax(syntax) && IsIdOf(kind, id)
    requires body != "" && body[0] == ':' && ReadBoundary(body) == Some(boundary) && forall c :: c in body ==> c != '@'
    ensures var m := syntax.opener + " " + (Tag(kind) + (id + body));
            ParseMark(Some(syntax), m)
            == Mark(kind, Some(id), Some(boundary),
                    if m == RenderKind(syntax, kind, id, boundary) then None else Some(Malformed))
  {
    hide ReadBoundary, KindOf, After, RenderKind;
    SyntaxFacts(syntax);
    IdIsPlain(kind, id);
    TaggedKind(syntax.opener, kind, id + body);
    assert (id + body)[..|id|] == id && (id + body)[|id|..] == body;
    if kind != Selection {
      assert (id + body)[|id|..|id| + 1] == ":";
      assert forall i :: 0 <= i < |id| ==> (id + body)[i] == id[i];
      FindFirst(id + body, ":", |id|);
    }
  }

  /** A rendered marker of any kind is read back as itself. */
  lemma RenderedParses(syntax: CommentSyntax, kind: Kind, id: string, boundary: Boundary)
    requires IsSyntax(syntax) && IsIdOf(kind, id)
    ensures IsCandidate(RenderKind(syntax, kind, id, boundary))
    ensures ParseMark(Some(syntax), RenderKind(syntax, kind, id, boundary))
            == Mark(kind, Some(id), Some(boundary), None)
  {
    hide Body, ReadBoundary, ParseMark, RenderKind;
    BodyFacts(syntax, boundary);
    RenderedShape(syntax, kind, id, boundary);
    TaggedIsCandidate(syntax, kind, id + Body(syntax, boundary));
    TaggedParses(syntax, kind, id, Body(syntax, boundary), boundary);
  }

  /** A line is a well-formed marker exactly when its trimmed text is a rendered one: nothing else on it, in the syntax
      of its file, with an identifier of its kind. */
  lemma LineIsMarker(syntax: CommentSyntax, segment: string, kind: Kind, id: string, boundary: Boundary)
    requires IsSyntax(syntax) && IsIdOf(kind, id)
    ensures MarkOf(Some(syntax), segment) == Some(Mark(kind, Some(id), Some(boundary), None))
            <==> Trim(Content(segment)) == RenderKind(syntax, kind, id, boundary)
  {
    hide RenderKind, Content, Trim, IsCandidate;
    RenderedParses(syntax, kind, id, boundary);
  }

  /** Every other candidate is broken. */
  lemma OthersAreBroken(language: Option<CommentSyntax>, segment: string)
    requires MarkOf(language, segment).Some? && MarkOf(language, segment).value.problem.None?
    ensures var mark := MarkOf(language, segment).value;
            && language.Some? && mark.id.Some? && mark.boundary.Some? && IsIdOf(mark.kind, mark.id.value)
            && Trim(Content(segment)) == RenderKind(language.value, mark.kind, mark.id.value, mark.boundary.value)
  {
    hide RenderKind, Content, Trim, IsCandidate, ReadBoundary, KindOf, After;
  }

  /** The text is a comment opener of some language, whitespace, and the tag of every marker. */
  predicate IsTagged(trimmed: string, opener: string, gap: string, rest: string) {
    && opener in ["<!--", "//", "/*", "#", "--", ";", "%", "'"] && AllSpace(gap)
    && trimmed == opener + gap + ("@crane:" + rest)
  }

  /** The lines that are reported: those, and no others. */
  lemma CandidateMeans(trimmed: string)
    ensures IsCandidate(trimmed) <==> exists opener, gap, rest :: IsTagged(trimmed, opener, gap, rest)
  {
    hide IsTagged, OpensMarker;
    if IsCandidate(trimmed) {
      var i :| 0 <= i < |CANDIDATE_OPENERS| && OpensMarker(CANDIDATE_OPENERS[i], trimmed);
      var gap, rest := OpenedIsTagged(trimmed, CANDIDATE_OPENERS[i]);
    }
    if opener, gap, rest :| IsTagged(trimmed, opener, gap, rest) {
      TaggedIsOpened(trimmed, opener, gap, rest);
    }
  }

  lemma OpenedIsTagged(trimmed: string, opener: string) returns (gap: string, rest: string)
    requires opener in CANDIDATE_OPENERS && OpensMarker(opener, trimmed)
    ensures IsTagged(trimmed, opener, gap, rest)
  {
    hide TrimStart;
    var behind := trimmed[|opener|..];
    TrimStartSplits(behind);
    var tag := TrimStart(behind);
    gap, rest := behind[..|behind| - |tag|], tag[|ANY_MARKER_TAG|..];
    assert tag == "@crane:" + rest && behind == gap + tag;
    assert trimmed == opener + gap + ("@crane:" + rest);
  }

  lemma TaggedIsOpened(trimmed: string, opener: string, gap: string, rest: string)
    requires IsTagged(trimmed, opener, gap, rest)
    ensures opener in CANDIDATE_OPENERS && OpensMarker(opener, trimmed)
  {
    hide TrimStart;
    var tag := "@crane:" + rest;
    assert trimmed[|opener|..] == gap + tag && tag[0] == '@';
    TrimsTo(gap, tag);
    assert ANY_MARKER_TAG <= tag;
  }

  lemma {:induction false} TrimsTo(gap: string, rest: string)
    requires AllSpace(gap) && (rest == "" || !IsSpace(rest[0]))
    ensures TrimStart(gap + rest) == rest
  {
    if gap != "" {
      assert (gap + rest)[1..] == gap[1..] + rest;
      TrimsTo(gap[1..], rest);
    } else {
      assert gap + rest == rest;
    }
  }
}
