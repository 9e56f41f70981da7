// src/selection/registry.rs: the map of selections to their origin digests, as text.
module SelectionMap {
  import opened Anchors
  import Changes
  import Splitting
  import Digests
  import Markers

  const TITLE :=
    "# Crane selection map: "
    + "8-character selection id -> "
    + "SHA-512 "
    + "origin-binding digest"

  const NOTICE :=
    "# Generated by Crane "
    + "and verified against "
    + "the signed registry; "
    + "AI agents cannot modify it."

  const HEADER: seq<string> := [TITLE, NOTICE]

  datatype Pair = Pair(id: string, digest: string)

  predicate IsPair(pair: Pair) { Markers.IsSelectionId(pair.id) && Digests.IsHexDigest(pair.digest) }

  /** Lexicographic order of lines. */
  predicate AtMost(a: string, b: string) {
    a == "" || (b != "" && (a[0] < b[0] || (a[0] == b[0] && AtMost(a[1..], b[1..]))))
  }

  function Inserted(lines: seq<string>, line: string): seq<string> {
    if lines == [] || AtMost(line, lines[0]) then [line] + lines else [lines[0]] + Inserted(lines[1..], line)
  }

  function Sorted(lines: seq<string>): seq<string> {
    if lines == [] then [] else Inserted(Sorted(lines[1..]), lines[0])
  }

  function LineOf(pair: Pair): string { pair.id + " " + pair.digest }

  function LinesFor(pairs: seq<Pair>): seq<string> {
    if pairs == [] then [] else [LineOf(pairs[0])] + LinesFor(pairs[1..])
  }

  function Closed(lines: seq<string>): seq<string> {
    if lines == [] then [] else [lines[0] + "\n"] + Closed(lines[1..])
  }

  /** The text of comments followed by lines. */
  function MapText(comments: seq<string>, lines: seq<string>): string { Join(Closed(comments + lines)) }

  method RenderMap(comments: seq<string>, pairs: seq<Pair>) returns (text: string)
    ensures text == MapText(comments, Sorted(LinesFor(pairs)))
  {
    var lines := comments + Sorted(LinesFor(pairs));
    text := "";
    for i := 0 to |lines|
      invariant text == Join(Closed(lines[..i]))
    {
      ClosedGrows(lines, i);
      text := text + lines[i] + "\n";
    }
    assert lines[..|lines|] == lines;
  }

  lemma ClosedGrows(lines: seq<string>, i: nat)
    requires i < |lines|
    ensures Join(Closed(lines[..i + 1])) == Join(Closed(lines[..i])) + lines[i] + "\n"
  {
    var line := lines[i] + "\n";
    assert lines[..i + 1] == lines[..i] + [lines[i]];
    ClosedJoins(lines[..i], [lines[i]]);
    assert Closed([lines[i]]) == [line];
    JoinAppend(Closed(lines[..i]), [line]);
    assert Join([line]) == line;
  }

  lemma {:induction false} ClosedJoins(a: seq<string>, b: seq<string>)
    ensures Closed(a + b) == Closed(a) + Closed(b)
  {
    if a == [] {
      assert a + b == b;
    } else {
      ClosedJoins(a[1..], b);
      assert (a + b)[1..] == a[1..] + b;
    }
  }

  // ---------------------------------------------------------------- parsing

  predicate IsSkipped(line: string) { Trim(line) == "" || "#" <= TrimStart(line) }

  function ReadPair(line: string): Result<Pair> {
    var words := Changes.Words(line);
    if |words| == 2 && IsPair(Pair(words[0], words[1])) then Ok(Pair(words[0], words[1])) else Err
  }

  function ReadLines(segments: seq<string>): Result<seq<Pair>> {
    if segments == [] then Ok([])
    else
      var line := Content(segments[0]);
      var rest := ReadLines(segments[1..]);
      if IsSkipped(line) then rest
      else if ReadPair(line).Err? || rest.Err? then Err
      else Ok([ReadPair(line).value] + rest.value)
  }

  function ParseMap(text: string): Result<seq<Pair>> { ReadLines(Segments(text)) }

  // ---------------------------------------------------------------- which lines are pairs

  /** A line is an identifier and a digest with whitespace around them. */
  ghost predicate IsPairLine(line: string, pair: Pair) {
    IsPair(pair)
    && exists before, gap, after :: IsSpacedPair(line, pair, before, gap, after)
  }

  predicate IsSpacedPair(line: string, pair: Pair, before: string, gap: string, after: string) {
    && AllSpace(before) && AllSpace(gap) && AllSpace(after) && gap != ""
    && line == before + pair.id + gap + pair.digest + after
  }

  lemma PairMeans(line: string, pair: Pair)
    ensures ReadPair(line) == Ok(pair) <==> IsPairLine(line, pair)
  {
    hide Changes.Words, IsPair;
    var words := [pair.id, pair.digest];
    if ReadPair(line) == Ok(pair) {
      var gaps := Splitting.SpreadOfWords(line);
      assert Changes.Words(line) == words;
      TwoSpread(words, gaps);
      assert IsSpacedPair(line, pair, gaps[0], gaps[1], gaps[2]);
    }
    if IsPairLine(line, pair) {
      var before, gap, after :| IsSpacedPair(line, pair, before, gap, after);
      var gaps := [before, gap, after];
      TwoSpread(words, gaps);
      PairIsWords(pair);
      Splitting.WordsOfSpread(words, gaps);
    }
  }

  lemma TwoSpread(words: seq<string>, gaps: seq<string>)
    requires |words| == 2 && |gaps| == 3
    ensures Splitting.Spread(words, gaps) == gaps[0] + words[0] + gaps[1] + words[1] + gaps[2]
  {
    assert words[1..][1..] == [] && gaps[1..][1..] == [gaps[2]];
    assert Splitting.Spread([], [gaps[2]]) == gaps[2];
    assert Splitting.Spread(words[1..], gaps[1..]) == gaps[1] + words[1] + gaps[2];
  }

  lemma PairIsWords(pair: Pair)
    requires IsPair(pair)
    ensures Splitting.IsWord(pair.id) && Splitting.IsWord(pair.digest)
  {
  }

  ghost predicate IsBadLine(segment: string) {
    !IsSkipped(Content(segment)) && forall pair :: !IsPairLine(Content(segment), pair)
  }

  ghost predicate HasBadLine(segments: seq<string>) {
    exists i :: 0 <= i < |segments| && IsBadLine(segments[i])
  }

  /** A map is malformed exactly when some line of it is no pair, blank or a comment. */
  lemma MalformedMeans(text: string)
    ensures ParseMap(text).Err? <==> HasBadLine(Segments(text))
  {
    BadLineMeans(Segments(text));
  }

  lemma {:induction false} BadLineMeans(segments: seq<string>)
    ensures ReadLines(segments).Err? <==> HasBadLine(segments)
  {
    if segments != [] {
      hide IsBadLine, ReadPair, IsSkipped, Content;
      var rest := segments[1..];
      BadLineMeans(rest);
      LineIsBad(segments[0]);
      if i :| 0 <= i < |rest| && IsBadLine(rest[i]) { assert IsBadLine(segments[i + 1]); }
      if i :| 0 <= i < |segments| && IsBadLine(segments[i]) { assert i > 0 ==> rest[i - 1] == segments[i]; }
    }
  }

  lemma LineIsBad(segment: string)
    ensures IsBadLine(segment) <==> !IsSkipped(Content(segment)) && ReadPair(Content(segment)).Err?
  {
    hide IsPairLine, ReadPair, IsSkipped, Content;
    var line := Content(segment);
    forall pair
      ensures ReadPair(line) == Ok(pair) <==> IsPairLine(line, pair)
    {
      PairMeans(line, pair);
    }
    if ReadPair(line).Ok? { assert IsPairLine(line, ReadPair(line).value); }
  }

  // ---------------------------------------------------------------- the round trip

  lemma PairReads(pair: Pair)
    requires IsPair(pair)
    ensures ReadPair(LineOf(pair)) == Ok(pair) && !IsSkipped(LineOf(pair)) && '\n' !in LineOf(pair)
    ensures !IsSpace(LineOf(pair)[|LineOf(pair)| - 1])
  {
    hide Changes.WordEnd, Changes.Position, AllSpace;
    var line, rest := LineOf(pair), " " + pair.digest;
    assert line == pair.id + rest;
    Splitting.WordEndIs(pair.id, rest);
    assert line[..8] == pair.id && line[8..] == rest;
    assert TrimStart(rest) == pair.digest by { assert rest[1..] == pair.digest; }
    Splitting.WordEndIs(pair.digest, "");
    assert pair.digest + "" == pair.digest && pair.digest[..128] == pair.digest && pair.digest[128..] == "";
    assert Changes.Words("") == [];
    assert Changes.Words(rest) == [pair.digest];
    assert Changes.Words(line) == [pair.id] + [pair.digest];
    Markers.TrimEndSplits(line);
  }

  lemma ContentOfLine(line: string)
    requires line == "" || !IsSpace(line[|line| - 1])
    ensures Content(line + "\n") == line
  {
    assert (line + "\n")[..|line|] == line;
  }

  lemma PairLineReads(pair: Pair, rest: seq<string>, pairs: seq<Pair>)
    requires IsPair(pair) && ReadLines(rest) == Ok(pairs)
    ensures ReadLines([LineOf(pair) + "\n"] + rest) == Ok([pair] + pairs)
  {
    var line := LineOf(pair);
    PairReads(pair);
    ContentOfLine(line);
    assert ([line + "\n"] + rest)[1..] == rest;
  }

  lemma {:induction false} LinesRead(pairs: seq<Pair>)
    requires forall i :: 0 <= i < |pairs| ==> IsPair(pairs[i])
    ensures ReadLines(Closed(LinesFor(pairs))) == Ok(pairs)
  {
    if pairs != [] {
      var lines := LinesFor(pairs[1..]);
      LinesRead(pairs[1..]);
      PairLineReads(pairs[0], Closed(lines), pairs[1..]);
      assert LinesFor(pairs)[1..] == lines && LinesFor(pairs)[0] == LineOf(pairs[0]);
      assert Closed(LinesFor(pairs)) == [LineOf(pairs[0]) + "\n"] + Closed(lines);
      assert pairs == [pairs[0]] + pairs[1..];
    }
  }

  /** Sorting the lines of pairs gives the lines of the same pairs in another order. */
  lemma {:induction false} InsertedPairs(pairs: seq<Pair>, pair: Pair) returns (more: seq<Pair>)
    ensures Inserted(LinesFor(pairs), LineOf(pair)) == LinesFor(more)
            && multiset(more) == multiset(pairs) + multiset{pair}
  {
    if pairs == [] || AtMost(LineOf(pair), LineOf(pairs[0])) {
      more := [pair] + pairs;
      assert more[1..] == pairs;
    } else {
      var rest := InsertedPairs(pairs[1..], pair);
      more := [pairs[0]] + rest;
      assert more[1..] == rest && LinesFor(pairs)[1..] == LinesFor(pairs[1..]);
      assert pairs == [pairs[0]] + pairs[1..];
    }
  }

  lemma FirstLine(pairs: seq<Pair>)
    requires pairs != []
    ensures LinesFor(pairs) != [] && LinesFor(pairs)[0] == LineOf(pairs[0])
            && LinesFor(pairs)[1..] == LinesFor(pairs[1..])
  {
  }

  lemma FirstCounts<T>(items: seq<T>)
    requires items != []
    ensures multiset(items) == multiset(items[1..]) + multiset{items[0]}
  {
    assert items == [items[0]] + items[1..];
  }

  lemma {:induction false} SortedPairs(pairs: seq<Pair>) returns (sorted: seq<Pair>)
    ensures Sorted(LinesFor(pairs)) == LinesFor(sorted) && multiset(sorted) == multiset(pairs)
  {
    if pairs == [] {
      sorted := [];
    } else {
      var rest := SortedPairs(pairs[1..]);
      FirstLine(pairs);
      sorted := InsertedPairs(rest, pairs[0]);
      FirstCounts(pairs);
    }
  }

  lemma {:induction false} ClosedAreLines(lines: seq<string>)
    requires forall i :: 0 <= i < |lines| ==> '\n' !in lines[i]
    ensures forall line :: line in Closed(lines) ==> IsSegment(line) && IsClosed(line)
  {
    if lines != [] {
      ClosedAreLines(lines[1..]);
      assert forall i :: 0 <= i < |lines[0]| ==> (lines[0] + "\n")[i] == lines[0][i];
    }
  }

  lemma {:induction false} PairLines(pairs: seq<Pair>)
    requires forall i :: 0 <= i < |pairs| ==> IsPair(pairs[i])
    ensures forall i :: 0 <= i < |LinesFor(pairs)| ==> '\n' !in LinesFor(pairs)[i]
  {
    if pairs != [] {
      PairReads(pairs[0]);
      PairLines(pairs[1..]);
    }
  }

  predicate IsComment(line: string) { '\n' !in line && "#" <= line && !IsSpace(line[|line| - 1]) }

  lemma PiecesAreComment(a: string, b: string, c: string, d: string)
    requires a != "" && a[0] == '#' && d != "" && !IsSpace(d[|d| - 1])
    requires '\n' !in a && '\n' !in b && '\n' !in c && '\n' !in d
    ensures IsComment(a + b + c + d)
  {
  }

  lemma TitleIsComment()
    ensures IsComment(TITLE)
  {
    hide IsComment;
    var a, b := "# Crane selection map: ", "8-character selection id -> ";
    var c, d := "SHA-512 ", "origin-binding digest";
    assert a[0] == '#' && d[|d| - 1] == 't';
    assert '\n' !in a && '\n' !in b && '\n' !in c && '\n' !in d;
    PiecesAreComment(a, b, c, d);
  }

  lemma NoticeIsComment()
    ensures IsComment(NOTICE)
  {
    hide IsComment;
    var a, b := "# Generated by Crane ", "and verified against ";
    var c, d := "the signed registry; ", "AI agents cannot modify it.";
    assert a[0] == '#' && d[|d| - 1] == '.';
    assert '\n' !in a && '\n' !in b && '\n' !in c && '\n' !in d;
    PiecesAreComment(a, b, c, d);
  }

  /** The header holds nothing but comments. */
  lemma HeaderIsComments()
    ensures forall i :: 0 <= i < |HEADER| ==> IsComment(HEADER[i])
  {
    TitleIsComment();
    NoticeIsComment();
  }

  lemma CommentIsSkipped(line: string, rest: seq<string>)
    requires IsComment(line)
    ensures ReadLines([line + "\n"] + rest) == ReadLines(rest)
  {
    ContentOfLine(line);
    assert ([line + "\n"] + rest)[1..] == rest;
    assert TrimStart(line) == line;
  }

  lemma {:induction false} CommentsAreSkipped(comments: seq<string>, rest: seq<string>)
    requires forall i :: 0 <= i < |comments| ==> IsComment(comments[i])
    ensures ReadLines(Closed(comments) + rest) == ReadLines(rest)
  {
    if comments == [] {
      assert Closed(comments) + rest == rest;
    } else {
      CommentsAreSkipped(comments[1..], rest);
      CommentIsSkipped(comments[0], Closed(comments[1..]) + rest);
      assert Closed(comments) + rest == [comments[0] + "\n"] + (Closed(comments[1..]) + rest);
    }
  }

  lemma RenderedAreLines(comments: seq<string>, pairs: seq<Pair>)
    requires forall i :: 0 <= i < |comments| ==> IsComment(comments[i])
    requires forall i :: 0 <= i < |pairs| ==> IsPair(pairs[i])
    ensures WellSegmented(Closed(comments + LinesFor(pairs)))
  {
    PairLines(pairs);
    ClosedAreLines(comments + LinesFor(pairs));
    var all := Closed(comments + LinesFor(pairs));
    forall i | 0 <= i < |all|
      ensures IsSegment(all[i]) && IsClosed(all[i])
    {
      assert all[i] in all;
    }
  }

  predicate IsOrdered(lines: seq<string>) { forall i :: 0 <= i < |lines| - 1 ==> AtMost(lines[i], lines[i + 1]) }

  lemma RenderedParses(comments: seq<string>, pairs: seq<Pair>)
    requires forall i :: 0 <= i < |comments| ==> IsComment(comments[i])
    requires forall i :: 0 <= i < |pairs| ==> IsPair(pairs[i])
    ensures ParseMap(MapText(comments, LinesFor(pairs))) == Ok(pairs)
  {
    var lines := LinesFor(pairs);
    ClosedJoins(comments, lines);
    RenderedAreLines(comments, pairs);
    CommentsAreSkipped(comments, Closed(lines));
    LinesRead(pairs);
    JoinSegments(Closed(comments + lines));
  }

  lemma SamePairsAreValid(pairs: seq<Pair>, sorted: seq<Pair>)
    requires (forall i :: 0 <= i < |pairs| ==> IsPair(pairs[i])) && multiset(sorted) == multiset(pairs)
    ensures forall i :: 0 <= i < |sorted| ==> IsPair(sorted[i])
  {
    forall i | 0 <= i < |sorted|
      ensures IsPair(sorted[i])
    {
      assert sorted[i] in multiset(sorted);
      assert sorted[i] in pairs;
    }
  }

  lemma SortedAndValid(pairs: seq<Pair>) returns (sorted: seq<Pair>)
    requires forall i :: 0 <= i < |pairs| ==> IsPair(pairs[i])
    ensures Sorted(LinesFor(pairs)) == LinesFor(sorted) && multiset(sorted) == multiset(pairs)
    ensures forall i :: 0 <= i < |sorted| ==> IsPair(sorted[i])
  {
    sorted := SortedPairs(pairs);
    SamePairsAreValid(pairs, sorted);
  }

  /** Reading a rendered map gives back exactly the pairs that went in, whatever comments head it. */
  lemma MapRoundTrips(comments: seq<string>, pairs: seq<Pair>)
    requires forall i :: 0 <= i < |comments| ==> IsComment(comments[i])
    requires forall i :: 0 <= i < |pairs| ==> IsPair(pairs[i])
    ensures var parsed := ParseMap(MapText(comments, Sorted(LinesFor(pairs))));
            parsed.Ok? && multiset(parsed.value) == multiset(pairs)
  {
    var sorted := SortedAndValid(pairs);
    RenderedParses(comments, sorted);
  }

  /** The lines of a map are in order. */
  lemma {:induction false} InsertedIsOrdered(lines: seq<string>, line: string)
    requires IsOrdered(lines)
    ensures IsOrdered(Inserted(lines, line))
    ensures Inserted(lines, line)[0] == line || (lines != [] && Inserted(lines, line)[0] == lines[0])
  {
    if lines != [] && !AtMost(line, lines[0]) {
      EitherOrder(line, lines[0]);
      InsertedIsOrdered(lines[1..], line);
      var rest := Inserted(lines[1..], line);
      assert lines[1..] != [] ==> lines[1..][0] == lines[1];
      assert Inserted(lines, line) == [lines[0]] + rest;
    }
  }

  lemma {:induction false} EitherOrder(a: string, b: string)
    ensures AtMost(a, b) || AtMost(b, a)
  {
    if a != "" && b != "" && a[0] == b[0] { EitherOrder(a[1..], b[1..]); }
  }

  lemma {:induction false} SortedIsOrdered(lines: seq<string>)
    ensures IsOrdered(Sorted(lines))
  {
    if lines != [] {
      SortedIsOrdered(lines[1..]);
      InsertedIsOrdered(Sorted(lines[1..]), lines[0]);
    }
  }
}
