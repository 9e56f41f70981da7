// src/platform/glob.rs: wildcard matching with one remembered star, against the meaning of wildcards.
module Glob {
  import opened Anchors

  // ---------------------------------------------------------------- what a pattern means

  /** "*" stands for any characters, "?" for one, everything else for itself. */
  ghost predicate Matches(pattern: string, text: string)
    decreases |pattern|
  {
    if pattern == "" then text == ""
    else if pattern[0] == '*' then exists k :: 0 <= k <= |text| && Matches(pattern[1..], text[k..])
    else text != "" && (pattern[0] == '?' || pattern[0] == text[0]) && Matches(pattern[1..], text[1..])
  }

  predicate HasNoStar(s: string) { forall i :: 0 <= i < |s| ==> s[i] != '*' }

  // ---------------------------------------------------------------- the algorithm

  /** The state of the loop: positions in pattern and text, the last star, and where to resume after it. */
  datatype State = State(p: nat, t: nat, star: Option<nat>, resume: nat)

  ghost predicate IsState(pattern: string, text: string, s: State) {
    && s.p <= |pattern| && s.t <= |text| && s.resume <= s.t
    && (s.star.Some? ==> s.star.value < s.p && pattern[s.star.value] == '*' && s.p - s.star.value - 1 == s.t - s.resume)
    && (s.star.None? ==> s.p == s.t && s.resume == 0)
  }

  /** One turn of the loop; None gives up. */
  function Turn(pattern: string, text: string, s: State): Option<State>
    requires s.t < |text|
  {
    if s.p < |pattern| && (pattern[s.p] == '?' || pattern[s.p] == text[s.t]) then Some(s.(p := s.p + 1, t := s.t + 1))
    else if s.p < |pattern| && pattern[s.p] == '*' then Some(State(s.p + 1, s.t, Some(s.p), s.t))
    else if s.star.Some? then Some(State(s.star.value + 1, s.resume + 1, s.star, s.resume + 1))
    else None
  }

  predicate OnlyStars(pattern: string) { pattern == "" || (pattern[0] == '*' && OnlyStars(pattern[1..])) }

  lemma TurnKeepsState(pattern: string, text: string, s: State)
    requires IsState(pattern, text, s) && s.t < |text|
    ensures Turn(pattern, text, s).Some? ==> IsState(pattern, text, Turn(pattern, text, s).value)
  {
  }

  /** What the loop answers from a state on. */
  ghost predicate Answer(pattern: string, text: string, s: State)
    requires IsState(pattern, text, s)
    decreases |text| - s.resume, |text| - s.t + |pattern| - s.p
  {
    if s.t == |text| then OnlyStars(pattern[s.p..])
    else
      var next := Turn(pattern, text, s);
      TurnKeepsState(pattern, text, s);
      next.Some? && Answer(pattern, text, next.value)
  }

  const START := State(0, 0, None, 0)

  ghost predicate Greedy(pattern: string, text: string) { Answer(pattern, text, START) }

  lemma AnswerAfterTurn(pattern: string, text: string, s: State)
    requires IsState(pattern, text, s) && s.t < |text|
    ensures var next := Turn(pattern, text, s);
            && (next.None? ==> !Answer(pattern, text, s))
            && (next.Some? ==>
                  IsState(pattern, text, next.value) && Answer(pattern, text, s) == Answer(pattern, text, next.value))
  {
    TurnKeepsState(pattern, text, s);
  }

  lemma AnswerAtEnd(pattern: string, text: string, s: State)
    requires IsState(pattern, text, s) && s.t == |text|
    ensures Answer(pattern, text, s) == OnlyStars(pattern[s.p..])
  {
  }

  /** Match one segment. */
  method SegmentMatches(pattern: string, text: string) returns (matched: bool)
    ensures matched == Greedy(pattern, text)
  {
    hide Answer;
    var p: nat, t: nat, resume: nat := 0, 0, 0;
    var star: Option<nat> := None;
    while t < |text|
      invariant IsState(pattern, text, State(p, t, star, resume))
      invariant Greedy(pattern, text) == Answer(pattern, text, State(p, t, star, resume))
      decreases |text| - resume, |text| - t + |pattern| - p
    {
      AnswerAfterTurn(pattern, text, State(p, t, star, resume));
      if p < |pattern| && (pattern[p] == '?' || pattern[p] == text[t]) {
        p, t := p + 1, t + 1;
      } else if p < |pattern| && pattern[p] == '*' {
        star, resume, p := Some(p), t, p + 1;
      } else if star.Some? {
        p, resume := star.value + 1, resume + 1;
        t := resume;
      } else {
        return false;
      }
    }
    AnswerAtEnd(pattern, text, State(p, t, star, resume));
    matched := SkipStars(pattern, p);
  }

  /** Whether only stars are left of a pattern. */
  method SkipStars(pattern: string, from: nat) returns (only: bool)
    requires from <= |pattern|
    ensures only == OnlyStars(pattern[from..])
  {
    var p := from;
    while p < |pattern| && pattern[p] == '*'
      invariant from <= p <= |pattern| && OnlyStars(pattern[from..]) == OnlyStars(pattern[p..])
    {
      assert pattern[p..][1..] == pattern[p + 1..];
      p := p + 1;
    }
    only := p == |pattern|;
  }

  // ---------------------------------------------------------------- sound

  lemma {:induction false} MatchesConcat(a: string, x: string, b: string, y: string)
    requires Matches(a, x) && Matches(b, y)
    ensures Matches(a + b, x + y)
    decreases |a|
  {
    if a == "" {
      assert a + b == b && x + y == y;
    } else {
      assert (a + b)[1..] == a[1..] + b;
      if a[0] == '*' {
        var k :| 0 <= k <= |x| && Matches(a[1..], x[k..]);
        MatchesConcat(a[1..], x[k..], b, y);
        assert (x + y)[k..] == x[k..] + y;
      } else {
        MatchesConcat(a[1..], x[1..], b, y);
        assert (x + y)[1..] == x[1..] + y;
      }
    }
  }

  lemma StarMatches(x: string)
    ensures Matches("*", x)
  {
    assert "*"[1..] == "" && x[|x|..] == "";
    assert Matches("*"[1..], x[|x|..]);
  }

  lemma OneMatches(c: char, d: char)
    requires c == '?' || c == d
    ensures Matches([c], [d])
  {
    assert [c][1..] == "" && [d][1..] == "";
    if c == '*' { StarMatches([d]); assert [c] == "*"; }
  }

  lemma {:induction false} StarsMatchNothing(pattern: string)
    requires OnlyStars(pattern)
    ensures Matches(pattern, "")
  {
    if pattern != "" {
      StarsMatchNothing(pattern[1..]);
      assert ""[0..] == "";
    }
  }

  /** What has been read so far matches, and so would any more text read by the remembered star. */
  ghost predicate IsSound(pattern: string, text: string, s: State)
    requires IsState(pattern, text, s)
  {
    && Matches(pattern[..s.p], text[..s.t])
    && (s.star.Some? ==> forall k :: s.resume <= k <= |text| ==> Matches(pattern[..s.star.value + 1], text[..k]))
  }

  lemma SoundRead(pattern: string, text: string, p: nat, t: nat)
    requires p < |pattern| && t < |text| && Matches(pattern[..p], text[..t])
             && (pattern[p] == '?' || pattern[p] == text[t])
    ensures Matches(pattern[..p + 1], text[..t + 1])
  {
    OneMatches(pattern[p], text[t]);
    MatchesConcat(pattern[..p], text[..t], [pattern[p]], [text[t]]);
    assert pattern[..p] + [pattern[p]] == pattern[..p + 1] && text[..t] + [text[t]] == text[..t + 1];
  }

  lemma SoundStar(pattern: string, text: string, p: nat, t: nat)
    requires p < |pattern| && t <= |text| && Matches(pattern[..p], text[..t]) && pattern[p] == '*'
    ensures forall k :: t <= k <= |text| ==> Matches(pattern[..p + 1], text[..k])
  {
    forall k | t <= k <= |text|
      ensures Matches(pattern[..p + 1], text[..k])
    {
      StarMatches(text[t..k]);
      MatchesConcat(pattern[..p], text[..t], "*", text[t..k]);
      assert pattern[..p] + "*" == pattern[..p + 1] && text[..t] + text[t..k] == text[..k];
    }
  }

  lemma SoundTurn(pattern: string, text: string, s: State)
    requires IsState(pattern, text, s) && IsSound(pattern, text, s) && s.t < |text| && Turn(pattern, text, s).Some?
    ensures IsState(pattern, text, Turn(pattern, text, s).value) && IsSound(pattern, text, Turn(pattern, text, s).value)
  {
    hide Matches;
    if s.p < |pattern| && (pattern[s.p] == '?' || pattern[s.p] == text[s.t]) {
      SoundRead(pattern, text, s.p, s.t);
    } else if s.p < |pattern| && pattern[s.p] == '*' {
      SoundStar(pattern, text, s.p, s.t);
    }
  }

  lemma {:induction false} AnswerIsSound(pattern: string, text: string, s: State)
    requires IsState(pattern, text, s) && IsSound(pattern, text, s) && Answer(pattern, text, s)
    ensures Matches(pattern, text)
    decreases |text| - s.resume, |text| - s.t + |pattern| - s.p
  {
    if s.t == |text| {
      StarsMatchNothing(pattern[s.p..]);
      MatchesConcat(pattern[..s.p], text[..s.t], pattern[s.p..], "");
      assert pattern[..s.p] + pattern[s.p..] == pattern && text[..s.t] + "" == text;
    } else {
      SoundTurn(pattern, text, s);
      AnswerIsSound(pattern, text, Turn(pattern, text, s).value);
    }
  }

  /** A match found is a match. */
  lemma GreedyIsSound(pattern: string, text: string)
    requires Greedy(pattern, text)
    ensures Matches(pattern, text)
  {
    AnswerIsSound(pattern, text, START);
  }

  // ---------------------------------------------------------------- complete

  /** Pattern characters other than "*" match as many text characters. */
  ghost predicate Reads(pattern: string, text: string) {
    && |pattern| == |text|
    && forall i :: 0 <= i < |pattern| ==> pattern[i] != '*' && (pattern[i] == '?' || pattern[i] == text[i])
  }

  /** Such a part leaves exactly the rest to the rest. */
  lemma {:induction false} MatchesAfter(part: string, rest: string, text: string)
    requires HasNoStar(part) && Matches(part + rest, text)
    ensures |part| <= |text| && Reads(part, text[..|part|]) && Matches(rest, text[|part|..])
    decreases |part|
  {
    if part == "" {
      assert part + rest == rest && text[0..] == text;
    } else {
      assert (part + rest)[1..] == part[1..] + rest;
      MatchesAfter(part[1..], rest, text[1..]);
      assert text[1..][|part| - 1..] == text[|part|..];
      forall i | 0 <= i < |part|
        ensures part[i] != '*' && (part[i] == '?' || part[i] == text[i])
      {
        if i > 0 { assert part[1..][i - 1] == part[i] && text[1..][..|part| - 1][i - 1] == text[i]; }
      }
    }
  }

  /** Where the remembered star may still end. */
  ghost predicate IsEnd(pattern: string, text: string, s: State, k: nat)
    requires IsState(pattern, text, s) && s.star.Some?
  {
    s.resume <= k <= |text| && Matches(pattern[s.star.value + 1..], text[k..])
  }

  /** The part of the pattern since the star has been read, and there is still hope. */
  ghost predicate IsAlive(pattern: string, text: string, s: State)
    requires IsState(pattern, text, s)
  {
    if s.star.Some? then
      HasNoStar(pattern[s.star.value + 1..s.p]) && Reads(pattern[s.star.value + 1..s.p], text[s.resume..s.t])
      && exists k :: IsEnd(pattern, text, s, k)
    else HasNoStar(pattern[..s.p]) && Matches(pattern[s.p..], text[s.t..])
  }

  /** What an end of the star says about the rest of the pattern. */
  lemma EndLeavesRest(pattern: string, text: string, s: State, k: nat)
    requires IsState(pattern, text, s) && s.star.Some? && HasNoStar(pattern[s.star.value + 1..s.p])
             && IsEnd(pattern, text, s, k)
    ensures k + (s.t - s.resume) <= |text| && Matches(pattern[s.p..], text[k + (s.t - s.resume)..])
  {
    PartLeavesRest(pattern, s.star.value + 1, s.p, text, k);
  }

  lemma PartLeavesRest(pattern: string, from: nat, p: nat, text: string, k: nat)
    requires from <= p <= |pattern| && k <= |text| && HasNoStar(pattern[from..p]) && Matches(pattern[from..], text[k..])
    ensures k + p - from <= |text| && Matches(pattern[p..], text[k + p - from..])
  {
    SplitTail(pattern, from, p);
    MatchesAfter(pattern[from..p], pattern[p..], text[k..]);
    DropAgain(text, k, p - from);
  }

  lemma SplitTail<T>(s: seq<T>, i: nat, j: nat)
    requires i <= j <= |s|
    ensures s[i..] == s[i..j] + s[j..]
  {
  }

  lemma DropAgain<T>(s: seq<T>, i: nat, n: nat)
    requires i + n <= |s|
    ensures s[i..][n..] == s[i + n..]
  {
  }

  lemma ReadsOneMore(part: string, read: string, c: char, d: char)
    requires HasNoStar(part) && Reads(part, read) && (c == '?' || c == d) && d != '*'
    ensures HasNoStar(part + [c]) && Reads(part + [c], read + [d])
  {
  }

  lemma StarReads(pattern: string, text: string, s: State)
    requires IsState(pattern, text, s) && s.star.Some? && IsAlive(pattern, text, s)
    requires s.p < |pattern| && s.t < |text| && text[s.t] != '*'
    requires pattern[s.p] == '?' || pattern[s.p] == text[s.t]
    ensures IsState(pattern, text, s.(p := s.p + 1, t := s.t + 1))
            && IsAlive(pattern, text, s.(p := s.p + 1, t := s.t + 1))
  {
    hide Matches, HasNoStar, Reads;
    var from := s.star.value + 1;
    assert pattern[from..s.p + 1] == pattern[from..s.p] + [pattern[s.p]];
    assert text[s.resume..s.t + 1] == text[s.resume..s.t] + [text[s.t]];
    ReadsOneMore(pattern[from..s.p], text[s.resume..s.t], pattern[s.p], text[s.t]);
    var k :| IsEnd(pattern, text, s, k);
    assert IsEnd(pattern, text, s.(p := s.p + 1, t := s.t + 1), k);
  }

  lemma AliveReads(pattern: string, text: string, s: State)
    requires IsState(pattern, text, s) && IsAlive(pattern, text, s) && s.t < |text| && HasNoStar(text)
    requires s.p < |pattern| && (pattern[s.p] == '?' || pattern[s.p] == text[s.t])
    ensures IsState(pattern, text, s.(p := s.p + 1, t := s.t + 1))
            && IsAlive(pattern, text, s.(p := s.p + 1, t := s.t + 1))
  {
    if s.star.Some? {
      StarReads(pattern, text, s);
    } else {
      assert pattern[..s.p + 1] == pattern[..s.p] + [pattern[s.p]];
      assert pattern[s.p..][1..] == pattern[s.p + 1..] && text[s.t..][1..] == text[s.t + 1..];
    }
  }

  lemma AliveStar(pattern: string, text: string, s: State)
    requires IsState(pattern, text, s) && IsAlive(pattern, text, s) && s.p < |pattern| && pattern[s.p] == '*'
    ensures IsState(pattern, text, State(s.p + 1, s.t, Some(s.p), s.t))
            && IsAlive(pattern, text, State(s.p + 1, s.t, Some(s.p), s.t))
  {
    var next := State(s.p + 1, s.t, Some(s.p), s.t);
    var base: nat := s.t;
    if s.star.Some? {
      var k: nat :| IsEnd(pattern, text, s, k);
      EndLeavesRest(pattern, text, s, k);
      base := k + (s.t - s.resume);
    }
    var rest := text[base..];
    assert pattern[s.p..][1..] == pattern[s.p + 1..];
    var j: nat :| 0 <= j <= |rest| && Matches(pattern[s.p + 1..], rest[j..]);
    assert rest[j..] == text[base + j..];
    assert IsEnd(pattern, text, next, base + j);
  }

  /** A mismatch rules out the star's current end, and without a star it ends all hope. */
  lemma AliveRetries(pattern: string, text: string, s: State)
    requires IsState(pattern, text, s) && IsAlive(pattern, text, s) && s.t < |text|
    requires s.p < |pattern| ==> pattern[s.p] != '*' && pattern[s.p] != '?' && pattern[s.p] != text[s.t]
    ensures s.star.Some?
    ensures var next := State(s.star.value + 1, s.resume + 1, s.star, s.resume + 1);
            IsState(pattern, text, next) && IsAlive(pattern, text, next)
  {
    if s.star.Some? {
      var next := State(s.star.value + 1, s.resume + 1, s.star, s.resume + 1);
      var k :| IsEnd(pattern, text, s, k);
      EndLeavesRest(pattern, text, s, k);
      assert k != s.resume;
      assert IsEnd(pattern, text, next, k);
    }
  }

  lemma AliveEnds(pattern: string, text: string, s: State)
    requires IsState(pattern, text, s) && IsAlive(pattern, text, s) && s.t == |text|
    ensures OnlyStars(pattern[s.p..])
  {
    if s.star.Some? {
      var k :| IsEnd(pattern, text, s, k);
      EndLeavesRest(pattern, text, s, k);
    }
    assert text[|text|..] == "";
    NothingMatchesStars(pattern[s.p..]);
  }

  lemma {:induction false} NothingMatchesStars(pattern: string)
    requires Matches(pattern, "")
    ensures OnlyStars(pattern)
  {
    if pattern != "" {
      assert ""[0..] == "";
      NothingMatchesStars(pattern[1..]);
    }
  }

  lemma {:induction false} AliveAnswers(pattern: string, text: string, s: State)
    requires IsState(pattern, text, s) && IsAlive(pattern, text, s) && HasNoStar(text)
    ensures Answer(pattern, text, s)
    decreases |text| - s.resume, |text| - s.t + |pattern| - s.p
  {
    if s.t == |text| {
      AliveEnds(pattern, text, s);
    } else {
      AliveTurn(pattern, text, s);
      AliveAnswers(pattern, text, Turn(pattern, text, s).value);
    }
  }

  lemma AliveTurn(pattern: string, text: string, s: State)
    requires IsState(pattern, text, s) && IsAlive(pattern, text, s) && HasNoStar(text) && s.t < |text|
    ensures var next := Turn(pattern, text, s);
            next.Some? && IsState(pattern, text, next.value) && IsAlive(pattern, text, next.value)
  {
    hide IsState;
    if s.p < |pattern| && (pattern[s.p] == '?' || pattern[s.p] == text[s.t]) {
      AliveReads(pattern, text, s);
    } else if s.p < |pattern| && pattern[s.p] == '*' {
      AliveStar(pattern, text, s);
    } else {
      AliveRetries(pattern, text, s);
    }
  }

  /** In a text without "*", every match is found. */
  lemma GreedyIsComplete(pattern: string, text: string)
    requires Matches(pattern, text) && HasNoStar(text)
    ensures Greedy(pattern, text)
  {
    assert pattern[0..] == pattern && text[0..] == text;
    AliveAnswers(pattern, text, START);
  }

  // ---------------------------------------------------------------- exactly then

  function Questions(n: nat): string { if n == 0 then "" else "?" + Questions(n - 1) }

  lemma {:induction false} QuestionsMatch(text: string)
    ensures Matches(Questions(|text|), text) && |Questions(|text|)| == |text|
    ensures forall i :: 0 <= i < |text| ==> Questions(|text|)[i] == '?'
  {
    if text != "" {
      var rest := text[1..];
      QuestionsMatch(rest);
      assert Questions(|text|)[1..] == Questions(|rest|);
      forall i | 0 <= i < |text|
        ensures Questions(|text|)[i] == '?'
      {
        if i > 0 { assert Questions(|rest|)[i - 1] == '?'; }
      }
    }
  }

  /** While every character reads the next one, no star is remembered. */
  lemma {:induction false} Marches(pattern: string, text: string, i: nat)
    requires i <= |pattern| && i <= |text| && forall j :: 0 <= j < i ==> pattern[j] == '?' || pattern[j] == text[j]
    ensures Greedy(pattern, text) == Answer(pattern, text, State(i, i, None, 0))
  {
    if i > 0 { Marches(pattern, text, i - 1); }
  }

  /** A pattern that matches a text with a "*" at position k, and is not found to. */
  function Missed(text: string, k: nat): string
    requires k < |text|
  {
    Questions(k) + ("*" + Questions(|text| - k))
  }

  lemma MissedMatches(text: string, k: nat)
    requires k < |text| && text[k] == '*'
    ensures Matches(Missed(text, k), text)
  {
    hide Questions, Matches;
    var a, b := text[..k], text[k..];
    QuestionsMatch(a);
    QuestionsMatch(b);
    StarThenMatches(Questions(|b|), b);
    MatchesConcat(Questions(|a|), a, "*" + Questions(|b|), b);
    assert a + b == text && |a| == k && |b| == |text| - k;
  }

  lemma StarThenMatches(pattern: string, text: string)
    requires Matches(pattern, text)
    ensures Matches("*" + pattern, text)
  {
    hide Matches;
    StarMatches("");
    MatchesConcat("*", "", pattern, text);
    assert "" + text == text;
  }

  lemma MissedIsNotFound(text: string, k: nat)
    requires k < |text| && text[k] == '*'
    ensures !Greedy(Missed(text, k), text)
  {
    var a, b, n := text[..k], text[k..], |text|;
    var pattern := Missed(text, k);
    QuestionsMatch(a);
    QuestionsMatch(b);
    forall j | 0 <= j < n
      ensures pattern[j] == '?' || pattern[j] == text[j]
    {
      if j > k { assert pattern[j] == Questions(n - k)[j - k - 1]; }
    }
    Marches(pattern, text, n);
    assert pattern[n] == Questions(n - k)[n - k - 1];
    assert pattern[n..][0] == '?';
  }

  /** Every match of every pattern is found exactly when the text has no "*". */
  lemma CompleteExactly(text: string)
    ensures (forall pattern :: Matches(pattern, text) ==> Greedy(pattern, text)) <==> HasNoStar(text)
  {
    if HasNoStar(text) {
      forall pattern | Matches(pattern, text)
        ensures Greedy(pattern, text)
      {
        GreedyIsComplete(pattern, text);
      }
    } else {
      var k :| 0 <= k < |text| && text[k] == '*';
      MissedMatches(text, k);
      MissedIsNotFound(text, k);
    }
  }

  // ---------------------------------------------------------------- whole paths

  /** "**" stands for any whole segments. */
  ghost predicate MatchesPath(parts: seq<string>, segments: seq<string>)
    decreases |parts|
  {
    if parts == [] then segments == []
    else if parts[0] == "**" then exists k :: 0 <= k <= |segments| && MatchesPath(parts[1..], segments[k..])
    else segments != [] && Matches(parts[0], segments[0]) && MatchesPath(parts[1..], segments[1..])
  }

  /** Match pattern segments against path segments. */
  ghost predicate SegmentsMatch(parts: seq<string>, segments: seq<string>)
    decreases |parts|
  {
    if parts == [] then segments == []
    else if parts[0] == "**" then exists skip :: 0 <= skip <= |segments| && SegmentsMatch(parts[1..], segments[skip..])
    else segments != [] && Greedy(parts[0], segments[0]) && SegmentsMatch(parts[1..], segments[1..])
  }

  lemma {:induction false} PathIsSound(parts: seq<string>, segments: seq<string>)
    requires SegmentsMatch(parts, segments)
    ensures MatchesPath(parts, segments)
    decreases |parts|
  {
    if parts != [] {
      if parts[0] == "**" {
        var skip :| 0 <= skip <= |segments| && SegmentsMatch(parts[1..], segments[skip..]);
        PathIsSound(parts[1..], segments[skip..]);
      } else {
        GreedyIsSound(parts[0], segments[0]);
        PathIsSound(parts[1..], segments[1..]);
      }
    }
  }

  lemma {:induction false} PathIsComplete(parts: seq<string>, segments: seq<string>)
    requires MatchesPath(parts, segments) && forall i :: 0 <= i < |segments| ==> HasNoStar(segments[i])
    ensures SegmentsMatch(parts, segments)
    decreases |parts|
  {
    if parts != [] {
      if parts[0] == "**" {
        var k :| 0 <= k <= |segments| && MatchesPath(parts[1..], segments[k..]);
        PathIsComplete(parts[1..], segments[k..]);
      } else {
        GreedyIsComplete(parts[0], segments[0]);
        PathIsComplete(parts[1..], segments[1..]);
      }
    }
  }

  /** The parts of a text between the separators. */
  function Split(text: string, separator: char): (parts: seq<string>)
    ensures parts != []
  {
    if text == "" then [""]
    else
      var rest := Split(text[1..], separator);
      if text[0] == separator then [""] + rest else [[text[0]] + rest[0]] + rest[1..]
  }

  function DropDots(pattern: string): string { if "./" <= pattern then DropDots(pattern[2..]) else pattern }

  /** A pattern, without surrounding space and leading "./"; one for a directory matches everything in it. */
  function Parts(pattern: string): seq<string> {
    var trimmed := DropDots(Trim(pattern));
    Split(if EndsWith(trimmed, "/") then trimmed + "**" else trimmed, '/')
  }

  predicate NoneHasStar(parts: seq<string>) { forall part :: part in parts ==> HasNoStar(part) }

  lemma NoStarCons(c: char, s: string)
    ensures HasNoStar([c] + s) <==> c != '*' && HasNoStar(s)
  {
    var t := [c] + s;
    assert t[0] == c && forall i :: 0 <= i < |s| ==> t[i + 1] == s[i];
  }

  lemma {:induction false} SplitHasNoStar(text: string, separator: char)
    requires separator != '*'
    ensures HasNoStar(text) <==> NoneHasStar(Split(text, separator))
  {
    if text != "" {
      SplitHasNoStar(text[1..], separator);
      var rest, parts := Split(text[1..], separator), Split(text, separator);
      NoStarCons(text[0], text[1..]);
      assert [text[0]] + text[1..] == text;
      if text[0] == separator {
        assert NoneHasStar([""] + rest) <==> NoneHasStar(rest) by {
          assert forall part :: part in rest ==> part in [""] + rest;
        }
      } else {
        NoStarCons(text[0], rest[0]);
        NoneHead(rest[0], rest[1..]);
        NoneHead([text[0]] + rest[0], rest[1..]);
        assert [rest[0]] + rest[1..] == rest;
      }
    }
  }

  lemma NoneHead(head: string, tail: seq<string>)
    ensures NoneHasStar([head] + tail) <==> HasNoStar(head) && NoneHasStar(tail)
  {
    assert head in [head] + tail;
    assert forall part :: part in tail ==> part in [head] + tail;
  }

  /** Whether a repository path matches a glob pattern, as the program decides it. */
  ghost predicate PathMatches(pattern: string, path: string) { SegmentsMatch(Parts(pattern), Split(path, '/')) }

  /** A path found to match does; a path without "*" that matches is found to. */
  lemma PathMatchesMeans(pattern: string, path: string)
    ensures PathMatches(pattern, path) ==> MatchesPath(Parts(pattern), Split(path, '/'))
    ensures HasNoStar(path) && MatchesPath(Parts(pattern), Split(path, '/')) ==> PathMatches(pattern, path)
  {
    SplitHasNoStar(path, '/');
    if PathMatches(pattern, path) { PathIsSound(Parts(pattern), Split(path, '/')); }
    if HasNoStar(path) && MatchesPath(Parts(pattern), Split(path, '/')) {
      assert forall i :: 0 <= i < |Split(path, '/')| ==> Split(path, '/')[i] in Split(path, '/');
      PathIsComplete(Parts(pattern), Split(path, '/'));
    }
  }

  // ---------------------------------------------------------------- exactly then, for whole paths

  /** A pattern part that matches a segment; an empty last segment takes "**", since no pattern ends with "/". */
  function Loose(segment: string, last: bool): string { if last && segment == "" then "**" else Questions(|segment|) }

  function LooseParts(segments: seq<string>): seq<string> {
    if segments == [] then [] else [Loose(segments[0], |segments| == 1)] + LooseParts(segments[1..])
  }

  /** Parts that match the segments, with one that is not found to match segment i, which has a "*" at position k. */
  function MissedParts(segments: seq<string>, i: nat, k: nat): seq<string>
    requires i < |segments| && k < |segments[i]|
  {
    if i == 0 then [Missed(segments[0], k)] + LooseParts(segments[1..])
    else [Loose(segments[0], false)] + MissedParts(segments[1..], i - 1, k)
  }

  lemma QuestionsAreNoStars(n: nat)
    ensures Questions(n) != "**" && (n > 0 ==> Questions(n)[0] == '?')
  {
    if n > 0 {
      var rest := Questions(n - 1);
      assert Questions(n) == "?" + rest;
      assert ("?" + rest)[0] == '?' && "**"[0] == '*';
    }
  }

  lemma MissedIsNoStars(text: string, k: nat)
    requires k < |text|
    ensures Missed(text, k) != "**"
  {
    hide Questions, Matches;
    var rest := text[k..];
    QuestionsMatch(rest);
    var q := Questions(|rest|);
    assert q[|q| - 1] == '?';
    QuestionAtEnd(Questions(k), q);
    assert Missed(text, k) == Questions(k) + ("*" + q);
  }

  lemma QuestionAtEnd(p: string, q: string)
    requires q != "" && q[|q| - 1] == '?'
    ensures p + ("*" + q) != "**"
  {
    var all := p + ("*" + q);
    assert all[|all| - 1] == '?';
  }

  lemma {:induction false} LoosePartsMatch(segments: seq<string>)
    ensures MatchesPath(LooseParts(segments), segments)
  {
    if segments != [] {
      LoosePartsMatch(segments[1..]);
      FirstPart(Loose(segments[0], |segments| == 1), LooseParts(segments[1..]));
      if |segments| == 1 && segments[0] == "" {
        assert segments[1..] == [] && LooseParts(segments[1..]) == [];
        assert MatchesPath([], segments[1..]);
      } else {
        QuestionsAreNoStars(|segments[0]|);
        QuestionsMatch(segments[0]);
      }
    }
  }

  lemma FirstPart<T>(first: T, rest: seq<T>)
    ensures ([first] + rest)[0] == first && ([first] + rest)[1..] == rest
  {
  }

  lemma {:induction false} MissedPartsMatch(segments: seq<string>, i: nat, k: nat)
    requires i < |segments| && k < |segments[i]| && segments[i][k] == '*'
    ensures MatchesPath(MissedParts(segments, i, k), segments)
  {
    if i == 0 {
      FirstPart(Missed(segments[0], k), LooseParts(segments[1..]));
      MissedIsNoStars(segments[0], k);
      MissedMatches(segments[0], k);
      LoosePartsMatch(segments[1..]);
    } else {
      FirstPart(Loose(segments[0], false), MissedParts(segments[1..], i - 1, k));
      QuestionsAreNoStars(|segments[0]|);
      QuestionsMatch(segments[0]);
      MissedPartsMatch(segments[1..], i - 1, k);
    }
  }

  lemma {:induction false} MissedPartsAreNotFound(segments: seq<string>, i: nat, k: nat)
    requires i < |segments| && k < |segments[i]| && segments[i][k] == '*'
    ensures !SegmentsMatch(MissedParts(segments, i, k), segments)
  {
    if i == 0 {
      FirstPart(Missed(segments[0], k), LooseParts(segments[1..]));
      MissedIsNoStars(segments[0], k);
      MissedIsNotFound(segments[0], k);
    } else {
      FirstPart(Loose(segments[0], false), MissedParts(segments[1..], i - 1, k));
      QuestionsAreNoStars(|segments[0]|);
      MissedPartsAreNotFound(segments[1..], i - 1, k);
    }
  }

  /** Text of nothing but "?" and "*". */
  predicate IsWild(text: string) { forall i :: 0 <= i < |text| ==> text[i] == '?' || text[i] == '*' }

  lemma QuestionsAreWild(n: nat)
    ensures IsWild(Questions(n)) && |Questions(n)| == n
  {
    var text := seq(n, i => 'a');
    QuestionsMatch(text);
  }

  lemma MissedIsWild(text: string, k: nat)
    requires k < |text|
    ensures IsWild(Missed(text, k)) && Missed(text, k) != ""
  {
    QuestionsAreWild(k);
    QuestionsAreWild(|text| - k);
  }

  /** Wild parts, the last of them not empty. */
  predicate AreWild(parts: seq<string>) {
    parts != [] && parts[|parts| - 1] != "" && forall j :: 0 <= j < |parts| ==> IsWild(parts[j])
  }

  lemma {:induction false} LoosePartsAreWild(segments: seq<string>)
    ensures |LooseParts(segments)| == |segments| && (segments != [] ==> AreWild(LooseParts(segments)))
  {
    if segments != [] {
      LoosePartsAreWild(segments[1..]);
      QuestionsAreWild(|segments[0]|);
      WildFirst(Loose(segments[0], |segments| == 1), LooseParts(segments[1..]));
    }
  }

  lemma WildFirst(first: string, rest: seq<string>)
    requires IsWild(first) && if rest == [] then first != "" else AreWild(rest)
    ensures AreWild([first] + rest)
  {
    var parts := [first] + rest;
    assert forall j :: 0 < j < |parts| ==> parts[j] == rest[j - 1];
  }

  lemma {:induction false} MissedPartsAreWild(segments: seq<string>, i: nat, k: nat)
    requires i < |segments| && k < |segments[i]|
    ensures AreWild(MissedParts(segments, i, k))
  {
    if i == 0 {
      MissedIsWild(segments[0], k);
      LoosePartsAreWild(segments[1..]);
      WildFirst(Missed(segments[0], k), LooseParts(segments[1..]));
    } else {
      QuestionsAreWild(|segments[0]|);
      MissedPartsAreWild(segments[1..], i - 1, k);
      WildFirst(Loose(segments[0], false), MissedParts(segments[1..], i - 1, k));
    }
  }

  function Glue(parts: seq<string>): string
    requires parts != []
  {
    if |parts| == 1 then parts[0] else parts[0] + ("/" + Glue(parts[1..]))
  }

  lemma {:induction false} SplitWord(word: string, rest: string)
    requires IsWild(word)
    ensures Split(word + ("/" + rest), '/') == [word] + Split(rest, '/')
    ensures Split(word, '/') == [word]
  {
    if word == "" {
      assert word + ("/" + rest) == "/" + rest && ("/" + rest)[1..] == rest;
    } else {
      var tail := word[1..];
      assert (word + ("/" + rest))[1..] == tail + ("/" + rest);
      SplitWord(tail, rest);
      assert [word[0]] + tail == word;
      FirstPart(tail, Split(rest, '/'));
      assert [tail][1..] == [];
    }
  }

  lemma {:induction false} SplitGlued(parts: seq<string>)
    requires AreWild(parts)
    ensures Split(Glue(parts), '/') == parts
  {
    if |parts| == 1 {
      SplitWord(parts[0], "");
    } else {
      assert parts[1..][|parts| - 2] == parts[|parts| - 1];
      SplitGlued(parts[1..]);
      SplitWord(parts[0], Glue(parts[1..]));
      assert [parts[0]] + parts[1..] == parts;
    }
  }

  /** Glued wild parts hold no space and no dot, and do not end with a separator. */
  lemma {:induction false} GlueIsPlain(parts: seq<string>)
    requires AreWild(parts)
    ensures var glued := Glue(parts);
            && glued != "" && (glued[|glued| - 1] == '?' || glued[|glued| - 1] == '*')
            && forall i :: 0 <= i < |glued| ==> glued[i] == '?' || glued[i] == '*' || glued[i] == '/'
  {
    if |parts| > 1 {
      assert parts[1..][|parts| - 2] == parts[|parts| - 1];
      GlueIsPlain(parts[1..]);
    }
  }

  lemma PartsOfGlued(parts: seq<string>)
    requires AreWild(parts)
    ensures Parts(Glue(parts)) == parts
  {
    var glued := Glue(parts);
    GlueIsPlain(parts);
    assert !IsSpace('?') && !IsSpace('*') && !IsSpace('/');
    assert TrimStart(glued) == glued && TrimEnd(glued) == glued;
    assert glued[|glued| - 1..] == [glued[|glued| - 1]];
    SplitGlued(parts);
  }

  /** Every match of every pattern against a path is found exactly when the path has no "*". */
  lemma PathCompleteExactly(path: string)
    ensures (forall pattern :: MatchesPath(Parts(pattern), Split(path, '/')) ==> PathMatches(pattern, path))
            <==> HasNoStar(path)
  {
    var segments := Split(path, '/');
    SplitHasNoStar(path, '/');
    if HasNoStar(path) {
      forall pattern | MatchesPath(Parts(pattern), segments)
        ensures PathMatches(pattern, path)
      {
        PathMatchesMeans(pattern, path);
      }
    } else {
      var part :| part in segments && !HasNoStar(part);
      var i :| 0 <= i < |segments| && segments[i] == part;
      var k :| 0 <= k < |part| && part[k] == '*';
      var pattern := Glue(MissedParts(segments, i, k));
      MissedPathIsNotFound(segments, i, k);
      assert MatchesPath(Parts(pattern), segments) && !PathMatches(pattern, path);
    }
  }

  lemma MissedPathIsNotFound(segments: seq<string>, i: nat, k: nat)
    requires i < |segments| && k < |segments[i]| && segments[i][k] == '*'
    ensures MissedParts(segments, i, k) != []
    ensures MatchesPath(Parts(Glue(MissedParts(segments, i, k))), segments)
    ensures !SegmentsMatch(Parts(Glue(MissedParts(segments, i, k))), segments)
  {
    MissedPartsAreWild(segments, i, k);
    PartsOfGlued(MissedParts(segments, i, k));
    MissedPartsMatch(segments, i, k);
    MissedPartsAreNotFound(segments, i, k);
  }
}
