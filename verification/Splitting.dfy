// src/governance/changes.rs, collapse: the words of a text are the runs without whitespace in it, in order.
module Splitting {
  import opened Anchors
  import opened Changes
  import opened Markers

  // ---------------------------------------------------------------- words and gaps

  lemma {:induction false} WordEndIs(w: string, rest: string)
    requires w != "" && (forall i :: 0 <= i < |w| ==> !IsSpace(w[i])) && (rest == "" || IsSpace(rest[0]))
    ensures WordEnd(w + rest) == |w|
    decreases |w|
  {
    if |w| == 1 {
      assert |w + rest| == 1 || (w + rest)[1] == rest[0];
    } else {
      assert (w + rest)[1] == w[1] && (w + rest)[1..] == w[1..] + rest;
      WordEndIs(w[1..], rest);
    }
  }

  /** The words in order, with whitespace between, before and behind them. */
  function Spread(words: seq<string>, gaps: seq<string>): string
    requires |gaps| == |words| + 1
  {
    if words == [] then gaps[0] else gaps[0] + words[0] + Spread(words[1..], gaps[1..])
  }

  predicate IsWord(word: string) { word != "" && forall i :: 0 <= i < |word| ==> !IsSpace(word[i]) }

  /** Whitespace everywhere, and some of it between any two words. */
  ghost predicate AreSpread(words: seq<string>, gaps: seq<string>) {
    && |gaps| == |words| + 1 && (forall i :: 0 <= i < |words| ==> IsWord(words[i]))
    && (forall i :: 0 <= i < |gaps| ==> AllSpace(gaps[i]))
    && forall i :: 0 < i < |words| ==> gaps[i] != ""
  }

  /** The words of a text are the ones it is spread from. */
  lemma {:induction false} WordsOfSpread(words: seq<string>, gaps: seq<string>)
    requires AreSpread(words, gaps)
    ensures Words(Spread(words, gaps)) == words
    decreases |words|
  {
    if words == [] {
      AllSpaceTrims(gaps[0]);
    } else {
      var rest := Spread(words[1..], gaps[1..]);
      WordsOfSpread(words[1..], gaps[1..]);
      SpreadStarts(words[1..], gaps[1..]);
      TrimsTo(gaps[0], words[0] + rest);
      assert gaps[0] + words[0] + rest == gaps[0] + (words[0] + rest);
      WordEndIs(words[0], rest);
    }
  }

  lemma SpreadStarts(words: seq<string>, gaps: seq<string>)
    requires AreSpread(words, gaps) && (words != [] ==> gaps[0] != "")
    ensures Spread(words, gaps) == "" || IsSpace(Spread(words, gaps)[0])
  {
  }

  /** Every text is spread from its words. */
  lemma {:induction false} SpreadOfWords(text: string) returns (gaps: seq<string>)
    ensures AreSpread(Words(text), gaps) && Spread(Words(text), gaps) == text
    decreases |text|
  {
    var trimmed := TrimStart(text);
    TrimStartSplits(text);
    if trimmed == "" {
      gaps := [text];
    } else {
      hide Spread, Words, WordEnd, TrimStart, AllSpace;
      var end := WordEnd(trimmed);
      WordEnds(trimmed);
      var rest := SpreadOfWords(trimmed[end..]);
      WordsStep(text);
      gaps := OneMoreWord(text, trimmed, end, Words(trimmed[end..]), rest);
    }
  }

  lemma WordsStep(text: string)
    requires TrimStart(text) != "" && !IsSpace(TrimStart(text)[0])
    ensures var trimmed := TrimStart(text);
            Words(text) == [trimmed[..WordEnd(trimmed)]] + Words(trimmed[WordEnd(trimmed)..])
  {
  }

  lemma OneMoreWord(text: string, trimmed: string, end: nat, words: seq<string>, rest: seq<string>)
    returns (gaps: seq<string>)
    requires |trimmed| <= |text| && text[|text| - |trimmed|..] == trimmed && AllSpace(text[..|text| - |trimmed|])
    requires 0 < end <= |trimmed| && IsWord(trimmed[..end]) && (end < |trimmed| ==> IsSpace(trimmed[end]))
    requires AreSpread(words, rest) && Spread(words, rest) == trimmed[end..]
    ensures AreSpread([trimmed[..end]] + words, gaps) && Spread([trimmed[..end]] + words, gaps) == text
  {
    gaps := [text[..|text| - |trimmed|]] + rest;
    assert gaps[1..] == rest && ([trimmed[..end]] + words)[1..] == words;
    assert text == gaps[0] + trimmed[..end] + trimmed[end..];
    if words != [] { FirstGap(words, rest); }
  }

  /** Text that goes on with whitespace or not at all has no word in front of its first gap. */
  lemma FirstGap(words: seq<string>, gaps: seq<string>)
    requires AreSpread(words, gaps) && words != []
    ensures gaps[0] == "" ==> Spread(words, gaps) != "" && !IsSpace(Spread(words, gaps)[0])
  {
  }

  lemma {:induction false} WordEnds(text: string)
    requires text != "" && !IsSpace(text[0])
    ensures IsWord(text[..WordEnd(text)]) && (WordEnd(text) < |text| ==> IsSpace(text[WordEnd(text)]))
  {
    if |text| > 1 && !IsSpace(text[1]) { WordEnds(text[1..]); }
  }

  lemma {:induction false} JoinIsSpread(words: seq<string>) returns (gaps: seq<string>)
    requires forall i :: 0 <= i < |words| ==> IsWord(words[i])
    ensures AreSpread(words, gaps) && gaps[0] == "" && Spread(words, gaps) == JoinWords(words)
    decreases |words|
  {
    if |words| <= 1 {
      gaps := if words == [] then [""] else ["", ""];
      if words != [] { assert Spread(words[1..], gaps[1..]) == ""; }
    } else {
      var rest := JoinIsSpread(words[1..]);
      gaps := ["", " "] + rest[1..];
      SpaceIsAdded(words[1..], rest, gaps[1..]);
    }
  }

  lemma SpaceIsAdded(words: seq<string>, gaps: seq<string>, gaps': seq<string>)
    requires words != [] && |gaps| == |words| + 1 && gaps[0] == "" && gaps' == [" "] + gaps[1..]
    ensures Spread(words, gaps') == " " + Spread(words, gaps)
  {
    assert gaps'[1..] == gaps[1..];
    var rest := Spread(words[1..], gaps[1..]);
    hide Spread;
    assert " " + words[0] + rest == " " + ("" + words[0] + rest);
  }

  /** Collapsing keeps the words and nothing else. */
  lemma CollapseKeepsWords(x: string, y: string)
    ensures Words(Collapse(x)) == Words(x)
    ensures Collapse(x) == Collapse(y) <==> Words(x) == Words(y)
  {
    WordsOfJoined(x);
    WordsOfJoined(y);
  }

  lemma WordsOfJoined(x: string)
    ensures Words(Collapse(x)) == Words(x)
  {
    hide Words, AreSpread, Spread, JoinWords;
    var gaps := SpreadOfWords(x);
    SpreadHasWords(Words(x), gaps);
    var single := JoinIsSpread(Words(x));
    WordsOfSpread(Words(x), single);
  }

  lemma SpreadHasWords(words: seq<string>, gaps: seq<string>)
    requires AreSpread(words, gaps)
    ensures forall i :: 0 <= i < |words| ==> IsWord(words[i])
  {
  }
}
