// src/governance/policy.rs: editing policy text commutes with parsing it.
module PolicyCommutes {
  import opened Anchors
  import Classify
  import Markers
  import opened PolicyTokens
  import opened PolicyGrammar
  import opened PolicyEdits

  // ---------------------------------------------------------------- a rendered command

  function ClauseOf(command: Command): Clause {
    Clause(command.operation, command.id,
           if command.changeType.Some? then Some(KindName(command.changeType.value)) else None)
  }

  lemma {:induction false} FoldedIsSame(value: string)
    requires forall i :: 0 <= i < |value| ==> value[i] != '-' && !('A' <= value[i] <= 'Z')
    ensures Folded(value) == value
  {
    if value != "" { FoldedIsSame(value[1..]); }
  }

  lemma KindIsNamed(kind: Classify.ChangeType)
    ensures KindNamed(KindName(kind)) == Some(kind)
    ensures KindName(kind) != "" && forall i :: 0 <= i < |KindName(kind)| ==> Markers.IsNameChar(KindName(kind)[i])
  {
    hide Folded;
    FoldedIsSame(KindName(kind));
  }

  lemma ClauseOfIs(command: Command)
    requires IsCommand(command)
    ensures IsClause(ClauseOf(command)) && CommandOf(ClauseOf(command)) == command
  {
    if command.changeType.Some? { KindIsNamed(command.changeType.value); }
  }

  /** Words with single spaces between them and a semicolon after them. */
  function Spaced(words: seq<string>): string
    requires words != []
  {
    if |words| == 1 then words[0] + ";" else words[0] + (" " + Spaced(words[1..]))
  }

  function SpacedTokens(words: seq<string>, at: nat): seq<Token>
    requires words != []
  {
    [Token(words[0], at)]
    + if |words| == 1 then [Token(";", at + |words[0]|)] else SpacedTokens(words[1..], at + |words[0]| + 1)
  }

  predicate IsPlain(w: string) { w != "" && forall i :: 0 <= i < |w| ==> Markers.IsNameChar(w[i]) }

  predicate ArePlain(words: seq<string>) { forall k :: 0 <= k < |words| ==> IsPlain(words[k]) }

  lemma WordAndBlank(w: string, s: string, base: nat)
    requires IsPlain(w)
    ensures TokensOf(w + (" " + s), base) == After([Token(w, base)], TokensOf(s, base + |w| + 1))
  {
    hide TokensOf;
    WordReads(w, " " + s, base);
    BlanksRead(" ", s, base + |w|);
  }

  lemma WordAndEnd(w: string, s: string, base: nat)
    requires IsPlain(w)
    ensures TokensOf(w + (";" + s), base)
            == After([Token(w, base)] + [Token(";", base + |w|)], TokensOf(s, base + |w| + 1))
  {
    assert ";" + s == [';'] + s;
    WordReads(w, ";" + s, base);
    SymbolReads(';', s, base + |w|);
    AfterBoth([Token(w, base)], [Token(";", base + |w|)], TokensOf(s, base + |w| + 1));
  }

  lemma LastReads(w: string, s: string, at: nat)
    requires IsPlain(w)
    ensures TokensOf((w + ";") + s, at) == After([Token(w, at)] + [Token(";", at + |w|)], TokensOf(s, at + |w + ";"|))
  {
    Associates(w, ";", s);
    WordAndEnd(w, s, at);
  }

  lemma WordBefore(w: string, rest: string, tokens: seq<Token>, s: string, at: nat, end: nat)
    requires IsPlain(w) && end == at + |w| + 1 + |rest|
    requires TokensOf(rest + s, at + |w| + 1) == After(tokens, TokensOf(s, end))
    ensures TokensOf((w + (" " + rest)) + s, at) == After([Token(w, at)] + tokens, TokensOf(s, end))
  {
    Associates(w, " " + rest, s);
    Associates(" ", rest, s);
    WordAndBlank(w, rest + s, at);
    AfterBoth([Token(w, at)], tokens, TokensOf(s, end));
  }

  lemma {:induction false} SpacedReads(words: seq<string>, text: string, tokens: seq<Token>, s: string, at: nat,
                                       end: nat)
    requires words != [] && ArePlain(words)
    requires text == Spaced(words) && tokens == SpacedTokens(words, at) && end == at + |text|
    ensures TokensOf(text + s, at) == After(tokens, TokensOf(s, end))
    decreases |words|
  {
    hide TokensOf;
    var w := words[0];
    if |words| == 1 {
      assert text == w + ";";
      LastReads(w, s, at);
    } else {
      var next := at + |w| + 1;
      var rest, restTokens := Spaced(words[1..]), SpacedTokens(words[1..], next);
      assert text == w + (" " + rest) && tokens == [Token(w, at)] + restTokens;
      SpacedReads(words[1..], rest, restTokens, s, next, end);
      WordBefore(w, rest, restTokens, s, at, end);
    }
  }

  lemma {:induction false} SpacedTokensAre(words: seq<string>, at: nat)
    requires words != []
    ensures var tokens := SpacedTokens(words, at);
            && |tokens| == |words| + 1 && Texts(tokens) == words + [";"]
            && tokens[0].start == at && tokens[|words|].start + 1 == at + |Spaced(words)|
  {
    TextsAre(SpacedTokens(words, at));
    if |words| > 1 {
      SpacedTokensAre(words[1..], at + |words[0]| + 1);
      TextsJoin([Token(words[0], at)], SpacedTokens(words[1..], at + |words[0]| + 1));
    }
  }

  function WordsOf(command: Command): seq<string> {
    [OperationName(command.operation), command.id]
    + if command.changeType.Some? then ["change_type", KindName(command.changeType.value)] else []
  }

  lemma TwoSpaced(a: string, b: string)
    ensures Spaced([a, b]) == a + " " + b + ";"
  {
    assert [a, b][1..] == [b];
  }

  lemma FourSpaced(a: string, b: string, c: string, d: string)
    ensures Spaced([a, b, c, d]) == a + " " + b + " " + c + " " + d + ";"
  {
    assert [a, b, c, d][1..] == [b, c, d] && [b, c, d][1..] == [c, d];
    TwoSpaced(c, d);
  }

  lemma RenderIsSpaced(command: Command)
    ensures Render(command) == Spaced(WordsOf(command)) && ClauseTexts(ClauseOf(command)) == WordsOf(command) + [";"]
  {
    hide KindName;
    var name, id := OperationName(command.operation), command.id;
    if command.changeType.Some? {
      var value := KindName(command.changeType.value);
      FourSpaced(name, id, "change_type", value);
      assert WordsOf(command) == [name, id, "change_type", value];
      assert " change_type " == " " + "change_type" + " ";
      assert name + " " + id + " change_type " + value == name + " " + id + " " + "change_type" + " " + value;
    } else {
      TwoSpaced(name, id);
      assert WordsOf(command) == [name, id];
    }
  }

  lemma WordsArePlain(command: Command)
    requires IsCommand(command)
    ensures ArePlain(WordsOf(command))
  {
    hide KindNamed;
    if command.changeType.Some? { KindIsNamed(command.changeType.value); }
  }

  predicate AllBlank(w: string) { forall i :: 0 <= i < |w| ==> IsBlank(w[i]) }

  /** Spaced words between blanks read as their own tokens, whatever follows. */
  lemma LineReads(before: string, words: seq<string>, line: string, after: string, s: string, base: nat)
    requires words != [] && ArePlain(words) && line == Spaced(words) && AllBlank(before) && AllBlank(after)
    ensures TokensOf(before + (line + (after + s)), base)
            == After(SpacedTokens(words, base + |before|), TokensOf(s, base + |before| + |line| + |after|))
  {
    hide TokensOf;
    BlanksRead(before, line + (after + s), base);
    var at := base + |before|;
    SpacedReads(words, line, SpacedTokens(words, at), after + s, at, at + |line|);
    BlanksRead(after, s, base + |before| + |line|);
  }

  // ---------------------------------------------------------------- text around a token

  lemma {:induction false} TrimmedAway(s: string)
    requires Trim(s) == ""
    ensures AllSpace(s)
  {
    var lead, trail := Markers.TrimSplits(s);
  }

  lemma AddsNothing(a: seq<Token>, b: seq<Token>)
    requires b == []
    ensures a + b == a
  {
  }

  lemma DropsFirst(a: seq<Token>, b: seq<Token>, tokens: seq<Token>, k: nat)
    requires k <= |tokens| && tokens == a + b && a == tokens[..k]
    ensures b == tokens[k..]
  {
  }

  lemma SpaceDropped(p: string, head: string, space: string, tokens: seq<Token>)
    requires p == head + space && TokensOf(p, 0) == Ok(tokens) && (head == "" || head[|head| - 1] == '\n')
             && AllSpace(space)
    ensures TokensOf(head, 0) == Ok(tokens)
  {
    hide *;
    LineStartsAtBoundary(p, |head|);
    var a, b := Split(p, head, space, 0);
    SpaceHasNoTokens(space, |head|);
    AddsNothing(a, b);
  }

  /** With only space before token k on its line, the line starts between the tokens. */
  lemma LineHead(text: string, tokens: seq<Token>, k: nat, i: nat, start: nat)
    requires TokensOf(text, 0) == Ok(tokens) && k < |tokens| && IsSplit(text, 0, tokens, k, i)
    requires start == StartOfLine(text, i) && AllSpace(text[start..i])
    ensures TokensOf(text[..start], 0) == Ok(tokens[..k]) && TokensOf(text[start..], start) == Ok(tokens[k..])
  {
    hide StartOfLine;
    var head, tail, before := text[..start], text[start..], tokens[..k];
    assert text[..i] == head + text[start..i];
    SpaceDropped(text[..i], head, text[start..i], before);
    PrefixAndRest(text, start);
    LineTailReads(head, tail, tokens, before, tokens[k..]);
  }

  lemma LineTailReads(head: string, tail: string, tokens: seq<Token>, before: seq<Token>, after: seq<Token>)
    requires TokensOf(head + tail, 0) == Ok(tokens) && TokensOf(head, 0) == Ok(before) && tokens == before + after
    requires head == "" || head[|head| - 1] == '\n'
    ensures TokensOf(tail, |head|) == Ok(after)
  {
    hide *;
    FitsAfterLine(head, tail);
    var b := RestRead(head, tail, 0, tokens, before);
    SamePrefix(before, after, b);
  }

  lemma SamePrefix(a: seq<Token>, b: seq<Token>, c: seq<Token>)
    requires a + b == a + c
    ensures b == c
  {
    assert b == (a + b)[|a|..] && c == (a + c)[|a|..];
  }

  // ---------------------------------------------------------------- inserting

  lemma JoinsThree(p: string, m: string, q: string, next: nat, a: seq<Token>, b: seq<Token>, c: seq<Token>)
    requires TokensOf(p, 0) == Ok(a) && Fits(p, m) && TokensOf(m, |p|) == After(b, TokensOf(q, next))
             && TokensOf(q, next) == Ok(c)
    ensures TokensOf(p + m, 0) == Ok(a + (b + c))
  {
    TokensJoin(p, m, 0);
  }

  lemma InsertReads(p: string, m: string, q: string, words: seq<string>, tokens: seq<Token>, k: nat, base: nat, at: nat,
                    next: nat)
    requires k <= |tokens| && TokensOf(p, 0) == Ok(tokens[..k]) && TokensOf(q, base) == Ok(tokens[k..]) && Fits(p, m)
    requires words != [] && TokensOf(m, |p|) == After(SpacedTokens(words, at), TokensOf(q, next))
    ensures TokensOf(p + m, 0).Ok? && IsInserted(TokensOf(p + m, 0).value, tokens, k, words, at, |Spaced(words)|)
  {
    TokensMove(q, base, next);
    var tail := TokensOf(q, next).value;
    JoinsThree(p, m, q, next, tokens[..k], SpacedTokens(words, at), tail);
    Inserted(tokens, k, words, at, tail);
  }

  /** The tokens with words and a semicolon put in at index k, from a position on. */
  ghost predicate IsInserted(r: seq<Token>, tokens: seq<Token>, k: nat, words: seq<string>, at: nat, size: nat) {
    && k <= |Texts(tokens)| && k + |words| < |r|
    && Texts(r) == Texts(tokens)[..k] + (words + [";"]) + Texts(tokens)[k..]
    && r[k].start == at && r[k + |words|].start + 1 == at + size
  }

  lemma Inserted(tokens: seq<Token>, k: nat, words: seq<string>, at: nat, tail: seq<Token>)
    requires k <= |tokens| && words != [] && Texts(tail) == Texts(tokens[k..])
    ensures IsInserted(tokens[..k] + (SpacedTokens(words, at) + tail), tokens, k, words, at, |Spaced(words)|)
  {
    var middle := SpacedTokens(words, at);
    SpacedTokensAre(words, at);
    TextsSpliced(tokens, k, middle, tail);
    var r := tokens[..k] + (middle + tail);
    assert r[k] == middle[0] && r[k + |words|] == middle[|words|];
  }

  lemma TextsSpliced(tokens: seq<Token>, k: nat, middle: seq<Token>, tail: seq<Token>)
    requires k <= |tokens| && Texts(tail) == Texts(tokens[k..])
    ensures |Texts(tokens)| == |tokens|
    ensures Texts(tokens[..k] + (middle + tail)) == Texts(tokens)[..k] + Texts(middle) + Texts(tokens)[k..]
  {
    TextsJoin(tokens[..k], middle + tail);
    TextsJoin(middle, tail);
    TextsJoin(tokens[..k], tokens[k..]);
    assert tokens[..k] + tokens[k..] == tokens;
    TextsAre(tokens);
    TextsAre(tokens[..k]);
    Associates(Texts(tokens[..k]), Texts(middle), Texts(tail));
  }

  /** How an insertion cuts the text, and what it puts between. */
  lemma InsertForm(text: string, close: nat, statement: string) returns (p: string, before: string, q: string)
    requires close <= |text|
    ensures text == p + q && |p| <= close
    ensures InsertStatement(text, close, statement) == p + (before + (statement + (Newline(text) + q)))
    ensures if OnlySpaceBefore(text, close) then p == text[..StartOfLine(text, close)] && before == "    "
            else p == text[..close] && before == Newline(text) + "    "
  {
    var newline := Newline(text);
    if OnlySpaceBefore(text, close) {
      var start := StartOfLine(text, close);
      p, before, q := text[..start], "    ", text[start..];
      FiveParts(p, before, statement, newline, q);
    } else {
      p, before, q := text[..close], newline + "    ", text[close..];
      FiveParts(p, before, statement, newline, q);
      Associates(p, newline, "    ");
    }
    PrefixAndRest(text, |p|);
  }

  lemma FiveParts(p: string, before: string, statement: string, newline: string, q: string)
    ensures p + before + statement + newline + q == p + (before + (statement + (newline + q)))
  {
  }

  lemma NewlineIsBlank(text: string)
    ensures AllBlank(Newline(text)) && AllBlank(Newline(text) + "    ") && !Markers.IsNameChar(Newline(text)[0])
    ensures Newline(text)[|Newline(text)| - 1] == '\n' && |Newline(text)| <= 2
  {
  }

  /** The two parts an insertion cuts the text into have the tokens before the closing brace and from it on. */
  lemma InsertCuts(text: string, tokens: seq<Token>, k: nat, close: nat, p: string, before: string, q: string,
                   s: string)
    requires TokensOf(text, 0) == Ok(tokens) && k < |tokens| && IsSplit(text, 0, tokens, k, close) && text == p + q
    requires if OnlySpaceBefore(text, close) then p == text[..StartOfLine(text, close)] && before == "    "
             else p == text[..close] && before == Newline(text) + "    "
    ensures TokensOf(p, 0) == Ok(tokens[..k]) && TokensOf(q, |p|) == Ok(tokens[k..]) && Fits(p, before + s)
  {
    hide After;
    assert q == text[|p|..];
    if OnlySpaceBefore(text, close) {
      TrimmedAway(text[StartOfLine(text, close)..close]);
      LineHead(text, tokens, k, close, StartOfLine(text, close));
      FitsAfterLine(p, before + s);
    } else {
      NewlineIsBlank(text);
      BoundaryFits(text, close, 0);
      assert TokenAt(q, close) == [tokens[k]];
      assert q[0] != '\n';
      FitsBeforeBlank(p, q, before + s);
    }
  }
}
