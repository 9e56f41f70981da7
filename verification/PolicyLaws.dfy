// src/governance/policy.rs: what inserting and removing commands do to the parsed policies.
module PolicyLaws {
  import opened Anchors
  import Markers
  import opened PolicyTokens
  import opened PolicyGrammar
  import opened PolicyEdits
  import opened PolicyCommutes

  // ---------------------------------------------------------------- the same edit on sections

  /** Index of the closing brace of a section among the tokens. */
  function CloseIndex(sections: seq<Section>, b: nat): nat
    requires b < |sections|
  {
    HeadSize(sections, b) + ClausesSize(sections[b].clauses)
  }

  lemma CloseIs(sections: seq<Section>, tokens: seq<Token>, b: nat)
    requires b < |sections| && Texts(tokens) == FileTexts(sections) && |tokens| == FileSize(sections)
    ensures CloseIndex(sections, b) < |tokens| && b < |LocateSections(sections, tokens, 0)|
    ensures LocateSections(sections, tokens, 0)[b].close == tokens[CloseIndex(sections, b)].start
  {
    LocatedSection(sections, tokens, b);
  }

  lemma SameAround(sections: seq<Section>, b: nat, clauses: seq<Clause>)
    requires b < |sections|
    ensures HeadTexts(WithClauses(sections, b, clauses), b) == HeadTexts(sections, b)
    ensures TailTexts(WithClauses(sections, b, clauses), b) == TailTexts(sections, b)
    ensures HeadSize(WithClauses(sections, b, clauses), b) == HeadSize(sections, b)
  {
    var changed := WithClauses(sections, b, clauses);
    assert changed[..b] == sections[..b] && changed[b + 1..] == sections[b + 1..];
  }

  lemma CutAround<T>(head: seq<T>, body: seq<T>, tail: seq<T>)
    ensures var whole := head + body + tail; whole[..|head| + |body|] == head + body && whole[|head| + |body|..] == tail
  {
  }

  /** Putting a clause before the closing brace appends it to the section. */
  lemma AppendedTexts(sections: seq<Section>, b: nat, c: Clause)
    requires b < |sections|
    ensures CloseIndex(sections, b) <= |FileTexts(sections)|
    ensures var k := CloseIndex(sections, b);
            FileTexts(WithClauses(sections, b, sections[b].clauses + [c]))
            == FileTexts(sections)[..k] + ClauseTexts(c) + FileTexts(sections)[k..]
  {
    var clauses := sections[b].clauses;
    FileAround(sections, b);
    FileAround(WithClauses(sections, b, clauses + [c]), b);
    SameAround(sections, b, clauses + [c]);
    ClausesJoin(clauses, [c]);
    assert ClausesTexts([c]) == ClauseTexts(c);
    var head, tail := HeadTexts(sections, b), TailTexts(sections, b);
    CutAround(head, ClausesTexts(clauses), tail);
    Associates(head, ClausesTexts(clauses), ClauseTexts(c));
  }

  lemma AppendedIsValid(sections: seq<Section>, b: nat, c: Clause)
    requires b < |sections| && AreSections(sections) && IsClause(c)
    ensures AreSections(WithClauses(sections, b, sections[b].clauses + [c]))
  {
  }

  /** Append a command to policy b. */
  function Appended(policies: seq<Policy>, b: nat, command: Command): seq<Policy>
    requires b < |policies|
  {
    WithCommands(policies, b, policies[b].commands + [command])
  }

  /** Leave out command j of policy b. */
  function Without(policies: seq<Policy>, b: nat, j: nat): seq<Policy>
    requires b < |policies| && j < |policies[b].commands|
  {
    WithCommands(policies, b, Dropped(policies[b].commands, j))
  }

  // ---------------------------------------------------------------- inserting

  /** The parts an insertion makes of a text. */
  lemma InsertParts(text: string, tokens: seq<Token>, k: nat, close: nat, line: string)
    returns (p: string, before: string, q: string)
    requires TokensOf(text, 0) == Ok(tokens) && k < |tokens| && IsSplit(text, 0, tokens, k, close)
    ensures text == p + q && InsertStatement(text, close, line) == p + (before + (line + (Newline(text) + q)))
    ensures if OnlySpaceBefore(text, close) then p == text[..StartOfLine(text, close)] && before == "    "
            else p == text[..close] && before == Newline(text) + "    "
    ensures TokensOf(p, 0) == Ok(tokens[..k]) && TokensOf(q, |p|) == Ok(tokens[k..])
    ensures Fits(p, before + (line + (Newline(text) + q))) && AllBlank(before) && AllBlank(Newline(text))
  {
    hide TokensOf;
    p, before, q := InsertForm(text, close, line);
    InsertCuts(text, tokens, k, close, p, before, q, line + (Newline(text) + q));
    NewlineIsBlank(text);
  }

  lemma WrittenReads(p: string, before: string, words: seq<string>, line: string, newline: string, q: string,
                     tokens: seq<Token>, k: nat) returns (edited: seq<Token>)
    requires k <= |tokens| && words != [] && ArePlain(words) && line == Spaced(words) && AllBlank(before)
             && AllBlank(newline)
    requires TokensOf(p, 0) == Ok(tokens[..k]) && TokensOf(q, |p|) == Ok(tokens[k..])
    requires Fits(p, before + (line + (newline + q)))
    ensures TokensOf(p + (before + (line + (newline + q))), 0) == Ok(edited)
    ensures IsInserted(edited, tokens, k, words, |p| + |before|, |line|)
  {
    var m, at := before + (line + (newline + q)), |p| + |before|;
    LineReads(before, words, line, newline, q, |p|);
    InsertReads(p, m, q, words, tokens, k, |p|, at, at + |line| + |newline|);
    edited := TokensOf(p + m, 0).value;
  }

  /** Inserting before token k puts the words of the command there. */
  lemma InsertedTokens(text: string, tokens: seq<Token>, k: nat, close: nat, words: seq<string>, line: string)
    returns (p: string, before: string, q: string, edited: seq<Token>)
    requires TokensOf(text, 0) == Ok(tokens) && k < |tokens| && IsSplit(text, 0, tokens, k, close)
    requires words != [] && ArePlain(words) && line == Spaced(words)
    ensures text == p + q && InsertStatement(text, close, line) == p + (before + (line + (Newline(text) + q)))
    ensures if OnlySpaceBefore(text, close) then p == text[..StartOfLine(text, close)] && before == "    "
            else p == text[..close] && before == Newline(text) + "    "
    ensures TokensOf(InsertStatement(text, close, line), 0) == Ok(edited)
    ensures IsInserted(edited, tokens, k, words, |p| + |before|, |line|)
  {
    p, before, q := InsertParts(text, tokens, k, close, line);
    edited := WrittenReads(p, before, words, line, Newline(text), q, tokens, k);
  }

  /** Tokens with a command put in before a closing brace parse to the policies with the command appended. */
  lemma InsertedParse(tokens: seq<Token>, sections: seq<Section>, b: nat, command: Command, edited: seq<Token>, at: nat,
                      size: nat)
    requires AreSections(sections) && Texts(tokens) == FileTexts(sections) && b < |sections| && IsCommand(command)
    requires IsInserted(edited, tokens, CloseIndex(sections, b), WordsOf(command), at, size)
    ensures b < |PoliciesOf(sections)|
    ensures BlocksOf(edited).Ok? && Policies(BlocksOf(edited).value) == Appended(PoliciesOf(sections), b, command)
  {
    var c := ClauseOf(command);
    ClauseOfIs(command);
    RenderIsSpaced(command);
    AppendedTexts(sections, b, c);
    AppendedIsValid(sections, b, c);
    SpelledParse(edited, WithClauses(sections, b, sections[b].clauses + [c]));
    PoliciesChange(sections, b, sections[b].clauses + [c]);
    CommandsJoin(sections[b].clauses, [c]);
    assert CommandsOf([c]) == [command];
    PoliciesAre(sections);
  }

  /** Inserting a rendered command into text that parses appends that command to its block, and nothing else. */
  lemma InsertCommutes(text: string, b: nat, command: Command)
    requires ParseText(text).Ok? && b < |ParseText(text).value| && IsCommand(command)
    ensures ParseText(text).value[b].close <= |text| && b < |Policies(ParseText(text).value)|
    ensures var edited := ParseText(InsertStatement(text, ParseText(text).value[b].close, Render(command)));
            edited.Ok? && Policies(edited.value) == Appended(Policies(ParseText(text).value), b, command)
  {
    var tokens := TokensOf(text, 0).value;
    var sections := ParsedSpells(tokens);
    SpelledParse(tokens, sections);
    LocatedAre(sections, tokens, 0);
    CloseIs(sections, tokens, b);
    var close := SplitAtToken(text, 0, tokens, CloseIndex(sections, b));
    RenderIsSpaced(command);
    WordsArePlain(command);
    var p, before, q, edited := InsertedTokens(text, tokens, CloseIndex(sections, b), close, WordsOf(command),
                                               Render(command));
    InsertedParse(tokens, sections, b, command, edited, |p| + |before|, |Render(command)|);
    PoliciesAre(sections);
  }

  // ---------------------------------------------------------------- removing

  /** Index of the first token of a command. */
  function StartIndex(sections: seq<Section>, b: nat, j: nat): nat
    requires b < |sections| && j <= |sections[b].clauses|
  {
    HeadSize(sections, b) + ClausesSize(sections[b].clauses[..j])
  }

  function Dropped<T>(items: seq<T>, j: nat): seq<T>
    requires j < |items|
  {
    items[..j] + items[j + 1..]
  }

  lemma CutMiddle<T>(whole: seq<T>, cut: seq<T>, head: seq<T>, tail: seq<T>, p: seq<T>, m: seq<T>, q: seq<T>, s: nat,
                     e: nat)
    requires whole == head + (p + (m + q)) + tail && cut == head + (p + q) + tail
    requires s == |head| + |p| && e == s + |m|
    ensures e <= |whole| && cut == whole[..s] + whole[e..]
  {
    assert whole[..s] == head + p;
    assert whole[e..] == q + tail;
  }

  lemma ClausesAround(clauses: seq<Clause>, j: nat)
    requires j < |clauses|
    ensures ClausesTexts(clauses)
            == ClausesTexts(clauses[..j]) + (ClauseTexts(clauses[j]) + ClausesTexts(clauses[j + 1..]))
  {
    hide ClausesTexts, ClauseTexts;
    var p, c, q := clauses[..j], clauses[j], clauses[j + 1..];
    AroundAt(clauses, j);
    ClausesOf(clauses, p, [c] + q);
    ClausesOf([c] + q, [c], q);
    OneClause(c);
  }

  lemma AroundAt<T>(s: seq<T>, j: nat)
    requires j < |s|
    ensures s == s[..j] + ([s[j]] + s[j + 1..])
  {
  }

  lemma ClausesOf(all: seq<Clause>, a: seq<Clause>, b: seq<Clause>)
    requires all == a + b
    ensures ClausesTexts(all) == ClausesTexts(a) + ClausesTexts(b)
  {
    ClausesJoin(a, b);
  }

  lemma OneClause(c: Clause)
    ensures ClausesTexts([c]) == ClauseTexts(c)
  {
  }

  lemma TextsWithClauses(sections: seq<Section>, b: nat, clauses: seq<Clause>)
    requires b < |sections|
    ensures FileTexts(WithClauses(sections, b, clauses))
            == HeadTexts(sections, b) + ClausesTexts(clauses) + TailTexts(sections, b)
  {
    FileAround(WithClauses(sections, b, clauses), b);
    SameAround(sections, b, clauses);
  }

  /** Cutting a clause out of the tokens drops it from its section. */
  lemma DroppedTexts(sections: seq<Section>, b: nat, j: nat)
    requires b < |sections| && j < |sections[b].clauses|
    ensures StartIndex(sections, b, j) + ClauseSize(sections[b].clauses[j]) <= |FileTexts(sections)|
    ensures var s := StartIndex(sections, b, j);
            FileTexts(WithClauses(sections, b, Dropped(sections[b].clauses, j)))
            == FileTexts(sections)[..s] + FileTexts(sections)[s + ClauseSize(sections[b].clauses[j])..]
  {
    hide FileTexts, FileSize, ClausesTexts;
    var clauses := sections[b].clauses;
    var p, c, q := clauses[..j], clauses[j], clauses[j + 1..];
    FileAround(sections, b);
    TextsWithClauses(sections, b, p + q);
    ClausesAround(clauses, j);
    ClausesJoin(p, q);
    var s := StartIndex(sections, b, j);
    CutMiddle(FileTexts(sections), FileTexts(WithClauses(sections, b, p + q)), HeadTexts(sections, b),
              TailTexts(sections, b), ClausesTexts(p), ClauseTexts(c), ClausesTexts(q), s, s + ClauseSize(c));
  }

  lemma {:induction false} LastOfClauses(clauses: seq<Clause>)
    requires clauses != []
    ensures ClausesTexts(clauses)[ClausesSize(clauses) - 1] == ";"
  {
    if |clauses| > 1 { LastOfClauses(clauses[1..]); }
  }

  /** The token before a command is the opening brace or a semicolon, and its last token is a semicolon. */
  lemma AroundClause(sections: seq<Section>, tokens: seq<Token>, b: nat, j: nat)
    requires b < |sections| && j < |sections[b].clauses| && Texts(tokens) == FileTexts(sections)
             && |tokens| == FileSize(sections)
    ensures var s := StartIndex(sections, b, j);
            var e := s + ClauseSize(sections[b].clauses[j]);
            && 0 < s && e <= |tokens| && !IsWordToken(tokens[s - 1]) && tokens[e - 1].text == ";"
  {
    hide FileTexts, Texts, FileSize;
    var clauses := sections[b].clauses;
    var p, c, q := clauses[..j], clauses[j], clauses[j + 1..];
    var head, tail := HeadTexts(sections, b), TailTexts(sections, b);
    FileAround(sections, b);
    ClausesAround(clauses, j);
    TextsAre(tokens);
    if p != [] { LastOfClauses(p); }
    HeadEnds(sections, b);
    IndexAround(head, ClausesTexts(p), ClauseTexts(c), ClausesTexts(q), tail);
  }

  lemma HeadEnds(sections: seq<Section>, b: nat)
    requires b < |sections|
    ensures |HeadTexts(sections, b)| == HeadSize(sections, b)
            && HeadTexts(sections, b)[HeadSize(sections, b) - 1] == "{"
  {
  }

  lemma IndexAround<T>(head: seq<T>, p: seq<T>, m: seq<T>, q: seq<T>, tail: seq<T>)
    requires head != [] && m != []
    ensures var whole := head + (p + (m + q)) + tail;
            && whole[|head| + |p| - 1] == (if p == [] then head[|head| - 1] else p[|p| - 1])
            && whole[|head| + |p| + |m| - 1] == m[|m| - 1]
  {
  }

  /** After a semicolon come the tokens after it. */
  lemma AfterSemicolon(text: string, tokens: seq<Token>, k: nat, i: nat)
    requires k < |tokens| && IsSplit(text, 0, tokens, k, i) && tokens[k].text == ";"
    ensures TokensOf(text[i + 1..], i + 1) == Ok(tokens[k + 1..])
  {
    var rest := text[i..];
    FirstRead(rest, i);
    assert Cut(rest) == 1 && rest[1..] == text[i + 1..];
    DropsFirst([tokens[k]], TokensOf(text[i + 1..], i + 1).value, tokens[k..], 1);
    assert tokens[k..][1..] == tokens[k + 1..];
  }

  lemma StartsGrow(text: string, tokens: seq<Token>, s: nat, start: nat, k: nat)
    requires s <= k < |tokens| && IsSplit(text, 0, tokens, s, start)
    ensures start <= tokens[k].start
  {
    var j := SplitAtToken(text[start..], start, tokens[s..], k - s);
    assert tokens[s..][k - s] == tokens[k];
  }

  lemma NothingAdds(a: seq<Token>, b: seq<Token>)
    requires a == []
    ensures a + b == b
  {
  }

  /** A line: no line end before its last character, and one there if anything follows. */
  predicate IsLine(line: string, tail: string) {
    (forall i :: 0 <= i < |line| - 1 ==> line[i] != '\n') && (line == "" || tail == "" || line[|line| - 1] == '\n')
  }

  lemma EndIsLine(text: string, end: nat, lineEnd: nat)
    requires end <= |text| && lineEnd == EndOfLine(text, end)
    ensures IsLine(text[end..lineEnd], text[lineEnd..])
  {
  }

  /** The rest of a line that holds no more than a comment can go with it. */
  lemma LineDropped(line: string, tail: string, tokens: seq<Token>, end: nat, next: nat)
    requires TokensOf(line + tail, end) == Ok(tokens) && IsLine(line, tail) && IsRest(Trim(line))
             && next == end + |line|
    ensures TokensOf(tail, next) == Ok(tokens)
  {
    hide IsBoundary;
    LineStartsAtBoundary(line + tail, |line|);
    var a, b := Split(line + tail, line, tail, end);
    RestHasNoTokens(line, end);
    NothingAdds(a, b);
  }

  lemma LineTail(text: string, tokens: seq<Token>, end: nat, lineEnd: nat)
    requires end <= |text| && TokensOf(text[end..], end) == Ok(tokens) && lineEnd == EndOfLine(text, end)
    requires IsRest(Trim(text[end..lineEnd]))
    ensures TokensOf(text[lineEnd..], lineEnd) == Ok(tokens)
  {
    EndIsLine(text, end, lineEnd);
    MiddleAndRest(text, end, lineEnd);
    LineDropped(text[end..lineEnd], text[lineEnd..], tokens, end, lineEnd);
  }

  lemma MiddleAndRest<T>(s: seq<T>, i: nat, j: nat)
    requires i <= j <= |s|
    ensures s[i..] == s[i..j] + s[j..]
  {
  }

  /** The two parts a removal keeps have the tokens before and after the command. */
  lemma RemoveCuts(text: string, tokens: seq<Token>, s: nat, e: nat, start: nat, end: nat)
    returns (p: string, q: string, base: nat)
    requires TokensOf(text, 0) == Ok(tokens) && 0 < s < e <= |tokens| && IsSplit(text, 0, tokens, s, start)
             && start <= end <= |text|
    requires TokensOf(text[end..], end) == Ok(tokens[e..]) && !IsWordToken(tokens[s - 1]) && IsWordToken(tokens[s])
    ensures RemoveStatement(text, start, end) == p + q && Fits(p, q)
    ensures TokensOf(p, 0) == Ok(tokens[..s]) && TokensOf(q, base) == Ok(tokens[e..])
  {
    var lineStart, lineEnd := StartOfLine(text, start), EndOfLine(text, end);
    if Trim(text[lineStart..start]) == "" && IsRest(Trim(text[end..lineEnd])) {
      p, q, base := text[..lineStart], text[lineEnd..], lineEnd;
      WholeLinesFit(text, tokens, s, e, start, end, lineStart, lineEnd);
    } else {
      p, q, base := text[..start], text[end..], end;
      PlaceFits(text, tokens, s, start, tokens[..s], p, text[start..], q);
    }
  }

  lemma WholeLinesFit(text: string, tokens: seq<Token>, s: nat, e: nat, start: nat, end: nat, lineStart: nat,
                      lineEnd: nat)
    requires TokensOf(text, 0) == Ok(tokens) && 0 < s < e <= |tokens| && IsSplit(text, 0, tokens, s, start)
             && start <= end <= |text|
    requires TokensOf(text[end..], end) == Ok(tokens[e..])
    requires lineStart == StartOfLine(text, start) && lineEnd == EndOfLine(text, end)
    requires Trim(text[lineStart..start]) == "" && IsRest(Trim(text[end..lineEnd]))
    ensures Fits(text[..lineStart], text[lineEnd..])
    ensures TokensOf(text[..lineStart], 0) == Ok(tokens[..s]) && TokensOf(text[lineEnd..], lineEnd) == Ok(tokens[e..])
  {
    hide *;
    TrimmedAway(text[lineStart..start]);
    LineHead(text, tokens, s, start, lineStart);
    LineTail(text, tokens[e..], end, lineEnd);
    FitsAfterLine(text[..lineStart], text[lineEnd..]);
  }

  lemma PlaceFits(text: string, tokens: seq<Token>, s: nat, start: nat, before: seq<Token>, p: string, rest: string,
                  q: string)
    requires TokensOf(text, 0) == Ok(tokens) && 0 < s < |tokens| && IsSplit(text, 0, tokens, s, start)
             && start <= |text|
    requires p == text[..start] && rest == text[start..] && before == tokens[..s]
    requires !IsWordToken(tokens[s - 1]) && IsWordToken(tokens[s])
    ensures Fits(p, q)
  {
    hide Cut;
    BoundaryFits(text, start, 0);
    StartsWordThere(text, tokens, s, start);
    assert before[|before| - 1] == tokens[s - 1];
    FitsAfterSymbol(p, rest, q, 0);
  }

  lemma StartsWordThere(text: string, tokens: seq<Token>, s: nat, start: nat)
    requires s < |tokens| && IsSplit(text, 0, tokens, s, start) && IsWordToken(tokens[s])
    ensures text[start..] != "" && text[start..][0] != '\n'
  {
    assert TokenAt(text[start..], start) == [tokens[s]];
  }

  lemma JoinsTwo(p: string, q: string, base: nat, a: seq<Token>, b: seq<Token>) returns (edited: seq<Token>)
    requires TokensOf(p, 0) == Ok(a) && TokensOf(q, base) == Ok(b) && Fits(p, q)
    ensures TokensOf(p + q, 0) == Ok(edited) && Texts(edited) == Texts(a) + Texts(b)
  {
    TokensJoin(p, q, 0);
    TokensMove(q, base, |p|);
    edited := a + TokensOf(q, |p|).value;
    TextsJoin(a, TokensOf(q, |p|).value);
  }

  lemma TextsSliced(tokens: seq<Token>, s: nat, e: nat)
    requires s <= e <= |tokens|
    ensures |Texts(tokens)| == |tokens| && Texts(tokens[..s]) == Texts(tokens)[..s]
            && Texts(tokens[e..]) == Texts(tokens)[e..]
  {
    TextsAre(tokens);
    TextsAre(tokens[..s]);
    TextsAre(tokens[e..]);
  }

  /** Removing the text of the tokens from s to e leaves the others. */
  lemma RemovedTokens(text: string, tokens: seq<Token>, s: nat, e: nat, start: nat, end: nat)
    returns (edited: seq<Token>)
    requires TokensOf(text, 0) == Ok(tokens) && 0 < s < e <= |tokens| && IsSplit(text, 0, tokens, s, start)
             && start <= end <= |text|
    requires TokensOf(text[end..], end) == Ok(tokens[e..]) && !IsWordToken(tokens[s - 1]) && IsWordToken(tokens[s])
    ensures TokensOf(RemoveStatement(text, start, end), 0) == Ok(edited)
    ensures |Texts(tokens)| == |tokens| && Texts(edited) == Texts(tokens)[..s] + Texts(tokens)[e..]
  {
    var p, q, base := RemoveCuts(text, tokens, s, e, start, end);
    edited := JoinsTwo(p, q, base, tokens[..s], tokens[e..]);
    TextsSliced(tokens, s, e);
  }

  /** Where a command of a parsed text is. */
  lemma StatementIs(sections: seq<Section>, tokens: seq<Token>, b: nat, j: nat)
    requires b < |sections| && j < |sections[b].clauses| && |tokens| == FileSize(sections)
    ensures b < |LocateSections(sections, tokens, 0)| && j < |LocateSections(sections, tokens, 0)[b].statements|
    ensures var s := StartIndex(sections, b, j);
            var e := s + ClauseSize(sections[b].clauses[j]);
            var statement := LocateSections(sections, tokens, 0)[b].statements[j];
            e <= |tokens| && statement.start == tokens[s].start && statement.end == tokens[e - 1].start + 1
  {
    hide ClausesSize, ClauseSize;
    LocatedSection(sections, tokens, b);
    LocatedClause(sections[b].clauses, tokens, HeadSize(sections, b), j);
  }

  lemma StatementsAre(sections: seq<Section>, tokens: seq<Token>, b: nat)
    requires b < |sections| && |tokens| == FileSize(sections)
    ensures b < |LocateSections(sections, tokens, 0)|
    ensures |LocateSections(sections, tokens, 0)[b].statements| == |sections[b].clauses|
  {
    LocatedSection(sections, tokens, b);
    LocatedClausesAre(sections[b].clauses, tokens, HeadSize(sections, b));
  }

  lemma StartsWithWord(sections: seq<Section>, tokens: seq<Token>, b: nat, j: nat)
    requires b < |sections| && j < |sections[b].clauses| && Texts(tokens) == FileTexts(sections)
             && |tokens| == FileSize(sections)
    ensures StartIndex(sections, b, j) < |tokens| && IsWordToken(tokens[StartIndex(sections, b, j)])
  {
    var c := sections[b].clauses[j];
    FileAround(sections, b);
    ClausesAround(sections[b].clauses, j);
    TextsAre(tokens);
    MiddleStarts(HeadTexts(sections, b), ClausesTexts(sections[b].clauses[..j]), ClauseTexts(c),
                 ClausesTexts(sections[b].clauses[j + 1..]), TailTexts(sections, b));
    assert ClauseTexts(c)[0] == OperationName(c.operation);
  }

  lemma MiddleStarts<T>(head: seq<T>, p: seq<T>, m: seq<T>, q: seq<T>, tail: seq<T>)
    requires m != []
    ensures var whole := head + (p + (m + q)) + tail; |head| + |p| < |whole| && whole[|head| + |p|] == m[0]
  {
  }

  lemma DroppedCommands(clauses: seq<Clause>, j: nat)
    requires j < |clauses|
    ensures |CommandsOf(clauses)| == |clauses| && CommandsOf(Dropped(clauses, j)) == Dropped(CommandsOf(clauses), j)
  {
    CommandsAre(clauses);
    CommandsAre(Dropped(clauses, j));
  }

  /** The edited tokens of a removal parse to the policies without the command. */
  lemma RemovedParse(tokens: seq<Token>, sections: seq<Section>, b: nat, j: nat, edited: seq<Token>)
    requires AreSections(sections) && Texts(tokens) == FileTexts(sections)
    requires b < |sections| && j < |sections[b].clauses|
    requires var s := StartIndex(sections, b, j);
             var e := s + ClauseSize(sections[b].clauses[j]);
             e <= |Texts(tokens)| && Texts(edited) == Texts(tokens)[..s] + Texts(tokens)[e..]
    ensures b < |PoliciesOf(sections)| && j < |PoliciesOf(sections)[b].commands|
    ensures BlocksOf(edited).Ok? && Policies(BlocksOf(edited).value) == Without(PoliciesOf(sections), b, j)
  {
    hide FileTexts;
    var clauses := sections[b].clauses;
    DroppedTexts(sections, b, j);
    SpelledParse(edited, WithClauses(sections, b, Dropped(clauses, j)));
    PoliciesChange(sections, b, Dropped(clauses, j));
    PoliciesAre(sections);
    DroppedCommands(clauses, j);
  }

  /** Removing a command from text that parses leaves out that command, and nothing else. */
  lemma RemoveCommutes(text: string, b: nat, j: nat)
    requires ParseText(text).Ok? && b < |ParseText(text).value| && j < |ParseText(text).value[b].statements|
    ensures var statement := ParseText(text).value[b].statements[j]; statement.start <= statement.end <= |text|
    ensures b < |Policies(ParseText(text).value)| && j < |Policies(ParseText(text).value)[b].commands|
    ensures var statement := ParseText(text).value[b].statements[j];
            var edited := ParseText(RemoveStatement(text, statement.start, statement.end));
            edited.Ok? && Policies(edited.value) == Without(Policies(ParseText(text).value), b, j)
  {
    var tokens := TokensOf(text, 0).value;
    var sections := ParsedSpells(tokens);
    SpelledParse(tokens, sections);
    LocatedAre(sections, tokens, 0);
    StatementsAre(sections, tokens, b);
    StatementIs(sections, tokens, b, j);
    var edited := RemoveSpelled(text, tokens, sections, b, j);
  }

  lemma RemoveSpelled(text: string, tokens: seq<Token>, sections: seq<Section>, b: nat, j: nat)
    returns (edited: seq<Token>)
    requires TokensOf(text, 0) == Ok(tokens) && AreSections(sections) && Texts(tokens) == FileTexts(sections)
    requires |tokens| == FileSize(sections) && b < |sections| && j < |sections[b].clauses|
    ensures var s := StartIndex(sections, b, j);
            var e := s + ClauseSize(sections[b].clauses[j]);
            && e <= |tokens| && tokens[s].start <= tokens[e - 1].start + 1 <= |text|
            && TokensOf(RemoveStatement(text, tokens[s].start, tokens[e - 1].start + 1), 0) == Ok(edited)
    ensures b < |PoliciesOf(sections)| && j < |PoliciesOf(sections)[b].commands|
    ensures BlocksOf(edited).Ok? && Policies(BlocksOf(edited).value) == Without(PoliciesOf(sections), b, j)
  {
    hide FileTexts;
    var s := StartIndex(sections, b, j);
    var e := s + ClauseSize(sections[b].clauses[j]);
    AroundClause(sections, tokens, b, j);
    StartsWithWord(sections, tokens, b, j);
    edited := RemoveSplit(text, tokens, s, e);
    RemovedParse(tokens, sections, b, j, edited);
  }

  lemma RemoveSplit(text: string, tokens: seq<Token>, s: nat, e: nat) returns (edited: seq<Token>)
    requires TokensOf(text, 0) == Ok(tokens) && 0 < s < e <= |tokens|
    requires !IsWordToken(tokens[s - 1]) && IsWordToken(tokens[s]) && tokens[e - 1].text == ";"
    ensures tokens[s].start <= tokens[e - 1].start + 1 <= |text|
    ensures TokensOf(RemoveStatement(text, tokens[s].start, tokens[e - 1].start + 1), 0) == Ok(edited)
    ensures |Texts(tokens)| == |tokens| && Texts(edited) == Texts(tokens)[..s] + Texts(tokens)[e..]
  {
    var start, end := PlaceOf(text, tokens, s, e);
    edited := RemovedTokens(text, tokens, s, e, start, end);
  }

  /** Where the text of the tokens from s to e is, when the last is a semicolon. */
  lemma PlaceOf(text: string, tokens: seq<Token>, s: nat, e: nat) returns (start: nat, end: nat)
    requires TokensOf(text, 0) == Ok(tokens) && s < e <= |tokens| && tokens[e - 1].text == ";"
    ensures start == tokens[s].start && end == tokens[e - 1].start + 1 && start <= end <= |text|
    ensures IsSplit(text, 0, tokens, s, start) && TokensOf(text[end..], end) == Ok(tokens[e..])
  {
    start := SplitAtToken(text, 0, tokens, s);
    StartsGrow(text, tokens, s, start, e - 1);
    end := EndOf(text, tokens, e);
  }

  lemma EndOf(text: string, tokens: seq<Token>, e: nat) returns (end: nat)
    requires TokensOf(text, 0) == Ok(tokens) && 0 < e <= |tokens| && tokens[e - 1].text == ";"
    ensures end == tokens[e - 1].start + 1 <= |text| && TokensOf(text[end..], end) == Ok(tokens[e..])
  {
    var i := SplitAtToken(text, 0, tokens, e - 1);
    end := i + 1;
    AfterSemicolon(text, tokens, e - 1, i);
  }

  // ---------------------------------------------------------------- removing what was inserted

  lemma {:induction false} LineStartIs(text: string, i: nat, start: nat)
    requires start <= i <= |text| && (start == 0 || text[start - 1] == '\n') && forall k :: start <= k < i ==>
               text[k] != '\n'
    ensures StartOfLine(text, i) == start
  {
    if start < i { LineStartIs(text, i - 1, start); }
  }

  lemma {:induction false} LineEndIs(text: string, i: nat, end: nat)
    requires i < end <= |text| && text[end - 1] == '\n' && forall k :: i <= k < end - 1 ==> text[k] != '\n'
    ensures EndOfLine(text, i) == end
    decreases end - i
  {
    if i < end - 1 { LineEndIs(text, i + 1, end); }
  }

  /** Nothing but whitespace, or a comment. */
  predicate IsBlankOrComment(s: string) { AllSpace(s) || "#" <= TrimStart(s) || "//" <= TrimStart(s) }

  lemma RestMeans(s: string, after: string)
    requires AllSpace(after)
    ensures Trim(s) == "" <==> AllSpace(s)
    ensures IsRest(Trim(s + after)) <==> IsBlankOrComment(s)
  {
    hide TrimStart, TrimEnd, Trim;
    Markers.TrimDropsEnd(s, after);
    BlankMeans(s);
    StartsAreKept(s);
  }

  lemma BlankMeans(s: string)
    ensures Trim(s) == "" <==> AllSpace(s)
  {
    hide TrimStart, TrimEnd, Trim;
    var lead, trail := Markers.TrimSplits(s);
    if Trim(s) == "" {
      assert s == lead + trail;
    } else {
      TrimIsTight(s);
      assert s[|lead|] == Trim(s)[0];
    }
  }

  lemma TrimIsTight(s: string)
    requires Trim(s) != ""
    ensures !IsSpace(Trim(s)[0])
  {
    hide TrimStart, TrimEnd;
    Markers.TrimStartSplits(s);
    Markers.TrimEndSplits(TrimStart(s));
    assert Trim(s)[0] == TrimStart(s)[0];
  }

  /** Trimming the end keeps what the text begins with, as far as that is no whitespace. */
  lemma StartsAreKept(s: string)
    ensures "#" <= Trim(s) <==> "#" <= TrimStart(s)
    ensures "//" <= Trim(s) <==> "//" <= TrimStart(s)
  {
    hide TrimStart, TrimEnd;
    var t, n := TrimStart(s), |Trim(s)|;
    Markers.TrimEndSplits(t);
    assert t[..n] == Trim(s);
    forall i | n <= i < |t|
      ensures IsSpace(t[i])
    {
      assert t[i] == t[n..][i - n];
    }
    assert forall i :: 0 <= i < n ==> t[..n][i] == t[i];
    assert !IsSpace('#') && !IsSpace('/');
    OpensWith(t);
    OpensWith(Trim(s));
  }

  lemma OpensWith(s: string)
    ensures "#" <= s <==> |s| > 0 && s[0] == '#'
    ensures "//" <= s <==> |s| > 1 && s[0] == '/' && s[1] == '/'
  {
  }

  /** Removing a command takes its whole line when nothing but whitespace is before it, and nothing but whitespace or a
      comment behind it; otherwise it takes the command and nothing else. */
  lemma RemovedText(head: string, lead: string, command: string, trail: string, q: string)
    requires (head == "" || head[|head| - 1] == '\n') && '\n' !in lead && '\n' !in trail
    ensures var text, start := head + lead + command + trail + "\n" + q, |head| + |lead|;
            RemoveStatement(text, start, start + |command|)
            == if AllSpace(lead) && IsBlankOrComment(trail) then head + q else head + lead + (trail + "\n" + q)
  {
    hide StartOfLine, EndOfLine, IsBlankOrComment, Trim, IsRest, AllSpace;
    var text, start := head + lead + command + trail + "\n" + q, |head| + |lead|;
    var end := start + |command|;
    var next := end + |trail| + 1;
    CutText(head, lead, command, trail, q);
    LineStartIs(text, start, |head|);
    LineEndIs(text, end, next);
    assert lead + "" == lead;
    NoneIsSpace();
    RestMeans(lead, "");
    RestMeans(trail, "\n");
  }

  /** Inserting a command puts it on a line of its own, with four spaces before it: the line before that of the brace
      when only whitespace is before the brace, and the rest of its line otherwise. */
  lemma InsertedText(head: string, lead: string, q: string, statement: string)
    requires (head == "" || head[|head| - 1] == '\n') && '\n' !in lead
    ensures var text := head + lead + q;
            var newline := if Contains(text, "\r\n") then "\r\n" else "\n";
            InsertStatement(text, |head| + |lead|, statement)
            == if AllSpace(lead) then head + "    " + statement + newline + (lead + q)
               else head + lead + newline + "    " + statement + newline + q
  {
    hide StartOfLine, Trim, AllSpace, Contains;
    var text, close := head + lead + q, |head| + |lead|;
    assert text[..|head|] == head && text[|head|..] == lead + q && text[|head|..close] == lead;
    assert text[..close] == head + lead && text[close..] == q;
    forall k | |head| <= k < close
      ensures text[k] != '\n'
    {
      assert text[k] == lead[k - |head|];
    }
    assert |head| > 0 ==> text[|head| - 1] == head[|head| - 1];
    LineStartIs(text, close, |head|);
    BlankMeans(lead);
  }

  lemma NoneIsSpace()
    ensures AllSpace("") && AllSpace("\n")
  {
  }

  lemma CutText(head: string, lead: string, command: string, trail: string, q: string)
    requires '\n' !in lead && '\n' !in trail
    ensures var text, start := head + lead + command + trail + "\n" + q, |head| + |lead|;
            var end := start + |command|;
            var next := end + |trail| + 1;
            && text[..|head|] == head && text[|head|..start] == lead && text[end..next] == trail + "\n"
            && text[next..] == q && text[..start] == head + lead && text[end..] == trail + "\n" + q
            && (|head| > 0 ==> text[|head| - 1] == head[|head| - 1]) && text[next - 1] == '\n'
            && (forall k :: |head| <= k < start ==> text[k] != '\n')
            && forall k :: end <= k < next - 1 ==> text[k] != '\n'
  {
    var text, start := head + lead + command + trail + "\n" + q, |head| + |lead|;
    var end := start + |command|;
    forall k | |head| <= k < start
      ensures text[k] != '\n'
    {
      assert text[k] == lead[k - |head|];
    }
    forall k | end <= k < end + |trail|
      ensures text[k] != '\n'
    {
      assert text[k] == trail[k - end];
    }
  }

  /** A line of its own, with four spaces before it, is removed whole. */
  lemma OwnLineRemoved(head: string, line: string, newline: string, q: string)
    requires head == "" || head[|head| - 1] == '\n'
    requires newline == "\n" || newline == "\r\n"
    ensures RemoveStatement(head + "    " + line + newline + q, |head| + 4, |head| + 4 + |line|) == head + q
  {
    hide StartOfLine, TrimStart, EndOfLine;
    var text := head + "    " + line + newline + q;
    var start, end := |head| + 4, |head| + 4 + |line|;
    var next := end + |newline|;
    assert text[|head|..start] == "    " && text[end..next] == newline && text[..|head|] == head && text[next..] == q;
    forall k | |head| <= k < start
      ensures text[k] != '\n'
    {
      assert text[k] == text[|head|..start][k - |head|];
    }
    LineStartIs(text, start, |head|);
    assert text[end..next][|newline| - 1] == '\n';
    forall k | end <= k < next - 1
      ensures text[k] != '\n'
    {
      assert text[k] == text[end..next][k - end];
    }
    LineEndIs(text, end, next);
    Markers.AllSpaceTrims("    ");
    Markers.AllSpaceTrims(newline);
  }

  lemma UndoParts(alone: bool, line: string, newline: string, p: string, before: string, q: string)
    returns (head: string)
    requires newline == "\n" || newline == "\r\n"
    requires if alone then before == "    " && (p == "" || p[|p| - 1] == '\n') else before == newline + "    "
    ensures (head == "" || head[|head| - 1] == '\n') && |head| + 4 == |p| + |before|
    ensures p + (before + (line + (newline + q))) == head + "    " + line + newline + q
    ensures head + q == p + q <==> alone
  {
    if alone {
      head := p;
      FiveParts(p, before, line, newline, q);
    } else {
      head := p + newline;
      FiveParts(head, "    ", line, newline, q);
      SixParts(p, newline, "    ", line + (newline + q));
      assert |head + q| > |p + q|;
    }
  }

  lemma OwnLineUndone(edited: string, head: string, line: string, newline: string, q: string, start: nat, end: nat)
    requires (head == "" || head[|head| - 1] == '\n') && (newline == "\n" || newline == "\r\n")
    requires edited == head + "    " + line + newline + q && start == |head| + 4 && end == start + |line|
    ensures end <= |edited| && RemoveStatement(edited, start, end) == head + q
  {
    OwnLineRemoved(head, line, newline, q);
  }

  lemma NewlineIs(text: string)
    ensures Newline(text) == "\n" || Newline(text) == "\r\n"
  {
  }

  /** Undoing an insertion restores the text exactly when only space stands before the brace on its line. */
  lemma UndoText(text: string, alone: bool, line: string, newline: string, p: string, before: string, q: string,
                 edited: string, start: nat, end: nat)
    requires text == p + q && edited == p + (before + (line + (newline + q))) && start == |p| + |before|
             && end == start + |line|
    requires newline == "\n" || newline == "\r\n"
    requires if alone then before == "    " && (p == "" || p[|p| - 1] == '\n') else before == newline + "    "
    ensures end <= |edited| && (RemoveStatement(edited, start, end) == text <==> alone)
  {
    var head := UndoParts(alone, line, newline, p, before, q);
    OwnLineUndone(edited, head, line, newline, q, start, end);
  }

  lemma SixParts(p: string, newline: string, blank: string, rest: string)
    ensures p + ((newline + blank) + rest) == (p + newline) + (blank + rest)
  {
  }

  /** The last command of block b. */
  function LastStatement(blocks: seq<Block>, b: nat): Statement
    requires b < |blocks| && blocks[b].statements != []
  {
    blocks[b].statements[|blocks[b].statements| - 1]
  }

  /** The statement that an insertion added is where the command was written. */
  lemma InsertedStatement(tokens: seq<Token>, sections: seq<Section>, b: nat, command: Command, edited: seq<Token>,
                          at: nat, size: nat)
    requires AreSections(sections) && Texts(tokens) == FileTexts(sections) && b < |sections| && IsCommand(command)
    requires IsInserted(edited, tokens, CloseIndex(sections, b), WordsOf(command), at, size)
    ensures BlocksOf(edited).Ok? && b < |BlocksOf(edited).value| && BlocksOf(edited).value[b].statements != []
    ensures var statement := LastStatement(BlocksOf(edited).value, b);
            statement.start == at && statement.end == at + size
  {
    hide HeadSize;
    var c := ClauseOf(command);
    var clauses := sections[b].clauses;
    var changed := WithClauses(sections, b, clauses + [c]);
    ClauseOfIs(command);
    RenderIsSpaced(command);
    AppendedTexts(sections, b, c);
    AppendedIsValid(sections, b, c);
    SpelledParse(edited, changed);
    StatementsAre(changed, edited, b);
    StatementIs(changed, edited, b, |clauses|);
    AppendedStartsAtClose(sections, b, c);
  }

  lemma AppendedStartsAtClose(sections: seq<Section>, b: nat, c: Clause)
    requires b < |sections|
    ensures var changed := WithClauses(sections, b, sections[b].clauses + [c]);
            StartIndex(changed, b, |sections[b].clauses|) == CloseIndex(sections, b)
  {
    var clauses := sections[b].clauses;
    SameAround(sections, b, clauses + [c]);
    assert (clauses + [c])[..|clauses|] == clauses;
  }

  /** Removing the command that was just inserted gives the text back exactly when only space stands before the
      closing brace on its line. */
  lemma RemoveUndoesInsert(text: string, b: nat, command: Command, edited: string)
    requires ParseText(text).Ok? && b < |ParseText(text).value| && IsCommand(command)
    requires ParseText(text).value[b].close <= |text|
    requires edited == InsertStatement(text, ParseText(text).value[b].close, Render(command))
    ensures ParseText(edited).Ok? && b < |ParseText(edited).value| && ParseText(edited).value[b].statements != []
    ensures var statement := LastStatement(ParseText(edited).value, b);
            && statement.start <= statement.end <= |edited|
            && (RemoveStatement(edited, statement.start, statement.end) == text
                <==> OnlySpaceBefore(text, ParseText(text).value[b].close))
  {
    var tokens := TokensOf(text, 0).value;
    var sections := ParsedSpells(tokens);
    SpelledParse(tokens, sections);
    LocatedAre(sections, tokens, 0);
    CloseIs(sections, tokens, b);
    var close := SplitAtToken(text, 0, tokens, CloseIndex(sections, b));
    var start, end := UndoInserted(text, tokens, sections, b, command, close, edited);
  }

  lemma UndoInserted(text: string, tokens: seq<Token>, sections: seq<Section>, b: nat, command: Command, close: nat,
                     edited: string)
    returns (start: nat, end: nat)
    requires TokensOf(text, 0) == Ok(tokens) && AreSections(sections) && Texts(tokens) == FileTexts(sections)
    requires b < |sections| && IsCommand(command) && CloseIndex(sections, b) < |tokens| && close <= |text|
    requires IsSplit(text, 0, tokens, CloseIndex(sections, b), close)
             && edited == InsertStatement(text, close, Render(command))
    ensures ParseText(edited).Ok? && b < |ParseText(edited).value| && ParseText(edited).value[b].statements != []
    ensures var statement := LastStatement(ParseText(edited).value, b); statement.start == start && statement.end == end
    ensures start <= end <= |edited| && (RemoveStatement(edited, start, end) == text <==> OnlySpaceBefore(text, close))
  {
    hide AreSections, BlocksOf, FileTexts, IsInserted, IsSplit, Newline, Spaced, TokensOf;
    var line := Render(command);
    RenderIsSpaced(command);
    WordsArePlain(command);
    var p, before, q, changed := InsertedTokens(text, tokens, CloseIndex(sections, b), close, WordsOf(command), line);
    start, end := |p| + |before|, |p| + |before| + |line|;
    InsertedStatement(tokens, sections, b, command, changed, start, |line|);
    NewlineIs(text);
    UndoText(text, OnlySpaceBefore(text, close), line, Newline(text), p, before, q, edited, start, end);
  }
}
