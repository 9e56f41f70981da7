// src/governance/policy.rs and changes.rs: how the keywords of the policy language are spelled.
module PolicySpelling {
  import opened Anchors
  import Classify
  import Markers
  import opened PolicyTokens
  import opened PolicyGrammar
  import PolicyEdits
  import opened PolicyTexts

  // ---------------------------------------------------------------- change types

  /** A letter of a change type may be a capital, and an underscore a hyphen. */
  predicate IsSpelling(c: char, of: char) {
    c == of || ('a' <= of <= 'z' && c as int + 32 == of as int) || (of == '_' && c == '-')
  }

  predicate Spells(value: string, word: string) {
    |value| == |word| && forall i :: 0 <= i < |value| ==> IsSpelling(value[i], word[i])
  }

  lemma {:induction false} FoldedSpells(value: string, word: string)
    requires forall c :: c in word ==> 'a' <= c <= 'z' || c == '_'
    ensures Folded(value) == word <==> Spells(value, word)
  {
    if value != "" && word != "" {
      var rest := Folded(value[1..]);
      assert forall c :: c in word[1..] ==> c in word;
      FoldedSpells(value[1..], word[1..]);
      assert word == [word[0]] + word[1..] && word[0] in word;
      assert Folded(value) == [Folded(value)[0]] + rest;
      FirstSpells(value, word);
      assert Folded(value) == word <==> Folded(value)[0] == word[0] && rest == word[1..];
    }
  }

  lemma FirstSpells(value: string, word: string)
    requires value != "" && word != ""
    ensures Spells(value, word) <==> IsSpelling(value[0], word[0]) && Spells(value[1..], word[1..])
  {
    if IsSpelling(value[0], word[0]) && Spells(value[1..], word[1..]) {
      forall i | 0 <= i < |value|
        ensures IsSpelling(value[i], word[i])
      {
        if i > 0 { assert value[i] == value[1..][i - 1] && word[i] == word[1..][i - 1]; }
      }
    }
  }

  /** Which values a change type takes. */
  lemma KindMeans(value: string)
    ensures KindNamed(value) == Some(Classify.LogicalBn) <==> Spells(value, "logical_bn")
    ensures KindNamed(value) == Some(Classify.LogicalCn) <==> Spells(value, "logical_cn")
    ensures KindNamed(value) == Some(Classify.LogicalSn) <==> Spells(value, "logical_sn")
    ensures KindNamed(value) == Some(Classify.Semantic) <==> Spells(value, "semantic")
  {
    hide Folded, Spells;
    FoldedSpells(value, "logical_bn");
    FoldedSpells(value, "logical_cn");
    FoldedSpells(value, "logical_sn");
    FoldedSpells(value, "semantic");
    assert "logical_bn"[8] == 'b' && "logical_cn"[8] == 'c' && "logical_sn"[8] == 's' && |"semantic"| == 8;
  }

  // ---------------------------------------------------------------- a policy with one command

  function OperationText(operation: Operation): string {
    match operation
    case Preserve => "preserve"
    case Target => "target"
  }

  /** A change type, when there is one, and what follows. */
  function ValueText(value: Option<string>, rest: string): string {
    match value
    case None => rest
    case Some(v) => " " + ("change_type" + (" " + (v + rest)))
  }

  /** A policy with one command on a line of its own. */
  function PolicyText(name: string, operation: Operation, id: string, value: Option<string>): string {
    "policy" + (" " + (name + (" " + ("{" + ("\n  " + CommandText(operation, id, value))))))
  }

  function CommandText(operation: Operation, id: string, value: Option<string>): string {
    OperationText(operation) + (" " + (id + ValueText(value, ";" + ("\n" + ("}" + "\n")))))
  }

  predicate IsWord(word: string) { word != "" && forall c :: c in word ==> IsWordCharacter(c) }

  lemma KeywordsAreWords()
    ensures IsWord("policy") && IsWord("preserve") && IsWord("target") && IsWord("change_type")
  {
  }

  lemma NamesAreWords(name: string, id: string)
    requires Markers.IsName(name) && Markers.IsSelectionId(id)
    ensures IsWord(name) && IsWord(id)
  {
  }

  function OneToken(text: string, start: nat, rest: Result<seq<Token>>): Result<seq<Token>> {
    PolicyTokens.After([Token(text, start)], rest)
  }

  /** A word between blanks. */
  lemma WordThenBlank(word: string, blank: string, s: string, base: nat)
    requires IsWord(word) && blank != "" && forall c :: c in blank ==> IsBlankCharacter(c)
    ensures TokensOf(word + (blank + s), base) == OneToken(word, base, TokensOf(s, base + |word| + |blank|))
  {
    hide TokensOf, IsWordCharacter;
    BlankIsNoWord(blank, s);
    WordIsToken(word, blank + s, base);
    BlanksAreDropped(blank, s, base + |word|);
  }

  lemma BlankIsNoWord(blank: string, s: string)
    requires blank != "" && forall c :: c in blank ==> IsBlankCharacter(c)
    ensures blank + s != "" && !IsWordCharacter((blank + s)[0])
  {
    assert (blank + s)[0] == blank[0] && blank[0] in blank;
  }

  lemma BlanksAre()
    ensures forall c :: c in " " ==> IsBlankCharacter(c)
    ensures forall c :: c in "\n" ==> IsBlankCharacter(c)
    ensures forall c :: c in "\n  " ==> IsBlankCharacter(c)
  {
  }

  /** The closing of the policy and of its command. */
  lemma EndReads(base: nat)
    ensures TokensOf(";" + ("\n" + ("}" + "\n")), base) == Ok([Token(";", base), Token("}", base + 2)])
  {
    hide TokensOf;
    BlanksAre();
    SymbolIsToken(';', "\n" + ("}" + "\n"), base);
    BlanksAreDropped("\n", "}" + "\n", base + 1);
    SymbolIsToken('}', "\n", base + 2);
    BlanksAreDropped("\n", "", base + 3);
    assert "\n" + "" == "\n" && TokensOf("", base + 4) == Ok([]) by { NothingReads(base + 4); }
    assert [Token("}", base + 2)] + [] == [Token("}", base + 2)];
    assert [Token(";", base)] + [Token("}", base + 2)] == [Token(";", base), Token("}", base + 2)];
  }

  lemma NothingReads(base: nat)
    ensures TokensOf("", base) == Ok([])
  {
  }

  /** What a change type adds to the tokens. */
  function ValueTokens(value: Option<string>, base: nat): seq<Token> {
    match value
    case None => []
    case Some(v) => [Token("change_type", base + 1), Token(v, base + 13)]
  }

  function ValueSize(value: Option<string>): nat {
    match value
    case None => 0
    case Some(v) => 13 + |v|
  }

  lemma ValueReads(value: Option<string>, rest: string, base: nat)
    requires value.Some? ==> IsWord(value.value)
    requires rest != "" && !IsWordCharacter(rest[0])
    ensures TokensOf(ValueText(value, rest), base)
            == PolicyTokens.After(ValueTokens(value, base), TokensOf(rest, base + ValueSize(value)))
    ensures var text := ValueText(value, rest); text != "" && !IsWordCharacter(text[0])
  {
    hide TokensOf;
    match value {
      case None => AfterNothing(TokensOf(rest, base));
      case Some(v) =>
        assert (" " + ("change_type" + (" " + (v + rest))))[0] == ' ';
        BlanksAre();
        KeywordsAreWords();
        BlanksAreDropped(" ", "change_type" + (" " + (v + rest)), base);
        WordThenBlank("change_type", " ", v + rest, base + 1);
        WordIsToken(v, rest, base + 13);
        assert |"change_type"| == 11;
        AfterBoth([Token("change_type", base + 1)], [Token(v, base + 13)], TokensOf(rest, base + 13 + |v|));
        assert [Token("change_type", base + 1)] + [Token(v, base + 13)] == ValueTokens(value, base);
    }
  }

  /** The tokens of a command and of the end of its policy. */
  function CommandTokens(operation: Operation, id: string, value: Option<string>, base: nat): seq<Token> {
    var from := base + |OperationText(operation)| + 1;
    var end := from + |id| + ValueSize(value);
    [Token(OperationText(operation), base), Token(id, from)] + ValueTokens(value, from + |id|)
    + [Token(";", end), Token("}", end + 2)]
  }

  lemma CommandReads(operation: Operation, id: string, value: Option<string>, base: nat)
    requires Markers.IsSelectionId(id) && (value.Some? ==> IsWord(value.value))
    ensures TokensOf(CommandText(operation, id, value), base) == Ok(CommandTokens(operation, id, value, base))
  {
    hide TokensOf;
    var rest := ";" + ("\n" + ("}" + "\n"));
    var word := OperationText(operation);
    var from := base + |word| + 1;
    var end := from + |id| + ValueSize(value);
    BlanksAre();
    KeywordsAreWords();
    NamesAreWords("a", id);
    WordThenBlank(word, " ", id + ValueText(value, rest), base);
    assert rest[0] == ';';
    ValueReads(value, rest, from + |id|);
    WordIsToken(id, ValueText(value, rest), from);
    EndReads(end);
    var last := [Token(";", end), Token("}", end + 2)];
    FourParts([Token(word, base)], [Token(id, from)], ValueTokens(value, from + |id|), last);
    assert [Token(word, base)] + [Token(id, from)] == [Token(word, base), Token(id, from)];
  }

  lemma FourParts<T>(a: seq<T>, b: seq<T>, c: seq<T>, d: seq<T>)
    ensures a + (b + (c + d)) == (a + b) + c + d
  {
  }

  /** The tokens of the whole policy. */
  function PolicyTokensOf(name: string, operation: Operation, id: string, value: Option<string>): seq<Token> {
    [Token("policy", 0), Token(name, 7), Token("{", 8 + |name|)] + CommandTokens(operation, id, value, 12 + |name|)
  }

  lemma PolicyTextReads(name: string, operation: Operation, id: string, value: Option<string>)
    requires Markers.IsName(name) && Markers.IsSelectionId(id) && (value.Some? ==> IsWord(value.value))
    ensures TokensOf(PolicyText(name, operation, id, value), 0) == Ok(PolicyTokensOf(name, operation, id, value))
  {
    hide TokensOf, CommandText, CommandTokens;
    var command := CommandText(operation, id, value);
    BlanksAre();
    KeywordsAreWords();
    NamesAreWords(name, id);
    WordThenBlank("policy", " ", name + (" " + ("{" + ("\n  " + command))), 0);
    WordThenBlank(name, " ", "{" + ("\n  " + command), 7);
    SymbolIsToken('{', "\n  " + command, 8 + |name|);
    BlanksAreDropped("\n  ", command, 9 + |name|);
    CommandReads(operation, id, value, 12 + |name|);
    FourParts([Token("policy", 0)], [Token(name, 7)], [Token("{", 8 + |name|)],
              CommandTokens(operation, id, value, 12 + |name|));
    assert [Token("policy", 0)] + [Token(name, 7)] + [Token("{", 8 + |name|)]
           == [Token("policy", 0), Token(name, 7), Token("{", 8 + |name|)];
  }

  /** A policy with one command, as it is written in the documentation, parses to that command. */
  lemma PolicyParses(name: string, operation: Operation, id: string, value: Option<string>)
    requires Markers.IsName(name) && Markers.IsSelectionId(id)
    requires value.Some? ==> operation.Target? && IsWord(value.value) && KindNamed(value.value).Some?
    ensures var start := 12 + |name|;
            var end := start + |OperationText(operation)| + 1 + |id| + ValueSize(value);
            PolicyEdits.ParseText(PolicyText(name, operation, id, value))
            == Ok([Block(name, [Statement(operation, id, if value.Some? then KindNamed(value.value) else None, start,
                                          end + 1)], end + 2)])
  {
    hide TokensOf, PolicyText, KindNamed, Folded, ReadSections, Markers.IsName, Markers.IsSelectionId;
    PolicyTextReads(name, operation, id, value);
    var tokens := PolicyTokensOf(name, operation, id, value);
    var section := Section(name, [Clause(operation, id, value)]);
    TextsSpell(name, operation, id, value);
    assert AreSections([section]);
    ReadSectionsIs(Texts(tokens), [section]);
    Located(name, operation, id, value);
  }

  lemma TextsSpell(name: string, operation: Operation, id: string, value: Option<string>)
    ensures Texts(PolicyTokensOf(name, operation, id, value))
            == FileTexts([Section(name, [Clause(operation, id, value)])])
  {
    hide ClausesSize;
    var tokens := PolicyTokensOf(name, operation, id, value);
    var texts := FileTexts([Section(name, [Clause(operation, id, value)])]);
    TextsAre(tokens);
    assert [Clause(operation, id, value)][1..] == [] && [Section(name, [Clause(operation, id, value)])][1..] == [];
    assert OperationText(operation) == OperationName(operation);
    assert ClausesTexts([Clause(operation, id, value)]) == ClauseTexts(Clause(operation, id, value)) + [];
    assert texts == ["policy", name, "{"] + (ClauseTexts(Clause(operation, id, value)) + []) + ["}"] + [];
    assert |texts| == |tokens|;
    forall i | 0 <= i < |texts|
      ensures Texts(tokens)[i] == texts[i]
    {
    }
  }

  /** Where the command and its policy end. */
  lemma EndTokens(name: string, operation: Operation, id: string, value: Option<string>)
    ensures var tokens := PolicyTokensOf(name, operation, id, value);
            var n := 3 + ClauseSize(Clause(operation, id, value));
            var end := 12 + |name| + |OperationText(operation)| + 1 + |id| + ValueSize(value);
            && |tokens| == n + 1 && tokens[3].start == 12 + |name|
            && tokens[n - 1].start == end && tokens[n].start == end + 2
  {
    if value.None? {
      assert ValueTokens(value, 0) == [];
    }
  }

  lemma Located(name: string, operation: Operation, id: string, value: Option<string>)
    requires value.Some? ==> KindNamed(value.value).Some?
    ensures var tokens := PolicyTokensOf(name, operation, id, value);
            var sections := [Section(name, [Clause(operation, id, value)])];
            var start := 12 + |name|;
            var end := start + |OperationText(operation)| + 1 + |id| + ValueSize(value);
            && FileSize(sections) <= |tokens|
            && LocateSections(sections, tokens, 0)
               == [Block(name, [Statement(operation, id, if value.Some? then KindNamed(value.value) else None, start,
                                          end + 1)], end + 2)]
  {
    hide KindNamed;
    var clause := Clause(operation, id, value);
    var sections := [Section(name, [clause])];
    assert [clause][1..] == [] && sections[1..] == [];
    assert ClausesSize([]) == 0 && ClausesSize([clause]) == ClauseSize(clause);
    assert FileSize([]) == 0 && FileSize(sections) == 4 + ClauseSize(clause);
    var tokens := PolicyTokensOf(name, operation, id, value);
    EndTokens(name, operation, id, value);
    var kind := if value.Some? then KindNamed(value.value) else None;
    var end := 12 + |name| + |OperationText(operation)| + 1 + |id| + ValueSize(value);
    var statement := Statement(operation, id, kind, 12 + |name|, end + 1);
    assert LocateClause(clause, tokens, 3) == statement;
    assert LocateClauses([], tokens, 3 + ClauseSize(clause)) == [];
    assert LocateClauses([clause], tokens, 3) == [statement] + [] == [statement];
    assert LocateSection(sections[0], tokens, 0) == Block(name, [statement], end + 2);
    assert LocateSections([], tokens, FileSize(sections)) == [];
    assert LocateSections(sections, tokens, 0) == [Block(name, [statement], end + 2)] + [];
  }
}
