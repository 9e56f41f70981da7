// src/governance/changes.rs: what differs between two versions, and whether a target command is satisfied.
module Classify {
  import Markers
  import opened Anchors
  import opened Changes

  datatype ChangeType = LogicalBn | LogicalCn | LogicalSn | Semantic

  datatype Summary = Summary(changed: bool, whitespaceOnly: bool, comments: bool, code: bool, business: bool,
                             complexity: bool, structure: bool, renamed: bool)

  /** How comments are written: line comments, and block comments where the language has them. */
  function SyntaxOf(language: Markers.CommentSyntax): (r: Syntax)
    requires Markers.IsSyntax(language)
    ensures IsCommented(r)
  {
    match language
    case LineComment(opener) => Syntax(if opener == "//" then Some(("/*", "*/")) else None, Some(opener))
    case BlockComment(opener, closer) => Syntax(Some((opener, closer)), None)
  }

  function SummaryOf(v: Vocabulary, baseline: Lexed, current: Lexed): Summary {
    var p, q := FeaturesOf(v, baseline.tokens), FeaturesOf(v, current.tokens);
    var code, comments, structure := baseline.tokens != current.tokens, baseline.comments != current.comments,
        p.shape != q.shape;
    Summary(true, !code && !comments, comments, code, p.business != q.business,
            (p.loops, p.branches) != (q.loops, q.branches), structure, code && !structure && p.names != q.names)
  }

  /** Classify the difference between two versions of selected content. */
  method Classify(a: Alphabet, language: Markers.CommentSyntax, before: string, after: string)
    returns (summary: Summary)
    requires Markers.IsSyntax(language)
    ensures summary == Classified(a, SyntaxOf(language), before, after)
  {
    var syntax := SyntaxOf(language);
    if before == after { return Summary(false, false, false, false, false, false, false, false); }
    var baseline := Lex(a, syntax, before);
    var current := Lex(a, syntax, after);
    var p := Measure(VOCABULARY, baseline.tokens);
    var q := Measure(VOCABULARY, current.tokens);
    var code, comments, structure := baseline.tokens != current.tokens, baseline.comments != current.comments,
        p.shape != q.shape;
    summary := Summary(true, !code && !comments, comments, code, p.business != q.business,
                       (p.loops, p.branches) != (q.loops, q.branches), structure, code && !structure
                           && p.names != q.names);
  }

  function Classified(a: Alphabet, syntax: Syntax, before: string, after: string): Summary
    requires IsCommented(syntax)
  {
    if before == after then Summary(false, false, false, false, false, false, false, false)
    else SummaryOf(VOCABULARY, LexAll(a, syntax, before), LexAll(a, syntax, after))
  }

  /** Whether a change satisfies a target command, which may ask for one kind of change. */
  predicate IsSatisfied(summary: Summary, kind: Option<ChangeType>) {
    && summary.changed && !summary.whitespaceOnly
    && match kind
       case None => summary.code
       case Some(LogicalBn) => summary.business
       case Some(LogicalCn) => summary.complexity
       case Some(LogicalSn) => summary.structure && !summary.business && !summary.complexity
       case Some(Semantic) => !summary.structure && !summary.business && (summary.renamed || summary.comments)
  }

  // ---------------------------------------------------------------- what a summary tells

  /** How often a business token is among some tokens. */
  function Times(tokens: seq<Token>, business: Business): nat { |BusinessAt(VOCABULARY, tokens, |tokens|, business)| }

  predicate HaveAlike(x: seq<Token>, y: seq<Token>, business: Business) { Times(x, business) == Times(y, business) }

  /** A summary tells which of the texts, tokens, comments, counts of business tokens, loops and branches differ. */
  lemma SummaryMeans(a: Alphabet, syntax: Syntax, before: string, after: string)
    requires IsCommented(syntax)
    ensures var summary, p, q := Classified(a, syntax, before, after), LexAll(a, syntax, before),
                LexAll(a, syntax, after);
            var x, y := p.tokens, q.tokens;
            && (summary.changed <==> before != after)
            && (summary.code <==> x != y) && (summary.comments <==> p.comments != q.comments)
            && (summary.whitespaceOnly <==> before != after && x == y && p.comments == q.comments)
            && (summary.business <==> exists business :: !HaveAlike(x, y, business))
            && (summary.complexity
                <==> || |LoopsAt(VOCABULARY, x, |x|)| != |LoopsAt(VOCABULARY, y, |y|)|
                     || |BranchesAt(VOCABULARY, x, |x|)| != |BranchesAt(VOCABULARY, y, |y|)|)
  {
    hide LexAll, FeaturesUpTo, LoopsAt, BranchesAt, BusinessAt;
    var x, y := LexAll(a, syntax, before).tokens, LexAll(a, syntax, after).tokens;
    CountsDecide(x, y, FeaturesOf(VOCABULARY, x), FeaturesOf(VOCABULARY, y));
  }

  lemma CountsDecide(x: seq<Token>, y: seq<Token>, p: Features, q: Features)
    requires p == FeaturesOf(VOCABULARY, x) && q == FeaturesOf(VOCABULARY, y)
    ensures p.business != q.business <==> exists business :: !HaveAlike(x, y, business)
    ensures p.loops == |LoopsAt(VOCABULARY, x, |x|)| && p.branches == |BranchesAt(VOCABULARY, x, |x|)|
    ensures q.loops == |LoopsAt(VOCABULARY, y, |y|)| && q.branches == |BranchesAt(VOCABULARY, y, |y|)|
  {
    hide FeaturesUpTo, LoopsAt, BranchesAt, BusinessAt;
    forall business
      ensures Times(x, business) == p.business[business] && Times(y, business) == q.business[business]
    {
      FeaturesCount(VOCABULARY, x, |x|, business);
      FeaturesCount(VOCABULARY, y, |y|, business);
    }
    FeaturesCount(VOCABULARY, x, |x|, LiteralOf(""));
    FeaturesCount(VOCABULARY, y, |y|, LiteralOf(""));
    if p.business != q.business {
      var business :| p.business[business] != q.business[business];
      assert !HaveAlike(x, y, business);
    }
  }

  /** Replacing a literal, or an operator that does not join names, by another literal or operator is a business
      change. */
  lemma ReplacedIsBusiness(v: Vocabulary, x: seq<Token>, i: nat, token: Token)
    requires i < |x| && token != x[i] && (token.Literal? || token.Operator?)
    requires x[i].Literal? || (x[i].Operator? && x[i].text !in v.structural)
    ensures FeaturesOf(v, x).business != FeaturesOf(v, x[i := token]).business
  {
    hide FeaturesUpTo, CountsAs;
    var y, business := x[i := token], if x[i].Literal? then LiteralOf(x[i].text) else OperatorOf(x[i].text);
    FeaturesCount(v, x, |x|, business);
    FeaturesCount(v, y, |y|, business);
    forall j | 0 <= j < |x|
      ensures CountsAs(v, x, j, business) <==> CountsAs(v, y, j, business) || j == i
      ensures !CountsAs(v, y, i, business)
    {
      ReplacedCounts(v, x, i, token, j, business);
    }
    OneMoreCounted(v, x, y, i, business);
  }

  lemma ReplacedCounts(v: Vocabulary, x: seq<Token>, i: nat, token: Token, j: nat, business: Business)
    requires i < |x| && j < |x| && token != x[i] && (token.Literal? || token.Operator?)
    requires x[i].Literal? || (x[i].Operator? && x[i].text !in v.structural)
    requires business == if x[i].Literal? then LiteralOf(x[i].text) else OperatorOf(x[i].text)
    ensures CountsAs(v, x, j, business) <==> CountsAs(v, x[i := token], j, business) || j == i
    ensures !CountsAs(v, x[i := token], i, business)
  {
  }

  lemma OneMoreCounted(v: Vocabulary, x: seq<Token>, y: seq<Token>, i: nat, business: Business)
    requires i < |x| == |y| && !CountsAs(v, y, i, business)
    requires forall j :: 0 <= j < |x| ==> (CountsAs(v, x, j, business) <==> CountsAs(v, y, j, business) || j == i)
    ensures |BusinessAt(v, x, |x|, business)| == |BusinessAt(v, y, |y|, business)| + 1
  {
    hide CountsAs;
    assert BusinessAt(v, x, |x|, business) == BusinessAt(v, y, |y|, business) + {i};
  }

  // ---------------------------------------------------------------- the vocabulary

  /** The literal words, the branches and the loops are keywords, but for `until`. */
  ghost predicate IsCoherent(v: Vocabulary) {
    && (forall w :: w in v.literalWords ==> w in v.keywords)
    && (forall w :: w in v.branches ==> w in v.keywords)
    && (forall w :: w in v.loops && w != "until" ==> w in v.keywords)
    && "until" in v.loops && "until" !in v.keywords
  }

  lemma BranchesAreKeywords(w: string)
    requires w in BRANCHES
    ensures w in KEYWORDS
  {
    assert FLOW_WORDS[0] == "if" && FLOW_WORDS[2] == "elif" && FLOW_WORDS[7] == "switch" && FLOW_WORDS[8] == "case"
           && FLOW_WORDS[9] == "match" && OPERATION_WORDS[1] == "catch" && OPERATION_WORDS[2] == "except"
           && OTHER_WORDS[2] == "when" && OTHER_WORDS[3] == "unless" && OTHER_WORDS[4] == "guard"
           && OTHER_WORDS[10] == "select";
  }

  lemma LoopsAreKeywords(w: string)
    requires w in LOOPS && w != "until"
    ensures w in KEYWORDS
  {
    assert FLOW_WORDS[3] == "for" && FLOW_WORDS[4] == "while" && FLOW_WORDS[5] == "loop" && FLOW_WORDS[6] == "do"
           && OTHER_WORDS[1] == "foreach";
  }

  lemma FlowWords(w: string)
    requires w in FLOW_WORDS
    ensures |w| > 1 && (|w| != 5 || w[0] != 'u')
  {
  }

  lemma DeclarationWords(w: string)
    requires w in DECLARATION_WORDS
    ensures |w| > 1 && (|w| != 5 || w[0] != 'u')
  {
  }

  lemma OperationWords(w: string)
    requires w in OPERATION_WORDS
    ensures |w| > 1 && (|w| != 5 || w[0] != 'u')
  {
  }

  lemma ModuleWords(w: string)
    requires w in MODULE_WORDS
    ensures |w| > 1 && (|w| != 5 || w[0] != 'u')
  {
  }

  lemma LiteralWords(w: string)
    requires w in LITERAL_WORDS
    ensures |w| > 1 && (|w| != 5 || w[0] != 'u')
  {
  }

  lemma OtherWords(w: string)
    requires w in OTHER_WORDS
    ensures |w| > 1 && (|w| != 5 || w[0] != 'u')
  {
  }

  lemma NoKeyword(w: string)
    requires |w| == 1 || w == "until"
    ensures w !in KEYWORDS
  {
    if w in FLOW_WORDS { FlowWords(w); }
    if w in DECLARATION_WORDS { DeclarationWords(w); }
    if w in OPERATION_WORDS { OperationWords(w); }
    if w in MODULE_WORDS { ModuleWords(w); }
    if w in LITERAL_WORDS { LiteralWords(w); }
    if w in OTHER_WORDS { OtherWords(w); }
  }

  lemma VocabularyIsCoherent()
    ensures IsCoherent(VOCABULARY)
  {
    forall w | w in BRANCHES ensures w in KEYWORDS { BranchesAreKeywords(w); }
    forall w | w in LOOPS && w != "until" ensures w in KEYWORDS { LoopsAreKeywords(w); }
    NoKeyword("until");
    assert LOOPS[5] == "until";
  }

  // ---------------------------------------------------------------- what a renaming keeps

  lemma {:induction false} RenamedValues(v: Vocabulary, x: seq<Token>, y: seq<Token>, names: map<string, string>,
                                         n: nat)
    requires IsCoherent(v) && IsRenamed(v, x, y, names) && n <= |x|
    ensures Values(v, x, n) == Values(v, y, n) && Branches(v, x, n) == Branches(v, y, n)
  {
    if n > 0 {
      RenamedValues(v, x, y, names, n - 1);
      RenamedToken(v, x[n - 1], y[n - 1], names);
    }
  }

  lemma RenamedToken(v: Vocabulary, x: Token, y: Token, names: map<string, string>)
    requires IsCoherent(v) && IsRenamedToken(v, x, y, names)
    ensures ValueOf(v, x) == ValueOf(v, y) && BranchOf(v, x) == BranchOf(v, y)
    ensures x != Identifier("until") && y != Identifier("until") ==> LoopOf(v, x) == LoopOf(v, y)
  {
  }

  /** How often the word `until`, the one loop that is no keyword, is among the first n tokens. */
  function Untils(tokens: seq<Token>, n: nat): nat
    requires n <= |tokens|
  {
    if n == 0 then 0 else Untils(tokens, n - 1) + if tokens[n - 1] == Identifier("until") then 1 else 0
  }

  lemma {:induction false} RenamedLoops(v: Vocabulary, x: seq<Token>, y: seq<Token>, names: map<string, string>, n: nat)
    requires IsCoherent(v) && IsRenamed(v, x, y, names) && n <= |x|
    ensures Loops(v, x, n) + Untils(y, n) == Loops(v, y, n) + Untils(x, n)
  {
    if n > 0 {
      RenamedLoops(v, x, y, names, n - 1);
      assert IsRenamedToken(v, x[n - 1], y[n - 1], names);
    }
  }

  /** A renaming that changes a token changes the list of names. */
  lemma {:induction false} RenamedNames(v: Vocabulary, x: seq<Token>, y: seq<Token>, names: map<string, string>, n: nat)
    requires IsRenamed(v, x, y, names) && n <= |x|
    ensures |Names(v, x, n)| == |Names(v, y, n)|
    ensures Names(v, x, n) == Names(v, y, n) ==> forall i :: 0 <= i < n ==> x[i] == y[i]
  {
    if n > 0 {
      RenamedNames(v, x, y, names, n - 1);
      assert IsRenamedToken(v, x[n - 1], y[n - 1], names);
      var p, q := Names(v, x, n - 1), Names(v, y, n - 1);
      if !IsName(v, x[n - 1]) {
        assert p + [] == p && q + [] == q;
      } else if Names(v, x, n) == Names(v, y, n) {
        LastAndRest(p, q, x[n - 1].name, y[n - 1].name);
      }
    }
  }

  lemma LastAndRest<T>(p: seq<T>, q: seq<T>, c: T, d: T)
    requires p + [c] == q + [d]
    ensures p == q && c == d
  {
    assert |p| == |q|;
    assert p == (p + [c])[..|p|] && q == (q + [d])[..|q|];
    assert (p + [c])[|p|] == c && (q + [d])[|q|] == d;
  }

  lemma SameSum(a: multiset<Business>, b: multiset<Business>, c: multiset<Business>)
    ensures a + b == a + c <==> b == c
  {
    if a + b == a + c {
      forall e
        ensures b[e] == c[e]
      {
        assert (a + b)[e] == (a + c)[e];
      }
    }
  }

  lemma RenamedBusiness(v: Vocabulary, x: seq<Token>, y: seq<Token>, names: map<string, string>)
    requires IsCoherent(v) && IsRenamed(v, x, y, names)
    ensures FeaturesOf(v, x).business == FeaturesOf(v, y).business <==> Calls(v, x, |x|) == Calls(v, y, |y|)
  {
    RenamedValues(v, x, y, names, |x|);
    SameSum(Values(v, x, |x|), Calls(v, x, |x|), Calls(v, y, |y|));
  }

  // ---------------------------------------------------------------- what the kinds of change mean

  ghost predicate AreRenamed(v: Vocabulary, x: seq<Token>, y: seq<Token>) { exists names :: IsRenamed(v, x, y, names) }

  /** With the same shape, a code change is a change of names. */
  lemma SameShapeIsRenamed(a: Alphabet, v: Vocabulary, baseline: Lexed, current: Lexed)
    requires IsAlphabet(a) && AreWellFormed(a, baseline.tokens) && AreWellFormed(a, current.tokens)
    ensures var summary := SummaryOf(v, baseline, current);
            && (!summary.structure <==> AreRenamed(v, baseline.tokens, current.tokens))
            && (!summary.structure ==> summary.renamed == summary.code)
  {
    var x, y := baseline.tokens, current.tokens;
    ShapeIsCanonical(a, v, x, y);
    if names :| IsRenamed(v, x, y, names) {
      RenamedNames(v, x, y, names, |x|);
      assert Names(v, x, |x|) == Names(v, y, |y|) ==> x == y;
    }
  }

  /** A semantic change is accepted exactly when names are replaced one to one with the same calls left, and a
      name or a comment differs. */
  lemma SemanticMeans(a: Alphabet, syntax: Syntax, before: string, after: string)
    requires IsAlphabet(a) && IsCommented(syntax)
    ensures var x, y := LexAll(a, syntax, before), LexAll(a, syntax, after);
            IsSatisfied(Classified(a, syntax, before, after), Some(Semantic)) <==>
            && AreRenamed(VOCABULARY, x.tokens, y.tokens)
            && Calls(VOCABULARY, x.tokens, |x.tokens|) == Calls(VOCABULARY, y.tokens, |y.tokens|)
            && x != y
  {
    if before != after {
      var x, y := LexAll(a, syntax, before), LexAll(a, syntax, after);
      LexedAreWellFormed(a, syntax, before, 0, Lexed([], []));
      LexedAreWellFormed(a, syntax, after, 0, Lexed([], []));
      VocabularyIsCoherent();
      SemanticIs(a, VOCABULARY, x, y);
    }
  }

  lemma SemanticIs(a: Alphabet, v: Vocabulary, x: Lexed, y: Lexed)
    requires IsAlphabet(a) && IsCoherent(v) && AreWellFormed(a, x.tokens) && AreWellFormed(a, y.tokens)
    ensures IsSatisfied(SummaryOf(v, x, y), Some(Semantic)) <==>
            && AreRenamed(v, x.tokens, y.tokens)
            && Calls(v, x.tokens, |x.tokens|) == Calls(v, y.tokens, |y.tokens|)
            && x != y
  {
    SameShapeIsRenamed(a, v, x, y);
    if names :| IsRenamed(v, x.tokens, y.tokens, names) { RenamedBusiness(v, x.tokens, y.tokens, names); }
  }

  /** Every code change is of one of the four kinds, a restructuring is of no other, and without a comment
      changed there is no other way to be of a kind. */
  lemma EveryCodeChangeHasAKind(a: Alphabet, syntax: Syntax, before: string, after: string)
    requires IsAlphabet(a) && IsCommented(syntax)
    ensures var summary := Classified(a, syntax, before, after);
            && (IsSatisfied(summary, None) ==> exists kind :: IsSatisfied(summary, Some(kind)))
            && ((exists kind :: IsSatisfied(summary, Some(kind))) && !summary.comments ==> IsSatisfied(summary, None))
            && !(IsSatisfied(summary, Some(LogicalSn)) && exists kind ::
                   kind != LogicalSn && IsSatisfied(summary, Some(kind)))
            && !(IsSatisfied(summary, Some(LogicalBn)) && IsSatisfied(summary, Some(Semantic)))
  {
    hide FeaturesOf, LexFrom, IsRenamed;
    var summary := Classified(a, syntax, before, after);
    if summary.changed {
      var x, y := LexAll(a, syntax, before), LexAll(a, syntax, after);
      LexedAreWellFormed(a, syntax, before, 0, Lexed([], []));
      LexedAreWellFormed(a, syntax, after, 0, Lexed([], []));
      SameShapeIsRenamed(a, VOCABULARY, x, y);
      if summary.code {
        assert
          || IsSatisfied(summary, Some(LogicalBn)) || IsSatisfied(summary, Some(LogicalCn))
          || IsSatisfied(summary, Some(LogicalSn)) || IsSatisfied(summary, Some(Semantic));
      }
    }
  }

  /** The same shape leaves the same branches, and the same loops exactly when `until` is as frequent. */
  lemma SameShapeSameComplexity(a: Alphabet, syntax: Syntax, before: string, after: string)
    requires IsAlphabet(a) && IsCommented(syntax)
    requires !Classified(a, syntax, before, after).structure
    ensures var x, y := LexAll(a, syntax, before).tokens, LexAll(a, syntax, after).tokens;
            Classified(a, syntax, before, after).complexity <==> Untils(x, |x|) != Untils(y, |y|)
  {
    if before != after {
      var x, y := LexAll(a, syntax, before), LexAll(a, syntax, after);
      LexedAreWellFormed(a, syntax, before, 0, Lexed([], []));
      LexedAreWellFormed(a, syntax, after, 0, Lexed([], []));
      VocabularyIsCoherent();
      SameComplexity(a, VOCABULARY, x, y);
    }
  }

  lemma SameComplexity(a: Alphabet, v: Vocabulary, x: Lexed, y: Lexed)
    requires IsAlphabet(a) && IsCoherent(v) && AreWellFormed(a, x.tokens) && AreWellFormed(a, y.tokens)
    requires !SummaryOf(v, x, y).structure
    ensures SummaryOf(v, x, y).complexity <==> Untils(x.tokens, |x.tokens|) != Untils(y.tokens, |y.tokens|)
  {
    hide Values, Names;
    SameShapeIsRenamed(a, v, x, y);
    var names :| IsRenamed(v, x.tokens, y.tokens, names);
    RenamedValues(v, x.tokens, y.tokens, names, |x.tokens|);
    RenamedLoops(v, x.tokens, y.tokens, names, |x.tokens|);
  }

  lemma {:induction false} WordHolds(a: Alphabet, text: string, index: nat)
    requires IsAlphabet(a) && index <= |text| && forall i :: 0 <= i < |text| ==> IsAsciiLetter(text[i])
    ensures WhileHolds(text, index, x => InWord(a, x)) == |text|
    decreases |text| - index
  {
    if index < |text| {
      assert (text[index] as int) < 128;
      WordHolds(a, text, index + 1);
    }
  }

  /** A text of letters is lexed as one identifier. */
  lemma WordLexes(a: Alphabet, language: Markers.CommentSyntax, text: string)
    requires IsAlphabet(a) && Markers.IsSyntax(language)
    requires text != "" && forall i :: 0 <= i < |text| ==> IsAsciiLetter(text[i])
    ensures LexAll(a, SyntaxOf(language), text) == Lexed([Identifier(text)], [])
  {
    hide IsAlphabet, WhileHolds, FindFrom, QuoteEnd, Collapse, OperatorAt;
    var syntax := SyntaxOf(language);
    NoCommentStarts(language, text);
    FirstStartsWord(a, text);
    WordHolds(a, text, 1);
    assert text[0..|text|] == text;
    assert Scan(a, syntax, text, 0) == (Code(Identifier(text)), |text|);
    var lexed := Lexed([], []);
    assert Add(lexed, Code(Identifier(text))) == Lexed([Identifier(text)], []);
    assert LexFrom(a, syntax, text, |text|, Lexed([Identifier(text)], [])) == Lexed([Identifier(text)], []);
  }

  lemma FirstStartsWord(a: Alphabet, text: string)
    requires IsAlphabet(a) && text != "" && IsAsciiLetter(text[0])
    ensures StartsWord(a, text[0]) && !IsSpace(text[0]) && !IsQuote(text[0]) && !IsAsciiDigit(text[0])
  {
    assert (text[0] as int) < 128;
  }

  /** No comment starts with a letter. */
  lemma NoCommentStarts(language: Markers.CommentSyntax, text: string)
    requires Markers.IsSyntax(language) && text != "" && IsAsciiLetter(text[0])
    ensures var syntax := SyntaxOf(language);
            && (syntax.block.Some? ==> !StartsWith(text, 0, syntax.block.value.0))
            && (syntax.line.Some? ==> !StartsWith(text, 0, syntax.line.value))
  {
    OtherStart(text, "//");
    OtherStart(text, "#");
    OtherStart(text, "--");
    OtherStart(text, "%");
    OtherStart(text, ";");
    OtherStart(text, "'");
    OtherStart(text, "/*");
    OtherStart(text, "<!--");
  }

  lemma OtherStart(text: string, pattern: string)
    requires text != "" && pattern != "" && text[0] != pattern[0]
    ensures !StartsWith(text, 0, pattern)
  {
    assert |pattern| <= |text| ==> text[0..|pattern|][0] == text[0];
  }

  /** Renaming `until` keeps the shape but not the complexity. */
  lemma RenamingUntilChangesComplexity(a: Alphabet, language: Markers.CommentSyntax)
    requires IsAlphabet(a) && Markers.IsSyntax(language)
    ensures var summary := Classified(a, SyntaxOf(language), "until", "u");
            summary.code && !summary.structure && summary.complexity
  {
    hide LexAll, SummaryOf;
    WordLexes(a, language, "until");
    WordLexes(a, language, "u");
    UntilCounts(a);
  }

  lemma UntilCounts(a: Alphabet)
    requires IsAlphabet(a)
    ensures var summary := SummaryOf(VOCABULARY, Lexed([Identifier("until")], []), Lexed([Identifier("u")], []));
            summary.code && !summary.structure && summary.complexity
  {
    hide IsCoherent, FeaturesOf;
    var x, y := Lexed([Identifier("until")], []), Lexed([Identifier("u")], []);
    VocabularyIsCoherent();
    NoKeyword("u");
    assert StartsWord(a, 'u') by { assert ('u' as int) < 128; }
    assert IsRenamed(VOCABULARY, x.tokens, y.tokens, map["until" := "u"]);
    SameShapeIsRenamed(a, VOCABULARY, x, y);
    assert Untils(x.tokens, 1) == Untils(x.tokens, 0) + 1 && Untils(y.tokens, 1) == Untils(y.tokens, 0);
    SameComplexity(a, VOCABULARY, x, y);
  }
}
