// src/governance/changes.rs: lexing selected content, measuring it, and classifying a change.
module Changes {
  import opened Anchors
  import IsoTime

  datatype Token = Identifier(name: string) | Literal(text: string) | Operator(text: string)
                 | Punctuation(character: char)

  const FLOW_WORDS: seq<string> := [
    "if", "else", "elif", "for", "while", "loop", "do", "switch", "case", "match", "default", "break", "continue",
    "return"]

  const DECLARATION_WORDS: seq<string> := [
    "fn", "def", "function", "func", "class", "struct", "enum", "impl", "trait", "interface", "let", "const", "var",
    "val", "mut", "pub", "static", "public", "private", "protected"]

  const OPERATION_WORDS: seq<string> := [
    "try", "catch", "except", "finally", "throw", "throws", "raise", "new", "delete", "in", "of", "is", "not", "and",
    "or"]

  const MODULE_WORDS: seq<string> := [
    "import", "from", "as", "package", "use", "mod", "self", "this", "super", "async", "await", "yield", "lambda",
    "with", "pass"]

  const LITERAL_WORDS: seq<string> := [
    "true", "false", "null", "None", "True", "False", "nil", "undefined"]

  const OTHER_WORDS: seq<string> := [
    "void", "foreach", "when", "unless", "guard", "then", "end", "begin", "go", "defer", "select", "where"]

  const KEYWORDS: seq<string> :=
    FLOW_WORDS + DECLARATION_WORDS + OPERATION_WORDS + MODULE_WORDS + LITERAL_WORDS + OTHER_WORDS

  const LOOPS: seq<string> := ["for", "while", "loop", "do", "foreach", "until"]

  const BRANCHES: seq<string> := ["if", "elif", "switch", "case", "match", "catch", "except", "when", "unless", "guard",
                                  "select"]

  const OPERATORS: seq<string> := [
    ">>>=", "===", "!==", "**=", "//=", "<<=", ">>=", ">>>", "...", "==", "!=", "<=", ">=", "&&", "||", "++", "--",
        "+=", "-=",
    "*=", "/=", "%=", "&=", "|=", "^=", "**", "//", "<<", ">>", "->", "=>", "::", "??", "?.", ":="]

  const STRUCTURAL: seq<string> := [".", "::", "->", ":", "?."]

  const BRACKETS := "()[]{},;"

  // ---------------------------------------------------------------- lexing

  /** Which characters are letters and which are numeric; outside ASCII the choice is free. */
  datatype Alphabet = Alphabet(letter: char -> bool, numeric: char -> bool)

  predicate IsAsciiDigit(c: char) { '0' <= c <= '9' }

  predicate IsAsciiLetter(c: char) { 'a' <= c <= 'z' || 'A' <= c <= 'Z' }

  ghost predicate IsAlphabet(a: Alphabet) {
    forall c: char :: c as int < 128 ==> (a.letter(c) <==> IsAsciiLetter(c)) && (a.numeric(c) <==> IsAsciiDigit(c))
  }

  predicate IsQuote(c: char) { c == '"' || c == '`' || c == '\'' }

  predicate StartsWord(a: Alphabet, c: char) { a.letter(c) || c == '_' || c == '$' }

  predicate InWord(a: Alphabet, c: char) { StartsWord(a, c) || a.numeric(c) }

  predicate InNumber(a: Alphabet, c: char) { a.letter(c) || a.numeric(c) || c == '.' || c == '_' }

  predicate StartsWith(text: string, index: nat, pattern: string) {
    index + |pattern| <= |text| && text[index..index + |pattern|] == pattern
  }

  /** How comments are written: block comments, and line comments. */
  predicate IsCommented(syntax: Syntax) {
    (syntax.block.Some? ==> syntax.block.value.0 != "") && (syntax.line.Some? ==> syntax.line.value != "")
  }

  datatype Syntax = Syntax(block: Option<(string, string)>, line: Option<string>)

  /** The first position from index on where a pattern starts, or the end. */
  function FindFrom(text: string, index: nat, pattern: string): (end: nat)
    requires index <= |text|
    ensures index <= end <= |text|
    decreases |text| - index
  {
    if index == |text| || StartsWith(text, index, pattern) then index else FindFrom(text, index + 1, pattern)
  }

  /** The closing quote, skipping what a backslash escapes; this may overshoot the end. */
  function QuoteEnd(text: string, index: nat, quote: string): (end: nat)
    ensures index <= end
    decreases |text| - index
  {
    if index >= |text| || StartsWith(text, index, quote) then index
    else QuoteEnd(text, index + (if text[index] == '\\' then 2 else 1), quote)
  }

  function WhileHolds(text: string, index: nat, holds: char -> bool): (end: nat)
    requires index <= |text|
    ensures index <= end <= |text|
    decreases |text| - index
  {
    if index < |text| && holds(text[index]) then WhileHolds(text, index + 1, holds) else index
  }

  function Min(x: nat, y: nat): nat { if x < y then x else y }

  /** The operator at a position: the first of the list that starts there, or one character. */
  function OperatorAt(text: string, index: nat, operators: seq<string>): (r: string)
    requires index < |text| && forall i :: 0 <= i < |operators| ==> 0 < |operators[i]| <= 4
    ensures 0 < |r| <= 4 && StartsWith(text, index, r)
  {
    if operators == [] then [text[index]]
    else if StartsWith(text, index, operators[0]) then operators[0]
    else OperatorAt(text, index, operators[1..])
  }

  lemma OperatorsAreShort()
    ensures forall i :: 0 <= i < |OPERATORS| ==> 0 < |OPERATORS[i]| <= 4
  {
  }

  datatype Piece = Space | Comment(body: string) | Code(token: Token)

  /** A block comment whose opener ends at start. */
  function BlockPiece(text: string, start: nat, closer: string): (r: (Piece, nat))
    requires start <= |text|
    ensures start <= r.1 <= |text|
  {
    var end := FindFrom(text, start, closer);
    (Comment(Collapse(text[start..end])), Min(end + |closer|, |text|))
  }

  /** A line comment whose opener ends at start. */
  function LinePiece(text: string, start: nat): (r: (Piece, nat))
    requires start <= |text|
    ensures start <= r.1 <= |text|
  {
    var end := FindFrom(text, start, "\n");
    (Comment(Collapse(text[start..end])), end)
  }

  /** The piece of text at a position, and where the next one begins. */
  function Scan(a: Alphabet, syntax: Syntax, text: string, index: nat): (r: (Piece, nat))
    requires index < |text| && IsCommented(syntax)
    ensures index < r.1 <= |text|
  {
    var c := text[index];
    if IsSpace(c) then (Space, index + 1)
    else if syntax.block.Some? && StartsWith(text, index, syntax.block.value.0) then
      BlockPiece(text, index + |syntax.block.value.0|, syntax.block.value.1)
    else if syntax.line.Some? && StartsWith(text, index, syntax.line.value) then
      LinePiece(text, index + |syntax.line.value|)
    else if c == '"' || c == '`' || (c == '\'' && syntax.line != Some("'")) then
      var quote := if StartsWith(text, index, [c, c, c]) then [c, c, c] else [c];
      var end := Min(QuoteEnd(text, index + |quote|, quote) + |quote|, |text|);
      (Code(Literal(text[index..end])), end)
    else if IsAsciiDigit(c) then
      var end := WhileHolds(text, index + 1, x => InNumber(a, x));
      (Code(Literal(text[index..end])), end)
    else if StartsWord(a, c) then
      var end := WhileHolds(text, index + 1, x => InWord(a, x));
      (Code(Identifier(text[index..end])), end)
    else if c in BRACKETS then (Code(Punctuation(c)), index + 1)
    else
      OperatorsAreShort();
      var operator := OperatorAt(text, index, OPERATORS);
      (Code(Operator(operator)), index + |operator|)
  }

  /** Runs of whitespace become single spaces, and none is left at the ends. */
  function Collapse(text: string): string { JoinWords(Words(text)) }

  function Words(text: string): seq<string>
    decreases |text|
  {
    var trimmed := TrimStart(text);
    TrimmedStart(text);
    if trimmed == "" then []
    else
      var end := WordEnd(trimmed);
      [trimmed[..end]] + Words(trimmed[end..])
  }

  function WordEnd(text: string): (end: nat)
    requires text != "" && !IsSpace(text[0])
    ensures 0 < end <= |text|
  {
    if |text| == 1 || IsSpace(text[1]) then 1 else 1 + WordEnd(text[1..])
  }

  lemma {:induction false} TrimmedStart(text: string)
    ensures |TrimStart(text)| <= |text| && (TrimStart(text) == "" || !IsSpace(TrimStart(text)[0]))
  {
    if text != "" && IsSpace(text[0]) { TrimmedStart(text[1..]); }
  }

  function JoinWords(words: seq<string>): string {
    if words == [] then "" else if |words| == 1 then words[0] else words[0] + " " + JoinWords(words[1..])
  }

  function Text(token: Token): string {
    match token
    case Identifier(name) => name
    case Literal(text) => text
    case Operator(text) => text
    case Punctuation(character) => [character]
  }

  /** What the first character of a token says about it. */
  ghost predicate IsWellFormed(a: Alphabet, token: Token) {
    match token
    case Identifier(name) => name != "" && StartsWord(a, name[0])
    case Literal(text) => text != "" && (IsQuote(text[0]) || IsAsciiDigit(text[0]))
    case Operator(text) =>
      0 < |text| <= 4 && !IsQuote(text[0]) && !IsAsciiDigit(text[0]) && !StartsWord(a, text[0]) && text[0] !in BRACKETS
    case Punctuation(character) => character in BRACKETS
  }

  /** A line comment runs up to a newline or the end, and says what follows its opener. */
  ghost predicate IsLineComment(syntax: Syntax, text: string, index: nat, body: string, next: nat) {
    && syntax.line.Some? && StartsWith(text, index, syntax.line.value)
    && var start := index + |syntax.line.value|;
    && start <= next <= |text| && '\n' !in text[start..next] && (next < |text| ==> text[next] == '\n')
    && body == Collapse(text[start..next])
  }

  /** A block comment runs up to the first closer after its opener, or the end, and says what is between. */
  ghost predicate IsBlockComment(syntax: Syntax, text: string, index: nat, body: string, next: nat) {
    && syntax.block.Some? && StartsWith(text, index, syntax.block.value.0)
    && var start, closer := index + |syntax.block.value.0|, syntax.block.value.1;
       exists end: nat :: IsFirst(text, start, closer, end) && body == Collapse(text[start..end])
                     && next == if end < |text| then end + |closer| else |text|
  }

  /** A pattern starts at a position and nowhere before it, or the position is the end. */
  ghost predicate IsFirst(text: string, start: nat, pattern: string, end: nat) {
    && start <= end <= |text| && (end < |text| ==> StartsWith(text, end, pattern))
    && forall i: nat :: start <= i < end ==> !StartsWith(text, i, pattern)
  }

  lemma {:induction false} FindsFirst(text: string, index: nat, pattern: string)
    requires index <= |text|
    ensures IsFirst(text, index, pattern, FindFrom(text, index, pattern))
    decreases |text| - index
  {
    hide StartsWith;
    if index < |text| && !StartsWith(text, index, pattern) { FindsFirst(text, index + 1, pattern); }
  }

  lemma LineEnds(text: string, start: nat, end: nat)
    requires IsFirst(text, start, "\n", end)
    ensures '\n' !in text[start..end] && (end < |text| ==> text[end] == '\n')
  {
    forall i: nat | start <= i < end
      ensures text[i] != '\n'
    {
      assert !StartsWith(text, i, "\n");
      assert text[i..i + 1] == [text[i]];
    }
    if end < |text| { assert text[end..end + 1] == "\n"; }
  }

  /** Whitespace is dropped; a comment is what its syntax says; a token is the text it was read from. */
  lemma ScanReads(a: Alphabet, syntax: Syntax, text: string, index: nat)
    requires index < |text| && IsCommented(syntax)
    ensures var (piece, next) := Scan(a, syntax, text, index);
            match piece
            case Space => next == index + 1 && IsSpace(text[index])
            case Comment(body) =>
              if syntax.block.Some? && StartsWith(text, index, syntax.block.value.0) then
                IsBlockComment(syntax, text, index, body, next)
              else IsLineComment(syntax, text, index, body, next)
            case Code(token) => Text(token) == text[index..next] && IsWellFormed(a, token)
  {
    hide OperatorAt, WhileHolds, FindFrom, QuoteEnd, Collapse, IsFirst;
    var c := text[index];
    if IsSpace(c) {
    } else if syntax.block.Some? && StartsWith(text, index, syntax.block.value.0) {
      BlockReads(a, syntax, text, index);
    } else if syntax.line.Some? && StartsWith(text, index, syntax.line.value) {
      LineReads(a, syntax, text, index);
    } else {
      if c == '\'' && syntax.line == Some("'") {
        assert text[index..index + 1] == "'";
      }
    }
  }

  lemma LineReads(a: Alphabet, syntax: Syntax, text: string, index: nat)
    requires index < |text| && IsCommented(syntax) && !IsSpace(text[index])
    requires syntax.block.None? || !StartsWith(text, index, syntax.block.value.0)
    requires syntax.line.Some? && StartsWith(text, index, syntax.line.value)
    ensures var (piece, next) := Scan(a, syntax, text, index);
            piece.Comment? && IsLineComment(syntax, text, index, piece.body, next)
  {
    hide FindFrom, Collapse;
    var start := index + |syntax.line.value|;
    FindsFirst(text, start, "\n");
    LineEnds(text, start, FindFrom(text, start, "\n"));
  }

  lemma BlockReads(a: Alphabet, syntax: Syntax, text: string, index: nat)
    requires index < |text| && IsCommented(syntax) && !IsSpace(text[index])
    requires syntax.block.Some? && StartsWith(text, index, syntax.block.value.0)
    ensures var (piece, next) := Scan(a, syntax, text, index);
            piece.Comment? && IsBlockComment(syntax, text, index, piece.body, next)
  {
    hide FindFrom, Collapse;
    var start, closer := index + |syntax.block.value.0|, syntax.block.value.1;
    var end := FindFrom(text, start, closer);
    FindsFirst(text, start, closer);
    assert IsFirst(text, start, closer, end);
  }

  datatype Lexed = Lexed(tokens: seq<Token>, comments: seq<string>)

  function Add(lexed: Lexed, piece: Piece): Lexed {
    match piece
    case Space => lexed
    case Comment(body) => lexed.(comments := lexed.comments + [body])
    case Code(token) => lexed.(tokens := lexed.tokens + [token])
  }

  /** The tokens and comments from a position on, after what was read before. */
  function LexFrom(a: Alphabet, syntax: Syntax, text: string, index: nat, lexed: Lexed): Lexed
    requires index <= |text| && IsCommented(syntax)
    decreases |text| - index
  {
    if index == |text| then lexed
    else
      var (piece, next) := Scan(a, syntax, text, index);
      LexFrom(a, syntax, text, next, Add(lexed, piece))
  }

  function LexAll(a: Alphabet, syntax: Syntax, text: string): Lexed
    requires IsCommented(syntax)
  {
    LexFrom(a, syntax, text, 0, Lexed([], []))
  }

  ghost predicate AreWellFormed(a: Alphabet, tokens: seq<Token>) {
    forall i :: 0 <= i < |tokens| ==> IsWellFormed(a, tokens[i])
  }

  lemma {:induction false} LexedAreWellFormed(a: Alphabet, syntax: Syntax, text: string, index: nat, lexed: Lexed)
    requires index <= |text| && IsCommented(syntax) && AreWellFormed(a, lexed.tokens)
    ensures AreWellFormed(a, LexFrom(a, syntax, text, index, lexed).tokens)
    decreases |text| - index
  {
    if index < |text| {
      ScanReads(a, syntax, text, index);
      var (piece, next) := Scan(a, syntax, text, index);
      LexedAreWellFormed(a, syntax, text, next, Add(lexed, piece));
    }
  }

  /** Lex selected content. */
  method Lex(a: Alphabet, syntax: Syntax, text: string) returns (lexed: Lexed)
    requires IsCommented(syntax)
    ensures lexed == LexAll(a, syntax, text) && AreWellFormed(a, lexed.tokens)
  {
    lexed := Lexed([], []);
    var index := 0;
    while index < |text|
      invariant index <= |text| && LexAll(a, syntax, text) == LexFrom(a, syntax, text, index, lexed)
    {
      var (piece, next) := Scan(a, syntax, text, index);
      lexed := Add(lexed, piece);
      index := next;
    }
    LexedAreWellFormed(a, syntax, text, 0, Lexed([], []));
  }

  // ---------------------------------------------------------------- measuring

  /** The word lists that measuring consults. */
  datatype Vocabulary = Vocabulary(keywords: seq<string>, loops: seq<string>, branches: seq<string>,
                                   literalWords: seq<string>, structural: seq<string>)

  const VOCABULARY := Vocabulary(KEYWORDS, LOOPS, BRANCHES, LITERAL_WORDS, STRUCTURAL)

  datatype Business = LiteralOf(text: string) | OperatorOf(text: string) | CallOf(name: string)

  datatype Features = Features(business: multiset<Business>, loops: nat, branches: nat, shape: seq<string>,
                               names: seq<string>)

  /** A name: an identifier that is not a keyword. */
  predicate IsName(v: Vocabulary, token: Token) { token.Identifier? && token.name !in v.keywords }

  /** The names of the first n tokens, each once, in order of appearance. */
  function Distinct(v: Vocabulary, tokens: seq<Token>, n: nat): seq<string>
    requires n <= |tokens|
  {
    if n == 0 then []
    else
      var before := Distinct(v, tokens, n - 1);
      if IsName(v, tokens[n - 1]) && tokens[n - 1].name !in before then before + [tokens[n - 1].name] else before
  }

  function Position(names: seq<string>, name: string): nat {
    if names == [] || names[0] == name then 0 else 1 + Position(names[1..], name)
  }

  function Number(n: nat): string { "<id" + IsoTime.Decimal(n) + ">" }

  /** What a token adds to the shape. */
  function ShapeOf(v: Vocabulary, tokens: seq<Token>, i: nat): string
    requires i < |tokens|
  {
    if IsName(v, tokens[i]) then Number(Position(Distinct(v, tokens, i + 1), tokens[i].name)) else Text(tokens[i])
  }

  /** The literal or operator a token adds to the business tokens. */
  function ValueOf(v: Vocabulary, token: Token): multiset<Business> {
    match token
    case Literal(text) => multiset{LiteralOf(text)}
    case Operator(text) => if text in v.structural then multiset{} else multiset{OperatorOf(text)}
    case Punctuation(_) => multiset{}
    case Identifier(name) => if name in v.literalWords then multiset{LiteralOf(name)} else multiset{}
  }

  /** The called name a token adds to the business tokens. */
  function CallFrom(v: Vocabulary, tokens: seq<Token>, i: nat): multiset<Business>
    requires i < |tokens|
  {
    if IsName(v, tokens[i]) && i + 1 < |tokens| && tokens[i + 1] == Punctuation('(')
        then multiset{CallOf(tokens[i].name)}
    else multiset{}
  }

  function LoopOf(v: Vocabulary, token: Token): nat { if token.Identifier? && token.name in v.loops then 1 else 0 }

  function BranchOf(v: Vocabulary, token: Token): nat {
    if token == Operator("?") || (token.Identifier? && token.name in v.branches) then 1 else 0
  }

  /** Literals and operators of the first n tokens. */
  function Values(v: Vocabulary, tokens: seq<Token>, n: nat): multiset<Business>
    requires n <= |tokens|
  {
    if n == 0 then multiset{} else Values(v, tokens, n - 1) + ValueOf(v, tokens[n - 1])
  }

  /** Names called among the first n tokens. */
  function Calls(v: Vocabulary, tokens: seq<Token>, n: nat): multiset<Business>
    requires n <= |tokens|
  {
    if n == 0 then multiset{} else Calls(v, tokens, n - 1) + CallFrom(v, tokens, n - 1)
  }

  function Loops(v: Vocabulary, tokens: seq<Token>, n: nat): nat
    requires n <= |tokens|
  {
    if n == 0 then 0 else Loops(v, tokens, n - 1) + LoopOf(v, tokens[n - 1])
  }

  function Branches(v: Vocabulary, tokens: seq<Token>, n: nat): nat
    requires n <= |tokens|
  {
    if n == 0 then 0 else Branches(v, tokens, n - 1) + BranchOf(v, tokens[n - 1])
  }

  /** The shapes of the first n tokens. */
  function Shapes(v: Vocabulary, tokens: seq<Token>, n: nat): seq<string>
    requires n <= |tokens|
  {
    if n == 0 then [] else Shapes(v, tokens, n - 1) + [ShapeOf(v, tokens, n - 1)]
  }

  /** The names among the first n tokens, with repetitions. */
  function Names(v: Vocabulary, tokens: seq<Token>, n: nat): seq<string>
    requires n <= |tokens|
  {
    if n == 0 then []
    else Names(v, tokens, n - 1) + if IsName(v, tokens[n - 1]) then [tokens[n - 1].name] else []
  }

  function FeaturesUpTo(v: Vocabulary, tokens: seq<Token>, n: nat): Features
    requires n <= |tokens|
  {
    Features(Values(v, tokens, n) + Calls(v, tokens, n), Loops(v, tokens, n), Branches(v, tokens, n),
             Shapes(v, tokens, n), Names(v, tokens, n))
  }

  function FeaturesOf(v: Vocabulary, tokens: seq<Token>): Features { FeaturesUpTo(v, tokens, |tokens|) }

  /** Token i counts as a business token: a literal or a word that stands for one, an operator that does not join names,
      or a name in front of an opening parenthesis. */
  predicate CountsAs(v: Vocabulary, tokens: seq<Token>, i: nat, business: Business)
    requires i < |tokens|
  {
    match business
    case LiteralOf(text) => tokens[i] == Literal(text) || (tokens[i] == Identifier(text) && text in v.literalWords)
    case OperatorOf(text) => tokens[i] == Operator(text) && text !in v.structural
    case CallOf(name) =>
      && tokens[i] == Identifier(name) && name !in v.keywords
      && i + 1 < |tokens| && tokens[i + 1] == Punctuation('(')
  }

  /** Where a business token is counted among the first n tokens. */
  function BusinessAt(v: Vocabulary, tokens: seq<Token>, n: nat, business: Business): set<nat>
    requires n <= |tokens|
  {
    set i: nat | i < n && CountsAs(v, tokens, i, business)
  }

  function LoopsAt(v: Vocabulary, tokens: seq<Token>, n: nat): set<nat>
    requires n <= |tokens|
  {
    set i: nat | i < n && tokens[i].Identifier? && tokens[i].name in v.loops
  }

  function BranchesAt(v: Vocabulary, tokens: seq<Token>, n: nat): set<nat>
    requires n <= |tokens|
  {
    set i: nat | i < n && (tokens[i] == Operator("?") || (tokens[i].Identifier? && tokens[i].name in v.branches))
  }

  /** How often business tokens, loops and branches are counted. */
  lemma {:induction false} FeaturesCount(v: Vocabulary, tokens: seq<Token>, n: nat, business: Business)
    requires n <= |tokens|
    ensures FeaturesUpTo(v, tokens, n).business[business] == |BusinessAt(v, tokens, n, business)|
    ensures FeaturesUpTo(v, tokens, n).loops == |LoopsAt(v, tokens, n)|
    ensures FeaturesUpTo(v, tokens, n).branches == |BranchesAt(v, tokens, n)|
  {
    if n > 0 {
      hide FeaturesUpTo, BusinessAt, LoopsAt, BranchesAt, CountsAs, ValueOf, CallFrom;
      var k := n - 1;
      FeaturesCount(v, tokens, k, business);
      FeaturesStep(v, tokens, k, business);
      CountsStep(v, tokens, k, business);
      TokenCounts(v, tokens, k, business);
    }
  }

  lemma FeaturesStep(v: Vocabulary, tokens: seq<Token>, k: nat, business: Business)
    requires k < |tokens|
    ensures var before, after := FeaturesUpTo(v, tokens, k), FeaturesUpTo(v, tokens, k + 1);
            && after.business[business] == before.business[business]
                                           + (ValueOf(v, tokens[k]) + CallFrom(v, tokens, k))[business]
            && after.loops == before.loops + LoopOf(v, tokens[k])
            && after.branches == before.branches + BranchOf(v, tokens[k])
  {
    hide ValueOf, CallFrom, LoopOf, BranchOf;
  }

  lemma CountsStep(v: Vocabulary, tokens: seq<Token>, k: nat, business: Business)
    requires k < |tokens|
    ensures |BusinessAt(v, tokens, k + 1, business)|
            == |BusinessAt(v, tokens, k, business)| + if CountsAs(v, tokens, k, business) then 1 else 0
    ensures |LoopsAt(v, tokens, k + 1)| == |LoopsAt(v, tokens, k)| + LoopOf(v, tokens[k])
    ensures |BranchesAt(v, tokens, k + 1)| == |BranchesAt(v, tokens, k)| + BranchOf(v, tokens[k])
  {
    hide CountsAs;
    OneMoreCounts(k, BusinessAt(v, tokens, k, business), BusinessAt(v, tokens, k + 1, business),
                  CountsAs(v, tokens, k, business));
    OneMoreCounts(k, LoopsAt(v, tokens, k), LoopsAt(v, tokens, k + 1), LoopOf(v, tokens[k]) == 1);
    OneMoreCounts(k, BranchesAt(v, tokens, k), BranchesAt(v, tokens, k + 1), BranchOf(v, tokens[k]) == 1);
  }

  /** One more position is counted. */
  lemma OneMoreCounts(k: nat, before: set<nat>, after: set<nat>, counts: bool)
    requires forall i: nat :: i in after <==> (i < k && i in before) || (i == k && counts)
    requires forall i :: i in before ==> i < k
    ensures |after| == |before| + if counts then 1 else 0
  {
    assert after == before + if counts then {k} else {};
  }

  lemma TokenCounts(v: Vocabulary, tokens: seq<Token>, k: nat, business: Business)
    requires k < |tokens|
    ensures (ValueOf(v, tokens[k]) + CallFrom(v, tokens, k))[business]
            == if CountsAs(v, tokens, k, business) then 1 else 0
  {
  }

  lemma {:induction false} PositionIs(names: seq<string>, k: nat)
    requires k < |names| && forall i, j :: 0 <= i < j < |names| ==> names[i] != names[j]
    ensures Position(names, names[k]) == k
    decreases |names|
  {
    if k > 0 {
      assert names[1..][k - 1] == names[k];
      PositionIs(names[1..], k - 1);
    }
  }

  lemma {:induction false} PositionFinds(names: seq<string>, name: string)
    requires name in names
    ensures Position(names, name) < |names| && names[Position(names, name)] == name
  {
    if names[0] != name {
      assert names == [names[0]] + names[1..];
      PositionFinds(names[1..], name);
    }
  }

  lemma {:induction false} PositionPrefix(names: seq<string>, more: seq<string>, name: string)
    requires name in names
    ensures Position(names + more, name) == Position(names, name)
  {
    if names[0] != name {
      assert names == [names[0]] + names[1..];
      PositionPrefix(names[1..], more, name);
      assert (names + more)[1..] == names[1..] + more;
    }
  }

  lemma {:induction false} DistinctAre(v: Vocabulary, tokens: seq<Token>, n: nat)
    requires n <= |tokens|
    ensures forall i, j :: 0 <= i < j < |Distinct(v, tokens, n)| ==>
              Distinct(v, tokens, n)[i] != Distinct(v, tokens, n)[j]
    ensures forall i :: 0 <= i < n && IsName(v, tokens[i]) ==> tokens[i].name in Distinct(v, tokens, n)
  {
    if n > 0 { DistinctAre(v, tokens, n - 1); }
  }

  /** The numbers given to names so far. */
  ghost predicate AreNumbers(numbers: map<string, nat>, names: seq<string>) {
    && |numbers| == |names| && (forall name :: name in numbers <==> name in names)
    && forall k :: 0 <= k < |names| ==> numbers[names[k]] == k
  }

  lemma NumbersGive(numbers: map<string, nat>, names: seq<string>, name: string)
    requires AreNumbers(numbers, names) && forall i, j :: 0 <= i < j < |names| ==> names[i] != names[j]
    ensures name in names ==> name in numbers && numbers[name] == Position(names, name)
  {
    if name in names { PositionFinds(names, name); }
  }

  /** Measure lexed content. */
  method Measure(v: Vocabulary, tokens: seq<Token>) returns (result: Features)
    ensures result == FeaturesOf(v, tokens)
  {
    result := Features(multiset{}, 0, 0, [], []);
    var numbers: map<string, nat> := map[];
    for n := 0 to |tokens|
      invariant result == FeaturesUpTo(v, tokens, n)
      invariant AreNumbers(numbers, Distinct(v, tokens, n))
    {
      numbers := GiveNumber(v, tokens, n, numbers);
      var token := tokens[n];
      var shape := if IsName(v, token) then Number(numbers[token.name]) else Text(token);
      result := AddToken(v, tokens, n, result, shape);
    }
  }

  lemma AddTogether(a: multiset<Business>, b: multiset<Business>, c: multiset<Business>, d: multiset<Business>)
    ensures (a + b) + (c + d) == (a + c) + (b + d)
  {
  }

  method AddToken(v: Vocabulary, tokens: seq<Token>, n: nat, before: Features, shape: string) returns (after: Features)
    requires n < |tokens| && before == FeaturesUpTo(v, tokens, n) && shape == ShapeOf(v, tokens, n)
    ensures after == FeaturesUpTo(v, tokens, n + 1)
  {
    var token := tokens[n];
    var business := ValueOf(v, token) + CallFrom(v, tokens, n);
    AddTogether(Values(v, tokens, n), Calls(v, tokens, n), ValueOf(v, token), CallFrom(v, tokens, n));
    after := Features(before.business + business, before.loops + LoopOf(v, token), before.branches + BranchOf(v, token),
                      before.shape + [shape], before.names + if IsName(v, token) then [token.name] else []);
  }

  method GiveNumber(v: Vocabulary, tokens: seq<Token>, n: nat, numbers: map<string, nat>)
    returns (numbers': map<string, nat>)
    requires n < |tokens| && AreNumbers(numbers, Distinct(v, tokens, n))
    ensures AreNumbers(numbers', Distinct(v, tokens, n + 1))
    ensures IsName(v, tokens[n]) ==>
              tokens[n].name in numbers' && Number(numbers'[tokens[n].name]) == ShapeOf(v, tokens, n)
  {
    numbers' := numbers;
    if IsName(v, tokens[n]) && tokens[n].name !in numbers {
      numbers' := numbers[tokens[n].name := |numbers|];
    }
    DistinctAre(v, tokens, n + 1);
    if IsName(v, tokens[n]) { NumbersGive(numbers', Distinct(v, tokens, n + 1), tokens[n].name); }
  }

  // ---------------------------------------------------------------- the shape is a canonical form

  /** y is x with names replaced by other names, one to one. */
  ghost predicate IsRenamed(v: Vocabulary, x: seq<Token>, y: seq<Token>, names: map<string, string>) {
    && |x| == |y|
    && (forall a, b :: a in names && b in names && a != b ==> names[a] != names[b])
    && forall i :: 0 <= i < |x| ==> IsRenamedToken(v, x[i], y[i], names)
  }

  ghost predicate IsRenamedToken(v: Vocabulary, x: Token, y: Token, names: map<string, string>) {
    if IsName(v, x) then IsName(v, y) && x.name in names && y.name == names[x.name] else y == x
  }

  lemma {:induction false} ShapesAre(v: Vocabulary, tokens: seq<Token>, n: nat)
    requires n <= |tokens|
    ensures |Shapes(v, tokens, n)| == n
    ensures forall i :: 0 <= i < n ==> Shapes(v, tokens, n)[i] == ShapeOf(v, tokens, i)
  {
    if n > 0 { ShapesAre(v, tokens, n - 1); }
  }

  lemma SameNumber(m: nat, n: nat)
    requires Number(m) == Number(n)
    ensures m == n
  {
    var x, y := IsoTime.Decimal(m), IsoTime.Decimal(n);
    assert Number(m)[3..|Number(m)| - 1] == x && Number(n)[3..|Number(n)| - 1] == y;
    IsoTime.DecimalValue(m);
    IsoTime.DecimalValue(n);
  }

  /** A number is not the text of any lexed token. */
  lemma NumberIsNoToken(a: Alphabet, n: nat, token: Token)
    requires IsAlphabet(a) && IsWellFormed(a, token)
    ensures Number(n) != Text(token)
  {
    IsoTime.DecimalValue(n);
    assert Number(n)[0] == '<' && |Number(n)| >= 5;
    assert !StartsWord(a, '<') by { assert ('<' as int) < 128; }
  }

  /** Lexed tokens with the same text are the same token. */
  lemma SameTextSameToken(a: Alphabet, x: Token, y: Token)
    requires IsAlphabet(a) && IsWellFormed(a, x) && IsWellFormed(a, y) && Text(x) == Text(y)
    ensures x == y
  {
    var c := Text(x)[0];
    assert c == Text(y)[0];
    assert IsQuote(c) || IsAsciiDigit(c) || c in BRACKETS ==> c as int < 128;
  }

  // ---------------------------------------------------------------- equal shapes

  /** Tokens with the same shape are both names with the same number, or the same token. */
  lemma SameShapeAt(a: Alphabet, v: Vocabulary, x: seq<Token>, y: seq<Token>, i: nat)
    requires IsAlphabet(a) && i < |x| && i < |y| && IsWellFormed(a, x[i]) && IsWellFormed(a, y[i])
    requires ShapeOf(v, x, i) == ShapeOf(v, y, i)
    ensures IsName(v, x[i]) <==> IsName(v, y[i])
    ensures !IsName(v, x[i]) ==> x[i] == y[i]
    ensures IsName(v, x[i]) ==>
              Position(Distinct(v, x, i + 1), x[i].name) == Position(Distinct(v, y, i + 1), y[i].name)
  {
    if IsName(v, x[i]) && IsName(v, y[i]) {
      SameNumber(Position(Distinct(v, x, i + 1), x[i].name), Position(Distinct(v, y, i + 1), y[i].name));
    } else if IsName(v, x[i]) {
      NumberIsNoToken(a, Position(Distinct(v, x, i + 1), x[i].name), y[i]);
    } else if IsName(v, y[i]) {
      NumberIsNoToken(a, Position(Distinct(v, y, i + 1), y[i].name), x[i]);
    } else {
      SameTextSameToken(a, x[i], y[i]);
    }
  }

  /** Equal numbers mean new names at the same places, so as many names, in step. */
  ghost predicate InStep(v: Vocabulary, x: seq<Token>, y: seq<Token>, n: nat)
    requires n <= |x| && n <= |y|
  {
    && |Distinct(v, x, n)| == |Distinct(v, y, n)|
    && forall i :: 0 <= i < n ==>
         && (IsName(v, x[i]) <==> IsName(v, y[i])) && (!IsName(v, x[i]) ==> x[i] == y[i])
         && (IsName(v, x[i]) ==> Position(Distinct(v, x, n), x[i].name) == Position(Distinct(v, y, n), y[i].name))
  }

  lemma {:induction false} PositionOfNew(names: seq<string>, name: string)
    requires name !in names
    ensures Position(names + [name], name) == |names|
  {
    if names != [] {
      assert (names + [name])[1..] == names[1..] + [name];
      PositionOfNew(names[1..], name);
    }
  }

  /** Whether a name is new shows in its number. */
  lemma NewShows(v: Vocabulary, tokens: seq<Token>, n: nat)
    requires n < |tokens| && IsName(v, tokens[n])
    ensures tokens[n].name in Distinct(v, tokens, n)
            <==> Position(Distinct(v, tokens, n + 1), tokens[n].name) < |Distinct(v, tokens, n)|
    ensures |Distinct(v, tokens, n + 1)|
            == |Distinct(v, tokens, n)| + if tokens[n].name in Distinct(v, tokens, n) then 0 else 1
  {
    var names, name := Distinct(v, tokens, n), tokens[n].name;
    if name in names { PositionFinds(names, name); } else { PositionOfNew(names, name); }
  }

  lemma PositionStays(v: Vocabulary, tokens: seq<Token>, n: nat, name: string)
    requires n < |tokens| && name in Distinct(v, tokens, n)
    ensures Position(Distinct(v, tokens, n + 1), name) == Position(Distinct(v, tokens, n), name)
  {
    var names := Distinct(v, tokens, n);
    if IsName(v, tokens[n]) && tokens[n].name !in names { PositionPrefix(names, [tokens[n].name], name); }
  }

  lemma {:induction false} StayInStep(a: Alphabet, v: Vocabulary, x: seq<Token>, y: seq<Token>, n: nat)
    requires IsAlphabet(a) && AreWellFormed(a, x) && AreWellFormed(a, y) && n <= |x| && n <= |y|
    requires forall i :: 0 <= i < n ==> ShapeOf(v, x, i) == ShapeOf(v, y, i)
    ensures InStep(v, x, y, n)
  {
    hide ShapeOf, IsWellFormed;
    if n > 0 {
      StayInStep(a, v, x, y, n - 1);
      SameShapeAt(a, v, x, y, n - 1);
      if IsName(v, x[n - 1]) {
        NewShows(v, x, n - 1);
        NewShows(v, y, n - 1);
      }
      DistinctAre(v, x, n - 1);
      DistinctAre(v, y, n - 1);
      forall i | 0 <= i < n && IsName(v, x[i])
        ensures IsName(v, y[i]) && Position(Distinct(v, x, n), x[i].name) == Position(Distinct(v, y, n), y[i].name)
      {
        if i < n - 1 {
          PositionStays(v, x, n - 1, x[i].name);
          PositionStays(v, y, n - 1, y[i].name);
        }
      }
    }
  }

  /** The renaming that takes the k-th name of one to the k-th name of the other. */
  function Renaming(from: seq<string>, target: seq<string>): map<string, string>
    requires |from| <= |target|
  {
    map name | name in from && Position(from, name) < |target| :: target[Position(from, name)]
  }

  lemma RenamingIsOneToOne(from: seq<string>, target: seq<string>, p: string, q: string)
    requires |from| <= |target| && p in from && q in from && p != q
    requires forall i, j :: 0 <= i < j < |target| ==> target[i] != target[j]
    ensures p in Renaming(from, target) && q in Renaming(from, target)
            && Renaming(from, target)[p] != Renaming(from, target)[q]
  {
    PositionFinds(from, p);
    PositionFinds(from, q);
  }

  lemma InStepIsRenamed(v: Vocabulary, x: seq<Token>, y: seq<Token>)
    requires |x| == |y| && InStep(v, x, y, |x|)
    ensures IsRenamed(v, x, y, Renaming(Distinct(v, x, |x|), Distinct(v, y, |x|)))
  {
    var from, target := Distinct(v, x, |x|), Distinct(v, y, |x|);
    var names := Renaming(from, target);
    DistinctAre(v, x, |x|);
    DistinctAre(v, y, |x|);
    forall p, q | p in names && q in names && p != q
      ensures names[p] != names[q]
    {
      RenamingIsOneToOne(from, target, p, q);
    }
    forall i | 0 <= i < |x|
      ensures IsRenamedToken(v, x[i], y[i], names)
    {
      if IsName(v, x[i]) {
        PositionFinds(from, x[i].name);
        PositionFinds(target, y[i].name);
      }
    }
  }

  /** Renamed tokens have renamed names, in the same order. */
  lemma {:induction false} RenamedInStep(v: Vocabulary, x: seq<Token>, y: seq<Token>, names: map<string, string>,
                                         n: nat)
    requires IsRenamed(v, x, y, names) && n <= |x|
    ensures |Distinct(v, x, n)| == |Distinct(v, y, n)|
    ensures forall k :: 0 <= k < |Distinct(v, x, n)| ==>
              Distinct(v, x, n)[k] in names && Distinct(v, y, n)[k] == names[Distinct(v, x, n)[k]]
  {
    if n > 0 {
      RenamedInStep(v, x, y, names, n - 1);
      assert IsRenamedToken(v, x[n - 1], y[n - 1], names);
      var p, q := Distinct(v, x, n - 1), Distinct(v, y, n - 1);
      if IsName(v, x[n - 1]) {
        if x[n - 1].name in p {
          var k :| 0 <= k < |p| && p[k] == x[n - 1].name;
          assert q[k] == y[n - 1].name;
        }
        if y[n - 1].name in q {
          var k :| 0 <= k < |q| && q[k] == y[n - 1].name;
          assert names[p[k]] == names[x[n - 1].name];
        }
      }
    }
  }

  lemma RenamedSameShape(v: Vocabulary, x: seq<Token>, y: seq<Token>, names: map<string, string>, i: nat)
    requires IsRenamed(v, x, y, names) && i < |x|
    ensures ShapeOf(v, x, i) == ShapeOf(v, y, i)
  {
    assert IsRenamedToken(v, x[i], y[i], names);
    if IsName(v, x[i]) {
      RenamedInStep(v, x, y, names, i + 1);
      DistinctAre(v, x, i + 1);
      DistinctAre(v, y, i + 1);
      var p, q := Distinct(v, x, i + 1), Distinct(v, y, i + 1);
      PositionFinds(p, x[i].name);
      PositionIs(q, Position(p, x[i].name));
    }
  }

  /** Two lexed token streams have the same shape exactly when one is the other with its names replaced
      one to one. */
  lemma ShapeIsCanonical(a: Alphabet, v: Vocabulary, x: seq<Token>, y: seq<Token>)
    requires IsAlphabet(a) && AreWellFormed(a, x) && AreWellFormed(a, y)
    ensures FeaturesOf(v, x).shape == FeaturesOf(v, y).shape <==> exists names :: IsRenamed(v, x, y, names)
  {
    ShapesAre(v, x, |x|);
    ShapesAre(v, y, |y|);
    if FeaturesOf(v, x).shape == FeaturesOf(v, y).shape {
      assert |x| == |y|;
      forall i | 0 <= i < |x|
        ensures ShapeOf(v, x, i) == ShapeOf(v, y, i)
      {
        assert Shapes(v, x, |x|)[i] == Shapes(v, y, |y|)[i];
      }
      StayInStep(a, v, x, y, |x|);
      InStepIsRenamed(v, x, y);
    }
    if names :| IsRenamed(v, x, y, names) {
      forall i | 0 <= i < |x|
        ensures Shapes(v, x, |x|)[i] == Shapes(v, y, |y|)[i]
      {
        RenamedSameShape(v, x, y, names, i);
      }
      assert Shapes(v, x, |x|) == Shapes(v, y, |y|);
    }
  }
}
