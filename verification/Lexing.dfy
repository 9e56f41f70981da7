// src/governance/changes.rs: where strings, words, numbers and operators end, and how lexing goes on behind a part of
// the text. A line comment leaves the tokens of the text before it and of the text after its line.
module Lexing {
  import opened Anchors
  import opened Changes

  // ---------------------------------------------------------------- where a piece ends

  lemma {:induction false} HoldsUpTo(text: string, index: nat, holds: char -> bool)
    requires index <= |text|
    ensures var end := WhileHolds(text, index, holds);
            && (forall i :: index <= i < end ==> holds(text[i])) && (end < |text| ==> !holds(text[end]))
    decreases |text| - index
  {
    if index < |text| && holds(text[index]) { HoldsUpTo(text, index + 1, holds); }
  }

  /** A word or a number is as long as its characters go on. */
  lemma RunsAreLongest(a: Alphabet, syntax: Syntax, text: string, index: nat)
    requires index < |text| && IsCommented(syntax)
    ensures var (piece, next) := Scan(a, syntax, text, index);
            && (piece.Code? && piece.token.Identifier? ==>
                  && (forall i :: index < i < next ==> InWord(a, text[i]))
                  && (next < |text| ==> !InWord(a, text[next])))
            && (piece.Code? && piece.token.Literal? && IsAsciiDigit(text[index]) ==>
                  && (forall i :: index < i < next ==> InNumber(a, text[i]))
                  && (next < |text| ==> !InNumber(a, text[next])))
  {
    hide WhileHolds, FindFrom, QuoteEnd, OperatorAt, Collapse;
    HoldsUpTo(text, index + 1, x => InWord(a, x));
    HoldsUpTo(text, index + 1, x => InNumber(a, x));
  }

  ghost predicate GetShorter(operators: seq<string>) {
    forall i, j :: 0 <= i < j < |operators| ==> |operators[i]| >= |operators[j]|
  }

  lemma {:induction false} FirstIsLongest(text: string, index: nat, operators: seq<string>)
    requires index < |text| && GetShorter(operators) && forall i :: 0 <= i < |operators| ==> 0 < |operators[i]| <= 4
    ensures var r := OperatorAt(text, index, operators);
            && (r == [text[index]] || r in operators)
            && forall i :: 0 <= i < |operators| && StartsWith(text, index, operators[i]) ==> |operators[i]| <= |r|
  {
    hide StartsWith;
    if operators != [] && !StartsWith(text, index, operators[0]) {
      var rest := operators[1..];
      FirstIsLongest(text, index, rest);
      forall i | 0 <= i < |operators| && StartsWith(text, index, operators[i])
        ensures |operators[i]| <= |OperatorAt(text, index, operators)|
      {
        assert operators[i] == rest[i - 1];
      }
    }
  }

  lemma OperatorsGetShorter()
    ensures GetShorter(OPERATORS)
  {
  }

  /** An operator is the longest one listed that starts there, or a single character. */
  lemma OperatorIsLongest(text: string, index: nat)
    requires index < |text|
    ensures forall i :: 0 <= i < |OPERATORS| ==> 0 < |OPERATORS[i]| <= 4
    ensures var r := OperatorAt(text, index, OPERATORS);
            && StartsWith(text, index, r) && (r == [text[index]] || r in OPERATORS)
            && forall i :: 0 <= i < |OPERATORS| && StartsWith(text, index, OPERATORS[i]) ==> |OPERATORS[i]| <= |r|
  {
    hide StartsWith, OperatorAt;
    OperatorsAreShort();
    OperatorsGetShorter();
    FirstIsLongest(text, index, OPERATORS);
  }

  /** A quote without a backslash before it closes the string. */
  lemma {:induction false} PlainQuoteCloses(text: string, index: nat, quote: string, end: nat)
    requires index <= end <= |text| && quote != "" && '\\' !in text[index..end] && IsFirst(text, index, quote, end)
    ensures QuoteEnd(text, index, quote) == end
    decreases end - index
  {
    if index < end {
      assert !StartsWith(text, index, quote);
      assert text[index] == text[index..end][0] && text[index + 1..end] == text[index..end][1..];
      PlainQuoteCloses(text, index + 1, quote, end);
    }
  }

  /** A backslash takes the next character along, a quote included. */
  lemma BackslashTakesNext(text: string, index: nat, quote: string)
    requires index < |text| && text[index] == '\\' && quote != "" && quote[0] != '\\'
    ensures QuoteEnd(text, index, quote) == QuoteEnd(text, index + 2, quote)
  {
    assert index + |quote| <= |text| ==> text[index..index + |quote|][0] == text[index];
  }

  // ---------------------------------------------------------------- one branch at a time

  ghost predicate OpensBlock(syntax: Syntax, text: string, index: nat) {
    syntax.block.Some? && StartsWith(text, index, syntax.block.value.0)
  }

  ghost predicate OpensLine(syntax: Syntax, text: string, index: nat) {
    syntax.line.Some? && StartsWith(text, index, syntax.line.value)
  }

  predicate IsOpeningQuote(syntax: Syntax, c: char) { c == '"' || c == '`' || (c == '\'' && syntax.line != Some("'")) }

  function QuoteOf(text: string, index: nat, c: char): string {
    if StartsWith(text, index, [c, c, c]) then [c, c, c] else [c]
  }

  lemma ScanBlock(a: Alphabet, syntax: Syntax, text: string, index: nat)
    requires index < |text| && IsCommented(syntax) && !IsSpace(text[index]) && OpensBlock(syntax, text, index)
    ensures var start, closer := index + |syntax.block.value.0|, syntax.block.value.1;
            var end := FindFrom(text, start, closer);
            Scan(a, syntax, text, index) == (Comment(Collapse(text[start..end])), Min(end + |closer|, |text|))
  {
    hide Scan, FindFrom, Collapse, StartsWith, IsSpace;
    ScanIsBlock(a, syntax, text, index);
  }

  lemma ScanIsBlock(a: Alphabet, syntax: Syntax, text: string, index: nat)
    requires index < |text| && IsCommented(syntax) && !IsSpace(text[index]) && OpensBlock(syntax, text, index)
    ensures index + |syntax.block.value.0| <= |text|
    ensures Scan(a, syntax, text, index)
            == BlockPiece(text, index + |syntax.block.value.0|, syntax.block.value.1)
  {
    hide FindFrom, Collapse, BlockPiece, LinePiece, QuoteEnd, WhileHolds, OperatorAt, IsSpace, InNumber, InWord;
  }

  lemma ScanLine(a: Alphabet, syntax: Syntax, text: string, index: nat)
    requires index < |text| && IsCommented(syntax) && !IsSpace(text[index])
    requires !OpensBlock(syntax, text, index) && OpensLine(syntax, text, index)
    ensures var start := index + |syntax.line.value|;
            var end := FindFrom(text, start, "\n");
            Scan(a, syntax, text, index) == (Comment(Collapse(text[start..end])), end)
  {
    hide FindFrom, Collapse, StartsWith, QuoteEnd, WhileHolds, OperatorAt;
  }

  lemma ScanQuote(a: Alphabet, syntax: Syntax, text: string, index: nat)
    requires index < |text| && IsCommented(syntax) && !IsSpace(text[index])
    requires !OpensBlock(syntax, text, index) && !OpensLine(syntax, text, index) && IsOpeningQuote(syntax, text[index])
    ensures var quote := QuoteOf(text, index, text[index]);
            var end := Min(QuoteEnd(text, index + |quote|, quote) + |quote|, |text|);
            index <= end <= |text| && Scan(a, syntax, text, index) == (Code(Literal(text[index..end])), end)
  {
    hide FindFrom, Collapse, StartsWith, QuoteEnd, WhileHolds, OperatorAt;
  }

  /** What a piece is that is neither whitespace, nor a comment, nor a string. */
  function PlainPiece(a: Alphabet, c: char, number: string, word: string, operator: string): (Token, nat) {
    if IsAsciiDigit(c) then (Literal(number), |number|)
    else if StartsWord(a, c) then (Identifier(word), |word|)
    else if c in BRACKETS then (Punctuation(c), 1)
    else (Operator(operator), |operator|)
  }

  lemma ScanPlain(a: Alphabet, syntax: Syntax, text: string, index: nat)
    requires index < |text| && IsCommented(syntax) && !IsSpace(text[index])
    requires !OpensBlock(syntax, text, index) && !OpensLine(syntax, text, index) && !IsOpeningQuote(syntax, text[index])
    ensures forall i :: 0 <= i < |OPERATORS| ==> 0 < |OPERATORS[i]| <= 4
    ensures var number, word := WhileHolds(text, index + 1, x => InNumber(a, x)),
                WhileHolds(text, index + 1, x => InWord(a, x));
            var (token, size) := PlainPiece(a, text[index], text[index..number], text[index..word],
                                            OperatorAt(text, index, OPERATORS));
            Scan(a, syntax, text, index) == (Code(token), index + size)
  {
    hide FindFrom, Collapse, StartsWith, QuoteEnd, WhileHolds, OperatorAt, IsSpace, StartsWord;
    OperatorsAreShort();
  }

  // ---------------------------------------------------------------- behind a part of the text

  lemma StartsBehind(p: string, s: string, index: nat, pattern: string)
    ensures StartsWith(p + s, |p| + index, pattern) <==> StartsWith(s, index, pattern)
  {
    if index + |pattern| <= |s| {
      assert (p + s)[|p| + index..|p| + index + |pattern|] == s[index..index + |pattern|];
    }
  }

  lemma {:induction false} FindBehind(p: string, s: string, index: nat, pattern: string)
    requires index <= |s|
    ensures FindFrom(p + s, |p| + index, pattern) == |p| + FindFrom(s, index, pattern)
    decreases |s| - index
  {
    hide StartsWith;
    StartsBehind(p, s, index, pattern);
    if index < |s| { FindBehind(p, s, index + 1, pattern); }
  }

  lemma {:induction false} QuoteBehind(p: string, s: string, index: nat, quote: string)
    ensures QuoteEnd(p + s, |p| + index, quote) == |p| + QuoteEnd(s, index, quote)
    decreases |s| - index
  {
    hide StartsWith;
    StartsBehind(p, s, index, quote);
    if index < |s| {
      assert (p + s)[|p| + index] == s[index];
      QuoteBehind(p, s, index + if s[index] == '\\' then 2 else 1, quote);
    }
  }

  lemma {:induction false} HoldsBehind(p: string, s: string, index: nat, holds: char -> bool)
    requires index <= |s|
    ensures WhileHolds(p + s, |p| + index, holds) == |p| + WhileHolds(s, index, holds)
    decreases |s| - index
  {
    if index < |s| {
      assert (p + s)[|p| + index] == s[index];
      HoldsBehind(p, s, index + 1, holds);
    }
  }

  lemma {:induction false} OperatorBehind(p: string, s: string, index: nat, operators: seq<string>)
    requires index < |s| && forall i :: 0 <= i < |operators| ==> 0 < |operators[i]| <= 4
    ensures OperatorAt(p + s, |p| + index, operators) == OperatorAt(s, index, operators)
  {
    hide StartsWith;
    assert (p + s)[|p| + index] == s[index];
    if operators != [] {
      StartsBehind(p, s, index, operators[0]);
      OperatorBehind(p, s, index, operators[1..]);
    }
  }

  lemma SliceBehind(p: string, s: string, i: nat, j: nat)
    requires i <= j <= |s|
    ensures (p + s)[|p| + i..|p| + j] == s[i..j]
  {
  }

  /** A piece behind a part of the text is the piece without that part. */
  lemma ScanBehind(a: Alphabet, syntax: Syntax, p: string, s: string, index: nat)
    requires index < |s| && IsCommented(syntax)
    ensures var (piece, next) := Scan(a, syntax, s, index); Scan(a, syntax, p + s, |p| + index) == (piece, |p| + next)
  {
    hide Scan, StartsWith, FindFrom, QuoteEnd, WhileHolds, OperatorAt, Collapse, StartsWord, IsSpace, PlainPiece;
    var c, all, at := s[index], p + s, |p| + index;
    assert all[at] == c;
    if syntax.block.Some? { StartsBehind(p, s, index, syntax.block.value.0); }
    if syntax.line.Some? { StartsBehind(p, s, index, syntax.line.value); }
    if IsSpace(c) {
      ScanSpace(a, syntax, s, index);
      ScanSpace(a, syntax, all, at);
    } else if OpensBlock(syntax, s, index) {
      var start := StartOf(s, index, syntax.block.value.0);
      ScanBlock(a, syntax, s, index);
      ScanBlock(a, syntax, all, at);
      FindBehind(p, s, start, syntax.block.value.1);
      SliceBehind(p, s, start, FindFrom(s, start, syntax.block.value.1));
    } else if OpensLine(syntax, s, index) {
      var start := StartOf(s, index, syntax.line.value);
      ScanLine(a, syntax, s, index);
      ScanLine(a, syntax, all, at);
      FindBehind(p, s, start, "\n");
      SliceBehind(p, s, start, FindFrom(s, start, "\n"));
    } else if IsOpeningQuote(syntax, c) {
      QuoteScansBehind(a, syntax, p, s, index);
    } else {
      PlainScansBehind(a, syntax, p, s, index);
    }
  }

  lemma ScanSpace(a: Alphabet, syntax: Syntax, text: string, index: nat)
    requires index < |text| && IsCommented(syntax) && IsSpace(text[index])
    ensures Scan(a, syntax, text, index) == (Space, index + 1)
  {
  }

  lemma QuoteScansBehind(a: Alphabet, syntax: Syntax, p: string, s: string, index: nat)
    requires index < |s| && IsCommented(syntax) && !IsSpace(s[index]) && (p + s)[|p| + index] == s[index]
    requires !OpensBlock(syntax, s, index) && !OpensLine(syntax, s, index) && IsOpeningQuote(syntax, s[index])
    requires !OpensBlock(syntax, p + s, |p| + index) && !OpensLine(syntax, p + s, |p| + index)
    ensures var (piece, next) := Scan(a, syntax, s, index); Scan(a, syntax, p + s, |p| + index) == (piece, |p| + next)
  {
    hide Scan, StartsWith, QuoteEnd, IsSpace, IsOpeningQuote;
    var c := s[index];
    var quote := QuoteOf(s, index, c);
    ScanQuote(a, syntax, s, index);
    ScanQuote(a, syntax, p + s, |p| + index);
    StartsBehind(p, s, index, [c, c, c]);
    QuoteBehind(p, s, index + |quote|, quote);
    SliceBehind(p, s, index, Min(QuoteEnd(s, index + |quote|, quote) + |quote|, |s|));
  }

  lemma PlainScansBehind(a: Alphabet, syntax: Syntax, p: string, s: string, index: nat)
    requires index < |s| && IsCommented(syntax) && !IsSpace(s[index]) && (p + s)[|p| + index] == s[index]
    requires !OpensBlock(syntax, s, index) && !OpensLine(syntax, s, index) && !IsOpeningQuote(syntax, s[index])
    requires !OpensBlock(syntax, p + s, |p| + index) && !OpensLine(syntax, p + s, |p| + index)
    ensures var (piece, next) := Scan(a, syntax, s, index); Scan(a, syntax, p + s, |p| + index) == (piece, |p| + next)
  {
    hide *;
    ScanPlain(a, syntax, s, index);
    ScanPlain(a, syntax, p + s, |p| + index);
    HoldsBehind(p, s, index + 1, x => InNumber(a, x));
    HoldsBehind(p, s, index + 1, x => InWord(a, x));
    OperatorBehind(p, s, index, OPERATORS);
    SliceBehind(p, s, index, WhileHolds(s, index + 1, x => InNumber(a, x)));
    SliceBehind(p, s, index, WhileHolds(s, index + 1, x => InWord(a, x)));
  }

  lemma StartOf(s: string, index: nat, pattern: string) returns (start: nat)
    requires StartsWith(s, index, pattern)
    ensures start == index + |pattern| <= |s|
  {
    start := index + |pattern|;
  }

  /** Tokens and comments one after the other. */
  function Both(x: Lexed, y: Lexed): Lexed { Lexed(x.tokens + y.tokens, x.comments + y.comments) }

  lemma BothAdd(x: Lexed, y: Lexed, piece: Piece)
    ensures Add(Both(x, y), piece) == Both(x, Add(y, piece))
  {
    match piece {
      case Space =>
      case Comment(body) => assert x.comments + (y.comments + [body]) == (x.comments + y.comments) + [body];
      case Code(token) => assert x.tokens + (y.tokens + [token]) == (x.tokens + y.tokens) + [token];
    }
  }

  /** What was read before stays in front. */
  lemma {:induction false} LexAdds(a: Alphabet, syntax: Syntax, text: string, index: nat, x: Lexed, y: Lexed)
    requires index <= |text| && IsCommented(syntax)
    ensures LexFrom(a, syntax, text, index, Both(x, y)) == Both(x, LexFrom(a, syntax, text, index, y))
    decreases |text| - index
  {
    hide Scan, Add, Both;
    if index < |text| {
      var (piece, next) := Scan(a, syntax, text, index);
      BothAdd(x, y, piece);
      LexAdds(a, syntax, text, next, x, Add(y, piece));
    }
  }

  lemma {:induction false} LexBehind(a: Alphabet, syntax: Syntax, p: string, s: string, index: nat, x: Lexed)
    requires index <= |s| && IsCommented(syntax)
    ensures LexFrom(a, syntax, p + s, |p| + index, x) == LexFrom(a, syntax, s, index, x)
    decreases |s| - index
  {
    hide Scan, Add;
    if index < |s| {
      var (piece, next) := Scan(a, syntax, s, index);
      ScanBehind(a, syntax, p, s, index);
      LexBehind(a, syntax, p, s, next, Add(x, piece));
    }
  }

  // ---------------------------------------------------------------- in front of a part of the text

  lemma StartsInFront(p: string, s: string, index: nat, pattern: string)
    requires index + |pattern| <= |p|
    ensures StartsWith(p + s, index, pattern) <==> StartsWith(p, index, pattern)
  {
    assert (p + s)[index..index + |pattern|] == p[index..index + |pattern|];
  }

  /** A pattern that does not start in the whole does not start in the front part. */
  lemma StartsLater(p: string, s: string, index: nat, pattern: string)
    requires !StartsWith(p + s, index, pattern)
    ensures !StartsWith(p, index, pattern)
  {
    if index + |pattern| <= |p| { StartsInFront(p, s, index, pattern); }
  }

  lemma {:induction false} FindInFront(p: string, s: string, index: nat, pattern: string)
    requires index <= |p| && FindFrom(p + s, index, pattern) <= |p|
    requires var end := FindFrom(p + s, index, pattern); end + |pattern| <= |p| || end == |p|
    ensures FindFrom(p, index, pattern) == FindFrom(p + s, index, pattern)
    decreases |p| - index
  {
    hide StartsWith;
    if index < |p| {
      if StartsWith(p + s, index, pattern) {
        StartsInFront(p, s, index, pattern);
      } else {
        StartsLater(p, s, index, pattern);
        FindInFront(p, s, index + 1, pattern);
      }
    }
  }

  lemma {:induction false} QuoteInFront(p: string, s: string, index: nat, quote: string)
    requires QuoteEnd(p + s, index, quote) + |quote| <= |p| && quote != ""
    ensures QuoteEnd(p, index, quote) == QuoteEnd(p + s, index, quote)
    decreases |p| - index
  {
    hide StartsWith;
    assert index < |p| && (p + s)[index] == p[index];
    if StartsWith(p + s, index, quote) {
      StartsInFront(p, s, index, quote);
    } else {
      StartsLater(p, s, index, quote);
      QuoteInFront(p, s, index + if p[index] == '\\' then 2 else 1, quote);
    }
  }

  lemma {:induction false} HoldsInFront(p: string, s: string, index: nat, holds: char -> bool)
    requires index <= |p| && WhileHolds(p + s, index, holds) <= |p|
    ensures WhileHolds(p, index, holds) == WhileHolds(p + s, index, holds)
    decreases |p| - index
  {
    if index < |p| {
      assert (p + s)[index] == p[index];
      if holds(p[index]) { HoldsInFront(p, s, index + 1, holds); }
    }
  }

  lemma {:induction false} OperatorInFront(p: string, s: string, index: nat, operators: seq<string>)
    requires index < |p| && forall i :: 0 <= i < |operators| ==> 0 < |operators[i]| <= 4
    requires index + |OperatorAt(p + s, index, operators)| <= |p|
    ensures OperatorAt(p, index, operators) == OperatorAt(p + s, index, operators)
  {
    hide StartsWith;
    assert (p + s)[index] == p[index];
    if operators != [] {
      if StartsWith(p + s, index, operators[0]) {
        StartsInFront(p, s, index, operators[0]);
      } else {
        StartsLater(p, s, index, operators[0]);
        OperatorInFront(p, s, index, operators[1..]);
      }
    }
  }

  lemma SliceInFront(p: string, s: string, i: nat, j: nat)
    requires i <= j <= |p|
    ensures (p + s)[i..j] == p[i..j]
  {
  }

  /** A piece that ends before the last part of the text is the piece without that part. */
  lemma ScanInFront(a: Alphabet, syntax: Syntax, p: string, s: string, index: nat)
    requires index < |p| && IsCommented(syntax) && Scan(a, syntax, p + s, index).1 <= |p| && s != ""
    ensures Scan(a, syntax, p, index) == Scan(a, syntax, p + s, index)
  {
    hide Scan, StartsWith, FindFrom, QuoteEnd, WhileHolds, OperatorAt, Collapse, StartsWord, IsSpace, PlainPiece;
    var c, all := p[index], p + s;
    assert all[index] == c;
    OpenersInFront(syntax, p, s, index);
    if IsSpace(c) {
      ScanSpace(a, syntax, p, index);
      ScanSpace(a, syntax, all, index);
    } else if OpensBlock(syntax, all, index) {
      var start := StartOf(all, index, syntax.block.value.0);
      ScanBlock(a, syntax, all, index);
      StartsInFront(p, s, index, syntax.block.value.0);
      ScanBlock(a, syntax, p, index);
      FindInFront(p, s, start, syntax.block.value.1);
      SliceInFront(p, s, start, FindFrom(p, start, syntax.block.value.1));
    } else if OpensLine(syntax, all, index) {
      var start := StartOf(all, index, syntax.line.value);
      ScanLine(a, syntax, all, index);
      StartsInFront(p, s, index, syntax.line.value);
      ScanLine(a, syntax, p, index);
      LineInFront(p, s, start);
      SliceInFront(p, s, start, FindFrom(p, start, "\n"));
    } else if IsOpeningQuote(syntax, c) {
      ScanQuote(a, syntax, all, index);
      QuoteScansInFront(p, s, index, c);
      ScanQuote(a, syntax, p, index);
      SliceInFront(p, s, index, Scan(a, syntax, all, index).1);
    } else {
      PlainScansInFront(a, syntax, p, s, index);
    }
  }

  lemma OpenersInFront(syntax: Syntax, p: string, s: string, index: nat)
    ensures !OpensBlock(syntax, p + s, index) ==> !OpensBlock(syntax, p, index)
    ensures !OpensLine(syntax, p + s, index) ==> !OpensLine(syntax, p, index)
  {
    hide StartsWith;
    if syntax.block.Some? && !StartsWith(p + s, index, syntax.block.value.0) {
      StartsLater(p, s, index, syntax.block.value.0);
    }
    if syntax.line.Some? && !StartsWith(p + s, index, syntax.line.value) {
      StartsLater(p, s, index, syntax.line.value);
    }
  }

  lemma LineInFront(p: string, s: string, start: nat)
    requires start <= |p| && FindFrom(p + s, start, "\n") <= |p|
    ensures FindFrom(p, start, "\n") == FindFrom(p + s, start, "\n")
  {
    FindInFront(p, s, start, "\n");
  }

  lemma PlainScansInFront(a: Alphabet, syntax: Syntax, p: string, s: string, index: nat)
    requires index < |p| && IsCommented(syntax) && !IsSpace(p[index]) && (p + s)[index] == p[index]
    requires !OpensBlock(syntax, p + s, index) && !OpensLine(syntax, p + s, index) && !IsOpeningQuote(syntax, p[index])
    requires !OpensBlock(syntax, p, index) && !OpensLine(syntax, p, index) && Scan(a, syntax, p + s, index).1 <= |p|
    ensures Scan(a, syntax, p, index) == Scan(a, syntax, p + s, index)
  {
    hide Scan, WhileHolds, OperatorAt, IsSpace, IsOpeningQuote, InNumber, InWord;
    ScanPlain(a, syntax, p, index);
    ScanPlain(a, syntax, p + s, index);
    OthersInFront(a, p, s, index);
    var number := WhileHolds(p + s, index + 1, x => InNumber(a, x));
    var word := WhileHolds(p + s, index + 1, x => InWord(a, x));
    if number <= |p| { SliceInFront(p, s, index, number); }
    if word <= |p| { SliceInFront(p, s, index, word); }
  }

  lemma QuoteScansInFront(p: string, s: string, index: nat, c: char)
    requires index < |p| && s != ""
    requires var quote := if StartsWith(p + s, index, [c, c, c]) then [c, c, c] else [c];
             Min(QuoteEnd(p + s, index + |quote|, quote) + |quote|, |p + s|) <= |p|
    ensures StartsWith(p, index, [c, c, c]) <==> StartsWith(p + s, index, [c, c, c])
    ensures var quote := if StartsWith(p + s, index, [c, c, c]) then [c, c, c] else [c];
            && QuoteEnd(p, index + |quote|, quote) == QuoteEnd(p + s, index + |quote|, quote)
            && QuoteEnd(p, index + |quote|, quote) + |quote| <= |p|
  {
    hide StartsWith, QuoteEnd;
    if StartsWith(p + s, index, [c, c, c]) {
      StartsInFront(p, s, index, [c, c, c]);
      QuoteInFront(p, s, index + 3, [c, c, c]);
    } else {
      StartsLater(p, s, index, [c, c, c]);
      QuoteInFront(p, s, index + 1, [c]);
    }
  }

  lemma OthersInFront(a: Alphabet, p: string, s: string, index: nat)
    requires index < |p|
    ensures var number := WhileHolds(p + s, index + 1, x => InNumber(a, x));
            number <= |p| ==> WhileHolds(p, index + 1, x => InNumber(a, x)) == number
    ensures var word := WhileHolds(p + s, index + 1, x => InWord(a, x));
            word <= |p| ==> WhileHolds(p, index + 1, x => InWord(a, x)) == word
    ensures forall i :: 0 <= i < |OPERATORS| ==> 0 < |OPERATORS[i]| <= 4
    ensures var operator := OperatorAt(p + s, index, OPERATORS);
            index + |operator| <= |p| ==> OperatorAt(p, index, OPERATORS) == operator
  {
    hide WhileHolds, OperatorAt, InNumber, InWord;
    OperatorsAreShort();
    if WhileHolds(p + s, index + 1, x => InNumber(a, x)) <= |p| {
      HoldsInFront(p, s, index + 1, x => InNumber(a, x));
    }
    if WhileHolds(p + s, index + 1, x => InWord(a, x)) <= |p| { HoldsInFront(p, s, index + 1, x => InWord(a, x)); }
    if index + |OperatorAt(p + s, index, OPERATORS)| <= |p| { OperatorInFront(p, s, index, OPERATORS); }
  }

  // ---------------------------------------------------------------- a line comment

  /** Lexing from one position comes to another. */
  ghost predicate ComesTo(a: Alphabet, syntax: Syntax, text: string, from: nat, to: nat)
    requires from <= |text| && IsCommented(syntax)
    decreases |text| - from
  {
    from == to || (from < |text| && ComesTo(a, syntax, text, Scan(a, syntax, text, from).1, to))
  }

  lemma {:induction false} NeverBack(a: Alphabet, syntax: Syntax, text: string, from: nat, to: nat)
    requires from <= |text| && IsCommented(syntax) && ComesTo(a, syntax, text, from, to)
    ensures from <= to
    decreases |text| - from
  {
    hide Scan;
    if from != to { NeverBack(a, syntax, text, Scan(a, syntax, text, from).1, to); }
  }

  /** Up to a position that lexing comes to, it reads what the text before that position holds. */
  lemma {:induction false} LexSplits(a: Alphabet, syntax: Syntax, p: string, s: string, index: nat, x: Lexed)
    requires index <= |p| && IsCommented(syntax) && ComesTo(a, syntax, p + s, index, |p|) && s != ""
    ensures LexFrom(a, syntax, p + s, index, x)
            == LexFrom(a, syntax, p + s, |p|, LexFrom(a, syntax, p, index, x))
    decreases |p| - index
  {
    hide Scan, Add;
    if index < |p| {
      var (piece, next) := Scan(a, syntax, p + s, index);
      NeverBack(a, syntax, p + s, next, |p|);
      ScanInFront(a, syntax, p, s, index);
      LexSplits(a, syntax, p, s, next, Add(x, piece));
    }
  }

  /** Where lexing comes to a cut, the text reads as its parts do. */
  lemma PartsLex(a: Alphabet, syntax: Syntax, p: string, s: string)
    requires IsCommented(syntax) && ComesTo(a, syntax, p + s, 0, |p|)
    ensures LexAll(a, syntax, p + s) == Both(LexAll(a, syntax, p), LexAll(a, syntax, s))
  {
    hide LexFrom, ComesTo;
    var none := Lexed([], []);
    var before := LexAll(a, syntax, p);
    if s == "" {
      assert p + s == p;
      NothingLexed(a, syntax);
      assert before.tokens + [] == before.tokens && before.comments + [] == before.comments;
    } else {
      LexSplits(a, syntax, p, s, 0, none);
      LexBehind(a, syntax, p, s, 0, before);
      assert before.tokens + [] == before.tokens && before.comments + [] == before.comments;
      LexAdds(a, syntax, s, 0, before, none);
    }
  }

  lemma NothingLexed(a: Alphabet, syntax: Syntax)
    requires IsCommented(syntax)
    ensures LexAll(a, syntax, "") == Lexed([], [])
  {
  }

  lemma LexStep(a: Alphabet, syntax: Syntax, text: string, index: nat, x: Lexed)
    requires index < |text| && IsCommented(syntax)
    ensures var (piece, next) := Scan(a, syntax, text, index);
            LexFrom(a, syntax, text, index, x) == LexFrom(a, syntax, text, next, Add(x, piece))
  {
    hide Scan, Add;
  }

  /** A text that starts with a line comment. */
  lemma CommentFirst(a: Alphabet, syntax: Syntax, body: string, rest: string)
    requires IsCommented(syntax) && syntax.line.Some? && '\n' !in body && !IsSpace(syntax.line.value[0])
    requires var text := syntax.line.value + body + "\n" + rest;
             syntax.block.Some? ==> !StartsWith(text, 0, syntax.block.value.0)
    requires '\n' !in syntax.line.value
    ensures var text := syntax.line.value + body + "\n" + rest;
            LexAll(a, syntax, text) == Both(Lexed([], [Collapse(body)]), LexAll(a, syntax, rest))
  {
    hide Collapse, Scan, Both;
    var opener := syntax.line.value;
    var text := opener + body + "\n" + rest;
    var none, end := Lexed([], []), |opener + body|;
    CommentScans(a, syntax, body, rest);
    SpaceScans(a, syntax, opener + body, rest);
    LexStep(a, syntax, text, 0, none);
    assert [] + [Collapse(body)] == [Collapse(body)];
    LexStep(a, syntax, text, end, Lexed([], [Collapse(body)]));
    hide LexFrom;
    var p := opener + body + "\n";
    LexBehind(a, syntax, p, rest, 0, Lexed([], [Collapse(body)]));
    NoneBehind(Lexed([], [Collapse(body)]));
    LexAdds(a, syntax, rest, 0, Lexed([], [Collapse(body)]), none);
  }

  lemma NoneBehind(x: Lexed)
    ensures Both(x, Lexed([], [])) == x
  {
    assert x.tokens + [] == x.tokens && x.comments + [] == x.comments;
  }

  lemma CommentScans(a: Alphabet, syntax: Syntax, body: string, rest: string)
    requires IsCommented(syntax) && syntax.line.Some? && '\n' !in body && !IsSpace(syntax.line.value[0])
    requires var text := syntax.line.value + body + "\n" + rest;
             syntax.block.Some? ==> !StartsWith(text, 0, syntax.block.value.0)
    ensures var text := syntax.line.value + body + "\n" + rest;
            Scan(a, syntax, text, 0) == (Comment(Collapse(body)), |syntax.line.value + body|)
  {
    hide FindFrom, Collapse;
    var opener := syntax.line.value;
    var text, end := opener + body + "\n" + rest, |opener + body|;
    assert text[0] == opener[0] && text[0..|opener|] == opener;
    assert text[|opener|..end] == body;
    LineEndsAt(text, |opener|, end);
  }

  lemma {:induction false} LineEndsAt(text: string, start: nat, end: nat)
    requires start <= end < |text| && '\n' !in text[start..end] && text[end] == '\n'
    ensures FindFrom(text, start, "\n") == end
    decreases end - start
  {
    if start == end {
      assert text[end..end + 1] == "\n";
    } else {
      assert text[start] == text[start..end][0] && text[start + 1..end] == text[start..end][1..];
      assert text[start..start + 1] == [text[start]];
      LineEndsAt(text, start + 1, end);
    }
  }

  lemma SpaceScans(a: Alphabet, syntax: Syntax, p: string, rest: string)
    requires IsCommented(syntax)
    ensures Scan(a, syntax, p + "\n" + rest, |p|) == (Space, |p| + 1)
  {
    assert (p + "\n" + rest)[|p|] == '\n';
  }

  /** A line comment leaves the tokens of the text before it and of the text after its line. */
  lemma LineCommentLeaves(a: Alphabet, syntax: Syntax, before: string, body: string, rest: string)
    requires IsCommented(syntax) && syntax.line.Some? && '\n' !in body
    requires !IsSpace(syntax.line.value[0]) && '\n' !in syntax.line.value
    requires var comment := syntax.line.value + body + "\n" + rest;
             && (syntax.block.Some? ==> !StartsWith(comment, 0, syntax.block.value.0))
             && ComesTo(a, syntax, before + comment, 0, |before|)
    ensures var lexed := LexAll(a, syntax, before + (syntax.line.value + body + "\n" + rest));
            && lexed.tokens == LexAll(a, syntax, before).tokens + LexAll(a, syntax, rest).tokens
            && lexed.comments
               == LexAll(a, syntax, before).comments + [Collapse(body)] + LexAll(a, syntax, rest).comments
  {
    hide LexAll, ComesTo, Collapse;
    PartsLex(a, syntax, before, syntax.line.value + body + "\n" + rest);
    CommentFirst(a, syntax, body, rest);
    var x, y := LexAll(a, syntax, before), LexAll(a, syntax, rest);
    assert x.tokens + ([] + y.tokens) == x.tokens + y.tokens;
    assert x.comments + ([Collapse(body)] + y.comments) == x.comments + [Collapse(body)] + y.comments;
  }
}
