// src/governance/policy.rs: the tokens of the policy language, and how text splits and joins around them.
module PolicyTokens {
  import opened Anchors
  import opened Markers

  datatype Token = Token(text: string, start: nat)

  /** The whitespace between tokens; any other whitespace is an error. */
  predicate IsBlank(c: char) { c == ' ' || c == '\t' || c == '\n' || c == '\r' || c as int == 12 }

  predicate IsSymbol(c: char) { c == '{' || c == '}' || c == ';' }

  predicate OpensComment(s: string) { s != "" && (s[0] == '#' || (s[0] == '/' && |s| > 1 && s[1] == '/')) }

  function WordLength(s: string): (n: nat)
    ensures n <= |s|
  {
    if s != "" && IsNameChar(s[0]) then 1 + WordLength(s[1..]) else 0
  }

  function LineLength(s: string): (n: nat)
    ensures n <= |s|
  {
    if s != "" && s[0] != '\n' then 1 + LineLength(s[1..]) else 0
  }

  datatype Piece = Blank | Comment | Symbol | Word | Unknown

  function PieceOf(s: string): Piece
    requires s != ""
  {
    if IsBlank(s[0]) then Blank
    else if OpensComment(s) then Comment
    else if IsSymbol(s[0]) then Symbol
    else if IsNameChar(s[0]) then Word
    else Unknown
  }

  /** Length of the piece a text starts with. */
  function Cut(s: string): (n: nat)
    requires s != ""
    ensures 0 < n <= |s|
  {
    match PieceOf(s)
    case Comment => LineLength(s)
    case Word => WordLength(s)
    case _ => 1
  }

  predicate IsToken(piece: Piece) { piece.Symbol? || piece.Word? }

  function TokenAt(s: string, base: nat): seq<Token>
    requires s != ""
  {
    if IsToken(PieceOf(s)) then [Token(s[..Cut(s)], base)] else []
  }

  function After(tokens: seq<Token>, rest: Result<seq<Token>>): Result<seq<Token>> {
    if rest.Ok? then Ok(tokens + rest.value) else Err
  }

  /** The tokens of a text that starts at offset `base`. */
  function TokensOf(s: string, base: nat): Result<seq<Token>>
    decreases |s|
  {
    if s == "" then Ok([])
    else if PieceOf(s).Unknown? then Err
    else if IsToken(PieceOf(s)) then After([Token(s[..Cut(s)], base)], TokensOf(s[Cut(s)..], base + Cut(s)))
    else TokensOf(s[Cut(s)..], base + Cut(s))
  }

  lemma AfterNothing(rest: Result<seq<Token>>)
    ensures After([], rest) == rest
  {
    if rest.Ok? { assert [] + rest.value == rest.value; }
  }

  lemma FirstTokens(s: string, base: nat)
    requires s != "" && !PieceOf(s).Unknown?
    ensures TokensOf(s, base) == After(TokenAt(s, base), TokensOf(s[Cut(s)..], base + Cut(s)))
  {
    AfterNothing(TokensOf(s[Cut(s)..], base + Cut(s)));
  }

  // ---------------------------------------------------------------- the tokenizer

  method SkipComment(text: string, index: nat) returns (end: nat)
    requires index <= |text|
    ensures end == index + LineLength(text[index..])
  {
    end := index;
    while end < |text| && text[end] != '\n'
      invariant index <= end <= |text|
      invariant index + LineLength(text[index..]) == end + LineLength(text[end..])
    {
      end := end + 1;
    }
  }

  method SkipWord(text: string, index: nat) returns (end: nat)
    requires index <= |text|
    ensures end == index + WordLength(text[index..])
  {
    end := index;
    while end < |text| && IsNameChar(text[end])
      invariant index <= end <= |text|
      invariant index + WordLength(text[index..]) == end + WordLength(text[end..])
    {
      end := end + 1;
    }
  }

  lemma AfterBoth(a: seq<Token>, b: seq<Token>, rest: Result<seq<Token>>)
    ensures After(a, After(b, rest)) == After(a + b, rest)
  {
    if rest.Ok? { assert a + (b + rest.value) == (a + b) + rest.value; }
  }

  lemma FirstAt(text: string, at: nat, end: nat)
    requires at < |text| && !PieceOf(text[at..]).Unknown? && end == at + Cut(text[at..])
    ensures TokenAt(text[at..], at)
            == if IsToken(PieceOf(text[at..])) then [Token(text[at..end], at)] else []
    ensures TokensOf(text[at..], at) == After(TokenAt(text[at..], at), TokensOf(text[end..], end))
  {
    FirstTokens(text[at..], at);
    assert text[at..][..end - at] == text[at..end] && text[at..][end - at..] == text[end..];
  }

  lemma AfterNext(text: string, tokens: seq<Token>, at: nat, end: nat)
    requires at < |text| && !PieceOf(text[at..]).Unknown? && end == at + Cut(text[at..])
    ensures After(tokens, TokensOf(text[at..], at))
            == After(tokens + TokenAt(text[at..], at), TokensOf(text[end..], end))
  {
    FirstAt(text, at, end);
    AfterBoth(tokens, TokenAt(text[at..], at), TokensOf(text[end..], end));
  }

  /** Read one piece. */
  method Next(text: string, index: nat) returns (piece: Piece, end: nat)
    requires index < |text|
    ensures piece == PieceOf(text[index..])
    ensures !piece.Unknown? ==> end == index + Cut(text[index..])
  {
    var c := text[index];
    end := index + 1;
    if IsBlank(c) {
      piece := Blank;
    } else if c == '#' || (c == '/' && index + 1 < |text| && text[index + 1] == '/') {
      piece := Comment;
      end := SkipComment(text, index);
    } else if IsSymbol(c) {
      piece := Symbol;
    } else if IsNameChar(c) {
      piece := Word;
      end := SkipWord(text, index);
    } else {
      piece := Unknown;
    }
  }

  /** Split policy text into tokens. */
  method Tokenize(text: string) returns (result: Result<seq<Token>>)
    ensures result == TokensOf(text, 0)
  {
    var tokens: seq<Token> := [];
    var index := 0;
    assert text[0..] == text;
    AfterNothing(TokensOf(text, 0));
    while index < |text|
      invariant index <= |text|
      invariant TokensOf(text, 0) == After(tokens, TokensOf(text[index..], index))
    {
      var piece, end := Next(text, index);
      if piece.Unknown? { return Err; }
      AfterNext(text, tokens, index, end);
      FirstAt(text, index, end);
      tokens := tokens + if IsToken(piece) then [Token(text[index..end], index)] else [];
      index := end;
    }
    assert tokens + [] == tokens;
    result := Ok(tokens);
  }

  // ---------------------------------------------------------------- joining

  /** Nothing of the following text becomes part of the last piece. */
  predicate EndsBefore(piece: Piece, s: string) {
    s == "" || ((piece.Word? ==> !IsNameChar(s[0])) && (piece.Comment? ==> s[0] == '\n'))
  }

  predicate Fits(p: string, s: string)
    decreases |p|
  {
    p == "" || if Cut(p) < |p| then Fits(p[Cut(p)..], s) else EndsBefore(PieceOf(p), s)
  }

  lemma {:induction false} RunsJoin(p: string, s: string)
    ensures WordLength(p) < |p| || s == "" || !IsNameChar(s[0]) ==> WordLength(p + s) == WordLength(p)
    ensures LineLength(p) < |p| || s == "" || s[0] == '\n' ==> LineLength(p + s) == LineLength(p)
  {
    if p == "" {
      assert p + s == s;
    } else {
      assert (p + s)[1..] == p[1..] + s;
      RunsJoin(p[1..], s);
    }
  }

  lemma HeadJoins(p: string, s: string)
    requires p != "" && !PieceOf(p).Unknown? && (Cut(p) == |p| ==> EndsBefore(PieceOf(p), s))
    ensures PieceOf(p + s) == PieceOf(p) && Cut(p + s) == Cut(p)
  {
    RunsJoin(p, s);
  }

  /** A text that reads has a first piece, and what follows it reads. */
  lemma FirstRead(s: string, base: nat)
    requires s != "" && TokensOf(s, base).Ok?
    ensures var n := Cut(s);
            && !PieceOf(s).Unknown? && TokensOf(s[n..], base + n).Ok?
            && TokensOf(s, base) == After(TokenAt(s, base), TokensOf(s[n..], base + n))
            && TokensOf(s, base).value == TokenAt(s, base) + TokensOf(s[n..], base + n).value
  {
    FirstTokens(s, base);
  }

  lemma Slices<T>(p: seq<T>, s: seq<T>, n: nat)
    requires n <= |p|
    ensures (p + s)[n..] == p[n..] + s && (p + s)[..n] == p[..n]
  {
  }

  /** Tokens of a join are the tokens of the parts. */
  lemma {:induction false} TokensJoin(p: string, s: string, base: nat)
    requires TokensOf(p, base).Ok? && Fits(p, s)
    ensures TokensOf(p + s, base) == After(TokensOf(p, base).value, TokensOf(s, base + |p|))
    decreases |p|
  {
    if p == "" {
      assert p + s == s;
      AfterNothing(TokensOf(s, base));
    } else {
      var n := Cut(p);
      FirstRead(p, base);
      assert Fits(p[n..], s);
      TokensJoin(p[n..], s, base + n);
      HeadJoins(p, s);
      FirstJoins(p, s, base);
    }
  }

  lemma FirstJoins(p: string, s: string, base: nat)
    requires p != "" && !PieceOf(p).Unknown? && PieceOf(p + s) == PieceOf(p) && Cut(p + s) == Cut(p)
             && TokensOf(p, base).Ok?
    requires var n := Cut(p);
             && TokensOf(p[n..], base + n).Ok?
             && TokensOf(p[n..] + s, base + n) == After(TokensOf(p[n..], base + n).value, TokensOf(s, base + |p|))
    ensures TokensOf(p + s, base) == After(TokensOf(p, base).value, TokensOf(s, base + |p|))
  {
    var n := Cut(p);
    Slices(p, s, n);
    FirstRead(p, base);
    FirstTokens(p + s, base);
    AfterBoth(TokenAt(p, base), TokensOf(p[n..], base + n).value, TokensOf(s, base + |p|));
  }

  lemma RestRead(p: string, s: string, base: nat, all: seq<Token>, a: seq<Token>) returns (b: seq<Token>)
    requires TokensOf(p, base) == Ok(a) && Fits(p, s) && TokensOf(p + s, base) == Ok(all)
    ensures TokensOf(s, base + |p|) == Ok(b) && all == a + b
  {
    TokensJoin(p, s, base);
    b := TokensOf(s, base + |p|).value;
  }

  lemma {:induction false} FitsAfterLine(p: string, s: string)
    requires p == "" || p[|p| - 1] == '\n'
    ensures Fits(p, s)
    decreases |p|
  {
    if p != "" {
      CutIsInLine(p);
      if Cut(p) < |p| { FitsAfterLine(p[Cut(p)..], s); }
    }
  }

  /** What fits before something other than a line end also fits before what starts no word. */
  lemma {:induction false} FitsBeforeBlank(p: string, rest: string, s: string)
    requires Fits(p, rest) && rest != "" && rest[0] != '\n' && (s == "" || !IsNameChar(s[0]))
    ensures Fits(p, s)
    decreases |p|
  {
    if p != "" && Cut(p) < |p| { FitsBeforeBlank(p[Cut(p)..], rest, s); }
  }

  predicate IsWordToken(token: Token) { token.text != "" && IsNameChar(token.text[0]) }

  /** What ends in a symbol fits before anything. */
  lemma {:induction false} FitsAfterSymbol(p: string, rest: string, s: string, base: nat)
    requires Fits(p, rest) && rest != "" && rest[0] != '\n' && TokensOf(p, base).Ok?
    requires var tokens := TokensOf(p, base).value; tokens == [] || !IsWordToken(tokens[|tokens| - 1])
    ensures Fits(p, s)
    decreases |p|
  {
    hide Cut;
    if p != "" {
      var n := Cut(p);
      FirstRead(p, base);
      if n < |p| {
        LastOfSum(TokenAt(p, base), TokensOf(p[n..], base + n).value);
        FitsAfterSymbol(p[n..], rest, s, base + n);
      } else {
        PieceFitsAfterSymbol(p, rest, s, base);
      }
    }
  }

  lemma LastOfSum<T>(a: seq<T>, b: seq<T>)
    ensures b != [] ==> a + b != [] && (a + b)[|a + b| - 1] == b[|b| - 1]
  {
  }

  lemma PieceFitsAfterSymbol(p: string, rest: string, s: string, base: nat)
    requires p != "" && Cut(p) == |p| && EndsBefore(PieceOf(p), rest) && rest != "" && rest[0] != '\n'
             && TokensOf(p, base).Ok?
    requires var tokens := TokensOf(p, base).value; tokens == [] || !IsWordToken(tokens[|tokens| - 1])
    ensures EndsBefore(PieceOf(p), s)
  {
    FirstRead(p, base);
    var tail := TokensOf(p[|p|..], base + |p|).value;
    assert tail == [];
    assert TokenAt(p, base) + tail == TokenAt(p, base);
  }

  // ---------------------------------------------------------------- splitting

  /** A position between two pieces. */
  predicate IsBoundary(text: string, i: nat)
    decreases |text|
  {
    i == 0 || (i <= |text| && Cut(text) <= i && IsBoundary(text[Cut(text)..], i - Cut(text)))
  }

  lemma {:induction false} RunsOfPrefix(text: string, i: nat)
    requires i <= |text|
    ensures WordLength(text) <= i ==> WordLength(text[..i]) == WordLength(text)
    ensures LineLength(text) <= i ==> LineLength(text[..i]) == LineLength(text)
    ensures WordLength(text) < |text| ==> !IsNameChar(text[WordLength(text)])
    ensures LineLength(text) < |text| ==> text[LineLength(text)] == '\n'
  {
    if text != "" {
      if i > 0 { assert text[..i][1..] == text[1..][..i - 1]; }
      RunsOfPrefix(text[1..], if i > 0 then i - 1 else 0);
    }
  }

  lemma HeadOfPrefix(text: string, i: nat)
    requires text != "" && Cut(text) <= i <= |text|
    ensures PieceOf(text[..i]) == PieceOf(text) && Cut(text[..i]) == Cut(text)
    ensures i == Cut(text) ==> EndsBefore(PieceOf(text), text[i..])
  {
    RunsOfPrefix(text, i);
    if OpensComment(text) && text[0] == '/' {
      assert LineLength(text) == 1 + LineLength(text[1..]) && LineLength(text[1..]) > 0;
    }
  }

  lemma PrefixAndRest<T>(s: seq<T>, i: nat)
    requires i <= |s|
    ensures s[..i] + s[i..] == s
  {
  }

  lemma SlicesTwice<T>(s: seq<T>, n: nat, i: nat)
    requires n <= i <= |s|
    ensures s[..i][n..] == s[n..][..i - n] && s[n..][i - n..] == s[i..] && s[..i][..n] == s[..n]
  {
  }

  lemma {:induction false} BoundaryFits(text: string, i: nat, base: nat)
    requires i <= |text| && IsBoundary(text, i) && TokensOf(text, base).Ok?
    ensures Fits(text[..i], text[i..]) && TokensOf(text[..i], base).Ok?
    decreases |text|
  {
    hide Cut;
    if i > 0 {
      var n := Cut(text);
      FirstRead(text, base);
      BoundaryFits(text[n..], i - n, base + n);
      FirstOfPrefix(text, i, base);
      SlicesTwice(text, n, i);
    }
  }

  /** Text splits at a boundary into texts that read. */
  lemma SplitAtBoundary(text: string, i: nat, base: nat)
    requires i <= |text| && IsBoundary(text, i) && TokensOf(text, base).Ok?
    ensures Fits(text[..i], text[i..]) && TokensOf(text[..i], base).Ok? && TokensOf(text[i..], base + i).Ok?
    ensures TokensOf(text, base).value == TokensOf(text[..i], base).value + TokensOf(text[i..], base + i).value
  {
    BoundaryFits(text, i, base);
    TokensJoin(text[..i], text[i..], base);
    PrefixAndRest(text, i);
    AfterIsSum(TokensOf(text[..i], base).value, TokensOf(text[i..], base + i));
  }

  lemma Split(text: string, head: string, tail: string, base: nat) returns (a: seq<Token>, b: seq<Token>)
    requires text == head + tail && IsBoundary(text, |head|) && TokensOf(text, base).Ok?
    ensures TokensOf(head, base) == Ok(a) && TokensOf(tail, base + |head|) == Ok(b) && TokensOf(text, base) == Ok(a + b)
  {
    assert text[..|head|] == head && text[|head|..] == tail;
    SplitAtBoundary(text, |head|, base);
    a, b := TokensOf(head, base).value, TokensOf(tail, base + |head|).value;
  }

  lemma AfterIsSum(tokens: seq<Token>, rest: Result<seq<Token>>)
    requires After(tokens, rest).Ok?
    ensures rest.Ok? && After(tokens, rest).value == tokens + rest.value
  {
  }

  /** A prefix that holds the first piece starts with it, and reads if what follows the piece does. */
  lemma FirstOfPrefix(text: string, i: nat, base: nat)
    requires text != "" && TokensOf(text, base).Ok? && Cut(text) <= i <= |text|
    ensures var n := Cut(text);
            && Cut(text[..i]) == n && PieceOf(text[..i]) == PieceOf(text)
            && TokenAt(text[..i], base) == TokenAt(text, base)
            && (i == n ==> EndsBefore(PieceOf(text), text[i..]))
            && TokensOf(text[..i], base) == After(TokenAt(text, base), TokensOf(text[n..][..i - n], base + n))
  {
    hide TokensOf;
    FirstRead(text, base);
    HeadOfPrefix(text, i);
    FirstTokens(text[..i], base);
    SlicesTwice(text, Cut(text), i);
  }

  /** Token k starts at position i: the text up to there has the tokens before it, the rest has the others. */
  ghost predicate IsSplit(text: string, base: nat, tokens: seq<Token>, k: nat, i: nat)
    requires k < |tokens|
  {
    && i < |text| && tokens[k].start == base + i && IsBoundary(text, i)
    && TokensOf(text[..i], base) == Ok(tokens[..k]) && TokensOf(text[i..], base + i) == Ok(tokens[k..])
    && TokenAt(text[i..], base + i) == [tokens[k]]
  }

  lemma SplitAtFirst(text: string, base: nat)
    requires text != "" && TokensOf(text, base).Ok? && TokenAt(text, base) != []
    ensures TokensOf(text, base).value != [] && IsSplit(text, base, TokensOf(text, base).value, 0, 0)
  {
    FirstRead(text, base);
    var tokens := TokensOf(text, base).value;
    assert text[0..] == text && tokens[0..] == tokens && text[..0] == "" && tokens[..0] == [];
  }

  lemma SplitInRest(text: string, base: nat, tokens: seq<Token>, tail: string, rest: seq<Token>, k: nat, i: nat)
    requires text != "" && TokensOf(text, base) == Ok(tokens) && tokens == TokenAt(text, base) + rest && k < |tokens|
    requires |TokenAt(text, base)| <= k && Cut(text) <= i && tail == text[Cut(text)..]
    requires IsSplit(tail, base + Cut(text), rest, k - |TokenAt(text, base)|, i - Cut(text))
    ensures IsSplit(text, base, tokens, k, i)
  {
    SlicesTwice(text, Cut(text), i);
    FirstOfPrefix(text, i, base);
    TakeAndDrop(TokenAt(text, base), rest, k - |TokenAt(text, base)|);
  }

  lemma {:induction false} SplitAtToken(text: string, base: nat, tokens: seq<Token>, k: nat) returns (i: nat)
    requires TokensOf(text, base) == Ok(tokens) && k < |tokens|
    ensures IsSplit(text, base, tokens, k, i)
    decreases |text|
  {
    hide Cut;
    FirstRead(text, base);
    var n, first := Cut(text), TokenAt(text, base);
    if first != [] && k == 0 {
      SplitAtFirst(text, base);
      i := 0;
    } else {
      var tail := text[n..];
      var rest := TokensOf(tail, base + n).value;
      var j := SplitAtToken(tail, base + n, rest, k - |first|);
      i := n + j;
      SplitInRest(text, base, tokens, tail, rest, k, i);
    }
  }

  lemma TakeAndDrop(first: seq<Token>, rest: seq<Token>, m: nat)
    requires m <= |rest|
    ensures After(first, Ok(rest[..m])) == Ok((first + rest)[..|first| + m])
            && rest[m..] == (first + rest)[|first| + m..]
  {
    var all := first + rest;
    assert first + rest[..m] == all[..|first| + m] && rest[m..] == all[|first| + m..];
    if first == [] { assert all == rest; }
  }

  lemma {:induction false} LineHasNoEnd(s: string)
    ensures '\n' !in s[..LineLength(s)] && '\n' !in s[..WordLength(s)]
  {
    if s != "" {
      LineHasNoEnd(s[1..]);
      if s[0] != '\n' { assert s[..LineLength(s)] == [s[0]] + s[1..][..LineLength(s[1..])]; }
      if IsNameChar(s[0]) { assert s[..WordLength(s)] == [s[0]] + s[1..][..WordLength(s[1..])]; }
    }
  }

  /** Only a piece that is nothing but a line end contains one. */
  lemma CutIsInLine(s: string)
    requires s != ""
    ensures forall i :: 0 <= i < Cut(s) && s[i] == '\n' ==> Cut(s) == 1 && PieceOf(s).Blank?
  {
    LineHasNoEnd(s);
    forall i | 0 <= i < Cut(s) && s[i] == '\n'
      ensures Cut(s) == 1 && PieceOf(s).Blank?
    {
      assert s[..Cut(s)][i] == '\n';
    }
  }

  lemma {:induction false} LineStartsAtBoundary(text: string, i: nat)
    requires i <= |text| && (i == 0 || i == |text| || text[i - 1] == '\n')
    ensures IsBoundary(text, i)
    decreases |text|
  {
    if i > 0 {
      CutIsInLine(text);
      LineStartsAtBoundary(text[Cut(text)..], i - Cut(text));
    }
  }

  // ---------------------------------------------------------------- moving

  function Texts(tokens: seq<Token>): seq<string> {
    if tokens == [] then [] else [tokens[0].text] + Texts(tokens[1..])
  }

  lemma {:induction false} TextsAre(tokens: seq<Token>)
    ensures |Texts(tokens)| == |tokens| && forall i :: 0 <= i < |tokens| ==> Texts(tokens)[i] == tokens[i].text
  {
    if tokens != [] { TextsAre(tokens[1..]); }
  }

  lemma {:induction false} TextsJoin(a: seq<Token>, b: seq<Token>)
    ensures Texts(a + b) == Texts(a) + Texts(b)
  {
    if a == [] {
      assert a + b == b;
    } else {
      TextsJoin(a[1..], b);
      assert (a + b)[1..] == a[1..] + b;
    }
  }

  /** Where a text starts does not matter to what its tokens say. */
  lemma {:induction false} TokensMove(s: string, base: nat, other: nat)
    ensures TokensOf(s, base).Ok? <==> TokensOf(s, other).Ok?
    ensures TokensOf(s, base).Ok? ==> Texts(TokensOf(s, base).value) == Texts(TokensOf(s, other).value)
    decreases |s|
  {
    if s != "" && !PieceOf(s).Unknown? {
      var n := Cut(s);
      TokensMove(s[n..], base + n, other + n);
      if TokensOf(s, base).Ok? {
        TextsJoin(TokenAt(s, base), TokensOf(s[n..], base + n).value);
        TextsJoin(TokenAt(s, other), TokensOf(s[n..], other + n).value);
      }
    }
  }

  // ---------------------------------------------------------------- reading what was written

  lemma {:induction false} BlanksRead(w: string, s: string, base: nat)
    requires forall i :: 0 <= i < |w| ==> IsBlank(w[i])
    ensures TokensOf(w + s, base) == TokensOf(s, base + |w|)
  {
    if w == "" {
      assert w + s == s;
    } else {
      BlanksRead(w[1..], s, base + 1);
      assert (w + s)[1..] == w[1..] + s;
      AfterBoth([], [], TokensOf(s, base + |w|));
    }
  }

  lemma {:induction false} WordLengthIs(w: string, s: string)
    requires (forall i :: 0 <= i < |w| ==> IsNameChar(w[i])) && (s == "" || !IsNameChar(s[0]))
    ensures WordLength(w + s) == |w|
  {
    if w == "" {
      assert w + s == s;
    } else {
      WordLengthIs(w[1..], s);
      assert (w + s)[1..] == w[1..] + s;
    }
  }

  lemma WordReads(w: string, s: string, base: nat)
    requires w != "" && (forall i :: 0 <= i < |w| ==> IsNameChar(w[i])) && (s == "" || !IsNameChar(s[0]))
    ensures TokensOf(w + s, base) == After([Token(w, base)], TokensOf(s, base + |w|))
  {
    WordLengthIs(w, s);
    assert (w + s)[0] == w[0] && (w + s)[..|w|] == w && (w + s)[|w|..] == s;
  }

  lemma SymbolReads(c: char, s: string, base: nat)
    requires IsSymbol(c)
    ensures TokensOf([c] + s, base) == After([Token([c], base)], TokensOf(s, base + 1))
  {
    assert ([c] + s)[..1] == [c] && ([c] + s)[1..] == s;
  }

  // ---------------------------------------------------------------- text without tokens

  lemma {:induction false} SpaceHasNoTokens(s: string, base: nat)
    requires AllSpace(s) && TokensOf(s, base).Ok?
    ensures TokensOf(s, base) == Ok([])
  {
    if s != "" {
      assert !IsNameChar(s[0]) && !IsSymbol(s[0]) && !OpensComment(s);
      SpaceHasNoTokens(s[1..], base + 1);
    }
  }

  /** What is left of a line: nothing, or a comment. */
  predicate IsRest(trimmed: string) { trimmed == "" || "#" <= trimmed || "//" <= trimmed }

  lemma {:induction false} TrimEndPrefix(s: string)
    ensures TrimEnd(s) <= s
  {
    if s != "" && IsSpace(s[|s| - 1]) { TrimEndPrefix(s[..|s| - 1]); }
  }

  lemma {:induction false} RestHasNoTokens(s: string, base: nat)
    requires TokensOf(s, base).Ok? && IsRest(Trim(s)) && (forall i :: 0 <= i < |s| - 1 ==> s[i] != '\n')
    ensures TokensOf(s, base) == Ok([])
  {
    if s != "" {
      if IsSpace(s[0]) {
        assert !IsNameChar(s[0]) && !IsSymbol(s[0]) && !OpensComment(s);
        RestHasNoTokens(s[1..], base + 1);
      } else {
        CommentIsLast(s, base);
      }
    }
  }

  lemma {:induction false} TrimEndKeeps(s: string)
    requires s != "" && !IsSpace(s[0])
    ensures TrimEnd(s) != ""
  {
    if IsSpace(s[|s| - 1]) { TrimEndKeeps(s[..|s| - 1]); }
  }

  lemma CommentIsLast(s: string, base: nat)
    requires TokensOf(s, base).Ok? && IsRest(Trim(s)) && s != "" && !IsSpace(s[0])
    requires forall i :: 0 <= i < |s| - 1 ==> s[i] != '\n'
    ensures TokensOf(s, base) == Ok([])
  {
    TrimEndPrefix(s);
    TrimEndKeeps(s);
    assert OpensComment(s);
    RunsOfPrefix(s, |s|);
    var n := LineLength(s);
    assert n >= |s| - 1;
    if n < |s| { SpaceHasNoTokens(s[n..], base + n); }
  }
}
