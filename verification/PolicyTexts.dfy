// src/governance/policy.rs: what policy text may hold between its tokens, and when it does not split into tokens.
module PolicyTexts {
  import opened Anchors
  import Markers
  import opened PolicyTokens

  // ---------------------------------------------------------------- comments, blanks, words and symbols

  predicate IsCommentMark(mark: string) { mark == "#" || mark == "//" }

  predicate IsBlankCharacter(c: char) { c == ' ' || c == '\t' || c == '\n' || c == '\r' || c == '\U{000C}' }

  predicate IsWordCharacter(c: char) {
    'a' <= c <= 'z' || 'A' <= c <= 'Z' || '0' <= c <= '9' || c == '_' || c == '-'
  }

  lemma CharactersAre(c: char)
    ensures IsBlank(c) <==> IsBlankCharacter(c)
    ensures Markers.IsNameChar(c) <==> IsWordCharacter(c)
    ensures IsSymbol(c) <==> c in "{};"
  {
  }

  lemma {:induction false} LineOf(body: string, rest: string)
    requires '\n' !in body && (rest == "" || rest[0] == '\n')
    ensures LineLength(body + rest) == |body|
  {
    if body == "" {
      assert body + rest == rest;
    } else {
      assert (body + rest)[1..] == body[1..] + rest;
      LineOf(body[1..], rest);
    }
  }

  /** A comment ends with its line, or with the text. */
  lemma CommentReads(mark: string, body: string, s: string, base: nat)
    requires IsCommentMark(mark) && '\n' !in body
    ensures TokensOf(mark + body, base) == Ok([])
    ensures TokensOf(mark + body + "\n" + s, base) == TokensOf(s, base + |mark| + |body| + 1)
  {
    var comment := mark + body;
    CommentThen(mark, body, "", base);
    assert comment + "" == comment && comment[|comment|..] == "";
    CommentThen(mark, body, "\n" + s, base);
    assert comment + ("\n" + s) == comment + "\n" + s;
    assert ("\n" + s)[1..] == s;
  }

  lemma CommentThen(mark: string, body: string, rest: string, base: nat)
    requires IsCommentMark(mark) && '\n' !in body && (rest == "" || rest[0] == '\n')
    ensures TokensOf(mark + body + rest, base) == TokensOf(rest, base + |mark| + |body|)
  {
    var comment := mark + body;
    var text := comment + rest;
    assert text[0] == mark[0] && (|mark| > 1 ==> text[1] == mark[1]);
    assert '\n' !in comment;
    LineOf(comment, rest);
    assert text[|comment|..] == rest;
  }

  /** Blanks are dropped. */
  lemma BlanksAreDropped(blanks: string, s: string, base: nat)
    requires forall c :: c in blanks ==> IsBlankCharacter(c)
    ensures TokensOf(blanks + s, base) == TokensOf(s, base + |blanks|)
  {
    forall i | 0 <= i < |blanks|
      ensures IsBlank(blanks[i])
    {
      assert blanks[i] in blanks;
    }
    BlanksRead(blanks, s, base);
  }

  /** A run of word characters is one token. */
  lemma WordIsToken(word: string, s: string, base: nat)
    requires word != "" && (forall c :: c in word ==> IsWordCharacter(c)) && (s == "" || !IsWordCharacter(s[0]))
    ensures TokensOf(word + s, base) == PolicyTokens.After([Token(word, base)], TokensOf(s, base + |word|))
  {
    forall i | 0 <= i < |word|
      ensures Markers.IsNameChar(word[i])
    {
      assert word[i] in word;
    }
    WordReads(word, s, base);
  }

  lemma SymbolIsToken(symbol: char, s: string, base: nat)
    requires symbol in "{};"
    ensures TokensOf([symbol] + s, base) == PolicyTokens.After([Token([symbol], base)], TokensOf(s, base + 1))
  {
    CharactersAre(symbol);
    SymbolReads(symbol, s, base);
  }

  // ---------------------------------------------------------------- what does not read

  predicate StartsComment(s: string, j: nat) {
    j < |s| && (s[j] == '#' || (s[j] == '/' && j + 1 < |s| && s[j + 1] == '/'))
  }

  /** A comment that starts at j reaches k. */
  predicate Reaches(s: string, j: nat, k: nat) {
    j <= k < |s| && StartsComment(s, j) && '\n' !in s[j..k + 1]
  }

  ghost predicate InComment(s: string, k: nat) { exists j: nat :: Reaches(s, j, k) }

  /** A character that has no place in policy text, outside comments. */
  ghost predicate IsStray(s: string, k: nat) {
    && k < |s| && !IsBlankCharacter(s[k]) && !IsWordCharacter(s[k]) && s[k] !in "{};" && !InComment(s, k)
  }

  ghost predicate HasStray(s: string) { exists k: nat :: IsStray(s, k) }

  /** Reaching on does not depend on what comes before the comment. */
  lemma ReachesInRest(s: string, n: nat, j: nat, k: nat)
    requires n <= j && n <= |s|
    ensures Reaches(s, j, k) <==> k >= n && Reaches(s[n..], j - n, k - n)
  {
    if j <= k < |s| { assert s[j..k + 1] == s[n..][j - n..k - n + 1]; }
  }

  lemma {:induction false} LineIsOne(s: string)
    ensures '\n' !in s[..LineLength(s)] && (LineLength(s) < |s| ==> s[LineLength(s)] == '\n')
  {
    if s != "" && s[0] != '\n' {
      LineIsOne(s[1..]);
      assert s[..LineLength(s)] == [s[0]] + s[1..][..LineLength(s[1..])];
    }
  }

  lemma {:induction false} WordIsWord(s: string)
    ensures forall i :: 0 <= i < WordLength(s) ==> IsWordCharacter(s[i])
  {
    if s != "" && Markers.IsNameChar(s[0]) {
      WordIsWord(s[1..]);
      forall i | 0 <= i < WordLength(s)
        ensures IsWordCharacter(s[i])
      {
        assert i > 0 ==> s[i] == s[1..][i - 1];
      }
    }
  }

  /** What a first piece that reads says about the characters after it, and about itself. */
  lemma FirstIsNoStray(s: string, k: nat)
    requires s != "" && !PieceOf(s).Unknown?
    ensures k < Cut(s) ==> !IsStray(s, k)
    ensures k >= Cut(s) ==> (InComment(s, k) <==> InComment(s[Cut(s)..], k - Cut(s)))
  {
    var n := Cut(s);
    if PieceOf(s).Comment? {
      CommentIsFirst(s, k);
    } else {
      PieceIsPlain(s);
    }
    if k >= n {
      RestInComment(s, n, k);
    }
  }

  lemma CommentIsFirst(s: string, k: nat)
    requires s != "" && PieceOf(s).Comment?
    ensures k < Cut(s) ==> InComment(s, k)
    ensures forall j: nat :: j < Cut(s) && k >= Cut(s) ==> !Reaches(s, j, k)
  {
    var n := Cut(s);
    LineIsOne(s);
    if k < n {
      assert s[0..k + 1] == s[..n][..k + 1];
      assert Reaches(s, 0, k);
    }
    forall j: nat | j < n && k >= n
      ensures !Reaches(s, j, k)
    {
      if k < |s| { assert s[j..k + 1][n - j] == '\n'; }
    }
  }

  lemma PieceIsPlain(s: string)
    requires s != "" && !PieceOf(s).Unknown? && !PieceOf(s).Comment?
    ensures forall i :: 0 <= i < Cut(s) ==> IsBlankCharacter(s[i]) || IsWordCharacter(s[i]) || s[i] in "{};"
    ensures forall j: nat, k: nat :: j < Cut(s) ==> !Reaches(s, j, k)
  {
    WordIsWord(s);
    CharactersAre(s[0]);
  }

  lemma RestInComment(s: string, n: nat, k: nat)
    requires n <= k && n <= |s| && forall j: nat :: j < n ==> !Reaches(s, j, k)
    ensures InComment(s, k) <==> InComment(s[n..], k - n)
  {
    if InComment(s, k) {
      var j: nat :| Reaches(s, j, k);
      ReachesInRest(s, n, j, k);
    }
    if InComment(s[n..], k - n) {
      var j: nat :| Reaches(s[n..], j, k - n);
      ReachesInRest(s, n, j + n, k);
    }
  }

  /** Text does not read exactly when it has a stray character. */
  lemma {:induction false} ErrMeansStray(s: string, base: nat)
    ensures TokensOf(s, base).Err? <==> HasStray(s)
    decreases |s|
  {
    hide InComment, IsStray, Cut, PieceOf;
    if s == "" {
      NoStray();
    } else if PieceOf(s).Unknown? {
      UnknownIsStray(s);
    } else {
      var n := Cut(s);
      FirstTokens(s, base);
      ErrMeansStray(s[n..], base + n);
      StrayInRest(s);
    }
  }

  lemma NoStray()
    ensures !HasStray("")
  {
  }

  lemma UnknownIsStray(s: string)
    requires s != "" && PieceOf(s).Unknown?
    ensures HasStray(s)
  {
    CharactersAre(s[0]);
    assert IsStray(s, 0);
  }

  lemma StrayInRest(s: string)
    requires s != "" && !PieceOf(s).Unknown?
    ensures HasStray(s) <==> HasStray(s[Cut(s)..])
  {
    hide InComment, Cut, PieceOf;
    var n := Cut(s);
    var rest := s[n..];
    if HasStray(s) {
      var k: nat :| IsStray(s, k);
      FirstIsNoStray(s, k);
      assert IsStray(rest, k - n);
    }
    if HasStray(rest) {
      var k: nat :| IsStray(rest, k);
      FirstIsNoStray(s, k + n);
      assert IsStray(s, k + n);
    }
  }
}
