// src/governance/policy.rs: the policy grammar, and the parser that reads it.
module PolicyGrammar {
  import opened Anchors
  import Classify
  import Markers
  import opened PolicyTokens

  datatype Operation = Preserve | Target

  /** A command as it is written: the change type keeps its spelling. */
  datatype Clause = Clause(operation: Operation, id: string, value: Option<string>)

  datatype Section = Section(name: string, clauses: seq<Clause>)

  datatype Statement = Statement(operation: Operation, id: string, changeType: Option<Classify.ChangeType>, start: nat,
                                 end: nat)

  datatype Block = Block(name: string, statements: seq<Statement>, close: nat)

  function OperationName(operation: Operation): string { if operation.Preserve? then "preserve" else "target" }

  function OperationNamed(text: string): Option<Operation> {
    if text == "preserve" then Some(Preserve) else if text == "target" then Some(Target) else None
  }

  function KindName(kind: Classify.ChangeType): string {
    match kind
    case LogicalBn => "logical_bn"
    case LogicalCn => "logical_cn"
    case LogicalSn => "logical_sn"
    case Semantic => "semantic"
  }

  /** Lower case, with underscores for hyphens. */
  function Folded(value: string): string {
    if value == "" then ""
    else
      var c := value[0];
      [if 'A' <= c <= 'Z' then (c as int + 32) as char else if c == '-' then '_' else c] + Folded(value[1..])
  }

  function KindNamed(value: string): Option<Classify.ChangeType> {
    var folded := Folded(value);
    if folded == "logical_bn" then Some(Classify.LogicalBn)
    else if folded == "logical_cn" then Some(Classify.LogicalCn)
    else if folded == "logical_sn" then Some(Classify.LogicalSn)
    else if folded == "semantic" then Some(Classify.Semantic)
    else None
  }

  // ---------------------------------------------------------------- the grammar

  predicate IsClause(c: Clause) {
    Markers.IsSelectionId(c.id) && (c.value.Some? ==> c.operation.Target? && KindNamed(c.value.value).Some?)
  }

  predicate IsSection(s: Section) { Markers.IsName(s.name) && forall i :: 0 <= i < |s.clauses| ==>
                                     IsClause(s.clauses[i]) }

  function ClauseSize(c: Clause): nat { if c.value.Some? then 5 else 3 }

  function ClausesSize(clauses: seq<Clause>): nat {
    if clauses == [] then 0 else ClauseSize(clauses[0]) + ClausesSize(clauses[1..])
  }

  function SectionSize(s: Section): nat { 4 + ClausesSize(s.clauses) }

  function FileSize(sections: seq<Section>): nat {
    if sections == [] then 0 else SectionSize(sections[0]) + FileSize(sections[1..])
  }

  function ClauseTexts(c: Clause): (texts: seq<string>)
    ensures |texts| == ClauseSize(c)
  {
    [OperationName(c.operation), c.id] + (if c.value.Some? then ["change_type", c.value.value] else []) + [";"]
  }

  function ClausesTexts(clauses: seq<Clause>): (texts: seq<string>)
    ensures |texts| == ClausesSize(clauses)
  {
    if clauses == [] then [] else ClauseTexts(clauses[0]) + ClausesTexts(clauses[1..])
  }

  function SectionTexts(s: Section): (texts: seq<string>)
    ensures |texts| == SectionSize(s)
  {
    ["policy", s.name, "{"] + ClausesTexts(s.clauses) + ["}"]
  }

  function FileTexts(sections: seq<Section>): (texts: seq<string>)
    ensures |texts| == FileSize(sections)
  {
    if sections == [] then [] else SectionTexts(sections[0]) + FileTexts(sections[1..])
  }

  // ---------------------------------------------------------------- reading

  function ReadClause(texts: seq<string>): (r: Option<Clause>)
    ensures r.Some? ==> ClauseSize(r.value) <= |texts|
  {
    if |texts| < 3 || OperationNamed(texts[0]).None? || !Markers.IsSelectionId(texts[1]) then None
    else
      var operation := OperationNamed(texts[0]).value;
      if texts[2] == ";" then Some(Clause(operation, texts[1], None))
      else if |texts| >= 5 && texts[2] == "change_type" && operation.Target? && KindNamed(texts[3]).Some?
          && texts[4] == ";" then
        Some(Clause(operation, texts[1], Some(texts[3])))
      else None
  }

  function ReadClauses(texts: seq<string>): (r: Option<seq<Clause>>)
    ensures r.Some? ==> ClausesSize(r.value) < |texts|
    decreases |texts|
  {
    if texts == [] then None
    else if texts[0] == "}" then Some([])
    else
      match ReadClause(texts)
      case None => None
      case Some(c) =>
        match ReadClauses(texts[ClauseSize(c)..])
        case None => None
        case Some(rest) => assert ([c] + rest)[1..] == rest; Some([c] + rest)
  }

  function ReadSection(texts: seq<string>): (r: Option<Section>)
    ensures r.Some? ==> SectionSize(r.value) <= |texts|
  {
    if |texts| < 3 || texts[0] != "policy" || !Markers.IsName(texts[1]) || texts[2] != "{" then None
    else
      match ReadClauses(texts[3..])
      case None => None
      case Some(clauses) => Some(Section(texts[1], clauses))
  }

  function ReadSections(texts: seq<string>): (r: Option<seq<Section>>)
    ensures r.Some? ==> FileSize(r.value) <= |texts|
    decreases |texts|
  {
    if texts == [] then Some([])
    else
      match ReadSection(texts)
      case None => None
      case Some(s) =>
        match ReadSections(texts[SectionSize(s)..])
        case None => None
        case Some(rest) => assert ([s] + rest)[1..] == rest; Some([s] + rest)
  }

  // ---------------------------------------------------------------- reading is exactly the grammar

  lemma ReadClauseIs(texts: seq<string>, c: Clause)
    ensures ReadClause(texts) == Some(c) <==> IsClause(c) && ClauseTexts(c) <= texts
  {
    var n := ClauseSize(c);
    if IsClause(c) && ClauseTexts(c) <= texts {
      assert forall i :: 0 <= i < n ==> texts[i] == ClauseTexts(c)[i];
    }
    if ReadClause(texts) == Some(c) {
      assert texts[..n] == ClauseTexts(c);
    }
  }

  predicate AreClauses(clauses: seq<Clause>) { forall i :: 0 <= i < |clauses| ==> IsClause(clauses[i]) }

  lemma PrefixOfSum<T>(a: seq<T>, b: seq<T>, whole: seq<T>)
    ensures a + b <= whole <==> a <= whole && b <= whole[|a|..]
  {
    if a <= whole && b <= whole[|a|..] { assert whole == a + whole[|a|..]; }
    if a + b <= whole { assert whole[..|a|] == a && whole[|a|..][..|b|] == b; }
  }

  lemma {:induction false} ReadClausesIs(texts: seq<string>, clauses: seq<Clause>)
    ensures ReadClauses(texts) == Some(clauses) <==> AreClauses(clauses) && ClausesTexts(clauses) + ["}"] <= texts
    decreases |clauses|
  {
    if clauses == [] {
      assert ClausesTexts(clauses) + ["}"] == ["}"];
      EndsAtOnce(texts);
    } else {
      var c, rest := clauses[0], clauses[1..];
      var n := ClauseSize(c);
      assert clauses == [c] + rest;
      ReadClauseIs(texts, c);
      if n <= |texts| { ReadClausesIs(texts[n..], rest); }
      assert ClausesTexts(clauses) + ["}"] == ClauseTexts(c) + (ClausesTexts(rest) + ["}"]);
      PrefixOfSum(ClauseTexts(c), ClausesTexts(rest) + ["}"], texts);
      assert ClauseTexts(c)[0] != "}";
      FirstOfClauses(texts, c, rest);
    }
  }

  lemma EndsAtOnce(texts: seq<string>)
    ensures ReadClauses(texts) == Some([]) <==> ["}"] <= texts
  {
  }

  lemma FirstOfClauses(texts: seq<string>, c: Clause, rest: seq<Clause>)
    ensures ReadClauses(texts) == Some([c] + rest) <==>
            texts != [] && texts[0] != "}" && ReadClause(texts) == Some(c)
                && ReadClauses(texts[ClauseSize(c)..]) == Some(rest)
  {
    if texts != [] && texts[0] != "}" && ReadClause(texts).Some? {
      var d := ReadClause(texts).value;
      var others := ReadClauses(texts[ClauseSize(d)..]);
      if others.Some? && [d] + others.value == [c] + rest {
        assert ([d] + others.value)[0] == d && ([d] + others.value)[1..] == others.value;
        assert ([c] + rest)[0] == c && ([c] + rest)[1..] == rest;
      }
    }
  }

  lemma ReadSectionIs(texts: seq<string>, s: Section)
    ensures ReadSection(texts) == Some(s) <==> IsSection(s) && SectionTexts(s) <= texts
  {
    var head, body := ["policy", s.name, "{"], ClausesTexts(s.clauses) + ["}"];
    assert SectionTexts(s) == head + body;
    PrefixOfSum(head, body, texts);
    if |texts| >= 3 {
      ReadClausesIs(texts[3..], s.clauses);
      assert texts[..3] == [texts[0], texts[1], texts[2]];
    }
  }

  predicate AreSections(sections: seq<Section>) { forall i :: 0 <= i < |sections| ==> IsSection(sections[i]) }

  /** The parser accepts exactly the texts of valid files, and reads back what was written. */
  lemma {:induction false} ReadSectionsIs(texts: seq<string>, sections: seq<Section>)
    ensures ReadSections(texts) == Some(sections) <==> AreSections(sections) && texts == FileTexts(sections)
    decreases |sections|
  {
    hide FileSize, ReadSection;
    if sections != [] {
      var s, rest := sections[0], sections[1..];
      var n := SectionSize(s);
      assert sections == [s] + rest;
      ReadSectionIs(texts, s);
      if n <= |texts| {
        ReadSectionsIs(texts[n..], rest);
        assert texts == texts[..n] + texts[n..];
      }
      FirstOfSections(texts, s, rest);
    }
  }

  lemma FirstOfSections(texts: seq<string>, s: Section, rest: seq<Section>)
    ensures ReadSections(texts) == Some([s] + rest) <==>
            ReadSection(texts) == Some(s) && ReadSections(texts[SectionSize(s)..]) == Some(rest)
  {
    if texts != [] && ReadSection(texts).Some? {
      var t := ReadSection(texts).value;
      var others := ReadSections(texts[SectionSize(t)..]);
      if others.Some? && [t] + others.value == [s] + rest {
        assert ([t] + others.value)[0] == t && ([t] + others.value)[1..] == others.value;
        assert ([s] + rest)[0] == s && ([s] + rest)[1..] == rest;
      }
    }
  }

  // ---------------------------------------------------------------- positions

  function LocateClause(c: Clause, tokens: seq<Token>, at: nat): Statement
    requires at + ClauseSize(c) <= |tokens|
  {
    Statement(c.operation, c.id, if c.value.Some? then KindNamed(c.value.value) else None, tokens[at].start,
              tokens[at + ClauseSize(c) - 1].start + 1)
  }

  function LocateClauses(clauses: seq<Clause>, tokens: seq<Token>, at: nat): seq<Statement>
    requires at + ClausesSize(clauses) <= |tokens|
  {
    if clauses == [] then []
    else [LocateClause(clauses[0], tokens, at)] + LocateClauses(clauses[1..], tokens, at + ClauseSize(clauses[0]))
  }

  function LocateSection(s: Section, tokens: seq<Token>, at: nat): Block
    requires at + SectionSize(s) <= |tokens|
  {
    Block(s.name, LocateClauses(s.clauses, tokens, at + 3), tokens[at + SectionSize(s) - 1].start)
  }

  function LocateSections(sections: seq<Section>, tokens: seq<Token>, at: nat): seq<Block>
    requires at + FileSize(sections) <= |tokens|
  {
    if sections == [] then []
    else [LocateSection(sections[0], tokens, at)] + LocateSections(sections[1..], tokens, at + SectionSize(sections[0]))
  }

  /** The blocks that tokens spell. */
  function BlocksOf(tokens: seq<Token>): Result<seq<Block>> {
    TextsAre(tokens);
    match ReadSections(Texts(tokens))
    case None => Err
    case Some(sections) => Ok(LocateSections(sections, tokens, 0))
  }

  lemma Associates<T>(x: seq<T>, y: seq<T>, z: seq<T>)
    ensures (x + y) + z == x + (y + z)
  {
  }

  lemma FirstAndRest<T>(a: seq<T>, b: seq<T>)
    requires a != []
    ensures a + b != [] && (a + b)[0] == a[0] && (a + b)[1..] == a[1..] + b
  {
  }

  lemma {:induction false} ClausesJoin(a: seq<Clause>, b: seq<Clause>)
    ensures ClausesTexts(a + b) == ClausesTexts(a) + ClausesTexts(b)
  {
    if a == [] {
      assert a + b == b;
    } else {
      ClausesJoin(a[1..], b);
      FirstAndRest(a, b);
      Associates(ClauseTexts(a[0]), ClausesTexts(a[1..]), ClausesTexts(b));
    }
  }

  lemma {:induction false} SectionsJoin(a: seq<Section>, b: seq<Section>)
    ensures FileTexts(a + b) == FileTexts(a) + FileTexts(b)
  {
    if a == [] {
      assert a + b == b;
    } else {
      SectionsJoin(a[1..], b);
      FirstAndRest(a, b);
      Associates(SectionTexts(a[0]), FileTexts(a[1..]), FileTexts(b));
    }
  }

  lemma {:induction false} SizesJoin(a: seq<Section>, b: seq<Section>)
    ensures FileSize(a + b) == FileSize(a) + FileSize(b)
  {
    if a == [] {
      assert a + b == b;
    } else {
      SizesJoin(a[1..], b);
      FirstAndRest(a, b);
    }
  }

  lemma {:induction false} ClausesSizesJoin(a: seq<Clause>, b: seq<Clause>)
    ensures ClausesSize(a + b) == ClausesSize(a) + ClausesSize(b)
  {
    if a == [] {
      assert a + b == b;
    } else {
      ClausesSizesJoin(a[1..], b);
      FirstAndRest(a, b);
    }
  }

  lemma LocateNone(tokens: seq<Token>, at: nat)
    requires at <= |tokens|
    ensures ClausesSize([]) == 0 && LocateClauses([], tokens, at) == []
  {
  }

  lemma SizeOfOne(first: Clause)
    ensures ClausesSize([first]) == ClauseSize(first)
  {
    hide ClauseSize;
    assert [first][1..] == [];
  }

  lemma LocateFirst(first: Clause, rest: seq<Clause>, tokens: seq<Token>, at: nat)
    requires at + ClauseSize(first) + ClausesSize(rest) <= |tokens|
    ensures ClausesSize([first] + rest) == ClauseSize(first) + ClausesSize(rest)
    ensures LocateClauses([first] + rest, tokens, at)
            == [LocateClause(first, tokens, at)] + LocateClauses(rest, tokens, at + ClauseSize(first))
  {
    assert ([first] + rest)[1..] == rest;
  }

  lemma {:induction false} LocateClausesJoin(a: seq<Clause>, b: seq<Clause>, tokens: seq<Token>, at: nat)
    requires at + ClausesSize(a) + ClausesSize(b) <= |tokens|
    ensures ClausesSize(a + b) == ClausesSize(a) + ClausesSize(b)
    ensures LocateClauses(a + b, tokens, at) == LocateClauses(a, tokens, at)
            + LocateClauses(b, tokens, at + ClausesSize(a))
  {
    hide Folded, ClauseSize, LocateClause, LocateClauses, ClausesSize;
    ClausesSizesJoin(a, b);
    if a == [] {
      LocateNone(tokens, at);
      assert a + b == b;
      assert [] + LocateClauses(b, tokens, at) == LocateClauses(b, tokens, at);
    } else {
      var first, rest := a[0], a[1..];
      assert a == [first] + rest && a + b == [first] + (rest + b);
      ClausesSizesJoin([first], rest);
      ClausesSizesJoin(rest, b);
      SizeOfOne(first);
      LocateClausesJoin(rest, b, tokens, at + ClauseSize(first));
      LocateFirst(first, rest + b, tokens, at);
      LocateFirst(first, rest, tokens, at);
      Associates([LocateClause(first, tokens, at)], LocateClauses(rest, tokens, at + ClauseSize(first)),
                 LocateClauses(b, tokens, at + ClausesSize(a)));
    }
  }

  lemma LocateFirstSection(sections: seq<Section>, first: Section, rest: seq<Section>, tokens: seq<Token>, at: nat,
                           next: nat)
    requires sections != [] && sections[0] == first && sections[1..] == rest && next == at + SectionSize(first)
    requires at + FileSize(sections) <= |tokens|
    ensures FileSize(sections) == SectionSize(first) + FileSize(rest)
    ensures LocateSections(sections, tokens, at) == [LocateSection(first, tokens, at)]
            + LocateSections(rest, tokens, next)
  {
  }

  lemma {:induction false} LocateSectionsJoin(a: seq<Section>, b: seq<Section>, tokens: seq<Token>, at: nat)
    requires FileSize(a + b) == FileSize(a) + FileSize(b) && at + FileSize(a + b) <= |tokens|
    ensures LocateSections(a + b, tokens, at) == LocateSections(a, tokens, at)
            + LocateSections(b, tokens, at + FileSize(a))
  {
    hide LocateSection, ClausesSize;
    if a == [] {
      assert a + b == b;
    } else {
      var first, rest := a[0], a[1..];
      var next := at + SectionSize(first);
      FirstAndRest(a, b);
      LocateSectionsJoin(rest, b, tokens, next);
      LocateFirstSection(a + b, first, rest + b, tokens, at, next);
      LocateFirstSection(a, first, rest, tokens, at, next);
      Associates([LocateSection(first, tokens, at)], LocateSections(rest, tokens, next),
                 LocateSections(b, tokens, at + FileSize(a)));
    }
  }
}
