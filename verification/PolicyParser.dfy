// src/governance/policy.rs: parsing tokens into blocks.
module PolicyParser {
  import opened Anchors
  import Classify
  import Markers
  import opened PolicyTokens
  import opened PolicyGrammar

  function Prepend<T>(items: seq<T>, rest: Option<seq<T>>): Option<seq<T>> {
    if rest.Some? then Some(items + rest.value) else None
  }

  lemma PrependNext<T>(items: seq<T>, item: T, rest: Option<seq<T>>)
    ensures Prepend(items, Prepend([item], rest)) == Prepend(items + [item], rest)
  {
    if rest.Some? { assert items + ([item] + rest.value) == (items + [item]) + rest.value; }
  }

  lemma PrependNothing<T>(rest: Option<seq<T>>)
    ensures Prepend([], rest) == rest
  {
    if rest.Some? { assert [] + rest.value == rest.value; }
  }

  lemma SliceAgain<T>(s: seq<T>, i: nat, n: nat)
    requires i + n <= |s|
    ensures s[i..][n..] == s[i + n..]
  {
  }

  /** A statement and the index of the token after it. */
  function ClauseAt(tokens: seq<Token>, texts: seq<string>, index: nat): Result<(Statement, nat)>
    requires |texts| == |tokens| && index <= |tokens|
  {
    match ReadClause(texts[index..])
    case None => Err
    case Some(c) => Ok((LocateClause(c, tokens, index), index + ClauseSize(c)))
  }

  /** Parse one command. */
  method ParseCommand(tokens: seq<Token>, index: nat) returns (result: Result<(Statement, nat)>)
    requires index < |tokens|
    ensures |Texts(tokens)| == |tokens| && result == ClauseAt(tokens, Texts(tokens), index)
  {
    TextsAre(tokens);
    ghost var texts := Texts(tokens)[index..];
    var operation := OperationNamed(tokens[index].text);
    if operation.None? || index + 1 >= |tokens| || !Markers.IsSelectionId(tokens[index + 1].text) { return Err; }
    var changeType: Option<Classify.ChangeType> := None;
    var next := index + 2;
    while next < |tokens| && tokens[next].text != ";"
      invariant next <= |tokens| && next == index + if changeType.Some? then 4 else 2
      invariant changeType.Some? ==>
                  operation.value.Target? && texts[2] == "change_type" && KindNamed(texts[3]) == changeType
    {
      if tokens[next].text != "change_type" || operation.value.Preserve? || changeType.Some? || next + 1 >= |tokens| {
        return Err;
      }
      changeType := KindNamed(tokens[next + 1].text);
      if changeType.None? { return Err; }
      next := next + 2;
    }
    if next >= |tokens| { return Err; }
    result := Ok((Statement(operation.value, tokens[index + 1].text, changeType, tokens[index].start,
                            tokens[next].start + 1), next + 1));
  }

  /** The statements up to a closing brace, and its index. */
  function ClausesAt(tokens: seq<Token>, texts: seq<string>, index: nat): Result<(seq<Statement>, nat)>
    requires |texts| == |tokens| && index <= |tokens|
  {
    match ReadClauses(texts[index..])
    case None => Err
    case Some(clauses) => Ok((LocateClauses(clauses, tokens, index), index + ClausesSize(clauses)))
  }

  lemma ReadFirstClause(texts: seq<string>, c: Clause)
    requires texts != [] && texts[0] != "}" && ReadClause(texts) == Some(c)
    ensures ReadClauses(texts) == Prepend([c], ReadClauses(texts[ClauseSize(c)..]))
  {
  }

  /** What is read from each index on, in terms of one command and what is read after it. */
  ghost predicate ReadsClauses(texts: seq<string>, one: nat -> Option<Clause>, all: nat -> Option<seq<Clause>>) {
    && all(|texts|).None?
    && (forall i: nat {:trigger texts[i]} :: i < |texts| && texts[i] == "}" ==> all(i) == Some([]))
    && (forall i: nat {:trigger one(i)} :: i < |texts| ==> one(i) == ReadClause(texts[i..]))
    && (forall i: nat {:trigger one(i)} :: i < |texts| && texts[i] != "}" && one(i).None? ==> all(i).None?)
    && forall i: nat {:trigger one(i)} :: i < |texts| && texts[i] != "}" && one(i).Some? ==>
         && i + ClauseSize(one(i).value) <= |texts|
         && all(i) == Prepend([one(i).value], all(i + ClauseSize(one(i).value)))
  }

  function ClauseFrom(texts: seq<string>): nat -> Option<Clause> {
    (i: nat) => if i <= |texts| then ReadClause(texts[i..]) else None
  }

  function ClausesFrom(texts: seq<string>): nat -> Option<seq<Clause>> {
    (i: nat) => if i <= |texts| then ReadClauses(texts[i..]) else None
  }

  lemma ReadsClausesFrom(texts: seq<string>)
    ensures ReadsClauses(texts, ClauseFrom(texts), ClausesFrom(texts))
  {
    var one, all := ClauseFrom(texts), ClausesFrom(texts);
    forall i: nat | i < |texts| && texts[i] != "}" && one(i).Some?
      ensures i + ClauseSize(one(i).value) <= |texts|
              && all(i) == Prepend([one(i).value], all(i + ClauseSize(one(i).value)))
    {
      ReadFirstClause(texts[i..], one(i).value);
      SliceAgain(texts, i, ClauseSize(one(i).value));
    }
  }

  lemma PushClause(tokens: seq<Token>, clauses: seq<Clause>, c: Clause, from: nat)
    requires from + ClausesSize(clauses) + ClauseSize(c) <= |tokens|
    ensures ClausesSize(clauses + [c]) == ClausesSize(clauses) + ClauseSize(c)
    ensures LocateClauses(clauses + [c], tokens, from)
            == LocateClauses(clauses, tokens, from) + [LocateClause(c, tokens, from + ClausesSize(clauses))]
  {
    assert ClausesSize([c]) == ClauseSize(c);
    LocateClausesJoin(clauses, [c], tokens, from);
  }

  /** Parse the commands of a block, up to its closing brace, given what reading them gives. */
  method CollectCommands(tokens: seq<Token>, from: nat, ghost one: nat -> Option<Clause>,
                         ghost all: nat -> Option<seq<Clause>>)
    returns (result: Result<(seq<Statement>, nat)>)
    requires from <= |tokens| && ReadsClauses(Texts(tokens), one, all)
    requires all(from).Some? ==> from + ClausesSize(all(from).value) <= |tokens|
    ensures result == if all(from).None? then Err
                      else Ok((LocateClauses(all(from).value, tokens, from), from + ClausesSize(all(from).value)))
  {
    hide LocateClause;
    TextsAre(tokens);
    ghost var clauses: seq<Clause> := [];
    PrependNothing(all(from));
    var statements: seq<Statement>, index := [], from;
    while index < |tokens| && tokens[index].text != "}"
      invariant from <= index <= |tokens| && index == from + ClausesSize(clauses)
      invariant statements == LocateClauses(clauses, tokens, from)
      invariant all(from) == Prepend(clauses, all(index))
      decreases |tokens| - index
    {
      assert Texts(tokens)[index] == tokens[index].text;
      var command := ParseCommand(tokens, index);
      assert one(index).None? == command.Err?;
      if command.Err? { return Err; }
      ghost var c := one(index).value;
      PushClause(tokens, clauses, c, from);
      PrependNext(clauses, c, all(index + ClauseSize(c)));
      clauses := clauses + [c];
      statements := statements + [command.value.0];
      index := command.value.1;
    }
    if index >= |tokens| { return Err; }
    assert Texts(tokens)[index] == "}" && clauses + [] == clauses;
    result := Ok((statements, index));
  }

  lemma ClausesFit(texts: seq<string>, all: nat -> Option<seq<Clause>>, from: nat)
    requires all == ClausesFrom(texts) && from <= |texts|
    ensures all(from) == ReadClauses(texts[from..])
    ensures all(from).Some? ==> from + ClausesSize(all(from).value) <= |texts|
  {
  }

  method ParseCommands(tokens: seq<Token>, from: nat) returns (result: Result<(seq<Statement>, nat)>)
    requires from <= |tokens|
    ensures |Texts(tokens)| == |tokens| && result == ClausesAt(tokens, Texts(tokens), from)
  {
    hide ClausesSize;
    TextsAre(tokens);
    ReadsClausesFrom(Texts(tokens));
    ClausesFit(Texts(tokens), ClausesFrom(Texts(tokens)), from);
    result := CollectCommands(tokens, from, ClauseFrom(Texts(tokens)), ClausesFrom(Texts(tokens)));
  }

  lemma ReadFirstSection(texts: seq<string>, s: Section)
    requires texts != [] && ReadSection(texts) == Some(s)
    ensures SectionSize(s) <= |texts| && ReadSections(texts) == Prepend([s], ReadSections(texts[SectionSize(s)..]))
  {
  }

  function SectionFrom(texts: seq<string>): nat -> Option<Section> {
    (i: nat) => if i <= |texts| then ReadSection(texts[i..]) else None
  }

  /** The sections from an index on, given what is read at each index. */
  ghost function Gather(one: nat -> Option<Section>, i: nat, n: nat): Option<seq<Section>>
    decreases n - i
  {
    if i >= n then Some([])
    else
      match one(i)
      case None => None
      case Some(s) => Prepend([s], Gather(one, i + SectionSize(s), n))
  }

  lemma ReadNoSection(texts: seq<string>)
    requires texts != [] && ReadSection(texts).None?
    ensures ReadSections(texts).None?
  {
  }

  lemma ReadSectionFrom(texts: seq<string>, i: nat, s: Section)
    requires i < |texts| && ReadSection(texts[i..]) == Some(s)
    ensures i + SectionSize(s) <= |texts| && ReadSections(texts[i..])
            == Prepend([s], ReadSections(texts[i + SectionSize(s)..]))
  {
    ReadFirstSection(texts[i..], s);
    SliceAgain(texts, i, SectionSize(s));
  }

  predicate IsIndex(i: nat) { true }

  /** Reads one section at every index asked for. */
  ghost predicate IsReader(one: nat -> Option<Section>, texts: seq<string>) {
    forall i: nat {:trigger IsIndex(i)} :: IsIndex(i) && i < |texts| ==> one(i) == ReadSection(texts[i..])
  }

  lemma GatherStep(one: nat -> Option<Section>, i: nat, n: nat, s: Section, rest: Option<seq<Section>>)
    requires i < n && one(i) == Some(s) && rest == Gather(one, i + SectionSize(s), n)
    ensures Gather(one, i, n) == Prepend([s], rest)
  {
  }

  lemma GatherStops(one: nat -> Option<Section>, i: nat, n: nat)
    requires i >= n || one(i).None?
    ensures Gather(one, i, n) == if i >= n then Some([]) else None
  {
  }

  lemma ReadNothing(texts: seq<string>, i: nat)
    requires i == |texts|
    ensures ReadSections(texts[i..]) == Some([])
  {
  }

  lemma {:induction false} ReadIsGathered(texts: seq<string>, one: nat -> Option<Section>, i: nat)
    returns (all: Option<seq<Section>>)
    requires IsReader(one, texts) && i <= |texts|
    ensures all == ReadSections(texts[i..]) && all == Gather(one, i, |texts|)
    decreases |texts| - i
  {
    hide ReadSections;
    if i == |texts| {
      GatherStops(one, i, |texts|);
      ReadNothing(texts, i);
      all := Some([]);
    } else {
      assert IsIndex(i);
      if one(i).None? {
        ReadNoSection(texts[i..]);
        GatherStops(one, i, |texts|);
        all := None;
      } else {
        var s := one(i).value;
        ReadSectionFrom(texts, i, s);
        var rest := ReadIsGathered(texts, one, i + SectionSize(s));
        GatherStep(one, i, |texts|, s, rest);
        all := Prepend([s], rest);
      }
    }
  }

  lemma PushSection(tokens: seq<Token>, sections: seq<Section>, s: Section)
    requires FileSize(sections) + SectionSize(s) <= |tokens|
    ensures FileSize(sections + [s]) == FileSize(sections) + SectionSize(s)
    ensures LocateSections(sections + [s], tokens, 0)
            == LocateSections(sections, tokens, 0) + [LocateSection(s, tokens, FileSize(sections))]
  {
    assert FileSize([s]) == SectionSize(s);
    SizesJoin(sections, [s]);
    LocateSectionsJoin(sections, [s], tokens, 0);
  }

  /** A block and the index of the token after it. */
  function SectionAt(tokens: seq<Token>, texts: seq<string>, index: nat): Result<(Block, nat)>
    requires |texts| == |tokens| && index <= |tokens|
  {
    match ReadSection(texts[index..])
    case None => Err
    case Some(s) => Ok((LocateSection(s, tokens, index), index + SectionSize(s)))
  }

  method ParseBlock(tokens: seq<Token>, index: nat) returns (result: Result<(Block, nat)>)
    requires index < |tokens|
    ensures |Texts(tokens)| == |tokens| && result == SectionAt(tokens, Texts(tokens), index)
  {
    TextsAre(tokens);
    if index + 2 >= |tokens| || tokens[index].text != "policy" || !Markers.IsName(tokens[index + 1].text)
       || tokens[index + 2].text != "{" {
      return Err;
    }
    var commands := ParseCommands(tokens, index + 3);
    SliceAgain(Texts(tokens), index, 3);
    if commands.Err? { return Err; }
    var close := commands.value.1;
    result := Ok((Block(tokens[index + 1].text, commands.value.0, tokens[close].start), close + 1));
  }

  /** Parse the block at an index. */
  method NextBlock(tokens: seq<Token>, index: nat, ghost one: nat -> Option<Section>)
    returns (block: Result<(Block, nat)>)
    requires index < |tokens| && IsReader(one, Texts(tokens))
    ensures block.Err? ==> one(index).None?
    ensures block.Ok? ==>
              && one(index).Some? && block.value.1 == index + SectionSize(one(index).value) <= |tokens|
              && block.value.0 == LocateSection(one(index).value, tokens, index)
  {
    TextsAre(tokens);
    assert IsIndex(index);
    block := ParseBlock(tokens, index);
  }

  /** Parse all blocks. */
  method CollectBlocks(tokens: seq<Token>, ghost one: nat -> Option<Section>) returns (result: Result<seq<Block>>)
    requires IsReader(one, Texts(tokens))
    requires var all := Gather(one, 0, |tokens|); all.Some? ==> FileSize(all.value) <= |tokens|
    ensures var all := Gather(one, 0, |tokens|);
            result == if all.None? then Err else Ok(LocateSections(all.value, tokens, 0))
  {
    ghost var sections: seq<Section>, all := [], Gather(one, 0, |tokens|);
    PrependNothing(all);
    var blocks: seq<Block>, index := [], 0;
    while index < |tokens|
      invariant index <= |tokens| && index == FileSize(sections)
      invariant blocks == LocateSections(sections, tokens, 0)
      invariant all == Prepend(sections, Gather(one, index, |tokens|))
      decreases |tokens| - index
    {
      var block := NextBlock(tokens, index, one);
      if block.Err? { return Err; }
      ghost var s := one(index).value;
      PushSection(tokens, sections, s);
      PrependNext(sections, s, Gather(one, block.value.1, |tokens|));
      sections := sections + [s];
      blocks := blocks + [block.value.0];
      index := block.value.1;
    }
    assert sections + [] == sections;
    result := Ok(blocks);
  }

  /** Parse the tokens of a policy file. */
  method Parse(tokens: seq<Token>) returns (result: Result<seq<Block>>)
    ensures result == BlocksOf(tokens)
  {
    TextsAre(tokens);
    ghost var one := SectionFrom(Texts(tokens));
    ghost var all := ReadIsGathered(Texts(tokens), one, 0);
    assert Texts(tokens)[0..] == Texts(tokens);
    result := CollectBlocks(tokens, one);
  }
}
