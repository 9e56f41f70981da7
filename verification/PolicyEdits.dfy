// src/governance/policy.rs: inserting a command into policy text and removing one, and what that does to its parse.
module PolicyEdits {
  import opened Anchors
  import Classify
  import Markers
  import opened PolicyTokens
  import opened PolicyGrammar

  /** A parsed command and a parsed policy, without positions. */
  datatype Command = Command(operation: Operation, id: string, changeType: Option<Classify.ChangeType>)

  datatype Policy = Policy(name: string, commands: seq<Command>)

  /** Commands that can be written: only a target takes a change type. */
  predicate IsCommand(command: Command) {
    Markers.IsSelectionId(command.id) && (command.changeType.Some? ==> command.operation.Target?)
  }

  function ParseText(text: string): Result<seq<Block>> {
    match TokensOf(text, 0)
    case Err => Err
    case Ok(tokens) => BlocksOf(tokens)
  }

  function Commands(statements: seq<Statement>): seq<Command> {
    if statements == [] then []
    else
      [Command(statements[0].operation, statements[0].id, statements[0].changeType)] + Commands(statements[1..])
  }

  function Policies(blocks: seq<Block>): seq<Policy> {
    if blocks == [] then [] else [Policy(blocks[0].name, Commands(blocks[0].statements))] + Policies(blocks[1..])
  }

  function Render(command: Command): string {
    OperationName(command.operation) + " " + command.id
    + (if command.changeType.Some? then " change_type " + KindName(command.changeType.value) else "") + ";"
  }

  // ---------------------------------------------------------------- the edits

  function StartOfLine(text: string, i: nat): (start: nat)
    requires i <= |text|
    ensures start <= i
    ensures start == 0 || text[start - 1] == '\n'
    ensures forall k :: start <= k < i ==> text[k] != '\n'
  {
    if i == 0 || text[i - 1] == '\n' then i else StartOfLine(text, i - 1)
  }

  function EndOfLine(text: string, i: nat): (end: nat)
    requires i <= |text|
    ensures i <= end <= |text|
    ensures end == |text| || (i < end && text[end - 1] == '\n')
    ensures forall k :: i <= k < end - 1 ==> text[k] != '\n'
    decreases |text| - i
  {
    if i == |text| then i else if text[i] == '\n' then i + 1 else EndOfLine(text, i + 1)
  }

  function Newline(text: string): string { if Contains(text, "\r\n") then "\r\n" else "\n" }

  predicate OnlySpaceBefore(text: string, close: nat)
    requires close <= |text|
  {
    Trim(text[StartOfLine(text, close)..close]) == ""
  }

  /** Insert a command at the end of a block, on its own line before the closing brace. */
  function InsertStatement(text: string, close: nat, statement: string): string
    requires close <= |text|
  {
    var start := StartOfLine(text, close);
    if OnlySpaceBefore(text, close) then text[..start] + "    " + statement + Newline(text) + text[start..]
    else text[..close] + Newline(text) + "    " + statement + Newline(text) + text[close..]
  }

  /** Remove a command, with its line when nothing else is on it. */
  function RemoveStatement(text: string, start: nat, end: nat): string
    requires start <= end <= |text|
  {
    var lineStart, lineEnd := StartOfLine(text, start), EndOfLine(text, end);
    if Trim(text[lineStart..start]) == "" && IsRest(Trim(text[end..lineEnd])) then text[..lineStart] + text[lineEnd..]
    else text[..start] + text[end..]
  }

  // ---------------------------------------------------------------- what sections mean

  function CommandOf(c: Clause): Command { Command(c.operation, c.id,
                                                   if c.value.Some? then KindNamed(c.value.value) else None) }

  function CommandsOf(clauses: seq<Clause>): seq<Command> {
    if clauses == [] then [] else [CommandOf(clauses[0])] + CommandsOf(clauses[1..])
  }

  function PoliciesOf(sections: seq<Section>): seq<Policy> {
    if sections == [] then []
    else [Policy(sections[0].name, CommandsOf(sections[0].clauses))] + PoliciesOf(sections[1..])
  }

  lemma {:induction false} CommandsLocated(clauses: seq<Clause>, tokens: seq<Token>, at: nat)
    requires at + ClausesSize(clauses) <= |tokens|
    ensures Commands(LocateClauses(clauses, tokens, at)) == CommandsOf(clauses)
  {
    if clauses != [] {
      CommandsLocated(clauses[1..], tokens, at + ClauseSize(clauses[0]));
      var rest := LocateClauses(clauses[1..], tokens, at + ClauseSize(clauses[0]));
      assert ([LocateClause(clauses[0], tokens, at)] + rest)[1..] == rest;
    }
  }

  lemma FirstPolicy(block: Block, rest: seq<Block>)
    ensures Policies([block] + rest) == [Policy(block.name, Commands(block.statements))] + Policies(rest)
  {
    assert ([block] + rest)[1..] == rest;
  }

  lemma {:induction false} PoliciesLocated(sections: seq<Section>, tokens: seq<Token>, at: nat)
    requires at + FileSize(sections) <= |tokens|
    ensures Policies(LocateSections(sections, tokens, at)) == PoliciesOf(sections)
  {
    hide Commands, CommandsOf, LocateClauses;
    if sections != [] {
      CommandsLocated(sections[0].clauses, tokens, at + 3);
      PoliciesLocated(sections[1..], tokens, at + SectionSize(sections[0]));
      FirstPolicy(LocateSection(sections[0], tokens, at),
                  LocateSections(sections[1..], tokens, at + SectionSize(sections[0])));
    }
  }

  /** Tokens that spell valid sections parse to what the sections mean. */
  lemma SpelledParse(tokens: seq<Token>, sections: seq<Section>)
    requires AreSections(sections) && Texts(tokens) == FileTexts(sections)
    ensures |tokens| == FileSize(sections) && BlocksOf(tokens) == Ok(LocateSections(sections, tokens, 0))
    ensures Policies(BlocksOf(tokens).value) == PoliciesOf(sections)
  {
    TextsAre(tokens);
    ReadSectionsIs(Texts(tokens), sections);
    PoliciesLocated(sections, tokens, 0);
  }

  lemma ParsedSpells(tokens: seq<Token>) returns (sections: seq<Section>)
    requires BlocksOf(tokens).Ok?
    ensures AreSections(sections) && Texts(tokens) == FileTexts(sections)
  {
    TextsAre(tokens);
    sections := ReadSections(Texts(tokens)).value;
    ReadSectionsIs(Texts(tokens), sections);
  }

  lemma {:induction false} CommandsJoin(a: seq<Clause>, b: seq<Clause>)
    ensures CommandsOf(a + b) == CommandsOf(a) + CommandsOf(b)
  {
    if a == [] {
      assert a + b == b;
    } else {
      CommandsJoin(a[1..], b);
      FirstAndRest(a, b);
    }
  }

  lemma {:induction false} PoliciesAre(sections: seq<Section>)
    ensures |PoliciesOf(sections)| == |sections|
    ensures forall i :: 0 <= i < |sections| ==>
              PoliciesOf(sections)[i] == Policy(sections[i].name, CommandsOf(sections[i].clauses))
  {
    if sections != [] { PoliciesAre(sections[1..]); }
  }

  lemma {:induction false} CommandsAre(clauses: seq<Clause>)
    ensures |CommandsOf(clauses)| == |clauses|
    ensures forall i :: 0 <= i < |clauses| ==> CommandsOf(clauses)[i] == CommandOf(clauses[i])
  {
    if clauses != [] { CommandsAre(clauses[1..]); }
  }

  /** The sections with other clauses in one of them. */
  function WithClauses(sections: seq<Section>, b: nat, clauses: seq<Clause>): seq<Section>
    requires b < |sections|
  {
    sections[b := Section(sections[b].name, clauses)]
  }

  function WithCommands(policies: seq<Policy>, b: nat, commands: seq<Command>): seq<Policy>
    requires b < |policies|
  {
    policies[b := Policy(policies[b].name, commands)]
  }

  lemma PoliciesChange(sections: seq<Section>, b: nat, clauses: seq<Clause>)
    requires b < |sections|
    ensures |PoliciesOf(sections)| == |sections|
    ensures PoliciesOf(WithClauses(sections, b, clauses)) == WithCommands(PoliciesOf(sections), b, CommandsOf(clauses))
  {
    PoliciesAre(sections);
    PoliciesAre(WithClauses(sections, b, clauses));
  }

  // ---------------------------------------------------------------- where things are in the tokens

  function HeadTexts(sections: seq<Section>, b: nat): seq<string>
    requires b < |sections|
  {
    FileTexts(sections[..b]) + ["policy", sections[b].name, "{"]
  }

  function TailTexts(sections: seq<Section>, b: nat): seq<string>
    requires b < |sections|
  {
    ["}"] + FileTexts(sections[b + 1..])
  }

  function HeadSize(sections: seq<Section>, b: nat): nat
    requires b < |sections|
  {
    FileSize(sections[..b]) + 3
  }

  lemma FileAround(sections: seq<Section>, b: nat)
    requires b < |sections|
    ensures FileTexts(sections) == HeadTexts(sections, b) + ClausesTexts(sections[b].clauses) + TailTexts(sections, b)
    ensures |HeadTexts(sections, b)| == HeadSize(sections, b)
  {
    var p, s, q := sections[..b], sections[b], sections[b + 1..];
    assert sections == p + ([s] + q);
    SectionsJoin(p, [s] + q);
    assert ([s] + q)[1..] == q;
    var open, body := ["policy", s.name, "{"], ClausesTexts(s.clauses);
    Around(FileTexts(p), open, body, ["}"], FileTexts(q));
  }

  lemma Around<T>(p: seq<T>, open: seq<T>, body: seq<T>, close: seq<T>, q: seq<T>)
    ensures p + ((open + body + close) + q) == (p + open) + body + (close + q)
  {
  }

  lemma LocatedSection(sections: seq<Section>, tokens: seq<Token>, b: nat)
    requires b < |sections| && FileSize(sections) <= |tokens|
    ensures FileSize(sections[..b]) + SectionSize(sections[b]) <= |tokens|
    ensures b < |LocateSections(sections, tokens, 0)|
    ensures LocateSections(sections, tokens, 0)[b] == LocateSection(sections[b], tokens, FileSize(sections[..b]))
  {
    var p, q := sections[..b], sections[b..];
    assert sections == p + q;
    SizesJoin(p, q);
    LocateSectionsJoin(p, q, tokens, 0);
    LocatedAre(p, tokens, 0);
  }

  lemma {:induction false} LocatedAre(sections: seq<Section>, tokens: seq<Token>, at: nat)
    requires at + FileSize(sections) <= |tokens|
    ensures |LocateSections(sections, tokens, at)| == |sections|
  {
    if sections != [] { LocatedAre(sections[1..], tokens, at + SectionSize(sections[0])); }
  }

  lemma {:induction false} LocatedClausesAre(clauses: seq<Clause>, tokens: seq<Token>, at: nat)
    requires at + ClausesSize(clauses) <= |tokens|
    ensures |LocateClauses(clauses, tokens, at)| == |clauses|
  {
    if clauses != [] { LocatedClausesAre(clauses[1..], tokens, at + ClauseSize(clauses[0])); }
  }

  lemma LocatedClause(clauses: seq<Clause>, tokens: seq<Token>, at: nat, j: nat)
    requires j < |clauses| && at + ClausesSize(clauses) <= |tokens|
    ensures ClausesSize(clauses[..j]) + ClauseSize(clauses[j]) <= ClausesSize(clauses)
    ensures j < |LocateClauses(clauses, tokens, at)|
    ensures LocateClauses(clauses, tokens, at)[j] == LocateClause(clauses[j], tokens, at + ClausesSize(clauses[..j]))
  {
    var p, q := clauses[..j], clauses[j..];
    assert clauses == p + q;
    ClausesSizesJoin(p, q);
    LocateClausesJoin(p, q, tokens, at);
    LocatedClausesAre(p, tokens, at);
  }
}
