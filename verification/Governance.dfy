// src/governance/state.rs: committing a governance change, and what holds over whole runs of commits and replacements.
module Governance {
  import opened Anchors
  import AuditChain
  import opened Digests
  import opened Integrity
  import Markers
  import opened Passing

  const REGISTRY_FORMAT: nat := 1

  const GOVERNANCE_SIGNED := "governance.signed"

  /** A governance change asked for: `agent` tells whether an agent runs it, `freshKey` is the key that would be
      created, and `change` is what it does to a state, given the new generation. */
  datatype Request = Request(agent: bool, action: string, detail: string, at: nat, actor: string, freshKey: string,
                             change: (State, nat) -> Result<State>)

  datatype Machine = Machine(repositoryId: string, crane: State, trust: Trust)

  // ---------------------------------------------------------------- commit

  function Generation(s: State): nat { if s.manifest.Some? then s.manifest.value.facts.generation else 0 }

  function PreviousHead(s: State): Digest { if s.manifest.Some? then s.manifest.value.head else GENESIS }

  function SealAll(records: seq<Record>, key: string): seq<Record> {
    if records == [] then [] else SealAll(records[..|records| - 1], key) + [Seal(records[|records| - 1], key)]
  }

  /** What is read back from a rendered map. */
  function RenderedMap(records: seq<Record>): MapFile {
    if forall i :: 0 <= i < |records| ==>
         Markers.IsSelectionId(records[i].facts.id) && IsDigest(records[i].facts.origin.binding)
             then Pairs(MapPairs(records))
    else Malformed
  }

  /** The state after a change is sealed and its audit entry appended. */
  function Sealed(changed: State, r: Request, key: string): State {
    changed.(selections := SealAll(changed.selections, key),
             audit := changed.audit + [AuditChain.Next(changed.audit, r.at, r.actor, r.action, r.detail)])
  }

  function ManifestFor(s: State, repositoryId: string, key: string, generation: nat, previousHead: Digest,
                       r: Request): Manifest {
    var facts := ManifestFacts(REGISTRY_FORMAT, repositoryId, key, generation, previousHead, CoveredBy(s), s.governance,
                               r.at, r.actor);
    Manifest(facts, HeadOf(facts), Sign(key, ManifestMessage(HeadOf(facts))))
  }

  /** The state that a commit returns, given the one it loaded and the one the change made of it. */
  function Output(loaded: State, changed: State, repositoryId: string, key: string, r: Request): State {
    var s := Sealed(changed, r, key);
    s.(manifest := Some(ManifestFor(s, repositoryId, key, Generation(loaded) + 1, PreviousHead(loaded), r)))
  }

  /** What is then in .crane: the covered files and the map are written, the audit entry is appended to the trail that
      was there, and governance.yaml is left alone. */
  function Written(loaded: State, output: State, entry: Entry): State {
    output.(audit := loaded.audit + [entry], governance := loaded.governance,
            governancePresent := loaded.governancePresent, mapFile := RenderedMap(output.selections))
  }

  function AnchorFor(manifest: Manifest, key: string): Anchor {
    Anchor(manifest.facts.generation, manifest.head, Sign(key, AnchorMessage(manifest.facts.generation, manifest.head)))
  }

  /** The key a commit signs with: an existing one, or for the first commit a fresh one. */
  function SigningKey(m: Machine, r: Request): Option<string> {
    if m.trust.key.Some? then m.trust.key else if m.crane.manifest.None? then Some(r.freshKey) else None
  }

  /** The trust directory once the loaded state is checked: the key is there, and a verified epoch remembered. */
  ghost function CheckedTrust(m: Machine, r: Request, available: set<string>): Trust {
    var t := m.trust.(key := SigningKey(m, r));
    if m.crane.manifest.None? || t.key.None? || t.key.value !in Signers(m.crane) then t
    else t.(epoch := EpochAfter(m.crane, t, m.repositoryId, available))
  }

  /** Whether the loaded state may be signed over. */
  ghost predicate MaySign(m: Machine, r: Request, available: set<string>) {
    var t := m.trust.(key := SigningKey(m, r));
    && !r.agent && t.key.Some?
    && (m.crane.manifest.Some? ==>
          t.key.value in Signers(m.crane)
          && IsClean(Findings(m.crane, t, m.repositoryId, available), r.action == GOVERNANCE_SIGNED))
  }

  ghost function CommitResult(m: Machine, r: Request, available: set<string>): Result<State> {
    if !MaySign(m, r, available) then Err
    else
      match r.change(m.crane, Generation(m.crane) + 1)
      case Err => Err
      case Ok(changed) => Ok(Output(m.crane, changed, m.repositoryId, SigningKey(m, r).value, r))
  }

  ghost function AfterCommit(m: Machine, r: Request, available: set<string>): Machine {
    if r.agent then m
    else
      var t := CheckedTrust(m, r, available);
      match CommitResult(m, r, available)
      case Err => m.(trust := t)
      case Ok(output) =>
        var entry := output.audit[|output.audit| - 1];
        Machine(m.repositoryId, Written(m.crane, output, entry),
                t.(anchor := Some(AnchorFor(output.manifest.value, t.key.value))))
  }

  /** Re-sign every record. */
  method SealRecords(records: seq<Record>, key: string) returns (sealed: seq<Record>)
    ensures sealed == SealAll(records, key)
  {
    sealed := [];
    for i := 0 to |records|
      invariant sealed == SealAll(records[..i], key)
    {
      assert records[..i + 1][..i] == records[..i];
      sealed := sealed + [Seal(records[i], key)];
    }
    assert records[..|records|] == records;
  }

  /** Seal a changed state, append its audit entry, and sign its manifest. */
  method SignState(loaded: State, changed: State, repositoryId: string, key: string, r: Request)
    returns (output: State, entry: Entry)
    ensures output == Output(loaded, changed, repositoryId, key, r) && output.audit == changed.audit + [entry]
  {
    var generation, previousHead := Generation(loaded) + 1, PreviousHead(loaded);
    var sealed := SealRecords(changed.selections, key);
    output := changed.(selections := sealed);
    entry := AuditChain.Next(output.audit, r.at, r.actor, r.action, r.detail);
    output := output.(audit := output.audit + [entry]);
    output := output.(manifest := Some(ManifestFor(output, repositoryId, key, generation, previousHead, r)));
  }

  /** A clone of a repository on one machine: .crane and the trust directory. */
  class Clone {
    const repositoryId: string
    var crane: State
    var trust: Trust

    constructor (repositoryId: string, crane: State, trust: Trust)
      ensures Snapshot() == Machine(repositoryId, crane, trust)
    {
      this.repositoryId := repositoryId;
      this.crane := crane;
      this.trust := trust;
    }

    function Snapshot(): Machine
      reads this
    {
      Machine(repositoryId, crane, trust)
    }

    /** Anything may be put in place of .crane. */
    method Replace(content: State)
      modifies this`crane
      ensures Snapshot() == old(Snapshot()).(crane := content)
    {
      crane := content;
    }

    /** Check the loaded state before it is signed over. */
    method Admit(r: Request, available: set<string>) returns (admitted: bool)
      requires !r.agent
      modifies this`trust
      ensures admitted == MaySign(old(Snapshot()), r, available)
      ensures trust == CheckedTrust(old(Snapshot()), r, available)
    {
      trust := trust.(key := if trust.key.Some? then trust.key else if crane.manifest.None? then Some(r.freshKey)
                      else None);
      if trust.key.None? { return false; }
      if crane.manifest.None? { return true; }
      if trust.key.value !in Signers(crane) { return false; }
      var findings, epoch := Check(crane, trust, repositoryId, available);
      trust := trust.(epoch := epoch);
      return IsClean(findings, r.action == GOVERNANCE_SIGNED);
    }

    /** Apply a governance change, sign the result, and move this machine's anchor. */
    method Commit(r: Request, available: set<string>) returns (result: Result<State>)
      modifies this
      ensures result == CommitResult(old(Snapshot()), r, available)
      ensures Snapshot() == AfterCommit(old(Snapshot()), r, available)
    {
      if r.agent { return Err; }
      var admitted := Admit(r, available);
      if !admitted { return Err; }
      var changed := r.change(crane, Generation(crane) + 1);
      if changed.Err? { return Err; }
      var output, entry := SignState(crane, changed.value, repositoryId, trust.key.value, r);
      crane := Written(crane, output, entry);
      trust := trust.(anchor := Some(AnchorFor(output.manifest.value, trust.key.value)));
      result := Ok(output);
    }
  }
}
