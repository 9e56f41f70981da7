// src/governance/state.rs and admins.rs: what the signed manifest covers, and how a loaded state is verified.
module Integrity {
  import opened Anchors
  import AuditChain
  import CheckpointChain
  import opened Digests
  import Markers
  import SelectionMap

  /** The map file: missing, malformed, or pairs of an identifier and an origin digest. */
  datatype MapFile = Missing | Malformed | Pairs(pairs: seq<(string, Digest)>)

  /** Everything in .crane that a check reads. */
  datatype State = State(config: Config, checkpoints: seq<Checkpoint>, context: string, manifest: Option<Manifest>,
                         selections: seq<Record>, audit: seq<Entry>, governance: Digest, governancePresent: bool,
                         mapFile: MapFile)

  datatype Anchor = Anchor(generation: nat, head: Digest, signature: Signature)

  /** This machine's trust directory: its key, the keys it pinned, its rollback anchor, the admin epoch it verified. */
  datatype Trust = Trust(key: Option<string>, pinned: set<string>, anchor: Option<Anchor>, epoch: nat)

  datatype Severity = Low | Medium | High | Critical

  datatype Finding =
    | RegistryMissing | WrongRepository | UntrustedOwner | AdminsTampered | AdminsRollback | NoTrustedKey
    | UntrustedSigner | ManifestTampered | SignatureInvalid | FileTampered | GovernanceUnsigned
    | GovernanceChanged | SelectionDuplicated | RecordInvalid | MapMissing | MapTampered | CheckpointsTampered
    | CommitMissing | AuditTampered | AnchorFirstUse | AnchorInvalid | RegistryRollback | RegistryFork

  function SeverityOf(finding: Finding): Severity {
    match finding
    case AnchorFirstUse => Low
    case GovernanceUnsigned => Medium
    case CommitMissing => High
    case _ => Critical
  }

  predicate IsBlocking(finding: Finding) { SeverityOf(finding).High? || SeverityOf(finding).Critical? }

  /** The digest of governance.yaml by its parsed meaning, or a fixed word when it cannot be parsed. */
  function GovernanceDigest(meaning: Option<string>): Digest {
    match meaning
    case None => Plain("unreadable")
    case Some(parsed) => GovernanceOf(parsed)
  }

  // ---------------------------------------------------------------- what the manifest covers

  function InsertPair(pairs: seq<(string, Digest)>, pair: (string, Digest)): seq<(string, Digest)> {
    if pairs == [] || !SelectionMap.AtMost(pairs[0].0, pair.0) then [pair] + pairs
    else [pairs[0]] + InsertPair(pairs[1..], pair)
  }

  /** The records' identifiers and digests, by identifier, equal ones in their order. */
  function SortedPairs(records: seq<Record>): seq<(string, Digest)> {
    if records == [] then []
    else
      var last := records[|records| - 1];
      InsertPair(SortedPairs(records[..|records| - 1]), (last.facts.id, last.digest))
  }

  function CoveredBy(s: State): Covered {
    Covered(RecordsOf(SortedPairs(s.selections)), CheckpointsOf(s.checkpoints), ConfigOf(s.config),
            ContextOf(s.context), AuditChain.Head(s.audit))
  }

  // ---------------------------------------------------------------- administrators

  function SignStatement(owner: string, repositoryId: string, epoch: nat, admins: seq<Admin>): AdminStatement {
    AdminStatement(owner, epoch, admins, Sign(owner, AdminsMessage(repositoryId, owner, epoch, admins)))
  }

  predicate StatementVerifies(statement: AdminStatement, repositoryId: string) {
    Verifies(statement.owner, AdminsMessage(repositoryId, statement.owner, statement.epoch, statement.admins),
             statement.signature)
  }

  /** A statement signed for one repository, owner, epoch and list verifies for no other. */
  lemma StatementBinds(owner: string, repositoryId: string, epoch: nat, admins: seq<Admin>, changed: AdminStatement,
                       other: string)
    requires changed.signature == SignStatement(owner, repositoryId, epoch, admins).signature
    ensures StatementVerifies(changed, other) <==>
            other == repositoryId && changed == SignStatement(owner, repositoryId, epoch, admins)
  {
  }

  function StatementKeys(statement: AdminStatement): set<string> {
    {statement.owner} + set admin | admin in statement.admins :: admin.key
  }

  function Trusted(t: Trust): set<string> { (if t.key.Some? then {t.key.value} else {}) + t.pinned }

  /** The keys allowed to sign the next manifest. */
  function Signers(s: State): set<string> {
    if s.config.admins.Some? then StatementKeys(s.config.admins.value)
    else if s.manifest.Some? then {s.manifest.value.facts.key}
    else {}
  }

  function AdminFindings(s: State, t: Trust, repositoryId: string): seq<Finding> {
    if s.config.admins.None? then []
    else
      var statement := s.config.admins.value;
      if statement.owner !in Trusted(t) then [UntrustedOwner]
      else if !StatementVerifies(statement, repositoryId) then [AdminsTampered]
      else if statement.epoch < t.epoch then [AdminsRollback]
      else []
  }

  /** The keys that a manifest and records may be signed with. */
  function SigningKeys(s: State, t: Trust, repositoryId: string): set<string> {
    if s.config.admins.Some? && AdminFindings(s, t, repositoryId) == [] then StatementKeys(s.config.admins.value)
        else Trusted(t)
  }

  // ---------------------------------------------------------------- findings

  function SignerFindings(manifest: Manifest, keys: set<string>, t: Trust): seq<Finding> {
    if Trusted(t) == {} then [NoTrustedKey] else if manifest.facts.key !in keys then [UntrustedSigner] else []
  }

  function HeadFindings(manifest: Manifest): seq<Finding> {
    if HeadOf(manifest.facts) != manifest.head then [ManifestTampered]
    else if !Verifies(manifest.facts.key, ManifestMessage(manifest.head), manifest.signature) then [SignatureInvalid]
    else []
  }

  function Differs(expected: Digest, actual: Digest): seq<Finding> { if expected != actual then [FileTampered] else [] }

  function CoveredFindings(expected: Covered, actual: Covered): seq<Finding> {
    Differs(expected.records, actual.records) + Differs(expected.checkpoints, actual.checkpoints)
    + Differs(expected.config, actual.config) + Differs(expected.context, actual.context)
    + Differs(expected.audit, actual.audit)
  }

  function GovernanceFindings(manifest: Manifest, s: State): seq<Finding> {
    if manifest.facts.governance == Plain("") then if s.governancePresent then [GovernanceUnsigned] else []
    else if manifest.facts.governance != s.governance then [GovernanceChanged]
    else []
  }

  function BindingFor(repositoryId: string, origin: Origin): Digest {
    BindingOf(repositoryId, origin.checkpoint, origin.commit, origin.blob, origin.span, origin.content)
  }

  /** What a record must be for signing it to make it verify. */
  predicate IsRecord(facts: Facts, repositoryId: string) {
    && Markers.IsSelectionId(facts.id) && facts.repositoryId == repositoryId
    && IsDigest(facts.origin.content) && IsDigest(facts.origin.binding) && IsDigest(facts.current)
    && facts.origin.binding == BindingFor(repositoryId, facts.origin)
  }

  function Seal(record: Record, key: string): Record {
    Record(record.facts, RecordOf(record.facts), Sign(key, RecordMessage(RecordOf(record.facts))))
  }

  predicate RecordVerifies(record: Record, repositoryId: string, keys: set<string>) {
    && IsRecord(record.facts, repositoryId) && record.digest == RecordOf(record.facts)
    && exists key :: key in keys && Verifies(key, RecordMessage(record.digest), record.signature)
  }

  predicate IsRepeated(records: seq<Record>, n: nat)
    requires n < |records|
  {
    exists i :: 0 <= i < n && records[i].facts.id == records[n].facts.id
  }

  function RecordFindings(records: seq<Record>, repositoryId: string, keys: set<string>, n: nat): seq<Finding>
    requires n <= |records|
  {
    if n == 0 then []
    else
      RecordFindings(records, repositoryId, keys, n - 1)
      + (if IsRepeated(records, n - 1) then [SelectionDuplicated] else [])
      + if RecordVerifies(records[n - 1], repositoryId, keys) then [] else [RecordInvalid]
  }

  function MapPairs(records: seq<Record>): seq<(string, Digest)> {
    if records == [] then [] else [(records[0].facts.id, records[0].facts.origin.binding)] + MapPairs(records[1..])
  }

  function MapFindings(s: State): seq<Finding> {
    match s.mapFile
    case Missing => [MapMissing]
    case Malformed => [MapTampered]
    case Pairs(pairs) => if multiset(pairs) == multiset(MapPairs(s.selections)) then [] else [MapTampered]
  }

  function CommitFindings(checkpoints: seq<Checkpoint>, available: set<string>, n: nat): seq<Finding>
    requires n <= |checkpoints|
  {
    if n == 0 then []
    else
      CommitFindings(checkpoints, available, n - 1)
      + if checkpoints[n - 1].facts.commit in available then [] else [CommitMissing]
  }

  ghost function ChainFindings(s: State, available: set<string>): seq<Finding> {
    (if CheckpointChain.IsChain(s.checkpoints) then [] else [CheckpointsTampered])
    + CommitFindings(s.checkpoints, available, |s.checkpoints|)
    + if AuditChain.IsChain(s.audit) then [] else [AuditTampered]
  }

  /** What is found before the anchor is read. */
  ghost function ContentFindings(s: State, t: Trust, repositoryId: string, available: set<string>): seq<Finding>
    requires s.manifest.Some?
  {
    var manifest, keys := s.manifest.value, SigningKeys(s, t, repositoryId);
    (if manifest.facts.repositoryId != repositoryId then [WrongRepository] else [])
    + AdminFindings(s, t, repositoryId) + SignerFindings(manifest, keys, t) + HeadFindings(manifest)
    + CoveredFindings(manifest.facts.covered, CoveredBy(s)) + GovernanceFindings(manifest, s)
    + RecordFindings(s.selections, repositoryId, keys, |s.selections|) + MapFindings(s) + ChainFindings(s, available)
  }

  predicate AnchorVerifies(anchor: Anchor, t: Trust) {
    exists key :: key in Trusted(t) && Verifies(key, AnchorMessage(anchor.generation, anchor.head), anchor.signature)
  }

  function AnchorFindings(manifest: Manifest, t: Trust): seq<Finding> {
    if t.anchor.None? then [AnchorFirstUse]
    else
      var anchor := t.anchor.value;
      if !AnchorVerifies(anchor, t) then [AnchorInvalid]
      else if manifest.facts.generation < anchor.generation then [RegistryRollback]
      else if manifest.facts.generation == anchor.generation && manifest.head != anchor.head then [RegistryFork]
      else []
  }

  ghost function Findings(s: State, t: Trust, repositoryId: string, available: set<string>): seq<Finding> {
    if s.manifest.None? then [RegistryMissing]
    else ContentFindings(s, t, repositoryId, available) + AnchorFindings(s.manifest.value, t)
  }

  /** The epoch remembered after a check: a verified admin list raises it when nothing before the anchor blocks. */
  ghost function EpochAfter(s: State, t: Trust, repositoryId: string, available: set<string>): nat {
    if s.manifest.None? || s.config.admins.None? || AdminFindings(s, t, repositoryId) != []
       || !IsClean(ContentFindings(s, t, repositoryId, available), false) then t.epoch
    else if s.config.admins.value.epoch > t.epoch then s.config.admins.value.epoch
    else t.epoch
  }

  /** No finding blocks, but for a changed governance.yaml where that is to be signed. */
  predicate IsClean(findings: seq<Finding>, exempt: bool) {
    forall i :: 0 <= i < |findings| ==> IsBlocking(findings[i]) ==> exempt && findings[i].GovernanceChanged?
  }

  // ---------------------------------------------------------------- the check

  method CheckRecords(records: seq<Record>, repositoryId: string, keys: set<string>) returns (findings: seq<Finding>)
    ensures findings == RecordFindings(records, repositoryId, keys, |records|)
  {
    findings := [];
    var seen: set<string> := {};
    for n := 0 to |records|
      invariant findings == RecordFindings(records, repositoryId, keys, n)
      invariant seen == set i | 0 <= i < n :: records[i].facts.id
    {
      var record := records[n];
      if record.facts.id in seen { findings := findings + [SelectionDuplicated]; }
      seen := seen + {record.facts.id};
      if !RecordVerifies(record, repositoryId, keys) { findings := findings + [RecordInvalid]; }
    }
  }

  method CheckCommits(checkpoints: seq<Checkpoint>, available: set<string>) returns (findings: seq<Finding>)
    ensures findings == CommitFindings(checkpoints, available, |checkpoints|)
  {
    findings := [];
    for n := 0 to |checkpoints|
      invariant findings == CommitFindings(checkpoints, available, n)
    {
      if checkpoints[n].facts.commit !in available { findings := findings + [CommitMissing]; }
    }
  }

  method CheckChains(s: State, available: set<string>) returns (findings: seq<Finding>)
    ensures findings == ChainFindings(s, available)
  {
    findings := [];
    var log := new CheckpointChain.CheckpointLog();
    log.checkpoints := s.checkpoints;
    var chained := log.VerifyChain();
    if !chained { findings := findings + [CheckpointsTampered]; }
    var missing := CheckCommits(s.checkpoints, available);
    findings := findings + missing;
    var verified := AuditChain.Verify(s.audit);
    if !verified { findings := findings + [AuditTampered]; }
  }

  method CheckContent(s: State, t: Trust, repositoryId: string, available: set<string>) returns (findings: seq<Finding>)
    requires s.manifest.Some?
    ensures findings == ContentFindings(s, t, repositoryId, available)
  {
    var manifest, keys := s.manifest.value, SigningKeys(s, t, repositoryId);
    findings := if manifest.facts.repositoryId != repositoryId then [WrongRepository] else [];
    findings := findings + AdminFindings(s, t, repositoryId) + SignerFindings(manifest, keys, t)
                + HeadFindings(manifest) + CoveredFindings(manifest.facts.covered, CoveredBy(s))
                + GovernanceFindings(manifest, s);
    var records := CheckRecords(s.selections, repositoryId, keys);
    var chains := CheckChains(s, available);
    findings := findings + records + MapFindings(s) + chains;
  }

  /** Verify a state, and remember a verified admin epoch. */
  method Check(s: State, t: Trust, repositoryId: string, available: set<string>)
    returns (findings: seq<Finding>, epoch: nat)
    ensures findings == Findings(s, t, repositoryId, available) && epoch == EpochAfter(s, t, repositoryId, available)
  {
    epoch := t.epoch;
    if s.manifest.None? { return [RegistryMissing], epoch; }
    findings := CheckContent(s, t, repositoryId, available);
    if s.config.admins.Some? && AdminFindings(s, t, repositoryId) == [] && IsClean(findings, false) {
      epoch := if s.config.admins.value.epoch > epoch then s.config.admins.value.epoch else epoch;
    }
    findings := findings + AnchorFindings(s.manifest.value, t);
  }
}
