// src/governance/state.rs: what commits leave behind, and the generations that a machine signs over whole runs.
module GovernanceRuns {
  import opened Anchors
  import AuditChain
  import CheckpointChain
  import opened Digests
  import opened Governance
  import opened Integrity
  import Markers
  import opened Passing

  // ---------------------------------------------------------------- what a commit leaves passes

  /** What a changed state must be for signing it to make it pass. */
  ghost predicate IsSound(s: State, t: Trust, repositoryId: string, available: set<string>) {
    && t.key.Some? && AdminsAreRight(s, t, repositoryId)
    && (s.config.admins.Some? ==> t.key.value in StatementKeys(s.config.admins.value))
    && RecordsAreSound(s.selections, repositoryId) && ChainsAreRight(s, available)
  }

  ghost predicate RecordsAreSound(records: seq<Record>, repositoryId: string) {
    forall n :: 0 <= n < |records| ==> !IsRepeated(records, n) && IsRecord(records[n].facts, repositoryId)
  }

  /** The change leaves the audit trail and governance.yaml alone. */
  predicate LeavesAlone(s: State, changed: State) {
    changed.audit == s.audit && changed.governance == s.governance && changed.governancePresent == s.governancePresent
  }

  lemma {:induction false} SealedAre(records: seq<Record>, key: string)
    ensures |SealAll(records, key)| == |records|
    ensures forall i :: 0 <= i < |records| ==> SealAll(records, key)[i] == Seal(records[i], key)
  {
    if records != [] { SealedAre(records[..|records| - 1], key); }
  }

  /** Sealed records verify under the key that sealed them. */
  lemma SealedRecordsAreRight(records: seq<Record>, key: string, repositoryId: string, keys: set<string>)
    requires RecordsAreSound(records, repositoryId) && key in keys
    ensures RecordsAreRight(SealAll(records, key), repositoryId, keys)
  {
    var sealed := SealAll(records, key);
    SealedAre(records, key);
    forall n | 0 <= n < |sealed|
      ensures !IsRepeated(sealed, n) && RecordVerifies(sealed[n], repositoryId, keys)
    {
      assert !IsRepeated(records, n) && sealed[n] == Seal(records[n], key);
      assert forall i :: 0 <= i < n ==> sealed[i].facts == records[i].facts;
      assert Verifies(key, RecordMessage(sealed[n].digest), sealed[n].signature);
    }
  }

  /** The trust directory after a commit. */
  function TrustAfter(t: Trust, manifest: Manifest): Trust
    requires t.key.Some?
  {
    t.(anchor := Some(AnchorFor(manifest, t.key.value)))
  }

  /** A sound change, once signed and written, passes the check of the machine that signed it. */
  lemma WrittenPasses(loaded: State, changed: State, t: Trust, repositoryId: string, r: Request, available: set<string>)
    requires IsSound(changed, t, repositoryId, available) && LeavesAlone(loaded, changed)
    ensures var output := Output(loaded, changed, repositoryId, t.key.value, r);
            Passes(Written(loaded, output, output.audit[|output.audit| - 1]), TrustAfter(t, output.manifest.value),
                   repositoryId, available, false)
  {
    hide AuditChain.Next;
    var key := t.key.value;
    var output := Output(loaded, changed, repositoryId, key, r);
    var written := Written(loaded, output, output.audit[|output.audit| - 1]);
    var after := TrustAfter(t, output.manifest.value);
    assert written.audit == output.audit;
    assert Trusted(after) == Trusted(t) && key in RightKeys(written, after);
    AuditChain.AppendKeeps(changed.audit, r.at, r.actor, r.action, r.detail);
    SealedRecordsAreRight(changed.selections, key, repositoryId, RightKeys(written, after));
    SealedAre(changed.selections, key);
    assert CoveredBy(written) == CoveredBy(Sealed(changed, r, key));
    assert Verifies(key, AnchorMessage(after.anchor.value.generation, after.anchor.value.head),
                    after.anchor.value.signature);
    assert ContentPasses(written, after, repositoryId, available, false);
    assert AnchorIsRight(written.manifest.value, after);
  }

  /** A state that may be signed over is sound. */
  lemma AdmittedIsSound(m: Machine, r: Request, available: set<string>)
    requires MaySign(m, r, available) && m.crane.manifest.Some?
    ensures IsSound(m.crane, CheckedTrust(m, r, available), m.repositoryId, available)
  {
    var t := m.trust.(key := SigningKey(m, r));
    CleanMeansPasses(m.crane, t, m.repositoryId, available, r.action == GOVERNANCE_SIGNED);
    PassesIsSound(m.crane, t, m.repositoryId, available, r.action == GOVERNANCE_SIGNED,
                  CheckedTrust(m, r, available).epoch);
  }

  lemma PassesIsSound(s: State, t: Trust, repositoryId: string, available: set<string>, exempt: bool, epoch: nat)
    requires Passes(s, t, repositoryId, available, exempt) && t.key.Some? && t.key.value in Signers(s)
    requires s.config.admins.Some? ==> epoch <= s.config.admins.value.epoch
    ensures IsSound(s, t.(epoch := epoch), repositoryId, available)
  {
    RightAreSound(s.selections, repositoryId, RightKeys(s, t));
  }

  lemma RightAreSound(records: seq<Record>, repositoryId: string, keys: set<string>)
    requires RecordsAreRight(records, repositoryId, keys)
    ensures RecordsAreSound(records, repositoryId)
  {
    forall n | 0 <= n < |records|
      ensures !IsRepeated(records, n) && IsRecord(records[n].facts, repositoryId)
    {
      assert RecordVerifies(records[n], repositoryId, keys);
    }
  }

  /** A change that leaves one state sound, and its audit trail and governance.yaml alone. */
  ghost predicate KeepsSound(change: (State, nat) -> Result<State>, s: State, generation: nat, t: Trust,
                             repositoryId: string, available: set<string>) {
    IsSound(s, t, repositoryId, available) && change(s, generation).Ok? ==>
      IsSound(change(s, generation).value, t, repositoryId, available) && LeavesAlone(s, change(s, generation).value)
  }

  /** A change that keeps every sound state sound. */
  ghost predicate IsWellBehaved(change: (State, nat) -> Result<State>, t: Trust, repositoryId: string,
                                available: set<string>) {
    forall s: State, generation: nat :: KeepsSound(change, s, generation, t, repositoryId, available)
  }

  /** Whether a commit makes a change that keeps the state it loads sound. */
  ghost predicate IsSafeRequest(m: Machine, r: Request, available: set<string>) {
    KeepsSound(r.change, m.crane, Generation(m.crane) + 1, CheckedTrust(m, r, available), m.repositoryId, available)
  }

  /** A commit of such a change leaves a state that passes the check; the first one needs a sound state to start
      from. */
  lemma CommitPasses(m: Machine, r: Request, available: set<string>)
    requires CommitResult(m, r, available).Ok? && IsSafeRequest(m, r, available)
    requires m.crane.manifest.None? ==> IsSound(m.crane, CheckedTrust(m, r, available), m.repositoryId, available)
    ensures var after := AfterCommit(m, r, available);
            IsClean(Findings(after.crane, after.trust, m.repositoryId, available), false)
  {
    hide Output, ContentPasses;
    var t := CheckedTrust(m, r, available);
    if m.crane.manifest.Some? { AdmittedIsSound(m, r, available); }
    var changed := r.change(m.crane, Generation(m.crane) + 1).value;
    WrittenPasses(m.crane, changed, t, m.repositoryId, r, available);
    var after := AfterCommit(m, r, available);
    CleanMeansPasses(after.crane, after.trust, m.repositoryId, available, false);
  }

  /** Appending a checkpoint under a free name, of a commit that is available, is a well-behaved change. */
  lemma CheckpointIsWellBehaved(name: string, commit: string, tree: string, branch: string, at: nat, actor: string,
                                t: Trust, repositoryId: string, available: set<string>)
    requires commit in available
    ensures IsWellBehaved(AddCheckpoint(name, commit, tree, branch, at, actor), t, repositoryId, available)
  {
    var change := AddCheckpoint(name, commit, tree, branch, at, actor);
    forall s: State, generation: nat
      ensures KeepsSound(change, s, generation, t, repositoryId, available)
    {
      if IsSound(s, t, repositoryId, available) && change(s, generation).Ok? {
        CheckpointChain.AppendKeeps(s.checkpoints, name, commit, tree, branch, at, actor);
      }
    }
  }

  /** The change that a new checkpoint makes. */
  function AddCheckpoint(name: string, commit: string, tree: string, branch: string, at: nat, actor: string)
    : (State, nat) -> Result<State>
  {
    (s: State, generation: nat) =>
      if CheckpointChain.IsTaken(s.checkpoints, name) then Err
      else Ok(s.(checkpoints := s.checkpoints
                 + [CheckpointChain.NextOf(s.checkpoints, name, commit, tree, branch, at, actor)]))
  }

  /** The facts of a new selection: its current content is that of its origin. */
  function NewFacts(id: string, repositoryId: string, checkpoint: string, commit: string, blob: string, span: Span,
                    content: string, rest: string): Facts {
    var origin := Origin(checkpoint, commit, blob, span, ContentOf(content), Plain(""));
    Facts(id, repositoryId, origin.(binding := BindingFor(repositoryId, origin)), ContentOf(content), rest)
  }

  /** The change that a new selection makes; the commit seals the record. `facts` tells them for a generation. */
  function AddSelection(facts: nat -> Facts): (State, nat) -> Result<State> {
    (s: State, generation: nat) =>
      Ok(s.(selections := s.selections + [Record(facts(generation), Plain(""), Garbled(""))]))
  }

  predicate IsFree(id: string, records: seq<Record>) {
    forall i :: 0 <= i < |records| ==> records[i].facts.id != id
  }

  /** One more record keeps records sound exactly when it is a record with a free identifier. */
  lemma OneMoreIsSound(records: seq<Record>, record: Record, repositoryId: string)
    requires RecordsAreSound(records, repositoryId)
    ensures RecordsAreSound(records + [record], repositoryId)
            <==> IsFree(record.facts.id, records) && IsRecord(record.facts, repositoryId)
  {
    var all, n := records + [record], |records|;
    forall i | 0 <= i < n
      ensures !IsRepeated(all, i) && IsRecord(all[i].facts, repositoryId)
    {
      assert !IsRepeated(records, i);
    }
    if !IsFree(record.facts.id, records) {
      var i :| 0 <= i < n && records[i].facts.id == record.facts.id;
      assert all[i] == records[i] && all[n] == record;
      assert IsRepeated(all, n);
    }
    if RecordsAreSound(all, repositoryId) {
      assert !IsRepeated(all, n) && IsRecord(all[n].facts, repositoryId);
    }
  }

  /** Adding the record of a new selection keeps a sound state sound exactly when its identifier is well-formed and free
      in the state that the commit loads: the commit does not look for it again. */
  lemma SelectionKeepsSound(id: string, checkpoint: string, commit: string, blob: string, span: Span, content: string,
                            rest: nat -> string, s: State, generation: nat, t: Trust, repositoryId: string,
                            available: set<string>)
    requires IsSound(s, t, repositoryId, available)
    ensures var facts := (g: nat) => NewFacts(id, repositoryId, checkpoint, commit, blob, span, content, rest(g));
            KeepsSound(AddSelection(facts), s, generation, t, repositoryId, available)
            <==> Markers.IsSelectionId(id) && IsFree(id, s.selections)
  {
    hide RecordsAreSound, CheckpointChain.IsChain, AuditChain.IsChain;
    var facts := NewFacts(id, repositoryId, checkpoint, commit, blob, span, content, rest(generation));
    OneMoreIsSound(s.selections, Record(facts, Plain(""), Garbled("")), repositoryId);
    NewFactsAreRecord(id, repositoryId, checkpoint, commit, blob, span, content, rest(generation));
  }

  lemma NewFactsAreRecord(id: string, repositoryId: string, checkpoint: string, commit: string, blob: string,
                          span: Span, content: string, rest: string)
    ensures IsRecord(NewFacts(id, repositoryId, checkpoint, commit, blob, span, content, rest), repositoryId)
            <==> Markers.IsSelectionId(id)
  {
  }

  /** The commit that creates a selection leaves a state that passes, when its identifier is well-formed and free. */
  lemma CreationPasses(m: Machine, r: Request, available: set<string>, id: string, checkpoint: string, commit: string,
                       blob: string, span: Span, content: string, rest: nat -> string)
    requires CommitResult(m, r, available).Ok? && m.crane.manifest.Some?
    requires var facts := (g: nat) => NewFacts(id, m.repositoryId, checkpoint, commit, blob, span, content, rest(g));
             r.change == AddSelection(facts)
    requires Markers.IsSelectionId(id) && IsFree(id, m.crane.selections)
    ensures var after := AfterCommit(m, r, available);
            IsClean(Findings(after.crane, after.trust, m.repositoryId, available), false)
  {
    hide Findings, IsClean, AddSelection, KeepsSound;
    AdmittedIsSound(m, r, available);
    SelectionKeepsSound(id, checkpoint, commit, blob, span, content, rest, m.crane, Generation(m.crane) + 1,
                        CheckedTrust(m, r, available), m.repositoryId, available);
    CommitPasses(m, r, available);
  }

  // ---------------------------------------------------------------- what a commit writes

  /** The manifest that follows another one, or the first. */
  predicate Follows(manifest: ManifestFacts, before: Option<Manifest>) {
    match before
    case None => manifest.generation == 1 && manifest.previousHead == Plain("genesis")
    case Some(last) => manifest.generation == last.facts.generation + 1 && manifest.previousHead == last.head
  }

  /** The same records, each digested and signed by the key. */
  ghost predicate AreSealed(records: seq<Record>, sealed: seq<Record>, key: string) {
    && |sealed| == |records|
    && forall i :: 0 <= i < |records| ==>
         && sealed[i].facts == records[i].facts && sealed[i].digest == RecordOf(records[i].facts)
         && Verifies(key, RecordMessage(sealed[i].digest), sealed[i].signature)
  }

  /** What .crane holds after a commit of a change. */
  ghost predicate Holds(m: Machine, r: Request, changed: State, s: State, key: string)
    requires s.manifest.Some?
  {
    && s.config == changed.config && s.checkpoints == changed.checkpoints && s.context == changed.context
    && AreSealed(changed.selections, s.selections, key) && s.governance == changed.governance
    && s.manifest.value.facts.covered == CoveredBy(s) && s.manifest.value.facts.governance == s.governance
    && |s.audit| == |m.crane.audit| + 1 && s.audit[..|m.crane.audit|] == m.crane.audit
    && var entry := s.audit[|m.crane.audit|];
    && entry.facts.number == |s.audit| && entry.facts.at == r.at && entry.facts.actor == r.actor
    && entry.facts.action == r.action && entry.facts.detail == r.detail && entry.digest == AuditOf(entry.facts)
  }

  /** The manifest that a commit signs and anchors. */
  ghost predicate IsNextManifest(m: Machine, r: Request, manifest: Manifest, t: Trust) {
    && t.key.Some? && Follows(manifest.facts, m.crane.manifest) && IsSignedBy(manifest, {t.key.value})
    && manifest.facts.repositoryId == m.repositoryId && manifest.facts.updatedAt == r.at
    && manifest.facts.updatedBy == r.actor
    && t.anchor.Some? && t.anchor.value.generation == manifest.facts.generation
    && t.anchor.value.head == manifest.head && AnchorVerifies(t.anchor.value, t)
  }

  /** The new manifest names the one it replaces, covers what is written, and is signed and anchored; the change is
      written with its records sealed, and one audit entry tells who asked for what. */
  lemma CommitWrites(m: Machine, r: Request, available: set<string>)
    requires CommitResult(m, r, available).Ok?
    ensures var after := AfterCommit(m, r, available);
            && after.crane.manifest.Some? && after.repositoryId == m.repositoryId
            && IsNextManifest(m, r, after.crane.manifest.value, after.trust)
            && var made := r.change(m.crane, after.crane.manifest.value.facts.generation);
               made.Ok? && (LeavesAlone(m.crane, made.value) ==>
                              Holds(m, r, made.value, after.crane, after.trust.key.value))
  {
    hide IsNextManifest, Holds, LeavesAlone, CheckedTrust;
    var key, made := SigningKey(m, r).value, r.change(m.crane, Generation(m.crane) + 1);
    var after := AfterCommit(m, r, available);
    CheckedKeepsKey(m, r, available);
    SignsNext(m, r, made.value, CheckedTrust(m, r, available));
    if LeavesAlone(m.crane, made.value) { WritesChange(m, r, made.value, key); }
  }

  lemma CheckedKeepsKey(m: Machine, r: Request, available: set<string>)
    ensures CheckedTrust(m, r, available).key == SigningKey(m, r)
  {
    hide EpochAfter;
  }

  lemma SignsNext(m: Machine, r: Request, changed: State, t: Trust)
    requires t.key.Some?
    ensures var manifest := Output(m.crane, changed, m.repositoryId, t.key.value, r).manifest.value;
            IsNextManifest(m, r, manifest, TrustAfter(t, manifest))
  {
    hide Sealed, CoveredBy;
    var anchor := AnchorFor(Output(m.crane, changed, m.repositoryId, t.key.value, r).manifest.value, t.key.value);
    assert Verifies(t.key.value, AnchorMessage(anchor.generation, anchor.head), anchor.signature);
  }

  lemma WritesChange(m: Machine, r: Request, changed: State, key: string)
    requires LeavesAlone(m.crane, changed)
    ensures var output := Output(m.crane, changed, m.repositoryId, key, r);
            Holds(m, r, changed, Written(m.crane, output, output.audit[|output.audit| - 1]), key)
  {
    hide SealAll, SortedPairs, MapPairs;
    SealedAre(changed.selections, key);
    var output := Output(m.crane, changed, m.repositoryId, key, r);
    assert Written(m.crane, output, output.audit[|output.audit| - 1]).audit == output.audit;
  }

  /** A commit that is refused writes nothing and moves no anchor. */
  lemma RefusedWritesNothing(m: Machine, r: Request, available: set<string>)
    requires CommitResult(m, r, available).Err?
    ensures var after := AfterCommit(m, r, available);
            after.crane == m.crane && after.trust.anchor == m.trust.anchor && after.trust.pinned == m.trust.pinned
  {
  }

  /** When nobody signed since this machine did, its next manifest names the head it anchored. */
  lemma NextNamesAnchored(m: Machine, r: Request, available: set<string>)
    requires CommitResult(m, r, available).Ok? && m.crane.manifest.Some? && m.trust.anchor.Some?
    requires m.crane.manifest.value.facts.generation == m.trust.anchor.value.generation
    ensures AfterCommit(m, r, available).crane.manifest.value.facts.previousHead == m.trust.anchor.value.head
  {
    hide Findings, IsClean, ContentPasses, EpochAfter;
    CommitWrites(m, r, available);
    CleanMeansPasses(m.crane, m.trust.(key := SigningKey(m, r)), m.repositoryId, available,
                     r.action == GOVERNANCE_SIGNED);
  }

  // ---------------------------------------------------------------- generations

  /** Where a manifest is present, a commit signs a generation above every one this machine anchored; where the manifest
      is gone, it starts again at one. */
  lemma AdvancesExactly(m: Machine, r: Request, available: set<string>)
    requires CommitResult(m, r, available).Ok? && m.trust.anchor.Some? && m.trust.anchor.value.generation >= 1
    ensures var after := AfterCommit(m, r, available);
            && after.trust.anchor.Some? && after.crane.manifest.Some?
            && after.trust.anchor.value.generation == Generation(m.crane) + 1
            && (after.trust.anchor.value.generation > m.trust.anchor.value.generation <==> m.crane.manifest.Some?)
  {
    if m.crane.manifest.Some? {
      var t := m.trust.(key := SigningKey(m, r));
      CleanMeansPasses(m.crane, t, m.repositoryId, available, r.action == GOVERNANCE_SIGNED);
    }
  }

  datatype Step = Replaced(crane: State) | Requested(request: Request, available: set<string>)

  ghost function After(m: Machine, step: Step): Machine {
    match step
    case Replaced(crane) => m.(crane := crane)
    case Requested(request, available) => AfterCommit(m, request, available)
  }

  datatype Signing = Signing(generation: nat, head: Digest)

  /** The head that a step signs, if it signs one. */
  ghost function SignedBy(m: Machine, step: Step): seq<Signing> {
    match step
    case Replaced(_) => []
    case Requested(request, available) =>
      match CommitResult(m, request, available)
      case Err => []
      case Ok(output) => [Signing(output.manifest.value.facts.generation, output.manifest.value.head)]
  }

  ghost function Signings(m: Machine, steps: seq<Step>): seq<Signing>
    decreases |steps|
  {
    if steps == [] then [] else SignedBy(m, steps[0]) + Signings(After(m, steps[0]), steps[1..])
  }

  /** Whatever replaces .crane after this machine signed something has a manifest. */
  ghost predicate KeepsManifest(m: Machine, steps: seq<Step>)
    decreases |steps|
  {
    steps == []
    || ((steps[0].Replaced? && m.trust.anchor.Some? ==> steps[0].crane.manifest.Some?)
        && KeepsManifest(After(m, steps[0]), steps[1..]))
  }

  /** The anchor is the last thing signed, and a manifest is present once there is one. */
  ghost predicate IsAnchored(m: Machine, last: nat) {
    && (m.trust.anchor.Some? ==> m.trust.anchor.value.generation == last >= 1 && m.crane.manifest.Some?)
    && (m.trust.anchor.None? ==> last == 0)
  }

  lemma StepAdvances(m: Machine, step: Step, last: nat)
    requires IsAnchored(m, last) && (step.Replaced? && m.trust.anchor.Some? ==> step.crane.manifest.Some?)
    ensures var signed := SignedBy(m, step);
            && |signed| <= 1 && (signed != [] ==> signed[0].generation > last)
            && IsAnchored(After(m, step), if signed == [] then last else signed[0].generation)
  {
    if step.Requested? && CommitResult(m, step.request, step.available).Ok? && m.trust.anchor.Some? {
      AdvancesExactly(m, step.request, step.available);
    }
  }

  ghost predicate Increases(signings: seq<Signing>, last: nat) {
    && (forall i :: 0 <= i < |signings| ==> signings[i].generation > last)
    && forall i, j :: 0 <= i < j < |signings| ==> signings[i].generation < signings[j].generation
  }

  /** On every run of commits and replacements that keep a manifest, the generations this machine signs strictly
      increase. */
  lemma {:induction false} GenerationsIncrease(m: Machine, steps: seq<Step>, last: nat)
    requires IsAnchored(m, last) && KeepsManifest(m, steps)
    ensures Increases(Signings(m, steps), last)
    decreases |steps|
  {
    if steps != [] {
      var signed := SignedBy(m, steps[0]);
      StepAdvances(m, steps[0], last);
      var next := if signed == [] then last else signed[0].generation;
      GenerationsIncrease(After(m, steps[0]), steps[1..], next);
      FirstIncreases(signed, Signings(After(m, steps[0]), steps[1..]), last, next);
    }
  }

  lemma FirstIncreases(signed: seq<Signing>, rest: seq<Signing>, last: nat, next: nat)
    requires |signed| <= 1 && Increases(rest, next)
    requires if signed == [] then next == last else next == signed[0].generation > last
    ensures Increases(signed + rest, last)
  {
  }

  /** So it never signs two heads at one generation. */
  lemma NeverTwoHeads(m: Machine, steps: seq<Step>, i: nat, j: nat)
    requires m.trust.anchor.None? && KeepsManifest(m, steps)
    requires i < |Signings(m, steps)| && j < |Signings(m, steps)|
    ensures Signings(m, steps)[i].generation == Signings(m, steps)[j].generation ==> i == j
  {
    GenerationsIncrease(m, steps, 0);
  }

  /** Every change asked for keeps the state it is made on sound, and a first commit starts from a sound state. */
  ghost predicate BehavesWell(m: Machine, steps: seq<Step>)
    decreases |steps|
  {
    steps == []
    || (BehavesWellOnce(m, steps[0]) && BehavesWell(After(m, steps[0]), steps[1..]))
  }

  ghost predicate BehavesWellOnce(m: Machine, step: Step) {
    step.Requested? ==>
      var t := CheckedTrust(m, step.request, step.available);
      && IsSafeRequest(m, step.request, step.available)
      && (m.crane.manifest.None? ==> IsSound(m.crane, t, m.repositoryId, step.available))
  }

  /** What each commit that succeeds leaves passes the check. */
  ghost predicate EachCommitPasses(m: Machine, steps: seq<Step>)
    decreases |steps|
  {
    steps == [] || (CommitPassesOnce(m, steps[0]) && EachCommitPasses(After(m, steps[0]), steps[1..]))
  }

  ghost predicate CommitPassesOnce(m: Machine, step: Step) {
    step.Requested? && CommitResult(m, step.request, step.available).Ok? ==>
      var after := After(m, step); IsClean(Findings(after.crane, after.trust, m.repositoryId, step.available), false)
  }

  lemma {:induction false} EveryCommitPasses(m: Machine, steps: seq<Step>)
    requires BehavesWell(m, steps)
    ensures EachCommitPasses(m, steps)
    decreases |steps|
  {
    if steps != [] {
      if steps[0].Requested? && CommitResult(m, steps[0].request, steps[0].available).Ok? {
        CommitPasses(m, steps[0].request, steps[0].available);
      }
      EveryCommitPasses(After(m, steps[0]), steps[1..]);
    }
  }

  // ---------------------------------------------------------------- old lists of administrators

  ghost function Run(m: Machine, steps: seq<Step>): Machine
    decreases |steps|
  {
    if steps == [] then m else Run(After(m, steps[0]), steps[1..])
  }

  /** The epoch that a machine remembers never falls. */
  lemma {:induction false} EpochNeverFalls(m: Machine, steps: seq<Step>)
    ensures Run(m, steps).trust.epoch >= m.trust.epoch && Run(m, steps).repositoryId == m.repositoryId
    decreases |steps|
  {
    hide EpochAfter, CommitResult;
    if steps != [] {
      EpochKept(m, steps[0]);
      EpochNeverFalls(After(m, steps[0]), steps[1..]);
    }
  }

  lemma EpochKept(m: Machine, step: Step)
    ensures After(m, step).trust.epoch >= m.trust.epoch && After(m, step).repositoryId == m.repositoryId
  {
    hide EpochAfter, CommitResult;
    if step.Requested? {
      var t := m.trust.(key := SigningKey(m, step.request));
      EpochIsRemembered(m.crane, t, m.repositoryId, step.available,
                        EpochAfter(m.crane, t, m.repositoryId, step.available));
    }
  }

  /** A machine that was asked to commit on a state in which nothing blocks remembers the epoch of its list. */
  lemma CommitRemembers(m: Machine, r: Request, available: set<string>)
    requires MaySign(m, r, available) && m.crane.manifest.Some? && m.crane.config.admins.Some?
    requires IsClean(Findings(m.crane, m.trust.(key := SigningKey(m, r)), m.repositoryId, available), false)
    ensures AfterCommit(m, r, available).trust.epoch == m.crane.config.admins.value.epoch
  {
    hide EpochAfter, CommitResult, Findings, IsClean;
    var t := m.trust.(key := SigningKey(m, r));
    CleanMeansPasses(m.crane, t, m.repositoryId, available, false);
    EpochIsRemembered(m.crane, t, m.repositoryId, available, EpochAfter(m.crane, t, m.repositoryId, available));
  }

  /** From then on, whatever happens, no state with an older list passes its check. */
  lemma OldListsAreRefused(m: Machine, r: Request, available: set<string>, steps: seq<Step>, s: State,
                           known: set<string>, exempt: bool)
    requires MaySign(m, r, available) && m.crane.manifest.Some? && m.crane.config.admins.Some?
    requires IsClean(Findings(m.crane, m.trust.(key := SigningKey(m, r)), m.repositoryId, available), false)
    requires s.config.admins.Some? && s.config.admins.value.epoch < m.crane.config.admins.value.epoch
    ensures var later := Run(After(m, Requested(r, available)), steps);
            !IsClean(Findings(s, later.trust, later.repositoryId, known), exempt)
  {
    hide Findings, IsClean, AfterCommit, Run;
    var next := After(m, Requested(r, available));
    CommitRemembers(m, r, available);
    EpochNeverFalls(next, steps);
    var later := Run(next, steps);
    CleanMeansPasses(s, later.trust, later.repositoryId, known, exempt);
  }

  // ---------------------------------------------------------------- what goes wrong without a manifest

  function EmptyState(governance: Digest): State {
    State(Config(None, ""), [], "", None, [], [], governance, false, Pairs([]))
  }

  /** The change that creating a repository's governance makes: none. */
  function NoChange(): (State, nat) -> Result<State> { (s: State, generation: nat) => Ok(s) }

  /** Deleting the manifest lets one machine sign two heads at generation one. */
  lemma DeletedManifestForks(repositoryId: string, key: string, at: nat, actor: string, governance: Digest)
    ensures var trust := Trust(Some(key), {}, None, 0);
            var m := Machine(repositoryId, EmptyState(governance), trust);
            var r := Request(false, "governance.initialized", "", at, actor, key, NoChange());
            var steps := [Requested(r, {}), Replaced(EmptyState(governance)), Requested(r.(at := at + 1), {})];
            var signings := Signings(m, steps);
            && |signings| == 2 && signings[0].generation == 1 == signings[1].generation
            && signings[0].head != signings[1].head
  {
    hide AfterCommit, CommitResult;
    var m := Machine(repositoryId, EmptyState(governance), Trust(Some(key), {}, None, 0));
    var r := Request(false, "governance.initialized", "", at, actor, key, NoChange());
    var first, second, third := Requested(r, {}), Replaced(EmptyState(governance)), Requested(r.(at := at + 1), {});
    var steps := [first, second, third];
    assert steps[1..] == [second, third] && [second, third][1..] == [third] && [third][1..] == [];
    var m1 := After(m, first);
    var m2 := After(m1, second);
    FirstCommitSigns(m, r);
    FirstCommitSigns(m2, r.(at := at + 1));
    assert Signings(m2, [third]) == SignedBy(m2, third) + Signings(After(m2, third), []);
    assert Signings(m1, [second, third]) == [] + Signings(m2, [third]);
    assert Signings(m, steps) == SignedBy(m, first) + Signings(m1, [second, third]);
  }

  /** A commit that finds no manifest signs generation one, whatever the machine signed before. */
  lemma FirstCommitSigns(m: Machine, r: Request)
    requires !r.agent && m.crane.manifest.None? && r.change == NoChange() && m.trust.key.Some?
    ensures var signed := SignedBy(m, Requested(r, {}));
            && |signed| == 1 && signed[0].generation == 1
            && signed[0].head.HeadOf? && signed[0].head.manifestFacts.updatedAt == r.at
    ensures After(m, Requested(r, {})).trust.key == m.trust.key
  {
  }

  /** A state that passes still does after governance.yaml is edited exactly when the edit keeps the parsed meaning.
      That includes going from one text that cannot be parsed to another, when the first was signed. */
  lemma GovernanceChangeIsSeen(s: State, t: Trust, repositoryId: string, available: set<string>,
                               parse: string -> Option<string>, before: string, now: string)
    requires Passes(s, t, repositoryId, available, false)
    requires s.manifest.value.facts.governance == GovernanceDigest(parse(before))
    ensures IsClean(Findings(s.(governance := GovernanceDigest(parse(now))), t, repositoryId, available), false) <==>
            parse(now) == parse(before)
  {
    var edited := s.(governance := GovernanceDigest(parse(now)));
    CleanMeansPasses(edited, t, repositoryId, available, false);
    assert CoveredBy(edited) == CoveredBy(s);
  }

  /** A state that passes still does after its map is replaced exactly when the new one lists the same selections with
      the same digests, in any order. */
  lemma MapChangeIsSeen(s: State, t: Trust, repositoryId: string, available: set<string>, mapFile: MapFile)
    requires Passes(s, t, repositoryId, available, false)
    ensures IsClean(Findings(s.(mapFile := mapFile), t, repositoryId, available), false)
            <==> mapFile.Pairs? && multiset(mapFile.pairs) == multiset(MapPairs(s.selections))
  {
    hide Findings, IsClean, Passes;
    OnlyMapChanges(s, t, repositoryId, available, mapFile);
    CleanMeansPasses(s.(mapFile := mapFile), t, repositoryId, available, false);
  }

  lemma OnlyMapChanges(s: State, t: Trust, repositoryId: string, available: set<string>, mapFile: MapFile)
    requires Passes(s, t, repositoryId, available, false)
    ensures Passes(s.(mapFile := mapFile), t, repositoryId, available, false) <==> MapIsRight(s.(mapFile := mapFile))
    ensures MapIsRight(s.(mapFile := mapFile))
            <==> mapFile.Pairs? && multiset(mapFile.pairs) == multiset(MapPairs(s.selections))
  {
    hide RecordsAreRight, ChainsAreRight, IsSignedBy, AnchorIsRight, MapPairs;
    assert CoveredBy(s.(mapFile := mapFile)) == CoveredBy(s);
    assert RightKeys(s.(mapFile := mapFile), t) == RightKeys(s, t);
    assert ChainsAreRight(s.(mapFile := mapFile), available) == ChainsAreRight(s, available) by {
      SameChains(s, mapFile, available);
    }
  }

  lemma SameChains(s: State, mapFile: MapFile, available: set<string>)
    ensures ChainsAreRight(s.(mapFile := mapFile), available) <==> ChainsAreRight(s, available)
  {
    hide CheckpointChain.IsChain, AuditChain.IsChain;
  }

  /** A state that passes still does on another day exactly when the commits of its checkpoints are all still there. */
  lemma LostCommitIsSeen(s: State, t: Trust, repositoryId: string, available: set<string>, later: set<string>)
    requires Passes(s, t, repositoryId, available, false)
    ensures IsClean(Findings(s, t, repositoryId, later), false)
            <==> forall n :: 0 <= n < |s.checkpoints| ==> s.checkpoints[n].facts.commit in later
  {
    CleanMeansPasses(s, t, repositoryId, later, false);
  }

  /** A copy of the state of another repository does not pass. */
  lemma OtherRepositoryIsSeen(s: State, t: Trust, repositoryId: string, available: set<string>, other: string)
    requires Passes(s, t, repositoryId, available, false) && other != repositoryId
    ensures !IsClean(Findings(s, t, other, available), false)
  {
    CleanMeansPasses(s, t, other, available, false);
  }
}
