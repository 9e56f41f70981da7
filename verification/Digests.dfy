// src/trust/crypto.rs and the signed types of src/governance: digests are terms, so that different content or a
// different purpose gives a different digest, and a signature verifies exactly when the key made it over the message.
module Digests {
  import opened Anchors

  datatype Digest =
    | Plain(text: string)
    | ContentOf(content: string)
    | BindingOf(repositoryId: string, checkpoint: string, commit: string, blob: string, span: Span,
                contentDigest: Digest)
    | RecordOf(facts: Facts)
    | RecordsOf(pairs: seq<(string, Digest)>)
    | CheckpointOf(checkpointFacts: CheckpointFacts)
    | CheckpointsOf(checkpoints: seq<Checkpoint>)
    | ConfigOf(config: Config)
    | ContextOf(context: string)
    | AuditOf(entryFacts: EntryFacts)
    | GovernanceOf(meaning: string)
    | HeadOf(manifestFacts: ManifestFacts)

  datatype Message =
    | RecordMessage(digest: Digest)
    | ManifestMessage(head: Digest)
    | AnchorMessage(generation: nat, head: Digest)
    | AdminsMessage(repositoryId: string, owner: string, epoch: nat, admins: seq<Admin>)

  datatype Signature = Signed(key: string, message: Message) | Garbled(text: string)

  datatype Span = Span(path: string, startLine: nat, endLine: nat, startByte: nat, endByte: nat)

  datatype Origin = Origin(checkpoint: string, commit: string, blob: string, span: Span, content: Digest,
                           binding: Digest)

  /** A record but for its digest and signature; `rest` stands for the fields that no check reads. */
  datatype Facts = Facts(id: string, repositoryId: string, origin: Origin, current: Digest, rest: string)

  datatype Record = Record(facts: Facts, digest: Digest, signature: Signature)

  datatype CheckpointFacts = CheckpointFacts(name: string, commit: string, tree: string, branch: string, createdAt: nat,
                                             createdBy: string, previous: Digest)

  datatype Checkpoint = Checkpoint(facts: CheckpointFacts, digest: Digest)

  datatype Admin = Admin(key: string, name: string, addedAt: nat)

  datatype AdminStatement = AdminStatement(owner: string, epoch: nat, admins: seq<Admin>, signature: Signature)

  datatype Config = Config(admins: Option<AdminStatement>, settings: string)

  datatype EntryFacts = EntryFacts(number: nat, at: nat, actor: string, action: string, detail: string,
                                   previous: Digest)

  datatype Entry = Entry(facts: EntryFacts, digest: Digest)

  datatype ManifestFacts = ManifestFacts(format: nat, repositoryId: string, key: string, generation: nat,
                                         previousHead: Digest, covered: Covered, governance: Digest, updatedAt: nat,
                                         updatedBy: string)

  /** The digests of what a manifest covers. */
  datatype Covered = Covered(records: Digest, checkpoints: Digest, config: Digest, context: Digest, audit: Digest)

  datatype Manifest = Manifest(facts: ManifestFacts, head: Digest, signature: Signature)

  /** The chain value before the first entry. */
  const GENESIS := Plain("genesis")

  predicate IsHex(c: char) { '0' <= c <= '9' || 'a' <= c <= 'f' }

  predicate IsHexDigest(text: string) { |text| == 128 && forall i :: 0 <= i < |text| ==> IsHex(text[i]) }

  predicate IsDigest(d: Digest) { d.Plain? ==> IsHexDigest(d.text) }

  function Sign(key: string, message: Message): Signature { Signed(key, message) }

  predicate Verifies(key: string, message: Message, signature: Signature) { signature == Signed(key, message) }
}
