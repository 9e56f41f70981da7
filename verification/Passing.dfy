// src/governance/state.rs: what it means that the check of a state finds nothing that blocks, and what a signed head
// fixes.
module Passing {
  import opened Anchors
  import AuditChain
  import CheckpointChain
  import opened Digests
  import opened Integrity
  import SelectionMap

  predicate AdminsAreRight(s: State, t: Trust, repositoryId: string) {
    s.config.admins.Some? ==>
      var statement := s.config.admins.value;
      statement.owner in Trusted(t) && StatementVerifies(statement, repositoryId) && t.epoch <= statement.epoch
  }

  /** The keys whose signatures count: the administrators', or without a list the trusted ones. */
  function RightKeys(s: State, t: Trust): set<string> {
    if s.config.admins.Some? then StatementKeys(s.config.admins.value) else Trusted(t)
  }

  ghost predicate RecordsAreRight(records: seq<Record>, repositoryId: string, keys: set<string>) {
    forall n :: 0 <= n < |records| ==> !IsRepeated(records, n) && RecordVerifies(records[n], repositoryId, keys)
  }

  predicate MapIsRight(s: State) { s.mapFile.Pairs? && multiset(s.mapFile.pairs) == multiset(MapPairs(s.selections)) }

  ghost predicate ChainsAreRight(s: State, available: set<string>) {
    && CheckpointChain.IsChain(s.checkpoints) && AuditChain.IsChain(s.audit)
    && forall n :: 0 <= n < |s.checkpoints| ==> s.checkpoints[n].facts.commit in available
  }

  predicate IsSignedBy(manifest: Manifest, keys: set<string>) {
    && manifest.facts.key in keys && manifest.head == HeadOf(manifest.facts)
    && Verifies(manifest.facts.key, ManifestMessage(manifest.head), manifest.signature)
  }

  /** Not older than what this machine signed last, and the same if it is of the same generation. */
  predicate AnchorIsRight(manifest: Manifest, t: Trust) {
    t.anchor.Some? ==>
      var anchor := t.anchor.value;
      && AnchorVerifies(anchor, t) && anchor.generation <= manifest.facts.generation
      && (manifest.facts.generation == anchor.generation ==> manifest.head == anchor.head)
  }

  /** What a state must be but for the anchor. */
  ghost predicate ContentPasses(s: State, t: Trust, repositoryId: string, available: set<string>, exempt: bool)
    requires s.manifest.Some?
  {
    var manifest := s.manifest.value;
    && manifest.facts.repositoryId == repositoryId && AdminsAreRight(s, t, repositoryId)
    && Trusted(t) != {} && IsSignedBy(manifest, RightKeys(s, t)) && manifest.facts.covered == CoveredBy(s)
    && (manifest.facts.governance == Plain("") || manifest.facts.governance == s.governance || exempt)
    && RecordsAreRight(s.selections, repositoryId, RightKeys(s, t)) && MapIsRight(s) && ChainsAreRight(s, available)
  }

  /** What a state must be for no finding to block. */
  ghost predicate Passes(s: State, t: Trust, repositoryId: string, available: set<string>, exempt: bool) {
    s.manifest.Some? && ContentPasses(s, t, repositoryId, available, exempt) && AnchorIsRight(s.manifest.value, t)
  }

  // ---------------------------------------------------------------- findings

  lemma CleanJoin(a: seq<Finding>, b: seq<Finding>, exempt: bool)
    ensures IsClean(a + b, exempt) <==> IsClean(a, exempt) && IsClean(b, exempt)
  {
    if IsClean(a + b, exempt) {
      forall i | 0 <= i < |a| && IsBlocking(a[i])
        ensures exempt && a[i].GovernanceChanged?
      {
        assert (a + b)[i] == a[i];
      }
      forall i | 0 <= i < |b| && IsBlocking(b[i])
        ensures exempt && b[i].GovernanceChanged?
      {
        assert (a + b)[|a| + i] == b[i];
      }
    }
  }

  lemma CleanOne(finding: Finding, exempt: bool)
    ensures IsClean([finding], exempt) <==> (IsBlocking(finding) ==> exempt && finding.GovernanceChanged?)
  {
    assert [finding][0] == finding;
  }

  lemma CleanRecord(front: seq<Finding>, repeated: bool, right: bool, exempt: bool)
    ensures IsClean(front + (if repeated then [SelectionDuplicated] else []) + if right then []
                    else [RecordInvalid], exempt)
            <==> IsClean(front, exempt) && !repeated && right
  {
    var p: seq<Finding>, q: seq<Finding> := if repeated then [SelectionDuplicated] else [], if right then []
        else [RecordInvalid];
    CleanOne(SelectionDuplicated, exempt);
    CleanOne(RecordInvalid, exempt);
    CleanJoin(front, p, exempt);
    CleanJoin(front + p, q, exempt);
  }

  predicate AreRight(records: seq<Record>, repositoryId: string, keys: set<string>, n: nat)
    requires n <= |records|
  {
    n == 0
    || (AreRight(records, repositoryId, keys, n - 1) && !IsRepeated(records, n - 1)
        && RecordVerifies(records[n - 1], repositoryId, keys))
  }

  lemma {:induction false} AreRightMeans(records: seq<Record>, repositoryId: string, keys: set<string>, n: nat)
    requires n <= |records|
    ensures AreRight(records, repositoryId, keys, n) <==>
            forall i :: 0 <= i < n ==> !IsRepeated(records, i) && RecordVerifies(records[i], repositoryId, keys)
  {
    hide RecordVerifies;
    if n > 0 { AreRightMeans(records, repositoryId, keys, n - 1); }
  }

  lemma {:induction false} CleanRecords(records: seq<Record>, repositoryId: string, keys: set<string>, n: nat,
                                        exempt: bool)
    requires n <= |records|
    ensures IsClean(RecordFindings(records, repositoryId, keys, n), exempt)
            <==> AreRight(records, repositoryId, keys, n)
  {
    if n > 0 {
      CleanRecords(records, repositoryId, keys, n - 1, exempt);
      CleanRecord(RecordFindings(records, repositoryId, keys, n - 1), IsRepeated(records, n - 1),
                  RecordVerifies(records[n - 1], repositoryId, keys), exempt);
    }
  }

  lemma CleanAllRecords(records: seq<Record>, repositoryId: string, keys: set<string>, exempt: bool)
    ensures IsClean(RecordFindings(records, repositoryId, keys, |records|), exempt) <==>
            RecordsAreRight(records, repositoryId, keys)
  {
    CleanRecords(records, repositoryId, keys, |records|, exempt);
    AreRightMeans(records, repositoryId, keys, |records|);
  }

  lemma {:induction false} CleanCommits(checkpoints: seq<Checkpoint>, available: set<string>, n: nat, exempt: bool)
    requires n <= |checkpoints|
    ensures IsClean(CommitFindings(checkpoints, available, n), exempt) <==>
            forall i :: 0 <= i < n ==> checkpoints[i].facts.commit in available
  {
    if n > 0 {
      CleanCommits(checkpoints, available, n - 1, exempt);
      CleanOne(CommitMissing, exempt);
      CleanJoin(CommitFindings(checkpoints, available, n - 1),
                if checkpoints[n - 1].facts.commit in available then [] else [CommitMissing], exempt);
    }
  }

  lemma CleanChains(s: State, available: set<string>, exempt: bool)
    ensures IsClean(ChainFindings(s, available), exempt) <==> ChainsAreRight(s, available)
  {
    var checkpoints: seq<Finding> := if CheckpointChain.IsChain(s.checkpoints) then [] else [CheckpointsTampered];
    var audit: seq<Finding> := if AuditChain.IsChain(s.audit) then [] else [AuditTampered];
    var commits := CommitFindings(s.checkpoints, available, |s.checkpoints|);
    CleanOne(CheckpointsTampered, exempt);
    CleanOne(AuditTampered, exempt);
    CleanCommits(s.checkpoints, available, |s.checkpoints|, exempt);
    CleanJoin(checkpoints, commits, exempt);
    CleanJoin(checkpoints + commits, audit, exempt);
  }

  lemma CleanSignature(s: State, t: Trust, repositoryId: string, exempt: bool)
    requires s.manifest.Some?
    ensures var keys := SigningKeys(s, t, repositoryId);
            (IsClean(AdminFindings(s, t, repositoryId), exempt)
             && IsClean(SignerFindings(s.manifest.value, keys, t), exempt)
             && IsClean(HeadFindings(s.manifest.value), exempt))
            <==> AdminsAreRight(s, t, repositoryId) && Trusted(t) != {} && IsSignedBy(s.manifest.value, RightKeys(s, t))
    ensures IsClean(AdminFindings(s, t, repositoryId), exempt) ==> SigningKeys(s, t, repositoryId) == RightKeys(s, t)
  {
    CleanOne(UntrustedOwner, exempt);
    CleanOne(AdminsTampered, exempt);
    CleanOne(AdminsRollback, exempt);
    CleanOne(NoTrustedKey, exempt);
    CleanOne(UntrustedSigner, exempt);
    CleanOne(ManifestTampered, exempt);
    CleanOne(SignatureInvalid, exempt);
  }

  lemma CleanCovered(expected: Covered, actual: Covered, exempt: bool)
    ensures IsClean(CoveredFindings(expected, actual), exempt) <==> expected == actual
  {
    CleanOne(FileTampered, exempt);
    var a, b := Differs(expected.records, actual.records), Differs(expected.checkpoints, actual.checkpoints);
    var c, d := Differs(expected.config, actual.config), Differs(expected.context, actual.context);
    var e := Differs(expected.audit, actual.audit);
    CleanJoin(a, b, exempt);
    CleanJoin(a + b, c, exempt);
    CleanJoin(a + b + c, d, exempt);
    CleanJoin(a + b + c + d, e, exempt);
  }

  lemma CleanGovernance(manifest: Manifest, s: State, exempt: bool)
    ensures IsClean(GovernanceFindings(manifest, s), exempt) <==>
            manifest.facts.governance == Plain("") || manifest.facts.governance == s.governance || exempt
  {
    CleanOne(GovernanceUnsigned, exempt);
    CleanOne(GovernanceChanged, exempt);
  }

  lemma CleanMap(s: State, exempt: bool)
    ensures IsClean(MapFindings(s), exempt) <==> MapIsRight(s)
  {
    CleanOne(MapMissing, exempt);
    CleanOne(MapTampered, exempt);
  }

  lemma CleanAnchor(manifest: Manifest, t: Trust, exempt: bool)
    ensures IsClean(AnchorFindings(manifest, t), exempt) <==> AnchorIsRight(manifest, t)
  {
    CleanOne(AnchorFirstUse, exempt);
    CleanOne(AnchorInvalid, exempt);
    CleanOne(RegistryRollback, exempt);
    CleanOne(RegistryFork, exempt);
  }

  lemma CleanParts(a: seq<Finding>, b: seq<Finding>, c: seq<Finding>, d: seq<Finding>, e: seq<Finding>, exempt: bool)
    ensures IsClean(a + b + c + d + e, exempt)
            <==> IsClean(a, exempt) && IsClean(b, exempt) && IsClean(c, exempt) && IsClean(d, exempt)
                 && IsClean(e, exempt)
  {
    CleanJoin(a, b, exempt);
    CleanJoin(a + b, c, exempt);
    CleanJoin(a + b + c, d, exempt);
    CleanJoin(a + b + c + d, e, exempt);
  }

  /** The findings before the anchor, taken together. */
  lemma CleanContent(s: State, t: Trust, repositoryId: string, available: set<string>, exempt: bool)
    requires s.manifest.Some?
    ensures var manifest, keys := s.manifest.value, SigningKeys(s, t, repositoryId);
            IsClean(ContentFindings(s, t, repositoryId, available), exempt) <==>
            && manifest.facts.repositoryId == repositoryId
            && IsClean(AdminFindings(s, t, repositoryId), exempt) && IsClean(SignerFindings(manifest, keys, t), exempt)
            && IsClean(HeadFindings(manifest), exempt)
            && IsClean(CoveredFindings(manifest.facts.covered, CoveredBy(s)), exempt)
            && IsClean(GovernanceFindings(manifest, s), exempt)
            && IsClean(RecordFindings(s.selections, repositoryId, keys, |s.selections|), exempt)
            && IsClean(MapFindings(s), exempt) && IsClean(ChainFindings(s, available), exempt)
  {
    hide CoveredFindings;
    var manifest, keys := s.manifest.value, SigningKeys(s, t, repositoryId);
    var wrong: seq<Finding> := if manifest.facts.repositoryId != repositoryId then [WrongRepository] else [];
    CleanOne(WrongRepository, exempt);
    var a, b, c := AdminFindings(s, t, repositoryId), SignerFindings(manifest, keys, t), HeadFindings(manifest);
    var d, e := CoveredFindings(manifest.facts.covered, CoveredBy(s)), GovernanceFindings(manifest, s);
    var records := RecordFindings(s.selections, repositoryId, keys, |s.selections|);
    var front := wrong + a + b + c + d;
    CleanParts(wrong, a, b, c, d, exempt);
    CleanParts(front, e, records, MapFindings(s), ChainFindings(s, available), exempt);
  }

  lemma CleanMeansContentPasses(s: State, t: Trust, repositoryId: string, available: set<string>, exempt: bool)
    requires s.manifest.Some?
    ensures IsClean(ContentFindings(s, t, repositoryId, available), exempt) <==>
            ContentPasses(s, t, repositoryId, available, exempt)
  {
    var manifest := s.manifest.value;
    CleanContent(s, t, repositoryId, available, exempt);
    CleanSignature(s, t, repositoryId, exempt);
    CleanCovered(manifest.facts.covered, CoveredBy(s), exempt);
    CleanGovernance(manifest, s, exempt);
    CleanAllRecords(s.selections, repositoryId, SigningKeys(s, t, repositoryId), exempt);
    CleanMap(s, exempt);
    CleanChains(s, available, exempt);
  }

  /** Nothing blocks exactly when the state is what it must be. */
  lemma CleanMeansPasses(s: State, t: Trust, repositoryId: string, available: set<string>, exempt: bool)
    ensures IsClean(Findings(s, t, repositoryId, available), exempt) <==> Passes(s, t, repositoryId, available, exempt)
  {
    if s.manifest.None? {
      CleanOne(RegistryMissing, exempt);
    } else {
      CleanJoin(ContentFindings(s, t, repositoryId, available), AnchorFindings(s.manifest.value, t), exempt);
      CleanMeansContentPasses(s, t, repositoryId, available, exempt);
      CleanAnchor(s.manifest.value, t, exempt);
    }
  }

  /** What a check remembers: the epoch of the administrators' list of a state that passes but for the anchor, and the
      epoch from before otherwise. It never falls. */
  lemma EpochIsRemembered(s: State, t: Trust, repositoryId: string, available: set<string>, epoch: nat)
    requires epoch == EpochAfter(s, t, repositoryId, available)
    ensures epoch >= t.epoch
    ensures s.manifest.Some? && s.config.admins.Some? && ContentPasses(s, t, repositoryId, available, false) ==>
              epoch == s.config.admins.value.epoch
    ensures epoch > t.epoch ==>
              && s.manifest.Some? && s.config.admins.Some? && ContentPasses(s, t, repositoryId, available, false)
              && epoch == s.config.admins.value.epoch
  {
    if s.manifest.Some? { CleanMeansContentPasses(s, t, repositoryId, available, false); }
  }

  // ---------------------------------------------------------------- a signed head fixes the state

  function PairsOf(records: seq<Record>): seq<(string, Digest)> {
    if records == [] then []
    else PairsOf(records[..|records| - 1]) + [(records[|records| - 1].facts.id, records[|records| - 1].digest)]
  }

  function FactsOf(records: seq<Record>): seq<Facts> {
    if records == [] then [] else FactsOf(records[..|records| - 1]) + [records[|records| - 1].facts]
  }

  lemma {:induction false} InsertKeeps(pairs: seq<(string, Digest)>, pair: (string, Digest))
    ensures multiset(InsertPair(pairs, pair)) == multiset(pairs) + multiset{pair}
  {
    if pairs != [] {
      InsertKeeps(pairs[1..], pair);
      assert pairs == [pairs[0]] + pairs[1..];
    }
  }

  lemma {:induction false} SortedArePairs(records: seq<Record>)
    ensures multiset(SortedPairs(records)) == multiset(PairsOf(records))
  {
    if records != [] {
      var last := records[|records| - 1];
      SortedArePairs(records[..|records| - 1]);
      InsertKeeps(SortedPairs(records[..|records| - 1]), (last.facts.id, last.digest));
    }
  }

  ghost predicate AreById(pairs: seq<(string, Digest)>) {
    forall i, j :: 0 <= i < j < |pairs| ==> SelectionMap.AtMost(pairs[i].0, pairs[j].0)
  }

  /** No identifier occurs twice. */
  ghost predicate AreDistinct(pairs: seq<(string, Digest)>) {
    && (forall x :: multiset(pairs)[x] <= 1)
    && forall x, y :: x in multiset(pairs) && y in multiset(pairs) && x.0 == y.0 ==> x == y
  }

  lemma {:induction false} AtMostIsTransitive(a: string, b: string, c: string)
    requires SelectionMap.AtMost(a, b) && SelectionMap.AtMost(b, c)
    ensures SelectionMap.AtMost(a, c)
  {
    if a != "" && a[0] == b[0] == c[0] { AtMostIsTransitive(a[1..], b[1..], c[1..]); }
  }

  lemma {:induction false} AtMostBothWays(a: string, b: string)
    requires SelectionMap.AtMost(a, b) && SelectionMap.AtMost(b, a)
    ensures a == b
  {
    if a != "" {
      AtMostBothWays(a[1..], b[1..]);
      assert a == [a[0]] + a[1..] && b == [b[0]] + b[1..];
    }
  }

  lemma {:induction false} InsertOrders(pairs: seq<(string, Digest)>, pair: (string, Digest))
    requires AreById(pairs)
    ensures AreById(InsertPair(pairs, pair))
  {
    hide SelectionMap.AtMost;
    if pairs != [] {
      SelectionMap.EitherOrder(pairs[0].0, pair.0);
      if SelectionMap.AtMost(pairs[0].0, pair.0) {
        var rest := InsertPair(pairs[1..], pair);
        InsertOrders(pairs[1..], pair);
        forall j | 0 <= j < |rest|
          ensures SelectionMap.AtMost(pairs[0].0, rest[j].0)
        {
          InsertKeeps(pairs[1..], pair);
          assert rest[j] in multiset(rest);
          assert rest[j] == pair || rest[j] in pairs[1..];
        }
        FirstOrders(pairs[0], rest);
      } else {
        forall j | 0 <= j < |pairs|
          ensures SelectionMap.AtMost(pair.0, pairs[j].0)
        {
          if j > 0 { AtMostIsTransitive(pair.0, pairs[0].0, pairs[j].0); }
        }
        FirstOrders(pair, pairs);
      }
    }
  }

  lemma FirstOrders(first: (string, Digest), rest: seq<(string, Digest)>)
    requires AreById(rest) && forall j :: 0 <= j < |rest| ==> SelectionMap.AtMost(first.0, rest[j].0)
    ensures AreById([first] + rest)
  {
    hide SelectionMap.AtMost;
  }

  lemma {:induction false} SortedAreById(records: seq<Record>)
    ensures AreById(SortedPairs(records))
  {
    hide AreById;
    if records == [] {
      NoneAreById();
    } else {
      var last := records[|records| - 1];
      SortedAreById(records[..|records| - 1]);
      InsertOrders(SortedPairs(records[..|records| - 1]), (last.facts.id, last.digest));
    }
  }

  lemma NoneAreById()
    ensures AreById([])
  {
  }

  /** Pairs that are by identifier are determined by which they are. */
  lemma {:induction false} SameById(x: seq<(string, Digest)>, y: seq<(string, Digest)>)
    requires AreById(x) && AreById(y) && multiset(x) == multiset(y) && AreDistinct(x)
    ensures x == y
  {
    hide *;
    SameLength(x, y);
    if x != [] {
      FirstsAgree(x, y);
      RestIsAlike(x);
      RestIsAlike(y);
      SameById(x[1..], y[1..]);
      assert x == [x[0]] + x[1..] && y == [y[0]] + y[1..];
    }
  }

  lemma SameLength(x: seq<(string, Digest)>, y: seq<(string, Digest)>)
    requires multiset(x) == multiset(y)
    ensures |x| == |y|
  {
    assert |multiset(x)| == |x| && |multiset(y)| == |y|;
  }

  lemma FirstsAgree(x: seq<(string, Digest)>, y: seq<(string, Digest)>)
    requires AreById(x) && AreById(y) && multiset(x) == multiset(y) && AreDistinct(x) && x != [] && y != []
    ensures x[0] == y[0]
  {
    hide *;
    FirstIsLeast(x, y);
    FirstIsLeast(y, x);
    AtMostBothWays(x[0].0, y[0].0);
    assert x[0] in multiset(x) && y[0] in multiset(y);
    OnlyOneHasId(x, x[0], y[0]);
  }

  lemma OnlyOneHasId(pairs: seq<(string, Digest)>, x: (string, Digest), y: (string, Digest))
    requires AreDistinct(pairs) && x in multiset(pairs) && y in multiset(pairs) && x.0 == y.0
    ensures x == y
  {
  }

  lemma RestIsAlike(x: seq<(string, Digest)>)
    requires AreById(x) && x != []
    ensures AreById(x[1..]) && multiset(x[1..]) == multiset(x) - multiset{x[0]}
    ensures AreDistinct(x) ==> AreDistinct(x[1..])
  {
    assert x == [x[0]] + x[1..];
  }

  lemma FirstIsLeast(x: seq<(string, Digest)>, y: seq<(string, Digest)>)
    requires AreById(x) && multiset(x) == multiset(y) && x != [] && y != []
    ensures SelectionMap.AtMost(x[0].0, y[0].0)
  {
    hide SelectionMap.AtMost;
    assert y[0] in multiset(y);
    var k :| 0 <= k < |x| && x[k] == y[0];
    if k == 0 { AtMostItself(x[0].0); }
  }

  lemma {:induction false} AtMostItself(a: string)
    ensures SelectionMap.AtMost(a, a)
  {
    if a != "" { AtMostItself(a[1..]); }
  }

  lemma {:induction false} RecordOfPair(records: seq<Record>, pair: (string, Digest)) returns (i: nat)
    requires pair in multiset(PairsOf(records))
    ensures i < |records| && records[i].facts.id == pair.0
  {
    var rest, last := records[..|records| - 1], records[|records| - 1];
    if pair == (last.facts.id, last.digest) { i := |rest|; } else { i := RecordOfPair(rest, pair); }
  }

  lemma {:induction false} PairsAreDistinct(records: seq<Record>)
    requires forall i, j :: 0 <= i < j < |records| ==> records[i].facts.id != records[j].facts.id
    ensures AreDistinct(PairsOf(records))
  {
    if records != [] {
      hide AreDistinct;
      var rest, last := records[..|records| - 1], records[|records| - 1];
      PairsAreDistinct(rest);
      forall x | x in multiset(PairsOf(rest))
        ensures x.0 != last.facts.id
      {
        var i := RecordOfPair(rest, x);
      }
      OneMoreIsDistinct(PairsOf(rest), (last.facts.id, last.digest));
    }
  }

  lemma OneMoreIsDistinct(pairs: seq<(string, Digest)>, pair: (string, Digest))
    requires AreDistinct(pairs) && forall x :: x in multiset(pairs) ==> x.0 != pair.0
    ensures AreDistinct(pairs + [pair])
  {
  }

  /** The order of the records does not matter to what a manifest covers. */
  lemma RecordOrderIsFree(s: State, records: seq<Record>)
    requires forall i, j :: 0 <= i < j < |s.selections| ==> s.selections[i].facts.id != s.selections[j].facts.id
    requires multiset(PairsOf(records)) == multiset(PairsOf(s.selections))
    ensures CoveredBy(s.(selections := records)) == CoveredBy(s)
  {
    hide AreById, AreDistinct, SortedPairs, PairsOf;
    SortedArePairs(records);
    SortedArePairs(s.selections);
    SortedAreById(records);
    SortedAreById(s.selections);
    PairsAreDistinct(s.selections);
    SameAreDistinct(PairsOf(s.selections), SortedPairs(s.selections));
    SameById(SortedPairs(s.selections), SortedPairs(records));
  }

  lemma SameAreDistinct(x: seq<(string, Digest)>, y: seq<(string, Digest)>)
    requires AreDistinct(x) && multiset(x) == multiset(y)
    ensures AreDistinct(y)
  {
  }

  /** With right digests, a record's facts are as frequent as its pair. */
  lemma {:induction false} FactsAsPairs(records: seq<Record>, facts: Facts)
    requires forall i :: 0 <= i < |records| ==> records[i].digest == RecordOf(records[i].facts)
    ensures multiset(FactsOf(records))[facts] == multiset(PairsOf(records))[(facts.id, RecordOf(facts))]
  {
    if records != [] { FactsAsPairs(records[..|records| - 1], facts); }
  }

  /** States that pass under one head hold the same configuration, checkpoints, context, audit trail and records,
      whatever the machines that check them trust. */
  lemma HeadFixesState(a: State, b: State, t: Trust, u: Trust, repositoryId: string, other: string,
                       available: set<string>, known: set<string>, exempt: bool)
    requires Passes(a, t, repositoryId, available, exempt) && Passes(b, u, other, known, exempt)
    requires a.manifest.value.head == b.manifest.value.head
    ensures repositoryId == other && a.manifest.value.facts == b.manifest.value.facts
    ensures a.config == b.config && a.checkpoints == b.checkpoints && a.context == b.context && a.audit == b.audit
    ensures multiset(FactsOf(a.selections)) == multiset(FactsOf(b.selections))
  {
    hide FactsOf, MapIsRight;
    assert CoveredBy(a) == CoveredBy(b);
    AuditChain.HeadFixesChain(a.audit, b.audit);
    SortedArePairs(a.selections);
    SortedArePairs(b.selections);
    forall facts
      ensures multiset(FactsOf(a.selections))[facts] == multiset(FactsOf(b.selections))[facts]
    {
      FactsAsPairs(a.selections, facts);
      FactsAsPairs(b.selections, facts);
    }
  }
}
