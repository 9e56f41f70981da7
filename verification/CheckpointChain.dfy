// src/governance/checkpoints.rs: the insert-only log of trusted baselines.
module CheckpointChain {
  import opened Anchors
  import opened Digests

  function Head(checkpoints: seq<Checkpoint>): Digest {
    if checkpoints == [] then GENESIS else checkpoints[|checkpoints| - 1].digest
  }

  predicate IsTaken(checkpoints: seq<Checkpoint>, name: string) {
    exists i :: 0 <= i < |checkpoints| && checkpoints[i].facts.name == name
  }

  function NextOf(checkpoints: seq<Checkpoint>, name: string, commit: string, tree: string, branch: string,
                  createdAt: nat, createdBy: string): Checkpoint
  {
    var facts := CheckpointFacts(name, commit, tree, branch, createdAt, createdBy, Head(checkpoints));
    Checkpoint(facts, CheckpointOf(facts))
  }

  predicate IsLink(checkpoints: seq<Checkpoint>, i: nat)
    requires i < |checkpoints|
  {
    && checkpoints[i].facts.previous == (if i == 0 then GENESIS else checkpoints[i - 1].digest)
    && checkpoints[i].digest == CheckpointOf(checkpoints[i].facts)
  }

  /** Each checkpoint digested and chained to the one before, under a name of its own. */
  ghost predicate IsChain(checkpoints: seq<Checkpoint>) {
    && (forall i :: 0 <= i < |checkpoints| ==> IsLink(checkpoints, i))
    && forall i, j :: 0 <= i < j < |checkpoints| ==> checkpoints[i].facts.name != checkpoints[j].facts.name
  }

  class CheckpointLog {
    var checkpoints: seq<Checkpoint>

    constructor ()
      ensures checkpoints == []
    {
      checkpoints := [];
    }

    method Find(name: string) returns (found: Option<Checkpoint>)
      ensures found.Some? <==> IsTaken(checkpoints, name)
      ensures found.Some? ==> found.value in checkpoints && found.value.facts.name == name
    {
      for i := 0 to |checkpoints|
        invariant forall j :: 0 <= j < i ==> checkpoints[j].facts.name != name
      {
        if checkpoints[i].facts.name == name { return Some(checkpoints[i]); }
      }
      return None;
    }

    /** Append a checkpoint, unless its name is taken. */
    method Append(name: string, commit: string, tree: string, branch: string, createdAt: nat, createdBy: string)
      returns (result: Result<Checkpoint>)
      modifies this
      ensures result == if IsTaken(old(checkpoints), name) then Err
                        else Ok(NextOf(old(checkpoints), name, commit, tree, branch, createdAt, createdBy))
      ensures checkpoints == if result.Ok? then old(checkpoints) + [result.value] else old(checkpoints)
      ensures old(IsChain(checkpoints)) ==> IsChain(checkpoints)
    {
      var found := Find(name);
      if found.Some? { return Err; }
      var checkpoint := NextOf(checkpoints, name, commit, tree, branch, createdAt, createdBy);
      if IsChain(checkpoints) { AppendKeeps(checkpoints, name, commit, tree, branch, createdAt, createdBy); }
      checkpoints := checkpoints + [checkpoint];
      result := Ok(checkpoint);
    }

    method VerifyChain() returns (ok: bool)
      ensures ok <==> IsChain(checkpoints)
    {
      var previous, names := GENESIS, {};
      for index := 0 to |checkpoints|
        invariant previous == if index == 0 then GENESIS else checkpoints[index - 1].digest
        invariant names == set i | 0 <= i < index :: checkpoints[i].facts.name
        invariant forall i :: 0 <= i < index ==> IsLink(checkpoints, i)
        invariant forall i, j :: 0 <= i < j < index ==> checkpoints[i].facts.name != checkpoints[j].facts.name
      {
        var checkpoint := checkpoints[index];
        if checkpoint.facts.name in names { return false; }
        if checkpoint.facts.previous != previous || CheckpointOf(checkpoint.facts) != checkpoint.digest {
          assert !IsLink(checkpoints, index);
          return false;
        }
        names := names + {checkpoint.facts.name};
        previous := checkpoint.digest;
      }
      return true;
    }
  }

  lemma AppendKeeps(checkpoints: seq<Checkpoint>, name: string, commit: string, tree: string, branch: string,
                    createdAt: nat, createdBy: string)
    requires IsChain(checkpoints) && !IsTaken(checkpoints, name)
    ensures IsChain(checkpoints + [NextOf(checkpoints, name, commit, tree, branch, createdAt, createdBy)])
  {
    var longer := checkpoints + [NextOf(checkpoints, name, commit, tree, branch, createdAt, createdBy)];
    forall i | 0 <= i < |longer|
      ensures IsLink(longer, i)
    {
      if i < |checkpoints| { assert IsLink(checkpoints, i); }
    }
  }

  lemma OnlyEmptyIsGenesis(checkpoints: seq<Checkpoint>)
    requires IsChain(checkpoints)
    ensures Head(checkpoints) == GENESIS <==> checkpoints == []
  {
    if checkpoints != [] { assert IsLink(checkpoints, |checkpoints| - 1); }
  }

  /** A head stands for the whole log: logs with equal heads are equal. */
  lemma {:induction false} HeadFixesChain(a: seq<Checkpoint>, b: seq<Checkpoint>)
    requires IsChain(a) && IsChain(b) && Head(a) == Head(b)
    ensures a == b
    decreases |a|
  {
    OnlyEmptyIsGenesis(a);
    OnlyEmptyIsGenesis(b);
    if a != [] {
      var p, q := a[..|a| - 1], b[..|b| - 1];
      assert IsLink(a, |a| - 1) && IsLink(b, |b| - 1);
      assert a[|a| - 1] == b[|b| - 1];
      forall i | 0 <= i < |p| ensures IsLink(p, i) { assert IsLink(a, i); }
      forall i | 0 <= i < |q| ensures IsLink(q, i) { assert IsLink(b, i); }
      HeadFixesChain(p, q);
      assert a == p + [a[|a| - 1]] && b == q + [b[|b| - 1]];
    }
  }
}
