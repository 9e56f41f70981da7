// src/governance/audit.rs: the audit chain.
module AuditChain {
  import opened Anchors
  import opened Digests

  function Head(entries: seq<Entry>): Digest { if entries == [] then GENESIS else entries[|entries| - 1].digest }

  function Next(entries: seq<Entry>, at: nat, actor: string, action: string, detail: string): Entry {
    var facts := EntryFacts(|entries| + 1, at, actor, action, detail, Head(entries));
    Entry(facts, AuditOf(facts))
  }

  /** Numbered from one, each entry digested and chained to the one before. */
  ghost predicate IsChain(entries: seq<Entry>) {
    forall i :: 0 <= i < |entries| ==> IsLink(entries, i)
  }

  predicate IsLink(entries: seq<Entry>, i: nat)
    requires i < |entries|
  {
    var entry := entries[i];
    && entry.facts.number == i + 1
    && entry.facts.previous == (if i == 0 then GENESIS else entries[i - 1].digest)
    && entry.digest == AuditOf(entry.facts)
  }

  method Verify(entries: seq<Entry>) returns (ok: bool)
    ensures ok <==> IsChain(entries)
  {
    var previous := GENESIS;
    for index := 0 to |entries|
      invariant previous == if index == 0 then GENESIS else entries[index - 1].digest
      invariant forall i :: 0 <= i < index ==> IsLink(entries, i)
    {
      var entry := entries[index];
      if entry.facts.number != index + 1 || entry.facts.previous != previous || AuditOf(entry.facts) != entry.digest {
        assert !IsLink(entries, index);
        return false;
      }
      previous := entry.digest;
    }
    return true;
  }

  /** Appending the next entry keeps the chain. */
  lemma AppendKeeps(entries: seq<Entry>, at: nat, actor: string, action: string, detail: string)
    requires IsChain(entries)
    ensures IsChain(entries + [Next(entries, at, actor, action, detail)])
    ensures Head(entries + [Next(entries, at, actor, action, detail)])
            == Next(entries, at, actor, action, detail).digest
  {
    var longer := entries + [Next(entries, at, actor, action, detail)];
    forall i | 0 <= i < |longer|
      ensures IsLink(longer, i)
    {
      if i < |entries| { assert IsLink(entries, i); }
    }
  }

  lemma OnlyEmptyIsGenesis(entries: seq<Entry>)
    requires IsChain(entries)
    ensures Head(entries) == GENESIS <==> entries == []
  {
    if entries != [] { assert IsLink(entries, |entries| - 1); }
  }

  /** A head stands for the whole chain: chains with equal heads are equal. */
  lemma {:induction false} HeadFixesChain(a: seq<Entry>, b: seq<Entry>)
    requires IsChain(a) && IsChain(b) && Head(a) == Head(b)
    ensures a == b
    decreases |a|
  {
    OnlyEmptyIsGenesis(a);
    OnlyEmptyIsGenesis(b);
    if a != [] {
      var p, q := a[..|a| - 1], b[..|b| - 1];
      assert IsLink(a, |a| - 1) && IsLink(b, |b| - 1);
      assert a[|a| - 1] == b[|b| - 1];
      forall i | 0 <= i < |p| ensures IsLink(p, i) { assert IsLink(a, i); }
      forall i | 0 <= i < |q| ensures IsLink(q, i) { assert IsLink(b, i); }
      HeadFixesChain(p, q);
      assert a == p + [a[|a| - 1]] && b == q + [b[|b| - 1]];
    }
  }
}
