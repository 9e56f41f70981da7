// src/governance/flows.rs: resolving entry points and calls, and discovering the call graph breadth
// first. Definitions are named by their position in the index.
module Flows {

  datatype Option<+T> = None | Some(value: T)

  datatype Definition = Definition(name: string, qualified: string, path: string, calls: seq<string>)

  function Id(definition: Definition): string { definition.path + ":" + definition.qualified }

  /** A qualified name is the name itself, or a type, a dot and the name; neither part holds a dot or a colon. */
  predicate IsNamed(definition: Definition) {
    && '.' !in definition.name && ':' !in definition.qualified
    && (definition.qualified == definition.name || EndsWith(definition.qualified, "." + definition.name))
    && (definition.qualified != definition.name ==> '.' in definition.qualified)
  }

  /** The definitions of a repository. Several may have one identifier. */
  predicate IsIndex(index: seq<Definition>) { forall i :: 0 <= i < |index| ==> IsNamed(index[i]) }

  /** No other definition has the identifier of this one. */
  ghost predicate IsSingle(index: seq<Definition>, d: nat) {
    d < |index| && forall i :: 0 <= i < |index| && Id(index[i]) == Id(index[d]) ==> i == d
  }

  /** Equal identifiers come from equal paths and equal names. */
  lemma SameIdSameNames(a: Definition, b: Definition)
    requires IsNamed(a) && IsNamed(b) && Id(a) == Id(b)
    ensures a.path == b.path && a.qualified == b.qualified && a.name == b.name
  {
    SplitAtLast(a.path, a.qualified, b.path, b.qualified, ':');
    if a.qualified != a.name && b.qualified != b.name {
      var p, q := a.qualified[..|a.qualified| - |a.name| - 1], b.qualified[..|b.qualified| - |b.name| - 1];
      EndSplits(a.qualified, a.name);
      EndSplits(b.qualified, b.name);
      SplitAtLast(p, a.name, q, b.name, '.');
    }
  }

  lemma EndSplits(s: string, name: string)
    requires EndsWith(s, "." + name)
    ensures |s| > |name| && s == s[..|s| - |name| - 1] + "." + name
  {
  }

  /** A text splits in one way at its last separator. */
  lemma SplitAtLast(p: string, x: string, q: string, y: string, separator: char)
    requires p + [separator] + x == q + [separator] + y && separator !in x && separator !in y
    ensures p == q && x == y
  {
    NotBefore(p, x, q, y, separator);
    NotBefore(q, y, p, x, separator);
    var all := p + [separator] + x;
    assert all[..|p|] == p && (q + [separator] + y)[..|q|] == q;
    assert all[|p| + 1..] == x && (q + [separator] + y)[|q| + 1..] == y;
  }

  lemma NotBefore(p: string, x: string, q: string, y: string, separator: char)
    requires p + [separator] + x == q + [separator] + y
    ensures |p| < |q| ==> separator in x
  {
    var all := p + [separator] + x;
    assert all[|q|] == (q + [separator] + y)[|q|] == separator;
    if |p| < |q| { assert all[|q|] == x[|q| - |p| - 1]; }
  }

  // ---------------------------------------------------------------- entry points

  predicate EndsWith(s: string, part: string) { |part| <= |s| && s[|s| - |part|..] == part }

  /** Position of the last colon. */
  function LastColon(entry: string): Option<nat> {
    if entry == "" then None else if entry[|entry| - 1] == ':' then Some(|entry| - 1)
        else LastColon(entry[..|entry| - 1])
  }

  lemma {:induction false} LastColonIsLast(entry: string)
    ensures LastColon(entry).None? <==> forall i :: 0 <= i < |entry| ==> entry[i] != ':'
    ensures LastColon(entry).Some? ==>
              var k := LastColon(entry).value;
              k < |entry| && entry[k] == ':' && forall i :: k < i < |entry| ==> entry[i] != ':'
  {
    if entry != "" && entry[|entry| - 1] != ':' { LastColonIsLast(entry[..|entry| - 1]); }
  }

  /** An entry point is SYMBOL, Type.SYMBOL or path:SYMBOL. */
  function PathAndSymbol(entry: string): (Option<string>, string) {
    LastColonIsLast(entry);
    match LastColon(entry)
    case Some(k) => if k > 0 then (Some(entry[..k]), entry[k + 1..]) else (None, entry)
    case None => (None, entry)
  }

  predicate IsEntry(definition: Definition, entry: string) {
    var (path, symbol) := PathAndSymbol(entry);
    && (path.None? || definition.path == path.value || EndsWith(definition.path, "/" + path.value))
    && (definition.qualified == symbol || definition.name == symbol || EndsWith(definition.qualified, "." + symbol))
  }

  /** The definitions among the first n that an entry point may mean. */
  function EntryMatches(index: seq<Definition>, entry: string, n: nat): seq<nat>
    requires n <= |index|
  {
    if n == 0 then [] else EntryMatches(index, entry, n - 1) + if IsEntry(index[n - 1], entry) then [n - 1] else []
  }

  function ResolveEntry(index: seq<Definition>, entry: string): Option<nat> {
    var matches := EntryMatches(index, entry, |index|);
    if |matches| == 1 then Some(matches[0]) else None
  }

  lemma {:induction false} EntryMatchesAre(index: seq<Definition>, entry: string, n: nat)
    requires n <= |index|
    ensures forall i :: i in EntryMatches(index, entry, n) <==> 0 <= i < n && IsEntry(index[i], entry)
    ensures forall i, j :: 0 <= i < j < |EntryMatches(index, entry, n)| ==>
              EntryMatches(index, entry, n)[i] < EntryMatches(index, entry, n)[j]
  {
    hide IsEntry;
    if n > 0 {
      EntryMatchesAre(index, entry, n - 1);
      var before := EntryMatches(index, entry, n - 1);
      assert forall i :: 0 <= i < |before| ==> before[i] in before;
    }
  }

  /** An entry point resolves exactly to the only definition it can mean. */
  lemma EntryIsUnique(index: seq<Definition>, entry: string, d: nat)
    ensures ResolveEntry(index, entry) == Some(d)
            <==> d < |index| && IsEntry(index[d], entry) && forall i :: 0 <= i < |index| && IsEntry(index[i], entry) ==>
                  i == d
  {
    var matches := EntryMatches(index, entry, |index|);
    EntryMatchesAre(index, entry, |index|);
    if |matches| == 1 { assert matches[0] in matches; }
    if d < |index| && IsEntry(index[d], entry) && forall i :: 0 <= i < |index| && IsEntry(index[i], entry) ==> i == d {
      assert d in matches;
      OnlyMember(matches, d);
    }
  }

  /** A symbol may be a qualified name, a name, or the end of a qualified name after a dot. */
  predicate IsSymbol(definition: Definition, symbol: string) {
    var q, cut := definition.qualified, |definition.qualified| - |symbol|;
    || q == symbol
    || definition.name == symbol
    || (cut > 0 && q[cut..] == symbol && q[cut - 1] == '.')
  }

  /** A path may be that of the file, or its end after a slash. */
  predicate IsPathOf(definition: Definition, path: string) {
    var p, cut := definition.path, |definition.path| - |path|;
    p == path || (cut > 0 && p[cut..] == path && p[cut - 1] == '/')
  }

  lemma EndsWithPart(s: string, c: char, part: string)
    ensures var cut := |s| - |part|;
            EndsWith(s, [c] + part) <==> cut > 0 && s[cut..] == part && s[cut - 1] == c
  {
    var cut := |s| - |part|;
    if cut > 0 {
      assert s[cut - 1..] == [s[cut - 1]] + s[cut..];
      assert s[cut - 1..][1..] == s[cut..] && ([c] + part)[1..] == part;
    }
  }

  lemma {:induction false} ColonAt(entry: string, k: nat)
    requires k < |entry| && entry[k] == ':' && forall i :: k < i < |entry| ==> entry[i] != ':'
    ensures LastColon(entry) == Some(k)
  {
    if k < |entry| - 1 { ColonAt(entry[..|entry| - 1], k); }
  }

  /** What an entry point with a path may mean. */
  lemma PathEntryMeans(definition: Definition, path: string, symbol: string)
    requires path != "" && ':' !in symbol
    ensures IsEntry(definition, path + ":" + symbol) <==> IsPathOf(definition, path) && IsSymbol(definition, symbol)
  {
    hide PathAndSymbol, EndsWith;
    PathIsSplit(path, symbol);
    EndsWithPart(definition.path, '/', path);
    EndsWithPart(definition.qualified, '.', symbol);
  }

  lemma PathIsSplit(path: string, symbol: string)
    requires path != "" && ':' !in symbol
    ensures PathAndSymbol(path + ":" + symbol) == (Some(path), symbol)
  {
    hide LastColon;
    var entry := path + ":" + symbol;
    ColonAt(entry, |path|);
    assert entry[..|path|] == path && entry[|path| + 1..] == symbol;
  }

  /** What an entry point without a path may mean; one that begins with its only colon has none. */
  lemma BareEntryMeans(definition: Definition, entry: string)
    requires forall i :: 0 < i < |entry| ==> entry[i] != ':'
    ensures IsEntry(definition, entry) <==> IsSymbol(definition, entry)
  {
    LastColonIsLast(entry);
    EndsWithPart(definition.qualified, '.', entry);
  }

  /** A definition is found under its own path and qualified name, unless another has that path, or ends in it, and that
      name. */
  lemma IdentifierResolves(index: seq<Definition>, d: nat)
    requires d < |index| && index[d].path != "" && ':' !in index[d].qualified
    ensures ResolveEntry(index, index[d].path + ":" + index[d].qualified) == Some(d)
            <==> forall i | 0 <= i < |index| && IsPathOf(index[i], index[d].path)
                            && IsSymbol(index[i], index[d].qualified) :: i == d
  {
    hide IsEntry, ResolveEntry;
    var path, symbol := index[d].path, index[d].qualified;
    EntryIsUnique(index, path + ":" + symbol, d);
    forall i | 0 <= i < |index|
      ensures IsEntry(index[i], path + ":" + symbol) <==> IsPathOf(index[i], path) && IsSymbol(index[i], symbol)
    {
      PathEntryMeans(index[i], path, symbol);
    }
  }

  /** What an entry point resolves to has its identifier to itself. */
  lemma EntryIsSingle(index: seq<Definition>, entry: string, d: nat)
    requires IsIndex(index) && ResolveEntry(index, entry) == Some(d)
    ensures IsSingle(index, d)
  {
    hide ResolveEntry;
    EntryIsUnique(index, entry, d);
    forall i | 0 <= i < |index| && Id(index[i]) == Id(index[d])
      ensures i == d
    {
      SameIdSameNames(index[i], index[d]);
    }
  }

  lemma OnlyMember(matches: seq<nat>, d: nat)
    requires d in matches && (forall i :: i in matches ==> i == d) && forall i, j :: 0 <= i < j < |matches| ==>
               matches[i] < matches[j]
    ensures matches == [d]
  {
    if |matches| > 1 { TwoMembers(matches); }
  }

  lemma TwoMembers(matches: seq<nat>)
    requires |matches| > 1 && forall i, j :: 0 <= i < j < |matches| ==> matches[i] < matches[j]
    ensures exists i, j :: i in matches && j in matches && i != j
  {
    assert matches[0] in matches && matches[1] in matches;
  }

  // ---------------------------------------------------------------- calls

  function Named(index: seq<Definition>, name: string, n: nat): seq<nat>
    requires n <= |index|
  {
    if n == 0 then [] else Named(index, name, n - 1) + if index[n - 1].name == name then [n - 1] else []
  }

  function InFile(index: seq<Definition>, path: string, candidates: seq<nat>): seq<nat> {
    if candidates == [] then []
    else
      var last := candidates[|candidates| - 1];
      InFile(index, path, candidates[..|candidates| - 1])
      + if last < |index| && index[last].path == path then [last] else []
  }

  /** The definition a call means: the only one with the name, or the only one in the caller's file. */
  function Target(index: seq<Definition>, caller: nat, call: string): Option<nat>
    requires caller < |index|
  {
    var candidates := Named(index, call, |index|);
    var local := InFile(index, index[caller].path, candidates);
    if |candidates| == 1 then Some(candidates[0]) else if |local| == 1 then Some(local[0]) else None
  }

  lemma {:induction false} NamedAre(index: seq<Definition>, name: string, n: nat)
    requires n <= |index|
    ensures forall i :: i in Named(index, name, n) <==> 0 <= i < n && index[i].name == name
    ensures forall i, j :: 0 <= i < j < |Named(index, name, n)| ==> Named(index, name, n)[i] < Named(index, name, n)[j]
  {
    if n > 0 {
      NamedAre(index, name, n - 1);
      var before := Named(index, name, n - 1);
      assert forall i :: 0 <= i < |before| ==> before[i] in before;
    }
  }

  ghost predicate IsRising(s: seq<nat>) { forall i, j :: 0 <= i < j < |s| ==> s[i] < s[j] }

  lemma RisesOn(s: seq<nat>, last: nat)
    requires IsRising(s) && forall x :: x in s ==> x < last
    ensures IsRising(s + [last])
  {
    forall i | 0 <= i < |s|
      ensures s[i] < last
    {
      assert s[i] in s;
    }
  }

  lemma RiseBefore(s: seq<nat>, rest: seq<nat>, last: nat)
    requires IsRising(s) && s == rest + [last]
    ensures IsRising(rest) && forall x {:trigger x in rest} :: x in rest ==> x < last
  {
    assert forall i :: 0 <= i < |rest| ==> rest[i] == s[i];
    forall x | x in rest
      ensures x < last
    {
      var i :| 0 <= i < |rest| && rest[i] == x;
      assert s[i] < s[|rest|];
    }
  }

  lemma {:induction false} InFileAre(index: seq<Definition>, path: string, candidates: seq<nat>)
    requires IsRising(candidates)
    ensures forall i ::
              i in InFile(index, path, candidates) <==> i in candidates && i < |index| && index[i].path == path
    ensures IsRising(InFile(index, path, candidates))
  {
    if candidates != [] {
      hide IsRising;
      var rest, last := candidates[..|candidates| - 1], candidates[|candidates| - 1];
      assert candidates == rest + [last];
      RiseBefore(candidates, rest, last);
      InFileAre(index, path, rest);
      var before := InFile(index, path, rest);
      RisesOn(before, last);
      assert before + [] == before;
    }
  }

  ghost predicate IsOnly(index: seq<Definition>, d: nat, meant: nat -> bool) {
    d < |index| && meant(d) && forall i: nat :: i < |index| && meant(i) ==> i == d
  }

  /** What it means for a call to be uniquely resolvable. */
  ghost predicate Means(index: seq<Definition>, caller: nat, call: string, d: nat)
    requires caller < |index|
  {
    var named := (i: nat) => i < |index| && index[i].name == call;
    var local := (i: nat) => i < |index| && index[i].name == call && index[i].path == index[caller].path;
    IsOnly(index, d, named) || (IsOnly(index, d, local) && forall e: nat :: !IsOnly(index, e, named))
  }

  lemma TargetMeans(index: seq<Definition>, caller: nat, call: string, d: nat)
    requires caller < |index|
    ensures Target(index, caller, call) == Some(d) <==> Means(index, caller, call, d)
  {
    hide InFile, Named;
    var candidates := Named(index, call, |index|);
    var local := InFile(index, index[caller].path, candidates);
    NamedAre(index, call, |index|);
    InFileAre(index, index[caller].path, candidates);
    var named := (i: nat) => i < |index| && index[i].name == call;
    var inFile := (i: nat) => i < |index| && index[i].name == call && index[i].path == index[caller].path;
    forall e: nat
      ensures IsOnly(index, e, named) <==> candidates == [e]
      ensures IsOnly(index, e, inFile) <==> local == [e]
    {
      OnlyIs(index, e, named, candidates);
      OnlyIs(index, e, inFile, local);
    }
  }

  lemma OnlyIs(index: seq<Definition>, d: nat, meant: nat -> bool, found: seq<nat>)
    requires forall i: nat :: i in found <==> i < |index| && meant(i)
    requires forall i, j :: 0 <= i < j < |found| ==> found[i] < found[j]
    ensures IsOnly(index, d, meant) <==> found == [d]
  {
    if IsOnly(index, d, meant) { OnlyMember(found, d); }
    if found == [d] { assert d in found && forall i :: i in found ==> i == d; }
  }

  /** What a call resolves to has its identifier to itself. */
  lemma TargetIsSingle(index: seq<Definition>, caller: nat, call: string, d: nat)
    requires IsIndex(index) && caller < |index| && Target(index, caller, call) == Some(d)
    ensures IsSingle(index, d)
  {
    hide Named, InFile, Id, IsNamed;
    var candidates := Named(index, call, |index|);
    var local := InFile(index, index[caller].path, candidates);
    NamedAre(index, call, |index|);
    InFileAre(index, index[caller].path, candidates);
    var found := if |candidates| == 1 then candidates else local;
    assert d in found;
    forall i | 0 <= i < |index| && Id(index[i]) == Id(index[d])
      ensures i == d
    {
      SameIdSameNames(index[i], index[d]);
      assert i in found;
    }
  }

  // ---------------------------------------------------------------- reachability

  ghost predicate IsStep(index: seq<Definition>, a: nat, b: nat) {
    a < |index| && exists k :: 0 <= k < |index[a].calls| && Target(index, a, index[a].calls[k]) == Some(b)
  }

  ghost predicate IsEntryOf(index: seq<Definition>, entries: seq<string>, d: nat) {
    exists k :: 0 <= k < |entries| && ResolveEntry(index, entries[k]) == Some(d)
  }

  /** d is n resolvable calls away from some resolved entry point. */
  ghost predicate IsAway(index: seq<Definition>, entries: seq<string>, d: nat, n: nat)
    decreases n
  {
    if n == 0 then IsEntryOf(index, entries, d)
        else exists a: nat :: IsAway(index, entries, a, n - 1) && IsStep(index, a, d)
  }

  datatype Visit = Visit(definition: nat, depth: nat)

  datatype Status = Resolved | Partial | Unresolved

  datatype Call = Call(caller: nat, name: string)

  datatype Graph = Graph(entryPoints: seq<nat>, nodes: seq<Visit>, edges: seq<(nat, nat)>,
                         unresolvedEntries: seq<string>, unresolvedCalls: set<Call>, files: set<string>, status: Status)

  /** A call of d cannot be resolved. */
  predicate IsMissing(index: seq<Definition>, d: nat, call: string) {
    d < |index| && call in index[d].calls && Target(index, d, call).None?
  }

  /** What discovery promises: exactly the definitions at most maxDepth calls away, each once, with its
      shortest distance. */
  ghost predicate IsDiscovered(index: seq<Definition>, entries: seq<string>, maxDepth: nat, nodes: seq<Visit>) {
    && (forall i, j :: 0 <= i < j < |nodes| ==> nodes[i].definition != nodes[j].definition)
    && (forall i :: 0 <= i < |nodes| ==>
          nodes[i].depth <= maxDepth && nodes[i].definition < |index|
              && IsAway(index, entries, nodes[i].definition, nodes[i].depth))
    && (forall d: nat, n: nat :: n <= maxDepth && IsAway(index, entries, d, n) ==> IsWithin(nodes, d, n))
  }

  ghost predicate IsWithin(nodes: seq<Visit>, d: nat, n: nat) {
    exists i :: 0 <= i < |nodes| && nodes[i].definition == d && nodes[i].depth <= n
  }

  /** Everything found so far, the visited nodes first and then the queue: at most one level apart, each
      once, and every child of an expanded node is found one level deeper at most. */
  ghost predicate IsSearch(index: seq<Definition>, entries: seq<string>, maxDepth: nat, found: seq<Visit>,
                           visited: nat) {
    && visited <= |found|
    && (forall i, j :: 0 <= i < j < |found| ==>
          found[i].definition != found[j].definition && found[i].depth <= found[j].depth)
    && (forall i, j :: 0 <= i < |found| && visited <= j < |found| ==> found[i].depth <= found[j].depth + 1)
    && (forall i :: 0 <= i < |found| ==>
          found[i].depth <= maxDepth && found[i].definition < |index|
              && IsAway(index, entries, found[i].definition, found[i].depth))
    && (forall i, b: nat :: 0 <= i < visited && found[i].depth < maxDepth && IsStep(index, found[i].definition, b) ==>
          IsWithin(found, b, found[i].depth + 1))
  }

  ghost predicate HasEntries(index: seq<Definition>, entries: seq<string>, n: nat, found: seq<Visit>)
    requires n <= |entries|
  {
    forall k :: 0 <= k < n && ResolveEntry(index, entries[k]).Some? ==>
          IsWithin(found, ResolveEntry(index, entries[k]).value, 0)
  }

  /** When the queue is empty, everything near enough has been found. */
  lemma {:induction false} FoundWithin(index: seq<Definition>, entries: seq<string>, maxDepth: nat, found: seq<Visit>,
                                       d: nat, n: nat)
    requires IsSearch(index, entries, maxDepth, found, |found|) && HasEntries(index, entries, |entries|, found)
    requires n <= maxDepth && IsAway(index, entries, d, n)
    ensures IsWithin(found, d, n)
    decreases n
  {
    hide IsStep;
    if n == 0 {
      var k :| 0 <= k < |entries| && ResolveEntry(index, entries[k]) == Some(d);
    } else {
      var a: nat :| IsAway(index, entries, a, n - 1) && IsStep(index, a, d);
      FoundWithin(index, entries, maxDepth, found, a, n - 1);
      var i :| 0 <= i < |found| && found[i].definition == a && found[i].depth <= n - 1;
      assert IsWithin(found, d, found[i].depth + 1);
    }
  }

  // ---------------------------------------------------------------- steps of the search

  ghost predicate IsFound(found: seq<Visit>, d: nat) { exists i :: 0 <= i < |found| && found[i].definition == d }

  lemma WithinMore(found: seq<Visit>, more: seq<Visit>, d: nat, n: nat)
    ensures IsWithin(found, d, n) ==> IsWithin(found + more, d, n)
  {
    if IsWithin(found, d, n) {
      var i :| 0 <= i < |found| && found[i].definition == d && found[i].depth <= n;
      assert (found + more)[i] == found[i];
    }
  }

  /** Something new at the end of the queue. */
  lemma PushFound(index: seq<Definition>, entries: seq<string>, maxDepth: nat, found: seq<Visit>, visited: nat,
                  visit: Visit)
    requires IsSearch(index, entries, maxDepth, found, visited) && !IsFound(found, visit.definition)
    requires visit.definition < |index| && visit.depth <= maxDepth
             && IsAway(index, entries, visit.definition, visit.depth)
    requires forall i :: 0 <= i < |found| ==> found[i].depth <= visit.depth
    requires forall j :: visited <= j < |found| ==> visit.depth <= found[j].depth + 1
    ensures IsSearch(index, entries, maxDepth, found + [visit], visited)
    ensures IsWithin(found + [visit], visit.definition, visit.depth)
  {
    hide IsAway;
    var more := found + [visit];
    assert more[|found|] == visit;
    forall i, b: nat | 0 <= i < visited && more[i].depth < maxDepth && IsStep(index, more[i].definition, b)
      ensures IsWithin(more, b, more[i].depth + 1)
    {
      assert more[i] == found[i];
      WithinMore(found, [visit], b, found[i].depth + 1);
    }
  }

  /** Something is found already, no deeper than it would be now. */
  lemma FoundBefore(found: seq<Visit>, d: nat, depth: nat)
    requires IsFound(found, d) && forall i :: 0 <= i < |found| ==> found[i].depth <= depth
    ensures IsWithin(found, d, depth)
  {
  }

  ghost predicate AreSeen(index: seq<Definition>, seen: set<string>, found: seq<Visit>) {
    forall d: nat :: d < |index| ==> (Id(index[d]) in seen <==> IsFound(found, d))
  }

  lemma SeeOne(index: seq<Definition>, seen: set<string>, found: seq<Visit>, visit: Visit)
    requires IsSingle(index, visit.definition) && AreSeen(index, seen, found)
    ensures AreSeen(index, seen + {Id(index[visit.definition])}, found + [visit])
  {
    forall d: nat | d < |index|
      ensures Id(index[d]) in seen + {Id(index[visit.definition])} <==> IsFound(found + [visit], d)
    {
      if IsFound(found, d) {
        var i :| 0 <= i < |found| && found[i].definition == d;
        assert (found + [visit])[i].definition == d;
      }
      if IsFound(found + [visit], d) {
        var i :| 0 <= i < |found + [visit]| && (found + [visit])[i].definition == d;
        assert i < |found| ==> found[i].definition == d;
      }
      assert (found + [visit])[|found|] == visit;
    }
  }

  /** Put a definition into the queue unless it has been seen; found are the visited ones and the queue. */
  method Reach(index: seq<Definition>, seen: set<string>, queue: seq<Visit>, visit: Visit, ghost found: seq<Visit>,
               ghost entries: seq<string>, ghost maxDepth: nat, ghost visited: nat)
    returns (seen': set<string>, queue': seq<Visit>, ghost found': seq<Visit>)
    requires IsSingle(index, visit.definition) && AreSeen(index, seen, found)
    requires IsSearch(index, entries, maxDepth, found, visited)
    requires visit.depth <= maxDepth && IsAway(index, entries, visit.definition, visit.depth)
    requires forall i :: 0 <= i < |found| ==> found[i].depth <= visit.depth
    requires forall j :: visited <= j < |found| ==> visit.depth <= found[j].depth + 1
    ensures IsSearch(index, entries, maxDepth, found', visited) && AreSeen(index, seen', found')
    ensures IsWithin(found', visit.definition, visit.depth)
    ensures (queue' == queue && found' == found && seen' == seen)
            || (queue' == queue + [visit] && found' == found + [visit]
                && Id(index[visit.definition]) !in seen && seen' == seen + {Id(index[visit.definition])})
  {
    seen', queue', found' := seen, queue, found;
    if Id(index[visit.definition]) !in seen {
      PushFound(index, entries, maxDepth, found, visited, visit);
      SeeOne(index, seen, found, visit);
      seen', queue', found' := seen + {Id(index[visit.definition])}, queue + [visit], found + [visit];
    } else {
      FoundBefore(found, visit.definition, visit.depth);
    }
  }

  /** The targets of the first k calls have been found. */
  ghost predicate AreFollowed(index: seq<Definition>, cur: Visit, k: nat, found: seq<Visit>)
    requires cur.definition < |index| && k <= |index[cur.definition].calls|
  {
    forall j :: 0 <= j < k && Target(index, cur.definition, index[cur.definition].calls[j]).Some? ==>
      IsWithin(found, Target(index, cur.definition, index[cur.definition].calls[j]).value, cur.depth + 1)
  }

  /** The edges are those of the first k calls that resolve, and the unresolved calls the others. */
  ghost predicate AreEdges(index: seq<Definition>, a: nat, k: nat, edges: seq<(nat, nat)>, unresolved: set<Call>)
    requires a < |index| && k <= |index[a].calls|
  {
    && (forall e :: e in edges ==> e.0 == a && IsStep(index, a, e.1))
    && (forall j :: 0 <= j < k && Target(index, a, index[a].calls[j]).Some? ==>
          (a, Target(index, a, index[a].calls[j]).value) in edges)
    && (forall c :: c in unresolved <==> c.caller == a && c.name in index[a].calls[..k] && IsMissing(index, a, c.name))
  }

  /** What following calls keeps: found are the visited definitions and the queue, and what is new is at
      the end of both. */
  ghost predicate HasGrown(seen: set<string>, queue: seq<Visit>, found: seq<Visit>, seen': set<string>,
                           queue': seq<Visit>, found': seq<Visit>) {
    && found <= found' && queue' == queue + found'[|found|..]
    && seen <= seen' && (seen' == seen ==> queue' == queue)
  }

  /** Follow a call to its target. */
  method FollowTarget(index: seq<Definition>, seen: set<string>, queue: seq<Visit>, cur: Visit, target: nat,
                      ghost found: seq<Visit>, ghost v: nat, ghost entries: seq<string>, ghost maxDepth: nat)
    returns (seen': set<string>, queue': seq<Visit>, ghost found': seq<Visit>)
    requires IsSingle(index, target) && cur.depth < maxDepth && v < |found| && found[v] == cur
    requires IsSearch(index, entries, maxDepth, found, v) && AreSeen(index, seen, found)
             && IsStep(index, cur.definition, target)
    ensures IsSearch(index, entries, maxDepth, found', v) && AreSeen(index, seen', found')
    ensures IsWithin(found', target, cur.depth + 1) && HasGrown(seen, queue, found, seen', queue', found')
            && seen' <= seen + {Id(index[target])}
  {
    hide IsAway, IsSearch;
    NextIsAway(index, entries, cur, target, found, maxDepth, v);
    seen', queue', found' := Reach(index, seen, queue, Visit(target, cur.depth + 1), found, entries, maxDepth, v);
  }

  /** Follow one call. */
  method FollowCall(index: seq<Definition>, seen: set<string>, queue: seq<Visit>, cur: Visit, k: nat,
                    ghost found: seq<Visit>, ghost v: nat, ghost entries: seq<string>, ghost maxDepth: nat)
    returns (seen': set<string>, queue': seq<Visit>, ghost found': seq<Visit>)
    requires IsIndex(index) && cur.definition < |index| && cur.depth < maxDepth && v < |found| && found[v] == cur
    requires IsSearch(index, entries, maxDepth, found, v) && AreSeen(index, seen, found)
    requires k < |index[cur.definition].calls| && AreFollowed(index, cur, k, found)
    ensures IsSearch(index, entries, maxDepth, found', v) && AreSeen(index, seen', found')
    ensures AreFollowed(index, cur, k + 1, found')
    ensures HasGrown(seen, queue, found, seen', queue', found') && seen' <= seen + Ids(index)
  {
    seen', queue', found' := seen, queue, found;
    var target := Target(index, cur.definition, index[cur.definition].calls[k]);
    if target.Some? {
      TargetIsSingle(index, cur.definition, index[cur.definition].calls[k], target.value);
      seen', queue', found' := FollowTarget(index, seen, queue, cur, target.value, found, v, entries, maxDepth);
    }
    KeepFollowed(index, cur, k, found, found');
  }

  lemma GrownTwice(seen: set<string>, queue: seq<Visit>, found: seq<Visit>, seen': set<string>, queue': seq<Visit>,
                   found': seq<Visit>, seen'': set<string>, queue'': seq<Visit>, found'': seq<Visit>)
    requires HasGrown(seen, queue, found, seen', queue', found')
             && HasGrown(seen', queue', found', seen'', queue'', found'')
    ensures HasGrown(seen, queue, found, seen'', queue'', found'')
  {
    assert found''[|found|..] == found'[|found|..] + found''[|found'|..];
  }

  /** Follow the calls of the definition at the front of the queue. */
  method Expand(index: seq<Definition>, seen: set<string>, queue: seq<Visit>, cur: Visit, ghost found: seq<Visit>,
                ghost v: nat, ghost entries: seq<string>, ghost maxDepth: nat)
    returns (seen': set<string>, queue': seq<Visit>, edges: seq<(nat, nat)>, unresolved: set<Call>,
             ghost found': seq<Visit>)
    requires IsIndex(index) && cur.definition < |index| && cur.depth < maxDepth && v < |found| && found[v] == cur
    requires IsSearch(index, entries, maxDepth, found, v) && AreSeen(index, seen, found)
    ensures IsSearch(index, entries, maxDepth, found', v + 1) && AreSeen(index, seen', found')
    ensures HasGrown(seen, queue, found, seen', queue', found') && seen' <= seen + Ids(index)
    ensures AreEdges(index, cur.definition, |index[cur.definition].calls|, edges, unresolved)
  {
    hide AreSeen, Ids;
    seen', queue', edges, unresolved, found' := seen, queue, [], {}, found;
    for k := 0 to |index[cur.definition].calls|
      invariant IsSearch(index, entries, maxDepth, found', v) && AreSeen(index, seen', found')
      invariant AreFollowed(index, cur, k, found')
      invariant HasGrown(seen, queue, found, seen', queue', found') && seen' <= seen + Ids(index)
      invariant AreEdges(index, cur.definition, k, edges, unresolved)
    {
      ghost var seen0, queue0, found0 := seen', queue', found';
      seen', queue', found' := FollowCall(index, seen', queue', cur, k, found', v, entries, maxDepth);
      GrownTwice(seen, queue, found, seen0, queue0, found0, seen', queue', found');
      edges, unresolved := AddCall(index, cur.definition, k, edges, unresolved);
    }
    OneMoreVisited(index, entries, maxDepth, found', v);
  }

  method AddCall(index: seq<Definition>, a: nat, k: nat, edges: seq<(nat, nat)>, unresolved: set<Call>)
    returns (edges': seq<(nat, nat)>, unresolved': set<Call>)
    requires a < |index| && k < |index[a].calls| && AreEdges(index, a, k, edges, unresolved)
    ensures AreEdges(index, a, k + 1, edges', unresolved')
  {
    hide Target;
    edges', unresolved' := edges, unresolved;
    var target := Target(index, a, index[a].calls[k]);
    if target.Some? {
      TargetMeans(index, a, index[a].calls[k], target.value);
      assert IsStep(index, a, target.value);
      edges' := edges + [(a, target.value)];
    } else {
      unresolved' := unresolved + {Call(a, index[a].calls[k])};
    }
    assert index[a].calls[..k + 1] == index[a].calls[..k] + [index[a].calls[k]];
  }

  function Ids(index: seq<Definition>): set<string> { set d | 0 <= d < |index| :: Id(index[d]) }

  lemma NextIsAway(index: seq<Definition>, entries: seq<string>, cur: Visit, d: nat, found: seq<Visit>, maxDepth: nat,
                   v: nat)
    requires IsSearch(index, entries, maxDepth, found, v) && v < |found| && found[v] == cur
             && IsStep(index, cur.definition, d)
    ensures IsAway(index, entries, d, cur.depth + 1)
    ensures forall i :: 0 <= i < |found| ==> found[i].depth <= cur.depth + 1
    ensures forall j :: v <= j < |found| ==> cur.depth + 1 <= found[j].depth + 1
  {
    assert IsAway(index, entries, cur.definition, cur.depth);
  }

  lemma KeepFollowed(index: seq<Definition>, cur: Visit, k: nat, before: seq<Visit>, after: seq<Visit>)
    requires cur.definition < |index| && k < |index[cur.definition].calls| && before <= after
             && AreFollowed(index, cur, k, before)
    requires Target(index, cur.definition, index[cur.definition].calls[k]).Some? ==>
               IsWithin(after, Target(index, cur.definition, index[cur.definition].calls[k]).value, cur.depth + 1)
    ensures AreFollowed(index, cur, k + 1, after)
  {
    assert after == before + after[|before|..];
    forall j | 0 <= j < k && Target(index, cur.definition, index[cur.definition].calls[j]).Some?
      ensures IsWithin(after, Target(index, cur.definition, index[cur.definition].calls[j]).value, cur.depth + 1)
    {
      WithinMore(before, after[|before|..], Target(index, cur.definition, index[cur.definition].calls[j]).value,
                 cur.depth + 1);
    }
  }

  /** A definition whose calls have all been followed, or that is too deep, is done. */
  lemma OneMoreVisited(index: seq<Definition>, entries: seq<string>, maxDepth: nat, found: seq<Visit>, v: nat)
    requires IsSearch(index, entries, maxDepth, found, v) && v < |found|
    requires found[v].depth < maxDepth ==> AreFollowed(index, found[v], |index[found[v].definition].calls|, found)
    ensures IsSearch(index, entries, maxDepth, found, v + 1)
  {
    hide IsAway;
  }

  // ---------------------------------------------------------------- discovery

  /** What the first n entry points resolve to, in order, and those that do not resolve. */
  function ResolvedEntries(index: seq<Definition>, entries: seq<string>, n: nat): seq<nat>
    requires n <= |entries|
  {
    if n == 0 then []
    else
      match ResolveEntry(index, entries[n - 1])
      case Some(d) => ResolvedEntries(index, entries, n - 1) + [d]
      case None => ResolvedEntries(index, entries, n - 1)
  }

  function UnresolvedEntries(index: seq<Definition>, entries: seq<string>, n: nat): seq<string>
    requires n <= |entries|
  {
    if n == 0 then []
    else if ResolveEntry(index, entries[n - 1]).Some? then UnresolvedEntries(index, entries, n - 1)
    else UnresolvedEntries(index, entries, n - 1) + [entries[n - 1]]
  }

  /** The entry points among the first n that resolve, and those that do not. */
  ghost predicate AreEntryPoints(index: seq<Definition>, entries: seq<string>, n: nat, entryPoints: seq<nat>,
                                 unresolved: seq<string>)
    requires n <= |entries|
  {
    && (unresolved == [] <==> forall k :: 0 <= k < n ==> ResolveEntry(index, entries[k]).Some?)
    && entryPoints == ResolvedEntries(index, entries, n) && unresolved == UnresolvedEntries(index, entries, n)
    && (forall d :: d in entryPoints ==> IsEntryOf(index, entries, d))
    && (forall k :: 0 <= k < n && ResolveEntry(index, entries[k]).Some? ==>
          ResolveEntry(index, entries[k]).value in entryPoints)
  }

  ghost predicate IsEntered(index: seq<Definition>, entries: seq<string>, maxDepth: nat, n: nat, seen: set<string>,
                            queue: seq<Visit>)
    requires n <= |entries|
  {
    && IsSearch(index, entries, maxDepth, queue, 0) && AreSeen(index, seen, queue)
    && HasEntries(index, entries, n, queue)
    && (forall i :: 0 <= i < |queue| ==> queue[i].depth == 0) && seen <= Ids(index)
  }

  method EnterOne(index: seq<Definition>, entries: seq<string>, ghost maxDepth: nat, n: nat, d: nat, seen: set<string>,
                  queue: seq<Visit>)
    returns (seen': set<string>, queue': seq<Visit>)
    requires IsIndex(index) && n < |entries| && ResolveEntry(index, entries[n]) == Some(d) && d < |index|
    requires IsEntered(index, entries, maxDepth, n, seen, queue)
    ensures IsEntered(index, entries, maxDepth, n + 1, seen', queue')
  {
    hide IsSearch;
    assert IsAway(index, entries, d, 0);
    EntryIsSingle(index, entries[n], d);
    ghost var found;
    seen', queue', found := Reach(index, seen, queue, Visit(d, 0), queue, entries, maxDepth, 0);
    assert found == queue';
    KeepEntries(index, entries, n, queue, queue');
  }

  method Enter(index: seq<Definition>, entries: seq<string>, ghost maxDepth: nat)
    returns (seen: set<string>, queue: seq<Visit>, entryPoints: seq<nat>, unresolved: seq<string>)
    requires IsIndex(index)
    ensures IsEntered(index, entries, maxDepth, |entries|, seen, queue)
    ensures AreEntryPoints(index, entries, |entries|, entryPoints, unresolved)
  {
    hide ResolveEntry;
    seen, queue, entryPoints, unresolved := {}, [], [], [];
    for n := 0 to |entries|
      invariant IsEntered(index, entries, maxDepth, n, seen, queue)
      invariant AreEntryPoints(index, entries, n, entryPoints, unresolved)
    {
      var d := ResolveEntry(index, entries[n]);
      if d.Some? {
        EntryIsUnique(index, entries[n], d.value);
        seen, queue := EnterOne(index, entries, maxDepth, n, d.value, seen, queue);
      }
      entryPoints, unresolved := NoteEntry(index, entries, n, entryPoints, unresolved);
    }
  }

  method NoteEntry(index: seq<Definition>, entries: seq<string>, n: nat, entryPoints: seq<nat>, unresolved: seq<string>)
    returns (entryPoints': seq<nat>, unresolved': seq<string>)
    requires n < |entries| && AreEntryPoints(index, entries, n, entryPoints, unresolved)
    ensures AreEntryPoints(index, entries, n + 1, entryPoints', unresolved')
  {
    var d := ResolveEntry(index, entries[n]);
    if d.Some? {
      entryPoints', unresolved' := entryPoints + [d.value], unresolved;
    } else {
      entryPoints', unresolved' := entryPoints, unresolved + [entries[n]];
    }
  }

  lemma KeepEntries(index: seq<Definition>, entries: seq<string>, n: nat, before: seq<Visit>, after: seq<Visit>)
    requires n < |entries| && HasEntries(index, entries, n, before) && before <= after
    requires ResolveEntry(index, entries[n]).Some? ==> IsWithin(after, ResolveEntry(index, entries[n]).value, 0)
    ensures HasEntries(index, entries, n + 1, after)
  {
    assert after == before + after[|before|..];
    forall k | 0 <= k < n && ResolveEntry(index, entries[k]).Some?
      ensures IsWithin(after, ResolveEntry(index, entries[k]).value, 0)
    {
      WithinMore(before, after[|before|..], ResolveEntry(index, entries[k]).value, 0);
    }
  }

  /** The edges and unresolved calls of the visited definitions that were expanded. */
  ghost predicate AreAllEdges(index: seq<Definition>, maxDepth: nat, nodes: seq<Visit>, edges: seq<(nat, nat)>,
                              unresolved: set<Call>) {
    && (forall a: nat, b: nat :: (a, b) in edges <==> IsExpanded(maxDepth, nodes, a) && IsStep(index, a, b))
    && (forall c :: c in unresolved <==> IsExpanded(maxDepth, nodes, c.caller) && IsMissing(index, c.caller, c.name))
  }

  ghost predicate IsExpanded(maxDepth: nat, nodes: seq<Visit>, a: nat) {
    exists i :: 0 <= i < |nodes| && nodes[i].definition == a && nodes[i].depth < maxDepth
  }

  /** Visit until the queue is empty. */
  method Explore(index: seq<Definition>, entries: seq<string>, maxDepth: nat, seen0: set<string>, queue0: seq<Visit>)
    returns (nodes: seq<Visit>, edges: seq<(nat, nat)>, unresolved: set<Call>)
    requires IsIndex(index) && IsEntered(index, entries, maxDepth, |entries|, seen0, queue0)
    ensures IsSearch(index, entries, maxDepth, nodes, |nodes|) && HasEntries(index, entries, |entries|, nodes)
    ensures AreAllEdges(index, maxDepth, nodes, edges, unresolved)
  {
    hide IsSearch;
    var seen, queue := seen0, queue0;
    nodes, edges, unresolved := [], [], {};
    ghost var found := queue;
    while queue != []
      invariant found == nodes + queue && IsSearch(index, entries, maxDepth, found, |nodes|)
                && AreSeen(index, seen, found)
      invariant HasEntries(index, entries, |entries|, found)
      invariant AreAllEdges(index, maxDepth, nodes, edges, unresolved)
      invariant seen <= Ids(index)
      decreases Ids(index) - seen, |queue|
    {
      if queue[0].depth >= maxDepth {
        PassBy(index, entries, maxDepth, nodes, queue, edges, unresolved, found);
        nodes, queue := nodes + [queue[0]], queue[1..];
      } else {
        nodes, queue, seen, edges, unresolved,
            found := Turn(index, entries, maxDepth, nodes, queue, seen, edges, unresolved, found);
      }
    }
    assert found == nodes;
  }

  lemma AllAreFound(index: seq<Definition>, entries: seq<string>, maxDepth: nat, nodes: seq<Visit>)
    requires IsSearch(index, entries, maxDepth, nodes, |nodes|) && HasEntries(index, entries, |entries|, nodes)
    ensures IsDiscovered(index, entries, maxDepth, nodes)
  {
    forall d: nat, n: nat | n <= maxDepth && IsAway(index, entries, d, n)
      ensures IsWithin(nodes, d, n)
    {
      FoundWithin(index, entries, maxDepth, nodes, d, n);
    }
  }

  lemma NoneMissing(index: seq<Definition>, maxDepth: nat, nodes: seq<Visit>, edges: seq<(nat, nat)>,
                    unresolved: set<Call>)
    requires AreAllEdges(index, maxDepth, nodes, edges, unresolved)
    ensures unresolved == {}
            <==> forall a: nat, call :: IsExpanded(maxDepth, nodes, a) ==> !IsMissing(index, a, call)
  {
    hide IsExpanded, IsMissing, IsStep;
    forall a: nat, call | IsExpanded(maxDepth, nodes, a)
      ensures Call(a, call) in unresolved <==> IsMissing(index, a, call)
    {
      assert Call(a, call).caller == a && Call(a, call).name == call;
    }
    if unresolved != {} {
      var c :| c in unresolved;
      assert IsExpanded(maxDepth, nodes, c.caller) && IsMissing(index, c.caller, c.name);
    }
  }

  /** Discover the call graph reached from entry points. */
  method Discover(index: seq<Definition>, entries: seq<string>, maxDepth: nat) returns (graph: Graph)
    requires IsIndex(index)
    ensures IsDiscovered(index, entries, maxDepth, graph.nodes)
    ensures AreAllEdges(index, maxDepth, graph.nodes, graph.edges, graph.unresolvedCalls)
    ensures AreEntryPoints(index, entries, |entries|, graph.entryPoints, graph.unresolvedEntries)
    ensures graph.status == Unresolved <==> exists k :: 0 <= k < |entries| && ResolveEntry(index, entries[k]).None?
    ensures graph.status == Resolved
            <==> && (forall k :: 0 <= k < |entries| ==> ResolveEntry(index, entries[k]).Some?)
                 && (forall a: nat, call :: IsExpanded(maxDepth, graph.nodes, a) ==> !IsMissing(index, a, call))
    ensures graph.files == set i | 0 <= i < |graph.nodes| :: index[graph.nodes[i].definition].path
  {
    hide IsSearch, HasEntries, IsEntered, IsDiscovered, ResolveEntry, IsExpanded, IsMissing, IsStep, IsEntryOf;
    var seen, queue, entryPoints, unresolvedEntries := Enter(index, entries, maxDepth);
    var nodes, edges, unresolved := Explore(index, entries, maxDepth, seen, queue);
    AllAreFound(index, entries, maxDepth, nodes);
    NoneMissing(index, maxDepth, nodes, edges, unresolved);
    var files := set i | 0 <= i < |nodes| :: index[nodes[i].definition].path;
    var status := if unresolvedEntries != [] then Unresolved else if unresolved != {} then Partial else Resolved;
    graph := Graph(entryPoints, nodes, edges, unresolvedEntries, unresolved, files, status);
  }

  /** A definition at the greatest depth is visited and not expanded. */
  lemma PassBy(index: seq<Definition>, entries: seq<string>, maxDepth: nat, nodes: seq<Visit>, queue: seq<Visit>,
               edges: seq<(nat, nat)>, unresolved: set<Call>, found: seq<Visit>)
    requires queue != [] && found == nodes + queue && queue[0].depth >= maxDepth
    requires IsSearch(index, entries, maxDepth, found, |nodes|)
             && AreAllEdges(index, maxDepth, nodes, edges, unresolved)
    ensures found == nodes + [queue[0]] + queue[1..] && IsSearch(index, entries, maxDepth, found, |nodes| + 1)
    ensures AreAllEdges(index, maxDepth, nodes + [queue[0]], edges, unresolved)
  {
    HeadSplits(nodes, queue);
    assert found[|nodes|] == queue[0];
    OneMoreVisited(index, entries, maxDepth, found, |nodes|);
    NoMoreEdges(index, maxDepth, nodes, edges, unresolved, queue[0]);
  }

  /** Visit and expand the definition at the front of the queue. */
  method Turn(index: seq<Definition>, entries: seq<string>, maxDepth: nat, nodes: seq<Visit>, queue: seq<Visit>,
              seen: set<string>, edges: seq<(nat, nat)>, unresolved: set<Call>, ghost found: seq<Visit>)
    returns (nodes': seq<Visit>, queue': seq<Visit>, seen': set<string>, edges': seq<(nat, nat)>,
             unresolved': set<Call>, ghost found': seq<Visit>)
    requires IsIndex(index) && queue != [] && seen <= Ids(index) && found == nodes + queue
             && queue[0].depth < maxDepth
    requires IsSearch(index, entries, maxDepth, found, |nodes|) && AreSeen(index, seen, found)
    requires HasEntries(index, entries, |entries|, found) && AreAllEdges(index, maxDepth, nodes, edges, unresolved)
    ensures nodes' == nodes + [queue[0]] && seen' <= Ids(index) && found' == nodes' + queue'
    ensures IsSearch(index, entries, maxDepth, found', |nodes'|) && AreSeen(index, seen', found')
    ensures HasEntries(index, entries, |entries|, found') && AreAllEdges(index, maxDepth, nodes', edges', unresolved')
    ensures seen' > seen || (seen' == seen && queue' == queue[1..])
  {
    hide AreSeen, IsSearch, HasEntries, AreAllEdges, AreEdges, IsAway;
    var cur := queue[0];
    FoundIsIn(index, entries, maxDepth, found, |nodes|, |nodes|);
    assert found[|nodes|] == cur;
    var more, missing;
    seen', queue', more, missing, found' := Expand(index, seen, queue[1..], cur, found, |nodes|, entries, maxDepth);
    GrownSplits(nodes, queue, found, queue', found');
    EntriesStay(index, entries, found, found');
    MoreEdges(index, maxDepth, nodes, edges, unresolved, cur, more, missing);
    nodes', edges', unresolved' := nodes + [cur], edges + more, unresolved + missing;
  }

  lemma FoundIsIn(index: seq<Definition>, entries: seq<string>, maxDepth: nat, found: seq<Visit>, visited: nat, i: nat)
    requires IsSearch(index, entries, maxDepth, found, visited) && i < |found|
    ensures found[i].definition < |index|
  {
    hide IsAway;
  }

  lemma HeadSplits(nodes: seq<Visit>, queue: seq<Visit>)
    requires queue != []
    ensures nodes + queue == nodes + [queue[0]] + queue[1..]
  {
  }

  lemma GrownSplits(nodes: seq<Visit>, queue: seq<Visit>, found: seq<Visit>, queue': seq<Visit>, found': seq<Visit>)
    requires queue != [] && found == nodes + queue && found <= found' && queue' == queue[1..] + found'[|found|..]
    ensures found' == nodes + [queue[0]] + queue'
  {
    assert found' == found + found'[|found|..];
    assert queue == [queue[0]] + queue[1..];
  }

  lemma EntriesStay(index: seq<Definition>, entries: seq<string>, before: seq<Visit>, after: seq<Visit>)
    requires HasEntries(index, entries, |entries|, before) && before <= after
    ensures HasEntries(index, entries, |entries|, after)
  {
    assert after == before + after[|before|..];
    forall k | 0 <= k < |entries| && ResolveEntry(index, entries[k]).Some?
      ensures IsWithin(after, ResolveEntry(index, entries[k]).value, 0)
    {
      WithinMore(before, after[|before|..], ResolveEntry(index, entries[k]).value, 0);
    }
  }

  lemma NoMoreEdges(index: seq<Definition>, maxDepth: nat, nodes: seq<Visit>, edges: seq<(nat, nat)>,
                    unresolved: set<Call>, cur: Visit)
    requires AreAllEdges(index, maxDepth, nodes, edges, unresolved) && cur.depth >= maxDepth
    ensures AreAllEdges(index, maxDepth, nodes + [cur], edges, unresolved)
  {
    forall a: nat
      ensures IsExpanded(maxDepth, nodes + [cur], a) <==> IsExpanded(maxDepth, nodes, a)
    {
      ExpandedMore(maxDepth, nodes, cur, a);
    }
  }

  lemma ExpandedMore(maxDepth: nat, nodes: seq<Visit>, cur: Visit, a: nat)
    ensures IsExpanded(maxDepth, nodes + [cur], a)
            <==> IsExpanded(maxDepth, nodes, a) || (cur.definition == a && cur.depth < maxDepth)
  {
    var more := nodes + [cur];
    if IsExpanded(maxDepth, nodes, a) {
      var i :| 0 <= i < |nodes| && nodes[i].definition == a && nodes[i].depth < maxDepth;
      assert more[i] == nodes[i];
    }
    if IsExpanded(maxDepth, more, a) {
      var i :| 0 <= i < |more| && more[i].definition == a && more[i].depth < maxDepth;
      assert i < |nodes| ==> nodes[i] == more[i];
    }
    assert more[|nodes|] == cur;
  }

  lemma MoreEdges(index: seq<Definition>, maxDepth: nat, nodes: seq<Visit>, edges: seq<(nat, nat)>,
                  unresolved: set<Call>, cur: Visit, more: seq<(nat, nat)>, missing: set<Call>)
    requires AreAllEdges(index, maxDepth, nodes, edges, unresolved) && cur.depth < maxDepth && cur.definition < |index|
    requires AreEdges(index, cur.definition, |index[cur.definition].calls|, more, missing)
    ensures AreAllEdges(index, maxDepth, nodes + [cur], edges + more, unresolved + missing)
  {
    forall a: nat
      ensures IsExpanded(maxDepth, nodes + [cur], a) <==> IsExpanded(maxDepth, nodes, a) || cur.definition == a
    {
      ExpandedMore(maxDepth, nodes, cur, a);
    }
    forall a: nat, b: nat
      ensures (a, b) in more <==> a == cur.definition && IsStep(index, a, b)
    {
    }
    assert index[cur.definition].calls[..|index[cur.definition].calls|] == index[cur.definition].calls;
  }
}
