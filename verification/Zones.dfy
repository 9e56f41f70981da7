// src/governance/zones.rs: the limits on the lines of a file, and the search for marker tags in a
// file that is read in pieces.
module Zones {

  datatype Option<+T> = None | Some(value: T)

  // ---------------------------------------------------------------- limits

  /** From strictest to broadest. */
  datatype Ceiling = Observe | Assisted | Delegated | Autonomous

  /** From lowest to highest. */
  datatype Criticality = Routine | Sensitive | Critical | Restricted

  function Room(ceiling: Ceiling): nat {
    match ceiling
    case Observe => 0
    case Assisted => 1
    case Delegated => 2
    case Autonomous => 3
  }

  function Weight(criticality: Criticality): nat {
    match criticality
    case Routine => 0
    case Sensitive => 1
    case Critical => 2
    case Restricted => 3
  }

  datatype Scope = Scope(startLine: nat, endLine: nat, ceiling: Ceiling, criticality: Criticality,
                         entities: set<string>)

  /** The limits of a file as a whole and of parts of it; entity names are kept as a set, their order
      is not modelled. */
  datatype Limit = Limit(ceiling: Ceiling, criticality: Criticality, entities: set<string>, scopes: seq<Scope>)

  predicate Meets(scope: Scope, range: (nat, nat)) { range.0 <= scope.endLine && range.1 >= scope.startLine }

  predicate IsTouched(scope: Scope, changed: seq<(nat, nat)>) {
    exists k :: 0 <= k < |changed| && Meets(scope, changed[k])
  }

  /** A change touches one of the first n scopes. */
  ghost predicate Applies(limit: Limit, changed: seq<(nat, nat)>, n: nat, k: int) {
    0 <= k < n && k < |limit.scopes| && IsTouched(limit.scopes[k], changed)
  }

  ghost predicate SomeApplies(limit: Limit, changed: seq<(nat, nat)>, n: nat) {
    exists k :: Applies(limit, changed, n, k)
  }

  ghost predicate AllowRoom(limit: Limit, changed: seq<(nat, nat)>, n: nat, room: nat) {
    && room <= Room(limit.ceiling)
    && forall k :: Applies(limit, changed, n, k) ==> room <= Room(limit.scopes[k].ceiling)
  }

  ghost predicate AreWithin(limit: Limit, changed: seq<(nat, nat)>, n: nat, weight: nat) {
    && Weight(limit.criticality) <= weight
    && forall k :: Applies(limit, changed, n, k) ==> Weight(limit.scopes[k].criticality) <= weight
  }

  ghost predicate NameEntity(limit: Limit, changed: seq<(nat, nat)>, n: nat, name: string) {
    name in limit.entities || exists k :: Applies(limit, changed, n, k) && name in limit.scopes[k].entities
  }

  ghost predicate RoomAgrees(limit: Limit, changed: seq<(nat, nat)>, n: nat, r: Limit, room: nat) {
    room <= Room(r.ceiling) <==> AllowRoom(limit, changed, n, room)
  }

  ghost predicate WeightAgrees(limit: Limit, changed: seq<(nat, nat)>, n: nat, r: Limit, weight: nat) {
    Weight(r.criticality) <= weight <==> AreWithin(limit, changed, n, weight)
  }

  /** r is the combination of the file's own limit and those of the first n scopes that the change
      touches: its ceiling leaves exactly the room that all of them leave, its criticality is the
      least that bounds all of theirs, and its entities are all of theirs. */
  ghost predicate IsCombination(limit: Limit, changed: seq<(nat, nat)>, n: nat, r: Limit) {
    && (forall room: nat :: RoomAgrees(limit, changed, n, r, room))
    && (forall weight: nat :: WeightAgrees(limit, changed, n, r, weight))
    && (forall name :: name in r.entities <==> NameEntity(limit, changed, n, name))
    && r.scopes == []
  }

  /** The limit that applies to changed lines, if any. */
  ghost predicate IsLimitFor(limit: Limit, changed: seq<(nat, nat)>, r: Option<Limit>) {
    && (r.None? <==> limit.entities == {} && !SomeApplies(limit, changed, |limit.scopes|))
    && (r.Some? ==> IsCombination(limit, changed, |limit.scopes|, r.value))
  }

  method ForLines(limit: Limit, changed: seq<(nat, nat)>) returns (r: Option<Limit>)
    ensures IsLimitFor(limit, changed, r)
  {
    var any := limit.entities != {};
    var result := limit.(scopes := []);
    for k := 0 to |limit.scopes|
      invariant IsCombination(limit, changed, k, result)
      invariant !any <==> limit.entities == {} && !SomeApplies(limit, changed, k)
    {
      OneMoreScope(limit, changed, k, result, k + 1);
      if IsTouched(limit.scopes[k], changed) {
        result := Tightened(result, limit.scopes[k]);
        any := true;
      }
    }
    r := if any then Some(result) else None;
  }

  function Tightened(result: Limit, scope: Scope): Limit {
    result.(ceiling := if Room(scope.ceiling) < Room(result.ceiling) then scope.ceiling else result.ceiling,
            criticality := if Weight(scope.criticality) > Weight(result.criticality) then scope.criticality
                else result.criticality,
            entities := result.entities + scope.entities)
  }

  lemma OneMoreScope(limit: Limit, changed: seq<(nat, nat)>, n: nat, r: Limit, m: nat)
    requires n < |limit.scopes| && IsCombination(limit, changed, n, r) && m == n + 1
    ensures IsCombination(limit, changed, m,
                          if IsTouched(limit.scopes[n], changed) then Tightened(r, limit.scopes[n]) else r)
    ensures SomeApplies(limit, changed, m) <==> SomeApplies(limit, changed, n) || IsTouched(limit.scopes[n], changed)
  {
    var scope := limit.scopes[n];
    var touched := IsTouched(scope, changed);
    var r' := if touched then Tightened(r, scope) else r;
    assert Applies(limit, changed, m, n) <==> touched;
    assert forall k :: Applies(limit, changed, n, k) ==> Applies(limit, changed, m, k);
    assert forall k :: Applies(limit, changed, m, k) ==> Applies(limit, changed, n, k) || k == n;
    forall room: nat
      ensures RoomAgrees(limit, changed, m, r', room)
    {
      assert RoomAgrees(limit, changed, n, r, room);
    }
    forall weight: nat
      ensures WeightAgrees(limit, changed, m, r', weight)
    {
      assert WeightAgrees(limit, changed, n, r, weight);
    }
    forall name
      ensures name in r'.entities <==> NameEntity(limit, changed, m, name)
    {
      assert name in r.entities <==> NameEntity(limit, changed, n, name);
    }
  }

  // ---------------------------------------------------------------- more changes, more scopes

  function Stricter(a: Ceiling, b: Ceiling): Ceiling { if Room(a) <= Room(b) then a else b }

  function Higher(a: Criticality, b: Criticality): Criticality { if Weight(a) >= Weight(b) then a else b }

  lemma TouchedByEither(scope: Scope, a: seq<(nat, nat)>, b: seq<(nat, nat)>)
    ensures IsTouched(scope, a + b) <==> IsTouched(scope, a) || IsTouched(scope, b)
  {
    if IsTouched(scope, a) {
      var k :| 0 <= k < |a| && Meets(scope, a[k]);
      assert (a + b)[k] == a[k];
    }
    if IsTouched(scope, b) {
      var k :| 0 <= k < |b| && Meets(scope, b[k]);
      assert (a + b)[|a| + k] == b[k];
    }
  }

  /** The limit on two changes together is the stricter ceiling, the higher criticality, and the
      entities of both. */
  lemma CombinedChanges(limit: Limit, a: seq<(nat, nat)>, b: seq<(nat, nat)>, n: nat, ra: Limit, rb: Limit)
    requires IsCombination(limit, a, n, ra) && IsCombination(limit, b, n, rb)
    ensures IsCombination(limit, a + b, n,
                          Limit(Stricter(ra.ceiling, rb.ceiling), Higher(ra.criticality, rb.criticality),
                                ra.entities + rb.entities, []))
  {
    forall k
      ensures Applies(limit, a + b, n, k) <==> Applies(limit, a, n, k) || Applies(limit, b, n, k)
    {
      if 0 <= k < |limit.scopes| { TouchedByEither(limit.scopes[k], a, b); }
    }
    var r := Limit(Stricter(ra.ceiling, rb.ceiling), Higher(ra.criticality, rb.criticality), ra.entities + rb.entities,
                   []);
    forall room: nat
      ensures RoomAgrees(limit, a + b, n, r, room)
    {
      assert RoomAgrees(limit, a, n, ra, room) && RoomAgrees(limit, b, n, rb, room);
    }
    forall weight: nat
      ensures WeightAgrees(limit, a + b, n, r, weight)
    {
      assert WeightAgrees(limit, a, n, ra, weight) && WeightAgrees(limit, b, n, rb, weight);
    }
    forall name
      ensures name in r.entities <==> NameEntity(limit, a + b, n, name)
    {
      assert name in ra.entities <==> NameEntity(limit, a, n, name);
      assert name in rb.entities <==> NameEntity(limit, b, n, name);
    }
  }

  /** A combination is determined by what it combines. */
  lemma OneCombination(limit: Limit, changed: seq<(nat, nat)>, n: nat, r: Limit, r': Limit)
    requires IsCombination(limit, changed, n, r) && IsCombination(limit, changed, n, r')
    ensures r == r'
  {
    assert RoomAgrees(limit, changed, n, r, Room(r.ceiling)) && RoomAgrees(limit, changed, n, r', Room(r.ceiling));
    assert RoomAgrees(limit, changed, n, r, Room(r'.ceiling)) && RoomAgrees(limit, changed, n, r', Room(r'.ceiling));
    assert WeightAgrees(limit, changed, n, r, Weight(r.criticality))
           && WeightAgrees(limit, changed, n, r', Weight(r.criticality));
    assert WeightAgrees(limit, changed, n, r, Weight(r'.criticality))
           && WeightAgrees(limit, changed, n, r', Weight(r'.criticality));
    assert r.entities == r'.entities;
  }

  function JoinLimits(a: Option<Limit>, b: Option<Limit>): Option<Limit> {
    match (a, b)
    case (None, _) => b
    case (_, None) => a
    case (Some(x), Some(y)) =>
      Some(Limit(Stricter(x.ceiling, y.ceiling), Higher(x.criticality, y.criticality), x.entities + y.entities, []))
  }

  /** The limit on two changes together. */
  lemma ForLinesJoins(limit: Limit, a: seq<(nat, nat)>, b: seq<(nat, nat)>, ra: Option<Limit>, rb: Option<Limit>,
                      r: Option<Limit>)
    requires IsLimitFor(limit, a, ra) && IsLimitFor(limit, b, rb) && IsLimitFor(limit, a + b, r)
    ensures r == JoinLimits(ra, rb)
  {
    var n := |limit.scopes|;
    EitherApplies(limit, a, b, n);
    if r.Some? {
      var own := limit.(scopes := []);
      if ra.None? { OwnIsCombination(limit, a, n); }
      if rb.None? { OwnIsCombination(limit, b, n); }
      var xa, xb := if ra.Some? then ra.value else own, if rb.Some? then rb.value else own;
      CombinedChanges(limit, a, b, n, xa, xb);
      OneCombination(limit, a + b, n, r.value,
                     Limit(Stricter(xa.ceiling, xb.ceiling), Higher(xa.criticality, xb.criticality),
                           xa.entities + xb.entities, []));
      NoBroaderThanOwn(limit, a, n, xa);
      NoBroaderThanOwn(limit, b, n, xb);
      if ra.None? { assert xa.entities + xb.entities == xb.entities; }
      if rb.None? { assert xa.entities + xb.entities == xa.entities; }
    }
  }

  lemma EitherApplies(limit: Limit, a: seq<(nat, nat)>, b: seq<(nat, nat)>, n: nat)
    ensures SomeApplies(limit, a + b, n) <==> SomeApplies(limit, a, n) || SomeApplies(limit, b, n)
  {
    forall k
      ensures Applies(limit, a + b, n, k) <==> Applies(limit, a, n, k) || Applies(limit, b, n, k)
    {
      if 0 <= k < |limit.scopes| { TouchedByEither(limit.scopes[k], a, b); }
    }
  }

  lemma OwnIsCombination(limit: Limit, changed: seq<(nat, nat)>, n: nat)
    requires !SomeApplies(limit, changed, n)
    ensures IsCombination(limit, changed, n, limit.(scopes := []))
  {
    assert forall k :: !Applies(limit, changed, n, k);
  }

  lemma NoBroaderThanOwn(limit: Limit, changed: seq<(nat, nat)>, n: nat, r: Limit)
    requires IsCombination(limit, changed, n, r)
    ensures Room(r.ceiling) <= Room(limit.ceiling) && Weight(r.criticality) >= Weight(limit.criticality)
            && limit.entities <= r.entities
  {
    assert RoomAgrees(limit, changed, n, r, Room(r.ceiling));
    assert WeightAgrees(limit, changed, n, r, Weight(r.criticality));
    assert forall name :: name in limit.entities ==> NameEntity(limit, changed, n, name);
  }

  /** A limit that leaves no more than another. */
  predicate IsNoBroader(r: Option<Limit>, than: Option<Limit>) {
    than.Some? ==>
      && r.Some? && Room(r.value.ceiling) <= Room(than.value.ceiling)
      && Weight(r.value.criticality) >= Weight(than.value.criticality) && than.value.entities <= r.value.entities
  }

  /** Changing more lines never broadens the limit. */
  lemma MoreChangesAreNoBroader(limit: Limit, a: seq<(nat, nat)>, b: seq<(nat, nat)>, ra: Option<Limit>,
                                r: Option<Limit>)
    requires IsLimitFor(limit, a, ra) && IsLimitFor(limit, a + b, r)
    ensures IsNoBroader(r, ra)
  {
    EitherApplies(limit, a, b, |limit.scopes|);
    if SomeApplies(limit, b, |limit.scopes|) || limit.entities != {} {
      var rb := CombinationExists(limit, b, |limit.scopes|);
      ForLinesJoins(limit, a, b, ra, Some(rb), r);
    } else {
      ForLinesJoins(limit, a, b, ra, None, r);
    }
  }

  lemma {:induction false} CombinationExists(limit: Limit, changed: seq<(nat, nat)>, n: nat) returns (r: Limit)
    requires n <= |limit.scopes|
    ensures IsCombination(limit, changed, n, r)
    decreases n
  {
    if n == 0 {
      OwnIsCombination(limit, changed, 0);
      r := limit.(scopes := []);
    } else {
      r := CombinationExists(limit, changed, n - 1);
      OneMoreScope(limit, changed, n - 1, r, n);
      r := if IsTouched(limit.scopes[n - 1], changed) then Tightened(r, limit.scopes[n - 1]) else r;
    }
  }

  /** Putting one more scope on a file never broadens the limit on any change. */
  lemma MoreScopesAreNoBroader(limit: Limit, scope: Scope, changed: seq<(nat, nat)>, r: Option<Limit>,
                               r': Option<Limit>)
    requires IsLimitFor(limit, changed, r) && IsLimitFor(limit.(scopes := limit.scopes + [scope]), changed, r')
    ensures IsNoBroader(r', r)
  {
    var more, n := limit.(scopes := limit.scopes + [scope]), |limit.scopes|;
    SameFirstScopes(limit, more, changed, n);
    if r.Some? {
      OneMoreScope(more, changed, n, r.value, n + 1);
      assert r'.Some?;
      OneCombination(more, changed, n + 1, r'.value, if IsTouched(scope, changed) then Tightened(r.value, scope)
                     else r.value);
    }
  }

  lemma SameFirstScopes(limit: Limit, more: Limit, changed: seq<(nat, nat)>, n: nat)
    requires n == |limit.scopes| < |more.scopes| && more.scopes[..n] == limit.scopes
             && more == limit.(scopes := more.scopes)
    ensures forall k :: Applies(more, changed, n, k) <==> Applies(limit, changed, n, k)
    ensures forall r :: IsCombination(limit, changed, n, r) ==> IsCombination(more, changed, n, r)
    ensures SomeApplies(limit, changed, n) ==> SomeApplies(more, changed, |more.scopes|)
  {
    forall k
      ensures Applies(more, changed, n, k) <==> Applies(limit, changed, n, k)
      ensures Applies(limit, changed, n, k) ==>
                more.scopes[k] == limit.scopes[k] && Applies(more, changed, |more.scopes|, k)
    {
      if 0 <= k < n { assert more.scopes[k] == more.scopes[..n][k]; }
    }
    forall r | IsCombination(limit, changed, n, r)
      ensures IsCombination(more, changed, n, r)
    {
      forall room: nat
        ensures RoomAgrees(more, changed, n, r, room)
      {
        assert RoomAgrees(limit, changed, n, r, room);
      }
      forall weight: nat
        ensures WeightAgrees(more, changed, n, r, weight)
      {
        assert WeightAgrees(limit, changed, n, r, weight);
      }
      forall name
        ensures name in r.entities <==> NameEntity(more, changed, n, name)
      {
        assert name in r.entities <==> NameEntity(limit, changed, n, name);
      }
    }
  }

  // ---------------------------------------------------------------- putting limits together

  datatype Lifecycle = Proposed | Active | Deprecated

  datatype Entity = Entity(name: string, status: Lifecycle, ceiling: Ceiling, criticality: Criticality,
                           files: seq<string>)

  const OPEN_LIMIT := Limit(Autonomous, Routine, {}, [])

  function Add(limit: Option<Limit>, entity: Entity): Limit {
    var entry := if limit.Some? then limit.value else OPEN_LIMIT;
    entry.(ceiling := Stricter(entry.ceiling, entity.ceiling),
           criticality := Higher(entry.criticality, entity.criticality), entities := entry.entities + {entity.name})
  }

  /** The limit of a file after the first n entities. */
  function LimitAfter(entities: seq<Entity>, n: nat, file: string): Option<Limit>
    requires n <= |entities|
  {
    if n == 0 then None
    else
      var before := LimitAfter(entities, n - 1, file);
      if entities[n - 1].status.Active? && file in entities[n - 1].files then Some(Add(before, entities[n - 1]))
          else before
  }

  ghost predicate Holds(limits: map<string, Limit>, file: string, limit: Option<Limit>) {
    (file in limits <==> limit.Some?) && (limit.Some? ==> limits[file] == limit.value)
  }

  /** The limits of every file: only active entities count. */
  method EntityLimits(entities: seq<Entity>) returns (limits: map<string, Limit>)
    ensures forall file :: Holds(limits, file, LimitAfter(entities, |entities|, file))
  {
    limits := map[];
    for n := 0 to |entities|
      invariant forall file :: Holds(limits, file, LimitAfter(entities, n, file))
    {
      if entities[n].status.Active? {
        var files := entities[n].files;
        for k := 0 to |files|
          invariant forall file ::
              Holds(limits, file, if file in files[..k] then Some(Add(LimitAfter(entities, n, file), entities[n]))
                    else LimitAfter(entities, n, file))
        {
          var entry := if files[k] in limits then Some(limits[files[k]]) else None;
          limits := limits[files[k] := Add(entry, entities[n])];
          assert files[..k + 1] == files[..k] + [files[k]];
        }
        assert files[..|files|] == files;
      }
    }
  }

  ghost predicate Covers(entities: seq<Entity>, n: nat, k: int, file: string)
    requires n <= |entities|
  {
    0 <= k < n && entities[k].status.Active? && file in entities[k].files
  }

  predicate IsBoundedBy(limit: Option<Limit>, entity: Entity) {
    && limit.Some? && Room(limit.value.ceiling) <= Room(entity.ceiling)
    && Weight(limit.value.criticality) >= Weight(entity.criticality) && entity.name in limit.value.entities
  }

  /** The limit of a file leaves no more than any active entity that covers it. */
  lemma {:induction false} LimitIsStrict(entities: seq<Entity>, n: nat, file: string)
    requires n <= |entities|
    ensures LimitAfter(entities, n, file).Some? <==> exists k :: Covers(entities, n, k, file)
    ensures forall k :: Covers(entities, n, k, file) ==> IsBoundedBy(LimitAfter(entities, n, file), entities[k])
    decreases n
  {
    if n > 0 {
      LimitIsStrict(entities, n - 1, file);
      assert forall k :: Covers(entities, n - 1, k, file) ==> Covers(entities, n, k, file);
      assert forall k :: Covers(entities, n, k, file) ==> Covers(entities, n - 1, k, file) || k == n - 1;
      if entities[n - 1].status.Active? && file in entities[n - 1].files {
        assert Covers(entities, n, n - 1, file);
      } else if LimitAfter(entities, n, file).Some? {
        var k :| Covers(entities, n - 1, k, file);
        assert Covers(entities, n, k, file);
      }
    }
  }

  /** What an entity gives to a limit. */
  ghost predicate Gives(entities: seq<Entity>, n: nat, k: int, file: string, ceiling: Option<Ceiling>,
                        criticality: Option<Criticality>, name: Option<string>)
    requires n <= |entities|
  {
    && Covers(entities, n, k, file)
    && (ceiling.Some? ==> entities[k].ceiling == ceiling.value)
    && (criticality.Some? ==> entities[k].criticality == criticality.value)
    && (name.Some? ==> entities[k].name == name.value)
  }

  ghost predicate IsGiven(entities: seq<Entity>, n: nat, file: string, ceiling: Option<Ceiling>,
                          criticality: Option<Criticality>, name: Option<string>)
    requires n <= |entities|
  {
    exists k :: Gives(entities, n, k, file, ceiling, criticality, name)
  }

  lemma GivenLater(entities: seq<Entity>, n: nat, file: string, ceiling: Option<Ceiling>,
                   criticality: Option<Criticality>, name: Option<string>)
    requires 0 < n <= |entities| && IsGiven(entities, n - 1, file, ceiling, criticality, name)
    ensures IsGiven(entities, n, file, ceiling, criticality, name)
  {
    var k :| Gives(entities, n - 1, k, file, ceiling, criticality, name);
    assert Gives(entities, n, k, file, ceiling, criticality, name);
  }

  /** And it leaves no less than they do: its ceiling and its criticality are those of some of them,
      or the open ones, and so are its entity names. */
  lemma {:induction false} LimitIsTight(entities: seq<Entity>, n: nat, file: string)
    requires n <= |entities| && LimitAfter(entities, n, file).Some?
    ensures var limit := LimitAfter(entities, n, file).value;
            && (limit.ceiling == Autonomous || IsGiven(entities, n, file, Some(limit.ceiling), None, None))
            && (limit.criticality == Routine || IsGiven(entities, n, file, None, Some(limit.criticality), None))
            && forall name :: name in limit.entities ==> IsGiven(entities, n, file, None, None, Some(name))
    decreases n
  {
    var limit, before, last := LimitAfter(entities, n, file).value, LimitAfter(entities, n - 1, file), entities[n - 1];
    if before.Some? {
      LimitIsTight(entities, n - 1, file);
      if IsGiven(entities, n - 1, file, Some(limit.ceiling), None,
                 None) { GivenLater(entities, n, file, Some(limit.ceiling), None, None); }
      if IsGiven(entities, n - 1, file, None, Some(limit.criticality),
                 None) { GivenLater(entities, n, file, None, Some(limit.criticality), None); }
    }
    if last.status.Active? && file in last.files {
      assert Gives(entities, n, n - 1, file, Some(last.ceiling), None, None);
      assert Gives(entities, n, n - 1, file, None, Some(last.criticality), None);
    }
    forall name | name in limit.entities
      ensures IsGiven(entities, n, file, None, None, Some(name))
    {
      if before.Some? && name in before.value.entities {
        GivenLater(entities, n, file, None, None, Some(name));
      } else {
        assert Gives(entities, n, n - 1, file, None, None, Some(name));
      }
    }
  }

  // ---------------------------------------------------------------- the scopes that markers give

  /** The lines between two zone or flow markers of a file. */
  datatype SourceScope = SourceScope(path: string, scope: Scope)

  /** The scopes of a file among the first n. */
  function ScopesOf(scopes: seq<SourceScope>, n: nat, file: string): seq<Scope>
    requires n <= |scopes|
  {
    if n == 0 then [] else ScopesOf(scopes, n - 1, file) + if scopes[n - 1].path == file then [scopes[n - 1].scope]
        else []
  }

  function LimitIn(limits: map<string, Limit>, file: string): Option<Limit> {
    if file in limits then Some(limits[file]) else None
  }

  /** A limit with more scopes; a file that had no limit is open but for them. */
  function WithScopes(limit: Option<Limit>, scopes: seq<Scope>): Option<Limit> {
    if scopes == [] then limit
    else
      var entry := if limit.Some? then limit.value else OPEN_LIMIT;
      Some(entry.(scopes := entry.scopes + scopes))
  }

  /** Put every scope on its file. */
  method AddScopes(limits: map<string, Limit>, scopes: seq<SourceScope>) returns (r: map<string, Limit>)
    ensures forall file :: Holds(r, file, WithScopes(LimitIn(limits, file), ScopesOf(scopes, |scopes|, file)))
  {
    r := limits;
    for n := 0 to |scopes|
      invariant forall file :: Holds(r, file, WithScopes(LimitIn(limits, file), ScopesOf(scopes, n, file)))
    {
      var path, scope := scopes[n].path, scopes[n].scope;
      assert Holds(r, path, WithScopes(LimitIn(limits, path), ScopesOf(scopes, n, path)));
      var entry := if path in r then r[path] else OPEN_LIMIT;
      OneMoreOnFile(LimitIn(limits, path), ScopesOf(scopes, n, path), scope);
      r := r[path := entry.(scopes := entry.scopes + [scope])];
    }
  }

  lemma OneMoreOnFile(limit: Option<Limit>, scopes: seq<Scope>, scope: Scope)
    ensures var before := WithScopes(limit, scopes);
            var entry := if before.Some? then before.value else OPEN_LIMIT;
            WithScopes(limit, scopes + [scope]) == Some(entry.(scopes := entry.scopes + [scope]))
  {
    var entry := if limit.Some? then limit.value else OPEN_LIMIT;
    assert entry.scopes + scopes + [scope] == entry.scopes + (scopes + [scope]);
    assert entry.scopes + [] == entry.scopes && scopes == [] ==> scopes + [scope] == [scope];
  }

  lemma {:induction false} ScopeIsOnFile(scopes: seq<SourceScope>, n: nat, k: nat)
    requires k < n <= |scopes|
    ensures scopes[k].scope in ScopesOf(scopes, n, scopes[k].path)
    decreases n
  {
    if k < n - 1 { ScopeIsOnFile(scopes, n - 1, k); }
  }

  predicate HasLine(scope: Scope, line: nat) { scope.startLine <= line <= scope.endLine }

  ghost predicate AreOnLine(changed: seq<(nat, nat)>, line: nat) {
    exists k :: 0 <= k < |changed| && changed[k].0 <= line <= changed[k].1
  }

  /** A change touches a scope exactly when it changes a line of it. */
  lemma TouchedMeans(scope: Scope, changed: seq<(nat, nat)>)
    requires scope.startLine <= scope.endLine && forall k :: 0 <= k < |changed| ==> changed[k].0 <= changed[k].1
    ensures IsTouched(scope, changed) <==> exists line: nat :: HasLine(scope, line) && AreOnLine(changed, line)
  {
    if IsTouched(scope, changed) {
      var k :| 0 <= k < |changed| && Meets(scope, changed[k]);
      var line := if changed[k].0 < scope.startLine then scope.startLine else changed[k].0;
      assert changed[k].0 <= line <= changed[k].1;
      assert HasLine(scope, line) && AreOnLine(changed, line);
    } else {
      forall line: nat | HasLine(scope, line)
        ensures !AreOnLine(changed, line)
      {
        assert forall k :: 0 <= k < |changed| ==> !Meets(scope, changed[k]);
      }
    }
  }

  /** A limit that leaves no more than a scope. */
  predicate IsWithinScope(limit: Option<Limit>, scope: Scope) {
    && limit.Some? && Room(limit.value.ceiling) <= Room(scope.ceiling)
    && Weight(limit.value.criticality) >= Weight(scope.criticality) && scope.entities <= limit.value.entities
  }

  /** Whatever else is on the file, a change of a line between two markers has a limit that leaves no more than their
      scope. */
  lemma ScopeIsStrict(own: Option<Limit>, scopes: seq<SourceScope>, k: nat, changed: seq<(nat, nat)>, line: nat,
                      r: Option<Limit>)
    requires k < |scopes| && HasLine(scopes[k].scope, line) && AreOnLine(changed, line)
    requires forall i :: 0 <= i < |changed| ==> changed[i].0 <= changed[i].1
    requires WithScopes(own, ScopesOf(scopes, |scopes|, scopes[k].path)).Some?
    requires IsLimitFor(WithScopes(own, ScopesOf(scopes, |scopes|, scopes[k].path)).value, changed, r)
    ensures IsWithinScope(r, scopes[k].scope)
  {
    var scope, all := scopes[k].scope, ScopesOf(scopes, |scopes|, scopes[k].path);
    TouchedMeans(scope, changed);
    ScopeIsOnFile(scopes, |scopes|, k);
    var limit := WithScopes(own, all).value;
    var i :| 0 <= i < |all| && all[i] == scope;
    var j := |limit.scopes| - |all| + i;
    assert limit.scopes[j] == scope && Applies(limit, changed, |limit.scopes|, j);
    assert RoomAgrees(limit, changed, |limit.scopes|, r.value, Room(r.value.ceiling));
    assert WeightAgrees(limit, changed, |limit.scopes|, r.value, Weight(r.value.criticality));
    forall name | name in scope.entities
      ensures name in r.value.entities
    {
      assert NameEntity(limit, changed, |limit.scopes|, name);
    }
  }

  // ---------------------------------------------------------------- searching a file read in pieces

  /** A whole file, given by what each read returns; an empty read ends it. */
  function Stream<T>(pieces: seq<seq<T>>): seq<T> {
    if pieces == [] || pieces[0] == [] then [] else pieces[0] + Stream(pieces[1..])
  }

  ghost predicate OccursAt<T>(text: seq<T>, tag: seq<T>, i: int) {
    0 <= i && i + |tag| <= |text| && text[i..i + |tag|] == tag
  }

  ghost predicate Occurs<T(!new)>(text: seq<T>, tag: seq<T>) { exists i :: OccursAt(text, tag, i) }

  method HasWindow<T(!new, ==)>(chunk: seq<T>, tag: seq<T>) returns (found: bool)
    ensures found <==> Occurs(chunk, tag)
  {
    var i := 0;
    while i + |tag| <= |chunk|
      invariant forall k :: OccursAt(chunk, tag, k) ==> i <= k
    {
      if chunk[i..i + |tag|] == tag {
        assert OccursAt(chunk, tag, i);
        return true;
      }
      i := i + 1;
    }
    found := false;
  }

  /** The end of a chunk that may be the beginning of a tag. */
  function Carry<T>(chunk: seq<T>, tag: seq<T>): seq<T>
    requires tag != []
  {
    if |chunk| < |tag| then chunk else chunk[|chunk| - (|tag| - 1)..]
  }

  /** Looking at the carried end and the next piece finds what looking at everything would. */
  lemma CarryIsEnough<T(!new)>(seen: seq<T>, piece: seq<T>, tag: seq<T>)
    requires tag != [] && !Occurs(seen, tag)
    ensures Occurs(Carry(seen, tag) + piece, tag) <==> Occurs(seen + piece, tag)
  {
    var carry := Carry(seen, tag);
    var cut := |seen| - |carry|;
    assert seen + piece == seen[..cut] + (carry + piece);
    if Occurs(carry + piece, tag) {
      var i :| OccursAt(carry + piece, tag, i);
      OccursLater(seen[..cut], carry + piece, tag, i);
    }
    if Occurs(seen + piece, tag) {
      var i :| OccursAt(seen + piece, tag, i);
      if i < cut { OccursEarly(seen, piece, tag, i); } else { OccursInRest(seen[..cut], carry + piece, tag, i); }
    }
  }

  lemma OccursEarly<T(!new)>(seen: seq<T>, piece: seq<T>, tag: seq<T>, i: int)
    requires OccursAt(seen + piece, tag, i) && i + |tag| <= |seen|
    ensures Occurs(seen, tag)
  {
    assert seen[i..i + |tag|] == (seen + piece)[i..i + |tag|];
    assert OccursAt(seen, tag, i);
  }

  lemma OccursLater<T(!new)>(before: seq<T>, rest: seq<T>, tag: seq<T>, i: int)
    requires OccursAt(rest, tag, i)
    ensures OccursAt(before + rest, tag, i + |before|)
  {
    assert (before + rest)[i + |before|..i + |before| + |tag|] == rest[i..i + |tag|];
  }

  lemma OccursInRest<T(!new)>(before: seq<T>, rest: seq<T>, tag: seq<T>, i: int)
    requires OccursAt(before + rest, tag, i) && i >= |before|
    ensures OccursAt(rest, tag, i - |before|)
  {
    assert (before + rest)[i..i + |tag|] == rest[i - |before|..i - |before| + |tag|];
  }

  lemma {:induction false} StreamStep<T(!new)>(pieces: seq<seq<T>>, n: nat)
    requires n < |pieces| && forall k :: 0 <= k <= n ==> pieces[k] != []
    ensures Stream(pieces) == Flat(pieces[..n + 1]) + Stream(pieces[n + 1..])
    ensures Flat(pieces[..n + 1]) == Flat(pieces[..n]) + pieces[n]
  {
    FlatAppend(pieces[..n], [pieces[n]]);
    assert pieces[..n + 1] == pieces[..n] + [pieces[n]];
    assert Flat([pieces[n]]) == pieces[n] + Flat([pieces[n]][1..]) == pieces[n];
    StreamSplit(pieces, n + 1);
  }

  lemma CarryAgain<T>(seen: seq<T>, piece: seq<T>, tag: seq<T>)
    requires tag != []
    ensures Carry(Carry(seen, tag) + piece, tag) == Carry(seen + piece, tag)
  {
    var carry := Carry(seen, tag);
    assert seen + piece == seen[..|seen| - |carry|] + (carry + piece);
  }

  function Flat<T>(pieces: seq<seq<T>>): seq<T> { if pieces == [] then [] else pieces[0] + Flat(pieces[1..]) }

  lemma {:induction false} FlatAppend<T>(a: seq<seq<T>>, b: seq<seq<T>>)
    ensures Flat(a + b) == Flat(a) + Flat(b)
  {
    if a == [] {
      assert a + b == b;
    } else {
      hide Flat;
      FlatAppend(a[1..], b);
      FlatStep(a);
      FlatStep(a + b);
      assert (a + b)[0] == a[0] && (a + b)[1..] == a[1..] + b;
      Associates(a[0], Flat(a[1..]), Flat(b));
    }
  }

  lemma FlatStep<T>(pieces: seq<seq<T>>)
    requires pieces != []
    ensures Flat(pieces) == pieces[0] + Flat(pieces[1..])
  {
  }

  lemma Associates<T>(a: seq<T>, b: seq<T>, c: seq<T>)
    ensures a + (b + c) == (a + b) + c
  {
  }

  lemma {:induction false} StreamSplit<T(!new)>(pieces: seq<seq<T>>, n: nat)
    requires n <= |pieces| && forall k :: 0 <= k < n ==> pieces[k] != []
    ensures Stream(pieces) == Flat(pieces[..n]) + Stream(pieces[n..])
    decreases n
  {
    if n == 0 {
      assert pieces[0..] == pieces;
    } else {
      StreamSplit(pieces[1..], n - 1);
      assert pieces[..n][1..] == pieces[1..][..n - 1];
      assert pieces[1..][n - 1..] == pieces[n..];
    }
  }

  /** Whether a tag occurs in a file, however the reads split it. */
  method ContainsTag<T(!new, ==)>(pieces: seq<seq<T>>, tag: seq<T>) returns (found: bool)
    requires tag != []
    ensures found <==> Occurs(Stream(pieces), tag)
  {
    var carry: seq<T> := [];
    ghost var seen: seq<T> := [];
    StreamSplit(pieces, 0);
    assert forall i :: !OccursAt(seen, tag, i);
    for n := 0 to |pieces|
      invariant forall k :: 0 <= k < n ==> pieces[k] != []
      invariant seen == Flat(pieces[..n]) && carry == Carry(seen, tag) && !Occurs(seen, tag)
    {
      if pieces[n] == [] {
        StreamSplit(pieces, n);
        assert Stream(pieces) == seen;
        return false;
      }
      var chunk := carry + pieces[n];
      CarryIsEnough(seen, pieces[n], tag);
      CarryAgain(seen, pieces[n], tag);
      StreamStep(pieces, n);
      var here := HasWindow(chunk, tag);
      if here {
        OccursBefore(seen + pieces[n], Stream(pieces[n + 1..]), tag);
        return true;
      }
      seen := seen + pieces[n];
      carry := Carry(chunk, tag);
    }
    StreamSplit(pieces, |pieces|);
    assert Stream(pieces) == seen;
    found := false;
  }

  lemma OccursBefore<T(!new)>(a: seq<T>, b: seq<T>, tag: seq<T>)
    requires Occurs(a, tag)
    ensures Occurs(a + b, tag)
  {
    var i :| OccursAt(a, tag, i);
    assert (a + b)[i..i + |tag|] == a[i..i + |tag|];
    assert OccursAt(a + b, tag, i);
  }
}
