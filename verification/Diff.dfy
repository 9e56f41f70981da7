// src/governance/diff.rs: Myers' O(ND) line diff. Lines are compared only by equality, so they are
// values of an arbitrary type.
module Diff {

  datatype Option<+T> = None | Some(value: T)

  // ---------------------------------------------------------------- what a diff promises

  /** A common subsequence of a and b, as strictly increasing pairs of positions of equal lines. */
  ghost predicate IsMatching<T>(a: seq<T>, b: seq<T>, m: seq<(nat, nat)>) {
    && (forall i :: 0 <= i < |m| ==> m[i].0 < |a| && m[i].1 < |b| && a[m[i].0] == b[m[i].1])
    && (forall i, j :: 0 <= i < j < |m| ==> m[i].0 < m[j].0 && m[i].1 < m[j].1)
  }

  /** Every mapped line is equal to its image, and images strictly increase. */
  ghost predicate IsSound<T>(old_: seq<T>, new_: seq<T>, mapping: seq<Option<nat>>) {
    && |mapping| == |new_|
    && (forall j :: 0 <= j < |mapping| && mapping[j].Some? ==>
          mapping[j].value < |old_| && old_[mapping[j].value] == new_[j])
    && (forall i, j :: 0 <= i < j < |mapping| && mapping[i].Some? && mapping[j].Some? ==>
          mapping[i].value < mapping[j].value)
  }

  function Mapped(mapping: seq<Option<nat>>): nat {
    if mapping == [] then 0
    else Mapped(mapping[..|mapping| - 1]) + if mapping[|mapping| - 1].Some? then 1 else 0
  }

  /** A mapping of as many lines as any mapping can have. */
  ghost predicate IsLongest<T(!new)>(old_: seq<T>, new_: seq<T>, mapping: seq<Option<nat>>) {
    IsSound(old_, new_, mapping) && forall m :: IsMatching(old_, new_, m) ==> |m| <= Mapped(mapping)
  }

  lemma {:induction false} AllAreMapped(mapping: seq<Option<nat>>)
    ensures Mapped(mapping) <= |mapping|
    ensures Mapped(mapping) == |mapping| ==> forall j :: 0 <= j < |mapping| ==> mapping[j].Some?
  {
    if mapping != [] { AllAreMapped(mapping[..|mapping| - 1]); }
  }

  lemma {:induction false} MapsFar<T>(old_: seq<T>, new_: seq<T>, mapping: seq<Option<nat>>, j: nat)
    requires IsSound(old_, new_, mapping) && j < |mapping| && forall k :: 0 <= k < |mapping| ==> mapping[k].Some?
    ensures j <= mapping[j].value
  {
    if j > 0 { MapsFar(old_, new_, mapping, j - 1); }
  }

  lemma {:induction false} MapsNear<T>(old_: seq<T>, new_: seq<T>, mapping: seq<Option<nat>>, j: nat)
    requires IsSound(old_, new_, mapping) && j < |mapping| && forall k :: 0 <= k < |mapping| ==> mapping[k].Some?
    ensures mapping[j].value + (|mapping| - j) <= |old_|
    decreases |mapping| - j
  {
    if j + 1 < |mapping| { MapsNear(old_, new_, mapping, j + 1); }
  }

  /** Lines that did not change are mapped to themselves. */
  lemma SameIsMappedToItself<T(!new)>(lines: seq<T>, mapping: seq<Option<nat>>)
    requires IsLongest(lines, lines, mapping)
    ensures forall j :: 0 <= j < |mapping| ==> mapping[j] == Some(j)
  {
    hide Mapped, IsSound;
    var m := EachWithItself(lines);
    AllAreMapped(mapping);
    SameLength(lines, mapping);
    forall j | 0 <= j < |mapping|
      ensures mapping[j] == Some(j)
    {
      MapsFar(lines, lines, mapping, j);
      MapsNear(lines, lines, mapping, j);
    }
  }

  lemma SameLength<T>(lines: seq<T>, mapping: seq<Option<nat>>)
    requires IsSound(lines, lines, mapping)
    ensures |mapping| == |lines|
  {
  }

  lemma EachWithItself<T>(lines: seq<T>) returns (m: seq<(nat, nat)>)
    ensures |m| == |lines| && IsMatching(lines, lines, m)
  {
    m := seq(|lines|, i requires 0 <= i < |lines| => (i, i));
  }

  // ---------------------------------------------------------------- longest common subsequences

  function Max(x: int, y: int): int { if x < y then y else x }

  function Min(x: int, y: int): int { if x < y then x else y }

  /** Length of a longest common subsequence of a[..x] and b[..y]. */
  ghost function Lcs<T>(a: seq<T>, b: seq<T>, x: nat, y: nat): nat
    requires x <= |a| && y <= |b|
    decreases x + y
  {
    if x == 0 || y == 0 then 0
    else if a[x - 1] == b[y - 1] then Lcs(a, b, x - 1, y - 1) + 1
    else Max(Lcs(a, b, x - 1, y), Lcs(a, b, x, y - 1))
  }

  lemma {:induction false} LcsGrowsSlowly<T>(a: seq<T>, b: seq<T>, x: nat, y: nat)
    requires x <= |a| && y <= |b|
    ensures x < |a| ==> Lcs(a, b, x, y) <= Lcs(a, b, x + 1, y) <= Lcs(a, b, x, y) + 1
    ensures y < |b| ==> Lcs(a, b, x, y) <= Lcs(a, b, x, y + 1) <= Lcs(a, b, x, y) + 1
    decreases x + y
  {
    if x > 0 { LcsGrowsSlowly(a, b, x - 1, y); }
    if y > 0 { LcsGrowsSlowly(a, b, x, y - 1); }
  }

  /** No common subsequence is longer than Lcs. */
  lemma {:induction false} LcsIsUpperBound<T>(a: seq<T>, b: seq<T>, x: nat, y: nat, m: seq<(nat, nat)>)
    requires x <= |a| && y <= |b| && IsMatching(a, b, m)
    requires forall i :: 0 <= i < |m| ==> m[i].0 < x && m[i].1 < y
    ensures |m| <= Lcs(a, b, x, y)
    decreases x + y
  {
    if m != [] {
      var last := m[|m| - 1];
      if last.0 < x - 1 {
        LcsIsUpperBound(a, b, x - 1, y, m);
        LcsGrowsSlowly(a, b, x - 1, y);
      } else if last.1 < y - 1 {
        LcsIsUpperBound(a, b, x, y - 1, m);
        LcsGrowsSlowly(a, b, x, y - 1);
      } else {
        LcsIsUpperBound(a, b, x - 1, y - 1, m[..|m| - 1]);
      }
    }
  }

  /** Fewest insertions and deletions turning a[..x] into b[..y]. */
  ghost function Distance<T>(a: seq<T>, b: seq<T>, x: nat, y: nat): (r: nat)
    requires x <= |a| && y <= |b|
    ensures x - y <= r && y - x <= r
  {
    LcsIsAtMost(a, b, x, y);
    x + y - 2 * Lcs(a, b, x, y)
  }

  /** Distance, extended past the last line of either side: a step there is never free. */
  ghost function Cost<T>(a: seq<T>, b: seq<T>, x: nat, y: nat): int {
    Distance(a, b, Min(x, |a|), Min(y, |b|)) + x - Min(x, |a|) + y - Min(y, |b|)
  }

  // ---------------------------------------------------------------- furthest-reaching points

  /** Line i of a equals the line on diagonal k of b. */
  ghost predicate Equal<T>(a: seq<T>, b: seq<T>, i: int, k: int) {
    0 <= i < |a| && 0 <= i - k < |b| && a[i] == b[i - k]
  }

  /** Follow equal lines along diagonal k from x. */
  ghost function Snake<T>(a: seq<T>, b: seq<T>, x: nat, k: int): (r: nat)
    requires x - k >= 0
    ensures r >= x
    decreases |a| - x
  {
    if Equal(a, b, x, k) then Snake(a, b, x + 1, k) else x
  }

  /** A snake runs over equal lines only, and as far as they go. */
  lemma {:induction false} SnakeFollowsEqualLines<T>(a: seq<T>, b: seq<T>, x: nat, k: int)
    requires x - k >= 0
    ensures !Equal(a, b, Snake(a, b, x, k), k)
    ensures forall i :: x <= i < Snake(a, b, x, k) ==> Equal(a, b, i, k)
    decreases |a| - x
  {
    if Equal(a, b, x, k) {
      SnakeFollowsEqualLines(a, b, x + 1, k);
    }
  }

  /** Round d visits the diagonals -d, -d + 2, ..., d; this is the i-th of them. */
  function Diagonal(d: nat, i: nat): int { 2 * i - d }

  /** Whether round d enters its i-th diagonal downwards (an insertion) from the diagonal above. */
  ghost predicate Downwards<T>(a: seq<T>, b: seq<T>, d: nat, i: nat)
    requires 0 < d && i <= d
    decreases d, 0
  {
    i == 0 || (i != d && Reach(a, b, d - 1, i - 1) < Reach(a, b, d - 1, i))
  }

  ghost function Entry<T>(a: seq<T>, b: seq<T>, d: nat, i: nat): (r: nat)
    requires i <= d
    ensures r - Diagonal(d, i) >= 0
    decreases d, 1
  {
    if d == 0 then 0
    else if Downwards(a, b, d, i) then Reach(a, b, d - 1, i)
    else Reach(a, b, d - 1, i - 1) + 1
  }

  /** The furthest x the search reaches on the i-th diagonal of round d. */
  ghost function Reach<T>(a: seq<T>, b: seq<T>, d: nat, i: nat): (r: nat)
    requires i <= d
    ensures r - Diagonal(d, i) >= 0
    decreases d, 2
  {
    Snake(a, b, Entry(a, b, d, i), Diagonal(d, i))
  }

  lemma {:induction false} SnakeIsFree<T>(a: seq<T>, b: seq<T>, x: nat, k: int, r: nat)
    requires x - k >= 0 && r >= x
    requires forall i :: x <= i < r ==> Equal(a, b, i, k)
    ensures Cost(a, b, r, r - k) == Cost(a, b, x, x - k)
    decreases r - x
  {
    if x < r {
      SnakeIsFree(a, b, x, k, r - 1);
      assert Equal(a, b, r - 1, k);
    }
  }

  lemma StepCostsOne<T>(a: seq<T>, b: seq<T>, x: nat, y: nat)
    ensures Cost(a, b, x + 1, y) <= Cost(a, b, x, y) + 1
    ensures Cost(a, b, x, y + 1) <= Cost(a, b, x, y) + 1
  {
    LcsGrowsSlowly(a, b, Min(x, |a|), Min(y, |b|));
  }

  lemma {:induction false} EntryIsSound<T>(a: seq<T>, b: seq<T>, d: nat, i: nat)
    requires i <= d
    ensures Cost(a, b, Entry(a, b, d, i), Entry(a, b, d, i) - Diagonal(d, i)) <= d
    decreases d, 0
  {
    hide Lcs, Min;
    if d > 0 {
      var p := if Downwards(a, b, d, i) then i else i - 1;
      ReachIsSound(a, b, d - 1, p);
      StepCostsOne(a, b, Reach(a, b, d - 1, p), Reach(a, b, d - 1, p) - Diagonal(d - 1, p));
    }
  }

  /** A reached point really is within d insertions and deletions. */
  lemma {:induction false} ReachIsSound<T>(a: seq<T>, b: seq<T>, d: nat, i: nat)
    requires i <= d
    ensures Cost(a, b, Reach(a, b, d, i), Reach(a, b, d, i) - Diagonal(d, i)) <= d
    decreases d, 1
  {
    hide Lcs, Min, Snake, Entry;
    EntryIsSound(a, b, d, i);
    SnakeFollowsEqualLines(a, b, Entry(a, b, d, i), Diagonal(d, i));
    SnakeIsFree(a, b, Entry(a, b, d, i), Diagonal(d, i), Reach(a, b, d, i));
  }

  /** The entry of round d is no worse than a step from either neighbouring diagonal. */
  lemma EntryIsBest<T>(a: seq<T>, b: seq<T>, d: nat, i: nat)
    requires 0 < d && i <= d
    ensures 0 < i ==> Reach(a, b, d - 1, i - 1) + 1 <= Reach(a, b, d, i)
    ensures i < d ==> Reach(a, b, d - 1, i) <= Reach(a, b, d, i)
  {
    hide Downwards, Snake;
    ReachIsAhead(a, b, d, i);
    if 0 < i { EntryFromBelow(a, b, d, i); }
    if i < d { EntryFromAbove(a, b, d, i); }
  }

  lemma ReachIsAhead<T>(a: seq<T>, b: seq<T>, d: nat, i: nat)
    requires i <= d
    ensures Entry(a, b, d, i) <= Reach(a, b, d, i)
  {
    hide Entry, Snake;
  }

  lemma EntryFromBelow<T>(a: seq<T>, b: seq<T>, d: nat, i: nat)
    requires 0 < i <= d
    ensures Reach(a, b, d - 1, i - 1) + 1 <= Entry(a, b, d, i)
  {
    hide Snake, Reach;
  }

  lemma EntryFromAbove<T>(a: seq<T>, b: seq<T>, d: nat, i: nat)
    requires i < d
    ensures Reach(a, b, d - 1, i) <= Entry(a, b, d, i)
  {
    hide Snake, Reach;
  }

  datatype Move = Match | Delete | Insert

  /** How an optimal edit of a[..x] into b[..y] ends. */
  lemma LastMove<T>(a: seq<T>, b: seq<T>, x: nat, y: nat) returns (move: Move)
    requires x <= |a| && y <= |b| && x + y > 0
    ensures move == Match ==> x > 0 && y > 0 && Equal(a, b, x - 1, x - y)
                              && Distance(a, b, x - 1, y - 1) == Distance(a, b, x, y)
    ensures move == Delete ==> x > 0 && Distance(a, b, x - 1, y) == Distance(a, b, x, y) - 1
    ensures move == Insert ==> y > 0 && Distance(a, b, x, y - 1) == Distance(a, b, x, y) - 1
  {
    if x > 0 && y > 0 && a[x - 1] == b[y - 1] {
      return Match;
    } else if x > 0 && (y == 0 || Lcs(a, b, x, y) == Lcs(a, b, x - 1, y)) {
      return Delete;
    } else {
      return Insert;
    }
  }

  /** Every point within d insertions and deletions is at or behind the frontier of round d. */
  lemma {:induction false} ReachIsComplete<T>(a: seq<T>, b: seq<T>, d: nat, i: nat, x: nat, y: nat)
    requires x <= |a| && y <= |b| && i <= d
    requires Distance(a, b, x, y) <= d && x - y == Diagonal(d, i)
    ensures x <= Reach(a, b, d, i)
    decreases d, x + y
  {
    hide Snake;
    if x + y > 0 {
      var move := LastMove(a, b, x, y);
      if move == Match {
        ReachIsComplete(a, b, d, i, x - 1, y - 1);
        SnakeFollowsEqualLines(a, b, Entry(a, b, d, i), Diagonal(d, i));
      } else if move == Delete {
        ReachIsComplete(a, b, d - 1, i - 1, x - 1, y);
        EntryIsBest(a, b, d, i);
      } else {
        ReachIsComplete(a, b, d - 1, i, x, y - 1);
        EntryIsBest(a, b, d, i);
      }
    }
  }

  lemma {:induction false} LcsIsAtMost<T>(a: seq<T>, b: seq<T>, x: nat, y: nat)
    requires x <= |a| && y <= |b|
    ensures Lcs(a, b, x, y) <= x && Lcs(a, b, x, y) <= y
    decreases x + y
  {
    if x > 0 && y > 0 {
      LcsIsAtMost(a, b, x - 1, y - 1);
      LcsIsAtMost(a, b, x - 1, y);
      LcsIsAtMost(a, b, x, y - 1);
    }
  }

  // ---------------------------------------------------------------- the search

  /** The entry of a frontier for the i-th diagonal of round d is the point reached there. */
  ghost predicate Reached<T>(a: seq<T>, b: seq<T>, frontier: seq<int>, offset: nat, d: nat, i: nat)
    requires i <= d <= offset && |frontier| == 2 * offset + 2
  {
    frontier[2 * i - d + offset] == Reach(a, b, d, i)
  }

  /** A frontier holds round d; its entries of the other parity are older. */
  ghost predicate Holds<T>(a: seq<T>, b: seq<T>, frontier: seq<int>, offset: nat, d: nat) {
    HoldsBelow(a, b, frontier, offset, d, d + 1)
  }

  /** A frontier holds the first i diagonals of round d. */
  ghost predicate HoldsBelow<T>(a: seq<T>, b: seq<T>, frontier: seq<int>, offset: nat, d: nat, i: nat) {
    && |frontier| == 2 * offset + 2
    && i <= d + 1 <= offset + 1
    && forall j :: 0 <= j < i ==> Reached(a, b, frontier, offset, d, j)
  }

  /** Writing the i-th diagonal of round d keeps the round before it and the diagonals below it. */
  lemma RoundStep<T>(a: seq<T>, b: seq<T>, frontier: seq<int>, offset: nat, d: nat, i: nat)
    requires i <= d && HoldsBelow(a, b, frontier, offset, d, i)
    requires d > 0 ==> Holds(a, b, frontier, offset, d - 1)
    ensures HoldsBelow(a, b, frontier[2 * i - d + offset := Reach(a, b, d, i)], offset, d, i + 1)
    ensures d > 0 ==> Holds(a, b, frontier[2 * i - d + offset := Reach(a, b, d, i)], offset, d - 1)
  {
    hide Diagonal, Entry;
    var after := frontier[2 * i - d + offset := Reach(a, b, d, i)];
    forall j | 0 <= j < i
      ensures Reached(a, b, after, offset, d, j)
    {
      assert Reached(a, b, frontier, offset, d, j);
    }
    if d > 0 {
      var e := d - 1;
      forall j | 0 <= j <= e
        ensures Reached(a, b, after, offset, e, j)
      {
        assert Reached(a, b, frontier, offset, e, j);
      }
    }
  }

  /** Index of the diagonal through the last point among those of the round of the edit distance. */
  ghost function LastDiagonal<T>(a: seq<T>, b: seq<T>): (i: nat)
    ensures i <= Distance(a, b, |a|, |b|) && Diagonal(Distance(a, b, |a|, |b|), i) == |a| - |b|
  {
    LcsIsAtMost(a, b, |a|, |b|);
    |a| - Lcs(a, b, |a|, |b|)
  }

  /** The search has ended in round d on the i-th diagonal exactly at the last point. */
  ghost predicate Ended<T>(a: seq<T>, b: seq<T>, d: nat, i: nat) {
    && d == Distance(a, b, |a|, |b|)
    && i == LastDiagonal(a, b)
    && Reach(a, b, d, i) == |a|
  }

  /** The condition under which the search stops. */
  ghost predicate Finished<T>(a: seq<T>, b: seq<T>, d: nat, i: nat)
    requires i <= d
  {
    Reach(a, b, d, i) >= |a| && Reach(a, b, d, i) - Diagonal(d, i) >= |b|
  }

  lemma SearchEnds<T>(a: seq<T>, b: seq<T>, d: nat, i: nat)
    requires i <= d <= Distance(a, b, |a|, |b|) && Finished(a, b, d, i)
    ensures Ended(a, b, d, i)
  {
    ReachIsSound(a, b, d, i);
  }

  lemma SearchGoesOn<T>(a: seq<T>, b: seq<T>, d: nat)
    requires forall j :: 0 <= j <= d ==> !Finished(a, b, d, j)
    ensures d != Distance(a, b, |a|, |b|)
  {
    if d == Distance(a, b, |a|, |b|) {
      ReachIsComplete(a, b, d, LastDiagonal(a, b), |a|, |b|);
      assert Finished(a, b, d, LastDiagonal(a, b));
    }
  }

  method Follow<T(==)>(a: seq<T>, b: seq<T>, start: nat, k: int) returns (x: nat)
    requires start - k >= 0
    ensures x == Snake(a, b, start, k)
  {
    x := start;
    var y := x - k;
    while x < |a| && y < |b| && a[x] == b[y]
      invariant y >= 0 && y == x - k
      invariant Snake(a, b, x, k) == Snake(a, b, start, k)
    {
      x := x + 1;
      y := y + 1;
    }
  }

  /** One step of a round: choose the better neighbour and follow equal lines. */
  method Furthest<T(==)>(a: seq<T>, b: seq<T>, frontier: seq<int>, offset: nat, depth: nat, k: int, ghost i: nat)
    returns (x: nat)
    requires i <= depth <= offset && k == Diagonal(depth, i) && |frontier| == 2 * offset + 2
    requires depth == 0 ==> frontier[offset + 1] == 0
    requires i > 0 ==> frontier[k + offset - 1] == Reach(a, b, depth - 1, i - 1)
    requires i < depth ==> frontier[k + offset + 1] == Reach(a, b, depth - 1, i)
    ensures x == Reach(a, b, depth, i)
  {
    var index := k + offset;
    var entry := if k + depth == 0 || (k != depth && frontier[index - 1] < frontier[index + 1])
                 then frontier[index + 1] else frontier[index - 1] + 1;
    assert entry == Entry(a, b, depth, i);
    x := Follow(a, b, entry, k);
  }

  /** One round, in place: a round writes only entries of its own parity and reads only the others. */
  method Round<T(==)>(a: seq<T>, b: seq<T>, frontier: array<int>, offset: nat, depth: nat) returns (done: bool)
    requires depth <= offset && frontier.Length == 2 * offset + 2
    requires depth <= Distance(a, b, |a|, |b|)
    requires depth == 0 ==> frontier[offset + 1] == 0
    requires depth > 0 ==> Holds(a, b, frontier[..], offset, depth - 1)
    modifies frontier
    ensures done ==> Ended(a, b, depth, LastDiagonal(a, b))
    ensures !done ==> Holds(a, b, frontier[..], offset, depth) && depth < Distance(a, b, |a|, |b|)
  {
    hide Reach;
    var k: int := 0 - depth;
    ghost var i := 0;
    while k <= depth
      invariant 0 <= i <= depth + 1 && k == 2 * i - depth
      invariant depth == 0 && i == 0 ==> frontier[offset + 1] == 0
      invariant depth > 0 ==> Holds(a, b, frontier[..], offset, depth - 1)
      invariant HoldsBelow(a, b, frontier[..], offset, depth, i)
      invariant forall j :: 0 <= j < i ==> !Finished(a, b, depth, j)
    {
      if depth > 0 {
        assert i > 0 ==> Reached(a, b, frontier[..], offset, depth - 1, i - 1);
        assert i < depth ==> Reached(a, b, frontier[..], offset, depth - 1, i);
      }
      var x := Furthest(a, b, frontier[..], offset, depth, k, i);
      var y := x - k;
      RoundStep(a, b, frontier[..], offset, depth, i);
      frontier[k + offset] := x;
      if x >= |a| && y >= |b| {
        SearchEnds(a, b, depth, i);
        return true;
      }
      k := k + 2;
      i := i + 1;
    }
    SearchGoesOn(a, b, depth);
    return false;
  }

  /** The search loop: the frontier before every round, up to the round that reaches the last point. */
  method Search<T(==)>(a: seq<T>, b: seq<T>) returns (trace: seq<seq<int>>)
    requires |a| > 0 && |b| > 0
    ensures |trace| == Distance(a, b, |a|, |b|) + 1
    ensures forall e :: 1 <= e < |trace| ==> Holds(a, b, trace[e], |a| + |b|, e - 1)
    ensures Ended(a, b, Distance(a, b, |a|, |b|), LastDiagonal(a, b))
  {
    var max := |a| + |b|;
    LcsIsAtMost(a, b, |a|, |b|);
    var frontier := new int[2 * max + 2](_ => 0);
    trace := [];
    for depth := 0 to max + 1
      invariant |trace| == depth <= Distance(a, b, |a|, |b|)
      invariant depth == 0 ==> frontier[max + 1] == 0
      invariant depth > 0 ==> Holds(a, b, frontier[..], max, depth - 1)
      invariant forall e :: 1 <= e < |trace| ==> Holds(a, b, trace[e], max, e - 1)
    {
      trace := trace + [frontier[..]];
      var done := Round(a, b, frontier, max, depth);
      if done {
        return;
      }
    }
    assert false;
  }

  // ---------------------------------------------------------------- the backtrack

  /** The pairs found so far, last first: they match the lines from (x, y) on. */
  ghost predicate IsTail<T>(a: seq<T>, b: seq<T>, x: nat, y: nat, pairs: seq<(nat, nat)>) {
    && (forall i :: 0 <= i < |pairs| ==> x <= pairs[i].0 < |a| && y <= pairs[i].1 < |b|
                                         && a[pairs[i].0] == b[pairs[i].1])
    && (forall i, j :: 0 <= i < j < |pairs| ==> pairs[j].0 < pairs[i].0 && pairs[j].1 < pairs[i].1)
  }

  function Reverse<T>(s: seq<T>): (r: seq<T>)
    ensures |r| == |s| && forall i :: 0 <= i < |s| ==> r[i] == s[|s| - 1 - i]
  {
    seq(|s|, i requires 0 <= i < |s| => s[|s| - 1 - i])
  }

  /** Walk back along a diagonal from (x, y) to its entry, collecting the equal lines. */
  method Rewind<T(==)>(a: seq<T>, b: seq<T>, x0: nat, y0: nat, k: int, stopX: int, stopY: int, ghost entry: nat,
                       found: seq<(nat, nat)>)
    returns (pairs: seq<(nat, nat)>)
    requires k == x0 - y0 && x0 <= |a| && y0 <= |b| && entry <= x0 && entry - k >= 0
    requires (entry == stopX && entry - k >= stopY) || (entry >= stopX && entry - k == stopY)
    requires forall e :: entry <= e < x0 ==> Equal(a, b, e, k)
    requires IsTail(a, b, x0, y0, found)
    ensures IsTail(a, b, entry, entry - k, pairs) && |pairs| == |found| + x0 - entry
  {
    var x, y := x0, y0;
    pairs := found;
    while x > stopX && y > stopY
      invariant entry <= x <= x0 && x - y == k
      invariant IsTail(a, b, x, y, pairs) && |pairs| == |found| + x0 - x
    {
      assert Equal(a, b, x - 1, k);
      x := x - 1;
      y := y - 1;
      pairs := pairs + [(x, y)];
    }
  }

  /** The point round `depth` came from, by the same comparison as in the search. */
  method PreviousPoint<T>(a: seq<T>, b: seq<T>, frontier: seq<int>, offset: nat, depth: nat, k: int, ghost i: nat)
    returns (previousX: int, previousK: int, ghost i': nat)
    requires 0 < depth <= offset && i <= depth && k == Diagonal(depth, i) && |frontier| == 2 * offset + 2
    requires i > 0 ==> frontier[k + offset - 1] == Reach(a, b, depth - 1, i - 1)
    requires i < depth ==> frontier[k + offset + 1] == Reach(a, b, depth - 1, i)
    ensures previousX >= 0 && previousX - previousK >= 0
    ensures i' <= depth - 1 && previousK == Diagonal(depth - 1, i') && previousX == Reach(a, b, depth - 1, i')
    ensures (previousK == k + 1 && Entry(a, b, depth, i) == previousX)
            || (previousK == k - 1 && Entry(a, b, depth, i) == previousX + 1)
  {
    previousK := if k + depth == 0 || (k != depth && frontier[k - 1 + offset] < frontier[k + 1 + offset])
                 then k + 1 else k - 1;
    previousX := frontier[previousK + offset];
    if previousK == k + 1 { i' := i; } else { i' := i - 1; }
  }

  ghost predicate At<T>(a: seq<T>, b: seq<T>, depth: nat, i: nat, x: nat, y: nat) {
    i <= depth && x <= |a| && y <= |b| && x - y == Diagonal(depth, i) && x == Reach(a, b, depth, i)
  }

  /** One round of the backtrack: collect the snake of this round, then step to the round before. */
  method StepBack<T(==)>(a: seq<T>, b: seq<T>, frontier: seq<int>, offset: nat, depth: nat, ghost i: nat,
                         x: nat, y: nat, found: seq<(nat, nat)>)
    returns (x': nat, y': nat, pairs: seq<(nat, nat)>, ghost i': nat)
    requires 0 < depth <= offset && |frontier| == 2 * offset + 2
    requires At(a, b, depth, i, x, y) && IsTail(a, b, x, y, found)
    requires i > 0 ==> frontier[x - y + offset - 1] == Reach(a, b, depth - 1, i - 1)
    requires i < depth ==> frontier[x - y + offset + 1] == Reach(a, b, depth - 1, i)
    ensures At(a, b, depth - 1, i', x', y') && IsTail(a, b, x', y', pairs)
    ensures x + y - x' - y' == 2 * (|pairs| - |found|) + 1
  {
    hide Diagonal;
    var previousX, previousK, j := PreviousPoint(a, b, frontier, offset, depth, x - y, i);
    ghost var entry := SnakeFrom(a, b, depth, i, x, x - y);
    pairs := Rewind(a, b, x, y, x - y, previousX, previousX - previousK, entry, found);
    i' := j;
    x', y' := previousX, previousX - previousK;
  }

  /** The snake that ends at a point starts at the entry of its round. */
  lemma SnakeFrom<T>(a: seq<T>, b: seq<T>, depth: nat, i: nat, x: nat, k: int) returns (entry: nat)
    requires 0 < depth && i <= depth && k == Diagonal(depth, i) && x == Reach(a, b, depth, i)
    ensures entry == Entry(a, b, depth, i) <= x && entry - k >= 0
    ensures forall e :: entry <= e < x ==> Equal(a, b, e, k)
  {
    entry := Entry(a, b, depth, i);
    SnakeFollowsEqualLines(a, b, entry, k);
  }

  /** Round 0 of the backtrack: only its snake is left; the pairs were found last first. */
  method Finish<T(==)>(a: seq<T>, b: seq<T>, x: nat, y: nat, found: seq<(nat, nat)>) returns (pairs: seq<(nat, nat)>)
    requires At(a, b, 0, 0, x, y) && IsTail(a, b, x, y, found)
    ensures IsMatching(a, b, pairs) && |pairs| == |found| + x
  {
    SnakeFollowsEqualLines(a, b, 0, 0);
    pairs := Rewind(a, b, x, y, 0, 0, -1, 0, found);
    pairs := Reverse(pairs);
  }

  method Backtrack<T(==)>(a: seq<T>, b: seq<T>, trace: seq<seq<int>>) returns (pairs: seq<(nat, nat)>)
    requires |a| > 0 && |b| > 0
    requires |trace| == Distance(a, b, |a|, |b|) + 1
    requires forall e :: 1 <= e < |trace| ==> Holds(a, b, trace[e], |a| + |b|, e - 1)
    requires Ended(a, b, Distance(a, b, |a|, |b|), LastDiagonal(a, b))
    ensures IsMatching(a, b, pairs) && |pairs| == Lcs(a, b, |a|, |b|)
  {
    hide Reach;
    pairs := [];
    var x: nat, y: nat, depth: nat := |a|, |b|, |trace| - 1;
    ghost var i: nat := LastDiagonal(a, b);
    while depth > 0
      invariant depth < |trace| && At(a, b, depth, i, x, y) && IsTail(a, b, x, y, pairs)
      invariant |a| + |b| - x - y == 2 * |pairs| + |trace| - 1 - depth
    {
      assert i > 0 ==> Reached(a, b, trace[depth], |a| + |b|, depth - 1, i - 1);
      assert i < depth ==> Reached(a, b, trace[depth], |a| + |b|, depth - 1, i);
      x, y, pairs, i := StepBack(a, b, trace[depth], |a| + |b|, depth, i, x, y, pairs);
      depth := depth - 1;
    }
    pairs := Finish(a, b, x, y, pairs);
  }

  /** Pairs of equal lines forming a longest common subsequence. */
  method Myers<T(==)>(a: seq<T>, b: seq<T>) returns (pairs: seq<(nat, nat)>)
    ensures IsMatching(a, b, pairs)
    ensures forall m :: IsMatching(a, b, m) ==> |m| <= |pairs|
  {
    if |a| == 0 || |b| == 0 {
      pairs := [];
    } else {
      var trace := Search(a, b);
      pairs := Backtrack(a, b, trace);
    }
    forall m | IsMatching(a, b, m)
      ensures |m| <= |pairs|
    {
      LcsIsUpperBound(a, b, |a|, |b|, m);
    }
  }

  // ---------------------------------------------------------------- mapping whole files

  /** A matching of sequences with p equal lines in front and s equal lines at the end is no longer
      than p + s plus a matching of what is between. */
  lemma TrimmedMatching<T>(a: seq<T>, b: seq<T>, p: nat, s: nat, best: nat, m: seq<(nat, nat)>)
    requires p + s <= |a| && p + s <= |b| && IsMatching(a, b, m)
    requires forall c :: IsMatching(a[p..|a| - s], b[p..|b| - s], c) ==> |c| <= best
    ensures |m| <= p + s + best
  {
    if |m| > p + s {
      forall i | p <= i < |m| - s
        ensures p <= m[i].0 < |a| - s && p <= m[i].1 < |b| - s
      {
        PairsAreSpread(a, b, m, i);
      }
      var c := Between(m, p, |m| - p - s);
      BetweenMatches(a, b, p, s, m, c);
    }
  }

  /** Some of the pairs, counted from line p of both sides. */
  function Between(m: seq<(nat, nat)>, p: nat, n: nat): (c: seq<(nat, nat)>)
    requires p + n <= |m| && forall i :: p <= i < p + n ==> p <= m[i].0 && p <= m[i].1
    ensures |c| == n && forall i :: 0 <= i < n ==> c[i] == (m[p + i].0 - p, m[p + i].1 - p)
  {
    seq(n, i requires 0 <= i < n => (m[p + i].0 - p, m[p + i].1 - p))
  }

  lemma BetweenMatches<T>(a: seq<T>, b: seq<T>, p: nat, s: nat, m: seq<(nat, nat)>, c: seq<(nat, nat)>)
    requires p + s <= |a| && p + s <= |b| && IsMatching(a, b, m) && p + |c| + s == |m|
    requires forall i :: p <= i < |m| - s ==> p <= m[i].0 < |a| - s && p <= m[i].1 < |b| - s
    requires forall i :: 0 <= i < |c| ==> c[i] == (m[p + i].0 - p, m[p + i].1 - p)
    ensures IsMatching(a[p..|a| - s], b[p..|b| - s], c)
  {
    forall i | 0 <= i < |c|
      ensures c[i].0 < |a| - s - p && c[i].1 < |b| - s - p && a[p..|a| - s][c[i].0] == b[p..|b| - s][c[i].1]
    {
      assert a[m[p + i].0] == b[m[p + i].1];
    }
    forall i, j | 0 <= i < j < |c|
      ensures c[i].0 < c[j].0 && c[i].1 < c[j].1
    {
      assert m[p + i].0 < m[p + j].0 && m[p + i].1 < m[p + j].1;
    }
  }

  lemma {:induction false} PairsAreSpread<T>(a: seq<T>, b: seq<T>, m: seq<(nat, nat)>, i: nat)
    requires IsMatching(a, b, m) && i < |m|
    ensures i <= m[i].0 && i <= m[i].1
    ensures m[i].0 <= |a| - (|m| - i) && m[i].1 <= |b| - (|m| - i)
  {
    Climb(a, b, m, 0, i);
    Climb(a, b, m, i, |m| - 1);
  }

  lemma {:induction false} Climb<T>(a: seq<T>, b: seq<T>, m: seq<(nat, nat)>, i: nat, j: nat)
    requires IsMatching(a, b, m) && i <= j < |m|
    ensures m[i].0 + (j - i) <= m[j].0 && m[i].1 + (j - i) <= m[j].1
    decreases j - i
  {
    if i < j { Climb(a, b, m, i, j - 1); }
  }

  /** A mapping with Some at every position of a strictly increasing list maps at least that many. */
  lemma {:induction false} MappedAtLeast(mapping: seq<Option<nat>>, at: seq<nat>)
    requires forall i :: 0 <= i < |at| ==> at[i] < |mapping| && mapping[at[i]].Some?
    requires forall i, j :: 0 <= i < j < |at| ==> at[i] < at[j]
    ensures |at| <= Mapped(mapping)
    decreases |mapping|
  {
    if at != [] {
      assert at[|at| - 1] < |mapping|;
      var shorter := mapping[..|mapping| - 1];
      if at[|at| - 1] == |mapping| - 1 {
        MappedAtLeast(shorter, at[..|at| - 1]);
      } else {
        MappedAtLeast(shorter, at);
      }
    }
  }

  /** What the mapping holds once the equal lines in front and at the end and the matched lines
      between them are written. */
  ghost predicate IsAssembled(mapping: seq<Option<nat>>, oldLength: nat, p: nat, s: nat, pairs: seq<(nat, nat)>,
                              done: nat)
  {
    && done <= |pairs| && p + s <= |mapping| && p + s <= oldLength
    && (forall i :: 0 <= i < |pairs| ==> pairs[i].0 < oldLength - p - s && pairs[i].1 < |mapping| - p - s)
    && (forall i, j :: 0 <= i < j < |pairs| ==> pairs[i].0 < pairs[j].0 && pairs[i].1 < pairs[j].1)
    && (forall j :: 0 <= j < p ==> mapping[j] == Some(j))
    && (forall j :: |mapping| - s <= j < |mapping| ==> mapping[j] == Some(j + oldLength - |mapping|))
    && (forall i :: 0 <= i < done ==> mapping[p + pairs[i].1] == Some(p + pairs[i].0))
    && (forall j :: p <= j < |mapping| - s && mapping[j].Some? ==> IsPaired(pairs, done, j - p))
  }

  ghost predicate IsPaired(pairs: seq<(nat, nat)>, done: nat, y: int)
    requires done <= |pairs|
  {
    exists i :: 0 <= i < done && pairs[i].1 == y
  }

  lemma AssembledCount(mapping: seq<Option<nat>>, oldLength: nat, p: nat, s: nat, pairs: seq<(nat, nat)>)
    requires IsAssembled(mapping, oldLength, p, s, pairs, |pairs|)
    ensures p + s + |pairs| <= Mapped(mapping)
  {
    var n := |mapping|;
    var at: seq<nat> := seq(p + |pairs| + s, i requires 0 <= i < p + |pairs| + s =>
      if i < p then i else if i < p + |pairs| then p + pairs[i - p].1 else n - s + (i - p - |pairs|));
    MappedAtLeast(mapping, at);
  }

  lemma AssembledMiddle(mapping: seq<Option<nat>>, oldLength: nat, p: nat, s: nat, pairs: seq<(nat, nat)>, j: nat)
    returns (i: nat)
    requires IsAssembled(mapping, oldLength, p, s, pairs, |pairs|)
    requires p <= j < |mapping| - s && mapping[j].Some?
    ensures i < |pairs| && pairs[i].1 == j - p && mapping[j].value == p + pairs[i].0 < oldLength - s
  {
    assert IsPaired(pairs, |pairs|, j - p);
    i :| 0 <= i < |pairs| && pairs[i].1 == j - p;
    assert mapping[p + pairs[i].1] == Some(p + pairs[i].0);
  }

  lemma AssembledIncreases(mapping: seq<Option<nat>>, oldLength: nat, p: nat, s: nat, pairs: seq<(nat, nat)>,
                           j: nat, k: nat)
    requires IsAssembled(mapping, oldLength, p, s, pairs, |pairs|)
    requires j < k < |mapping| && mapping[j].Some? && mapping[k].Some?
    ensures mapping[j].value < mapping[k].value
  {
    if p <= j < |mapping| - s {
      var i := AssembledMiddle(mapping, oldLength, p, s, pairs, j);
      if k < |mapping| - s {
        var i' := AssembledMiddle(mapping, oldLength, p, s, pairs, k);
      }
    } else if p <= k < |mapping| - s {
      var i' := AssembledMiddle(mapping, oldLength, p, s, pairs, k);
    }
  }

  lemma AssembledIsEqual<T>(a: seq<T>, b: seq<T>, mapping: seq<Option<nat>>, p: nat, s: nat, pairs: seq<(nat, nat)>,
                            j: nat)
    requires |mapping| == |b| && IsAssembled(mapping, |a|, p, s, pairs, |pairs|)
    requires IsMatching(a[p..|a| - s], b[p..|b| - s], pairs)
    requires a[..p] == b[..p] && a[|a| - s..] == b[|b| - s..]
    requires j < |b| && mapping[j].Some?
    ensures mapping[j].value < |a| && a[mapping[j].value] == b[j]
  {
    if j < p {
      assert a[..p][j] == b[..p][j];
    } else if |b| - s <= j {
      assert a[|a| - s..][j - (|b| - s)] == b[|b| - s..][j - (|b| - s)];
    } else {
      var i := AssembledMiddle(mapping, |a|, p, s, pairs, j);
      assert a[p..|a| - s][pairs[i].0] == b[p..|b| - s][pairs[i].1];
    }
  }

  lemma AssembledIsSound<T>(a: seq<T>, b: seq<T>, mapping: seq<Option<nat>>, p: nat, s: nat, pairs: seq<(nat, nat)>)
    requires |mapping| == |b| && IsAssembled(mapping, |a|, p, s, pairs, |pairs|)
    requires IsMatching(a[p..|a| - s], b[p..|b| - s], pairs)
    requires a[..p] == b[..p] && a[|a| - s..] == b[|b| - s..]
    ensures IsSound(a, b, mapping)
  {
    forall j | 0 <= j < |mapping| && mapping[j].Some?
      ensures mapping[j].value < |a| && a[mapping[j].value] == b[j]
    {
      AssembledIsEqual(a, b, mapping, p, s, pairs, j);
    }
    forall j, k | 0 <= j < k < |mapping| && mapping[j].Some? && mapping[k].Some?
      ensures mapping[j].value < mapping[k].value
    {
      AssembledIncreases(mapping, |a|, p, s, pairs, j, k);
    }
  }

  /** Writing one more pair. */
  lemma AssembleOne(mapping: seq<Option<nat>>, oldLength: nat, p: nat, s: nat, pairs: seq<(nat, nat)>, i: nat)
    requires i < |pairs| && IsAssembled(mapping, oldLength, p, s, pairs, i)
    ensures IsAssembled(mapping[p + pairs[i].1 := Some(p + pairs[i].0)], oldLength, p, s, pairs, i + 1)
  {
    var after := mapping[p + pairs[i].1 := Some(p + pairs[i].0)];
    forall j | p <= j < |after| - s && after[j].Some?
      ensures IsPaired(pairs, i + 1, j - p)
    {
      if j == p + pairs[i].1 {
        assert pairs[i].1 == j - p;
      } else {
        assert mapping[j].Some?;
        assert IsPaired(pairs, i, j - p);
      }
    }
  }

  /** The mapping of the equal lines in front and at the end. */
  ghost predicate IsTrimmed(mapping: seq<Option<nat>>, oldLength: nat, p: nat, s: nat) {
    && p + s <= |mapping| && p + s <= oldLength
    && (forall j :: 0 <= j < p ==> mapping[j] == Some(j))
    && (forall j :: p <= j < |mapping| - s ==> mapping[j] == None)
    && (forall j :: |mapping| - s <= j < |mapping| ==> mapping[j] == Some(j + oldLength - |mapping|))
  }

  lemma Trimmed<T>(a: seq<T>, b: seq<T>, mapping: seq<Option<nat>>, p: nat, s: nat, pairs: seq<(nat, nat)>)
    requires |mapping| == |b| && IsTrimmed(mapping, |a|, p, s)
    requires IsMatching(a[p..|a| - s], b[p..|b| - s], pairs)
    ensures IsAssembled(mapping, |a|, p, s, pairs, 0)
  {
  }

  lemma MappingIsBest<T>(a: seq<T>, b: seq<T>, mapping: seq<Option<nat>>, p: nat, s: nat, pairs: seq<(nat, nat)>)
    requires |mapping| == |b| && IsAssembled(mapping, |a|, p, s, pairs, |pairs|)
    requires forall m :: IsMatching(a[p..|a| - s], b[p..|b| - s], m) ==> |m| <= |pairs|
    ensures forall m :: IsMatching(a, b, m) ==> |m| <= Mapped(mapping)
  {
    AssembledCount(mapping, |a|, p, s, pairs);
    forall m | IsMatching(a, b, m)
      ensures |m| <= Mapped(mapping)
    {
      TrimmedMatching(a, b, p, s, |pairs|, m);
    }
  }

  lemma NothingTrimmed(mapping: seq<Option<nat>>, oldLength: nat)
    requires forall j :: 0 <= j < |mapping| ==> mapping[j] == None
    ensures IsTrimmed(mapping, oldLength, 0, 0)
  {
  }

  lemma TrimFront(mapping: seq<Option<nat>>, oldLength: nat, p: nat)
    requires IsTrimmed(mapping, oldLength, p, 0) && p < |mapping| && p < oldLength
    ensures IsTrimmed(mapping[p := Some(p)], oldLength, p + 1, 0)
  {
  }

  lemma TrimEnd(mapping: seq<Option<nat>>, oldLength: nat, p: nat, s: nat)
    requires IsTrimmed(mapping, oldLength, p, s) && p + s < |mapping| && p + s < oldLength
    ensures IsTrimmed(mapping[|mapping| - 1 - s := Some(oldLength - 1 - s)], oldLength, p, s + 1)
  {
  }

  lemma LongerFront<T>(a: seq<T>, b: seq<T>, p: nat)
    requires p < |a| && p < |b| && a[..p] == b[..p] && a[p] == b[p]
    ensures a[..p + 1] == b[..p + 1]
  {
    assert a[..p + 1] == a[..p] + [a[p]] && b[..p + 1] == b[..p] + [b[p]];
  }

  lemma LongerEnd<T>(a: seq<T>, b: seq<T>, s: nat)
    requires s < |a| && s < |b| && a[|a| - s..] == b[|b| - s..] && a[|a| - 1 - s] == b[|b| - 1 - s]
    ensures a[|a| - (s + 1)..] == b[|b| - (s + 1)..]
  {
    assert a[|a| - (s + 1)..] == [a[|a| - 1 - s]] + a[|a| - s..];
    assert b[|b| - (s + 1)..] == [b[|b| - 1 - s]] + b[|b| - s..];
  }

  /** Map the equal lines in front and at the end. */
  method Trim<T(==)>(old_: seq<T>, new_: seq<T>, mapping: array<Option<nat>>) returns (prefix: nat, suffix: nat)
    requires mapping.Length == |new_| && forall j :: 0 <= j < mapping.Length ==> mapping[j] == None
    modifies mapping
    ensures prefix + suffix <= |old_| && prefix + suffix <= |new_| && IsTrimmed(mapping[..], |old_|, prefix, suffix)
    ensures old_[..prefix] == new_[..prefix] && old_[|old_| - suffix..] == new_[|new_| - suffix..]
  {
    hide IsTrimmed;
    prefix := 0;
    NothingTrimmed(mapping[..], |old_|);
    while prefix < |old_| && prefix < |new_| && old_[prefix] == new_[prefix]
      invariant prefix <= |old_| && prefix <= |new_| && IsTrimmed(mapping[..], |old_|, prefix, 0)
      invariant old_[..prefix] == new_[..prefix]
    {
      ghost var was := mapping[..];
      TrimFront(was, |old_|, prefix);
      LongerFront(old_, new_, prefix);
      mapping[prefix] := Some(prefix);
      assert mapping[..] == was[prefix := Some(prefix)];
      prefix := prefix + 1;
    }
    suffix := 0;
    while suffix < |old_| - prefix && suffix < |new_| - prefix
          && old_[|old_| - 1 - suffix] == new_[|new_| - 1 - suffix]
      invariant prefix + suffix <= |old_| && prefix + suffix <= |new_|
      invariant IsTrimmed(mapping[..], |old_|, prefix, suffix)
      invariant old_[|old_| - suffix..] == new_[|new_| - suffix..]
    {
      ghost var was := mapping[..];
      TrimEnd(was, |old_|, prefix, suffix);
      LongerEnd(old_, new_, suffix);
      mapping[|new_| - 1 - suffix] := Some(|old_| - 1 - suffix);
      assert mapping[..] == was[|new_| - 1 - suffix := Some(|old_| - 1 - suffix)];
      suffix := suffix + 1;
    }
  }

  /** The line of the old version each new line is equal to: sound, and mapping as many lines as
      any mapping can. */
  method MapLines<T(==, !new)>(old_: seq<T>, new_: seq<T>) returns (result: seq<Option<nat>>)
    ensures IsLongest(old_, new_, result)
  {
    var mapping: array<Option<nat>> := new Option<nat>[|new_|](_ => None);
    var prefix, suffix := Trim(old_, new_, mapping);
    var pairs := Myers(old_[prefix..|old_| - suffix], new_[prefix..|new_| - suffix]);
    Trimmed(old_, new_, mapping[..], prefix, suffix, pairs);
    for i := 0 to |pairs|
      invariant IsAssembled(mapping[..], |old_|, prefix, suffix, pairs, i)
    {
      AssembleOne(mapping[..], |old_|, prefix, suffix, pairs, i);
      mapping[prefix + pairs[i].1] := Some(prefix + pairs[i].0);
    }
    result := mapping[..];
    AssembledIsSound(old_, new_, result, prefix, suffix, pairs);
    MappingIsBest(old_, new_, result, prefix, suffix, pairs);
  }
}
