// src/hooks/enforce.rs, changed_line_ranges: the old lines a write touches.
module LineRanges {
  import Diff

  /** A 1-based inclusive range of old lines. */
  type Range = (nat, nat)

  /** One step of an edit script at old position i and new position j. */
  datatype Step = Keep | Replace | Delete | Insert

  datatype Option<+T> = None | Some(value: T)

  const TABLE_LIMIT := 1_500_000

  // ---------------------------------------------------------------- edit scripts

  function AfterOld(step: Step, i: nat): nat { if step.Insert? then i else i + 1 }

  function AfterNew(step: Step, j: nat): nat { if step.Delete? then j else j + 1 }

  /** The script turns old[i..] into new[j..]; a kept line is equal on both sides. */
  ghost predicate IsScript<T>(old_: seq<T>, new_: seq<T>, i: nat, j: nat, script: seq<Step>)
    decreases |script|
  {
    if script == [] then i == |old_| && j == |new_|
    else
      && (script[0].Insert? || i < |old_|)
      && (script[0].Delete? || j < |new_|)
      && (script[0].Keep? ==> old_[i] == new_[j])
      && IsScript(old_, new_, AfterOld(script[0], i), AfterNew(script[0], j), script[1..])
  }

  /** Some step other than Keep happens at 1-based old line `line`; an insertion happens at the old
      line that follows it. */
  ghost predicate Touches(script: seq<Step>, i: nat, line: nat)
    decreases |script|
  {
    script != [] && ((!script[0].Keep? && line == i + 1) || Touches(script[1..], AfterOld(script[0], i), line))
  }

  ghost predicate InRanges(ranges: seq<Range>, line: nat) {
    exists k :: 0 <= k < |ranges| && ranges[k].0 <= line <= ranges[k].1
  }

  ghost predicate IsOrdered(ranges: seq<Range>) {
    && (forall k :: 0 <= k < |ranges| ==> 1 <= ranges[k].0 <= ranges[k].1)
    && (forall k, l :: 0 <= k < l < |ranges| ==> ranges[k].1 < ranges[l].0)
  }

  /** What the ranges promise: they are ordered and disjoint, and are exactly the lines that some
      script turning old into new touches. */
  ghost predicate Covers<T>(old_: seq<T>, new_: seq<T>, ranges: seq<Range>) {
    && IsOrdered(ranges)
    && exists script :: IsScript(old_, new_, 0, 0, script) && TouchesExactly(script, ranges)
  }

  ghost predicate TouchesExactly(script: seq<Step>, ranges: seq<Range>) {
    forall line: nat :: InRanges(ranges, line) <==> Touches(script, 0, line)
  }

  // ---------------------------------------------------------------- the table and the walk

  function Max(x: nat, y: nat): nat { if x < y then y else x }

  /** Length of a longest common subsequence of old[i..] and new[j..]. */
  ghost function Score<T>(old_: seq<T>, new_: seq<T>, i: nat, j: nat): nat
    requires i <= |old_| && j <= |new_|
    decreases |old_| - i + |new_| - j
  {
    if i == |old_| || j == |new_| then 0
    else if old_[i] == new_[j] then Score(old_, new_, i + 1, j + 1) + 1
    else Max(Score(old_, new_, i + 1, j), Score(old_, new_, i, j + 1))
  }

  /** The step the walk takes; on equal scores it steps on both sides. */
  ghost function NextStep<T>(old_: seq<T>, new_: seq<T>, i: nat, j: nat): Step
    requires i <= |old_| && j <= |new_| && (i < |old_| || j < |new_|)
  {
    if i == |old_| then Insert
    else if j == |new_| then Delete
    else if old_[i] == new_[j] then Keep
    else
      var delete, insert := Score(old_, new_, i + 1, j), Score(old_, new_, i, j + 1);
      if delete == insert then Replace else if delete > insert then Delete else Insert
  }

  ghost function ScriptFrom<T>(old_: seq<T>, new_: seq<T>, i: nat, j: nat): (script: seq<Step>)
    requires i <= |old_| && j <= |new_|
    ensures IsScript(old_, new_, i, j, script)
    decreases |old_| - i + |new_| - j
  {
    if i == |old_| && j == |new_| then []
    else
      var step := NextStep(old_, new_, i, j);
      [step] + ScriptFrom(old_, new_, AfterOld(step, i), AfterNew(step, j))
  }

  /** The end of the open range after a step that changes something. */
  function Extend(step: Step, i: nat, end: nat): nat {
    if step.Insert? then Max(end, i + 1) else i + 1
  }

  function Close(start: Option<nat>, end: nat): seq<Range> {
    if start.Some? then [(start.value, Max(end, start.value))] else []
  }

  /** The ranges of a script from old position i, with a range possibly open since `start`. */
  ghost function RangesFrom(script: seq<Step>, i: nat, start: Option<nat>, end: nat): seq<Range>
    decreases |script|
  {
    if script == [] then Close(start, end)
    else if script[0].Keep? then Close(start, end) + RangesFrom(script[1..], i + 1, None, end)
    else
      RangesFrom(script[1..], AfterOld(script[0], i), Some(if start.Some? then start.value else i + 1),
                 Extend(script[0], i, end))
  }

  /** Maximal equal parts in front and, behind that, at the end. */
  ghost predicate AreCommonEnds<T>(old_: seq<T>, new_: seq<T>, prefix: nat, suffix: nat) {
    && prefix + suffix <= |old_| && prefix + suffix <= |new_|
    && old_[..prefix] == new_[..prefix] && old_[|old_| - suffix..] == new_[|new_| - suffix..]
    && (prefix < |old_| && prefix < |new_| ==> old_[prefix] != new_[prefix])
    && (prefix + suffix < |old_| && prefix + suffix < |new_| ==> old_[|old_| - suffix - 1] != new_[|new_| - suffix - 1])
  }

  /** The ranges of a change: those of the walk over the score table, or, when the table would be too large, the one
      between the common ends. */
  ghost predicate AreChanged<T>(old_: seq<T>, new_: seq<T>, changes: seq<Range>) {
    if old_ == new_ then changes == []
    else if (|old_| + 1) * (|new_| + 1) > TABLE_LIMIT then
      exists prefix, suffix :: AreCommonEnds(old_, new_, prefix, suffix) && changes == BetweenEnds(old_, prefix, suffix)
    else changes == RangesFrom(ScriptFrom(old_, new_, 0, 0), 0, None, 0)
  }

  function BetweenEnds<T>(old_: seq<T>, prefix: nat, suffix: nat): seq<Range> {
    [(prefix + 1, if |old_| - suffix < prefix + 1 then prefix + 1 else |old_| - suffix)]
  }

  // ---------------------------------------------------------------- proofs

  lemma InRangesCons(range: Range, ranges: seq<Range>, line: nat)
    ensures InRanges([range] + ranges, line) <==> range.0 <= line <= range.1 || InRanges(ranges, line)
  {
    var all := [range] + ranges;
    if range.0 <= line <= range.1 {
      assert all[0] == range;
    }
    if InRanges(ranges, line) {
      var k :| 0 <= k < |ranges| && ranges[k].0 <= line <= ranges[k].1;
      assert all[k + 1] == ranges[k];
    }
    if InRanges(all, line) {
      var k :| 0 <= k < |all| && all[k].0 <= line <= all[k].1;
      if k > 0 { assert ranges[k - 1] == all[k]; }
    }
  }

  /** The ranges of a script are exactly the lines it touches, plus what is already open. */
  lemma {:induction false} RangesAreExact(script: seq<Step>, i: nat, start: Option<nat>, end: nat, line: nat)
    requires end <= i + 1 && (start.Some? ==> start.value <= end && i <= end)
    ensures InRanges(RangesFrom(script, i, start, end), line)
            <==> (start.Some? && start.value <= line <= end) || Touches(script, i, line)
    decreases |script|
  {
    var open := Close(start, end);
    if script == [] {
      if start.Some? { InRangesCons(open[0], [], line); assert open == [open[0]] + []; }
    } else if script[0].Keep? {
      var rest := RangesFrom(script[1..], i + 1, None, end);
      RangesAreExact(script[1..], i + 1, None, end, line);
      if start.Some? { InRangesCons(open[0], rest, line); } else { assert open + rest == rest; }
    } else {
      var start' := Some(if start.Some? then start.value else i + 1);
      RangesAreExact(script[1..], AfterOld(script[0], i), start', Extend(script[0], i, end), line);
    }
  }

  lemma OrderedCons(range: Range, ranges: seq<Range>)
    requires 1 <= range.0 <= range.1 && IsOrdered(ranges)
    requires ranges != [] ==> range.1 < ranges[0].0
    ensures IsOrdered([range] + ranges)
  {
    var all := [range] + ranges;
    forall k, l | 0 <= k < l < |all|
      ensures all[k].1 < all[l].0
    {
      assert all[l] == ranges[l - 1];
      if k > 0 {
        assert all[k] == ranges[k - 1];
      } else if l > 1 {
        assert ranges[0].1 < ranges[l - 1].0;
      }
    }
  }

  lemma {:induction false} RangesAreOrdered(script: seq<Step>, i: nat, start: Option<nat>, end: nat)
    requires end <= i + 1 && (start.Some? ==> 1 <= start.value <= end && i <= end)
    ensures IsOrdered(RangesFrom(script, i, start, end))
    ensures var ranges := RangesFrom(script, i, start, end);
            ranges != [] ==> ranges[0].0 >= if start.Some? then start.value else i + 1
    decreases |script|
  {
    if script == [] {
    } else if script[0].Keep? {
      var rest := RangesFrom(script[1..], i + 1, None, end);
      RangesAreOrdered(script[1..], i + 1, None, end);
      if start.Some? {
        OrderedCons((start.value, end), rest);
      } else {
        assert RangesFrom(script, i, start, end) == rest;
      }
    } else {
      var start' := Some(if start.Some? then start.value else i + 1);
      RangesAreOrdered(script[1..], AfterOld(script[0], i), start', Extend(script[0], i, end));
    }
  }

  lemma ScriptCovers<T>(old_: seq<T>, new_: seq<T>, script: seq<Step>)
    requires IsScript(old_, new_, 0, 0, script)
    ensures Covers(old_, new_, RangesFrom(script, 0, None, 0))
  {
    RangesAreOrdered(script, 0, None, 0);
    forall line: nat
      ensures InRanges(RangesFrom(script, 0, None, 0), line) <==> Touches(script, 0, line)
    {
      RangesAreExact(script, 0, None, 0, line);
    }
    assert TouchesExactly(script, RangesFrom(script, 0, None, 0));
  }

  /** Ranges are empty exactly when nothing changes. */
  lemma {:induction false} UntouchedIsEqual<T>(old_: seq<T>, new_: seq<T>, i: nat, j: nat, script: seq<Step>)
    requires i <= |old_| && j <= |new_| && IsScript(old_, new_, i, j, script)
    requires forall line: nat :: !Touches(script, i, line)
    ensures old_[i..] == new_[j..]
    decreases |script|
  {
    if script != [] {
      assert !Touches(script, i, i + 1);
      forall line: nat
        ensures !Touches(script[1..], AfterOld(script[0], i), line)
      {
        assert !Touches(script, i, line);
      }
      UntouchedIsEqual(old_, new_, i + 1, j + 1, script[1..]);
      assert old_[i..] == [old_[i]] + old_[i + 1..];
      assert new_[j..] == [new_[j]] + new_[j + 1..];
    }
  }

  lemma {:induction false} TailIsKept<T>(old_: seq<T>, new_: seq<T>, i: nat, j: nat, script: seq<Step>, from: nat)
    requires i <= from <= |old_| && j <= |new_| && IsScript(old_, new_, i, j, script)
    requires forall line: nat :: Touches(script, i, line) ==> line <= from
    ensures |old_| - from <= |new_| - j && old_[from..] == new_[|new_| - (|old_| - from)..]
    decreases |script|
  {
    if i == from {
      forall line: nat
        ensures !Touches(script, i, line)
      {
        TouchedIsAhead(script, i, line);
      }
      UntouchedIsEqual(old_, new_, i, j, script);
    } else {
      var step := script[0];
      forall line: nat | Touches(script[1..], AfterOld(step, i), line)
        ensures line <= from
      {
        assert Touches(script, i, line);
      }
      TailIsKept(old_, new_, AfterOld(step, i), AfterNew(step, j), script[1..], from);
    }
  }

  lemma {:induction false} TouchedIsAhead(script: seq<Step>, i: nat, line: nat)
    ensures Touches(script, i, line) ==> line > i
    decreases |script|
  {
    if script != [] { TouchedIsAhead(script[1..], AfterOld(script[0], i), line); }
  }

  lemma {:induction false} HeadIsKept<T>(old_: seq<T>, new_: seq<T>, i: nat, script: seq<Step>, upTo: nat)
    requires i <= upTo <= |old_| && i <= |new_| && IsScript(old_, new_, i, i, script)
    requires old_[..i] == new_[..i]
    requires forall line: nat :: Touches(script, i, line) ==> line > upTo
    ensures upTo <= |new_| && old_[..upTo] == new_[..upTo]
    decreases |script|
  {
    if i < upTo {
      assert !Touches(script, i, i + 1);
      forall line: nat | Touches(script[1..], AfterOld(script[0], i), line)
        ensures line > upTo
      {
        assert Touches(script, i, line);
      }
      assert old_[..i + 1] == old_[..i] + [old_[i]];
      assert new_[..i + 1] == new_[..i] + [new_[i]];
      HeadIsKept(old_, new_, i + 1, script[1..], upTo);
    }
  }

  /** When every range lies strictly between lines a and b, everything up to line a and everything
      from line b on is kept. */
  lemma Confined<T>(old_: seq<T>, new_: seq<T>, ranges: seq<Range>, a: nat, b: nat)
    requires Covers(old_, new_, ranges) && 1 <= a < b <= |old_|
    requires forall k :: 0 <= k < |ranges| ==> a < ranges[k].0 && ranges[k].1 < b
    ensures a + (|old_| - (b - 1)) <= |new_|
    ensures old_[..a] == new_[..a]
    ensures old_[b - 1..] == new_[|new_| - (|old_| - (b - 1))..]
  {
    var script :| IsScript(old_, new_, 0, 0, script) && TouchesExactly(script, ranges);
    forall line: nat | Touches(script, 0, line)
      ensures a < line < b
    {
      assert InRanges(ranges, line);
    }
    HeadIsKept(old_, new_, 0, script, a);
    TailIsKept(old_, new_, 0, 0, script, b - 1);
    ConfinedLength(old_, new_, 0, script, a, b);
  }

  /** The kept lines in front and at the end do not overlap in the new version. */
  lemma {:induction false} ConfinedLength<T>(old_: seq<T>, new_: seq<T>, i: nat, script: seq<Step>, a: nat, b: nat)
    requires i <= a < b <= |old_| && i <= |new_| && IsScript(old_, new_, i, i, script)
    requires forall line: nat :: Touches(script, i, line) ==> a < line < b
    ensures a + (|old_| - (b - 1)) <= |new_|
    decreases |script|
  {
    if i == a {
      TailIsKept(old_, new_, i, i, script, b - 1);
    } else {
      assert !Touches(script, i, i + 1);
      forall line: nat | Touches(script[1..], AfterOld(script[0], i), line)
        ensures a < line < b
      {
        assert Touches(script, i, line);
      }
      ConfinedLength(old_, new_, i + 1, script[1..], a, b);
    }
  }

  /** The ranges are empty exactly when the line sequences are equal. */
  lemma EmptyIffEqual<T>(old_: seq<T>, new_: seq<T>, ranges: seq<Range>)
    requires Covers(old_, new_, ranges) && (old_ == new_ ==> ranges == [])
    ensures ranges == [] <==> old_ == new_
  {
    if ranges == [] {
      var script :| IsScript(old_, new_, 0, 0, script) && TouchesExactly(script, ranges);
      forall line: nat
        ensures !Touches(script, 0, line)
      {
        assert !InRanges(ranges, line);
      }
      UntouchedIsEqual(old_, new_, 0, 0, script);
      assert old_[0..] == old_ && new_[0..] == new_;
    }
  }

  // ---------------------------------------------------------------- the fallback

  function Repeat(step: Step, count: nat): (script: seq<Step>)
    ensures |script| == count && forall k :: 0 <= k < count ==> script[k] == step
  {
    seq(count, _ => step)
  }

  lemma {:induction false} KeepFirst<T>(old_: seq<T>, new_: seq<T>, i: nat, j: nat, count: nat, rest: seq<Step>)
    requires i + count <= |old_| && j + count <= |new_| && old_[i..i + count] == new_[j..j + count]
    requires IsScript(old_, new_, i + count, j + count, rest)
    ensures IsScript(old_, new_, i, j, Repeat(Keep, count) + rest)
    ensures forall line: nat :: Touches(Repeat(Keep, count) + rest, i, line) <==> Touches(rest, i + count, line)
    decreases count
  {
    if count == 0 {
      assert Repeat(Keep, count) + rest == rest;
    } else {
      assert old_[i..i + count][0] == new_[j..j + count][0];
      assert old_[i + 1..i + count] == old_[i..i + count][1..] && new_[j + 1..j + count] == new_[j..j + count][1..];
      KeepFirst(old_, new_, i + 1, j + 1, count - 1, rest);
      assert (Repeat(Keep, count) + rest)[1..] == Repeat(Keep, count - 1) + rest;
    }
  }

  lemma {:induction false} InsertFirst<T>(old_: seq<T>, new_: seq<T>, i: nat, j: nat, count: nat, rest: seq<Step>)
    requires i <= |old_| && j + count <= |new_| && IsScript(old_, new_, i, j + count, rest)
    ensures IsScript(old_, new_, i, j, Repeat(Insert, count) + rest)
    ensures forall line: nat :: Touches(Repeat(Insert, count) + rest, i, line)
                                <==> (count > 0 && line == i + 1) || Touches(rest, i, line)
    decreases count
  {
    if count == 0 {
      assert Repeat(Insert, count) + rest == rest;
    } else {
      InsertFirst(old_, new_, i, j + 1, count - 1, rest);
      assert (Repeat(Insert, count) + rest)[1..] == Repeat(Insert, count - 1) + rest;
    }
  }

  lemma {:induction false} DeleteFirst<T>(old_: seq<T>, new_: seq<T>, i: nat, j: nat, count: nat, rest: seq<Step>)
    requires i + count <= |old_| && j <= |new_| && IsScript(old_, new_, i + count, j, rest)
    ensures IsScript(old_, new_, i, j, Repeat(Delete, count) + rest)
    ensures forall line: nat :: Touches(Repeat(Delete, count) + rest, i, line)
                                <==> i < line <= i + count || Touches(rest, i + count, line)
    decreases count
  {
    if count == 0 {
      assert Repeat(Delete, count) + rest == rest;
    } else {
      DeleteFirst(old_, new_, i + 1, j, count - 1, rest);
      assert (Repeat(Delete, count) + rest)[1..] == Repeat(Delete, count - 1) + rest;
    }
  }

  /** A script for the middle and the end of the fallback: insert all new lines, delete all old ones. */
  lemma MiddleScript<T>(old_: seq<T>, new_: seq<T>, p: nat, s: nat) returns (script: seq<Step>)
    requires p + s <= |old_| && p + s <= |new_| && old_[|old_| - s..] == new_[|new_| - s..]
    ensures IsScript(old_, new_, p, p, script)
    ensures forall line: nat :: Touches(script, p, line)
                                <==> (|new_| - s > p && line == p + 1) || p < line <= |old_| - s
  {
    var o, n := |old_| - s, |new_| - s;
    assert old_[o..o + s] == old_[o..] && new_[n..n + s] == new_[n..];
    KeepFirst(old_, new_, o, n, s, []);
    var tail := Repeat(Keep, s) + [];
    DeleteFirst(old_, new_, p, n, o - p, tail);
    var deletes := Repeat(Delete, o - p) + tail;
    InsertFirst(old_, new_, p, p, n - p, deletes);
    script := Repeat(Insert, n - p) + deletes;
  }

  lemma SameEnds<T>(old_: seq<T>, new_: seq<T>, p: nat, s: nat)
    requires p + s <= |old_| && p + s <= |new_|
    requires old_[..p] == new_[..p] && old_[|old_| - s..] == new_[|new_| - s..]
    ensures p + s == |old_| == |new_| ==> old_ == new_
  {
    if p + s == |old_| == |new_| {
      assert old_ == old_[..p] + old_[|old_| - s..] && new_ == new_[..p] + new_[|new_| - s..];
    }
  }

  lemma FallbackCovers<T>(old_: seq<T>, new_: seq<T>, p: nat, s: nat)
    requires p + s <= |old_| && p + s <= |new_| && old_ != new_
    requires old_[..p] == new_[..p] && old_[|old_| - s..] == new_[|new_| - s..]
    ensures Covers(old_, new_, BetweenEnds(old_, p, s))
  {
    SameEnds(old_, new_, p, s);
    var middle := MiddleScript(old_, new_, p, s);
    assert old_[0..0 + p] == old_[..p] && new_[0..0 + p] == new_[..p];
    KeepFirst(old_, new_, 0, 0, p, middle);
    var ranges := [(p + 1, Max(|old_| - s, p + 1))];
    SingleRange(Repeat(Keep, p) + middle, ranges[0]);
  }

  lemma SingleRange(script: seq<Step>, range: Range)
    requires forall line: nat :: Touches(script, 0, line) <==> range.0 <= line <= range.1
    ensures TouchesExactly(script, [range])
  {
    forall line: nat
      ensures InRanges([range], line) <==> Touches(script, 0, line)
    {
      InRangesCons(range, [], line);
      assert [range] + [] == [range];
    }
  }

  // ---------------------------------------------------------------- the code

  /** Equal lines in front and at the end. */
  method CommonEnds<T(==)>(old_: seq<T>, new_: seq<T>) returns (prefix: nat, suffix: nat)
    ensures prefix + suffix <= |old_| && AreCommonEnds(old_, new_, prefix, suffix)
  {
    hide AreCommonEnds;
    prefix := 0;
    while prefix < |old_| && prefix < |new_| && old_[prefix] == new_[prefix]
      invariant prefix <= |old_| && prefix <= |new_| && old_[..prefix] == new_[..prefix]
    {
      prefix := prefix + 1;
    }
    suffix := 0;
    while suffix < |old_| - prefix && suffix < |new_| - prefix
          && old_[|old_| - suffix - 1] == new_[|new_| - suffix - 1]
      invariant prefix + suffix <= |old_| && prefix + suffix <= |new_|
      invariant old_[|old_| - suffix..] == new_[|new_| - suffix..]
    {
      OneMoreAtEnd(old_, suffix);
      OneMoreAtEnd(new_, suffix);
      suffix := suffix + 1;
    }
    EndsAreMaximal(old_, new_, prefix, suffix);
  }

  lemma OneMoreAtEnd<T>(lines: seq<T>, suffix: nat)
    requires suffix < |lines|
    ensures lines[|lines| - (suffix + 1)..] == [lines[|lines| - suffix - 1]] + lines[|lines| - suffix..]
  {
  }

  lemma EndsAreMaximal<T>(old_: seq<T>, new_: seq<T>, prefix: nat, suffix: nat)
    requires prefix + suffix <= |old_| && prefix + suffix <= |new_|
    requires old_[..prefix] == new_[..prefix] && old_[|old_| - suffix..] == new_[|new_| - suffix..]
    requires prefix < |old_| && prefix < |new_| ==> old_[prefix] != new_[prefix]
    requires suffix < |old_| - prefix && suffix < |new_| - prefix ==>
               old_[|old_| - suffix - 1] != new_[|new_| - suffix - 1]
    ensures AreCommonEnds(old_, new_, prefix, suffix)
  {
  }

  ghost predicate IsScoreTable<T>(old_: seq<T>, new_: seq<T>, lcs: array2<nat>)
    reads lcs
  {
    && lcs.Length0 == |old_| + 1 && lcs.Length1 == |new_| + 1
    && forall r, c :: 0 <= r <= |old_| && 0 <= c <= |new_| ==> lcs[r, c] == Score(old_, new_, r, c)
  }

  /** The table of scores. The source keeps it in one flat vector, row after row. */
  method ScoreTable<T(==)>(old_: seq<T>, new_: seq<T>) returns (lcs: array2<nat>)
    ensures fresh(lcs) && IsScoreTable(old_, new_, lcs)
  {
    lcs := new nat[|old_| + 1, |new_| + 1]((_, _) => 0);
    var i := |old_|;
    while i > 0
      invariant 0 <= i <= |old_|
      invariant forall r, c :: 0 <= r <= |old_| && 0 <= c <= |new_| ==>
                  lcs[r, c] == if r >= i then Score(old_, new_, r, c) else 0
    {
      i := i - 1;
      var j := |new_|;
      while j > 0
        invariant 0 <= j <= |new_|
        invariant forall r, c :: 0 <= r <= |old_| && 0 <= c <= |new_| ==>
                    lcs[r, c] == if r > i || (r == i && c >= j) then Score(old_, new_, r, c) else 0
      {
        j := j - 1;
        lcs[i, j] := if old_[i] == new_[j] then lcs[i + 1, j + 1] + 1 else Max(lcs[i + 1, j], lcs[i, j + 1]);
      }
    }
  }

  /** The ranges of a change are the lines that some script turning old into new touches. */
  lemma ChangedCover<T>(old_: seq<T>, new_: seq<T>, changes: seq<Range>)
    requires AreChanged(old_, new_, changes)
    ensures Covers(old_, new_, changes) && (changes == [] <==> old_ == new_)
  {
    hide Covers, ScriptFrom, RangesFrom;
    if old_ == new_ {
      NothingChanged(old_);
    } else if (|old_| + 1) * (|new_| + 1) > TABLE_LIMIT {
      var prefix, suffix :| AreCommonEnds(old_, new_, prefix, suffix) && changes == BetweenEnds(old_, prefix, suffix);
      FallbackCovers(old_, new_, prefix, suffix);
    } else {
      ScriptCovers(old_, new_, ScriptFrom(old_, new_, 0, 0));
      EmptyIffEqual(old_, new_, changes);
    }
  }

  lemma NothingChanged<T>(lines: seq<T>)
    ensures Covers(lines, lines, [])
  {
    KeepFirst(lines, lines, 0, 0, |lines|, []);
    var script := Repeat(Keep, |lines|) + [];
    assert TouchesExactly(script, []);
  }

  /** The old lines a change touches: one range per run of steps of the walk over the score table,
      or a single range when the table would be too large. */
  method ChangedLineRanges<T(==)>(old_: seq<T>, new_: seq<T>) returns (changes: seq<Range>)
    ensures AreChanged(old_, new_, changes)
    ensures Covers(old_, new_, changes) && (changes == [] <==> old_ == new_)
  {
    hide Covers, ScriptFrom, RangesFrom, AreCommonEnds;
    if old_ == new_ {
      changes := [];
    } else if (|old_| + 1) * (|new_| + 1) > TABLE_LIMIT {
      var prefix, suffix := CommonEnds(old_, new_);
      changes := [(prefix + 1, Max(|old_| - suffix, prefix + 1))];
    } else {
      var lcs := ScoreTable(old_, new_);
      changes := Walk(old_, new_, lcs);
    }
    ChangedCover(old_, new_, changes);
  }

  /** The ranges the walk still produces from (i, j). */
  ghost function Remaining<T>(old_: seq<T>, new_: seq<T>, i: nat, j: nat, start: Option<nat>, end: nat): seq<Range>
    requires i <= |old_| && j <= |new_|
  {
    RangesFrom(ScriptFrom(old_, new_, i, j), i, start, end)
  }

  /** One iteration of the walk. */
  lemma UnfoldWalk<T>(old_: seq<T>, new_: seq<T>, i: nat, j: nat, start: Option<nat>, end: nat)
    requires i <= |old_| && j <= |new_| && (i < |old_| || j < |new_|)
    ensures var step := NextStep(old_, new_, i, j);
            Remaining(old_, new_, i, j, start, end)
            == if step.Keep? then Close(start, end) + Remaining(old_, new_, i + 1, j + 1, None, end)
               else Remaining(old_, new_, AfterOld(step, i), AfterNew(step, j),
                              Some(if start.Some? then start.value else i + 1), Extend(step, i, end))
  {
    var step := NextStep(old_, new_, i, j);
    var rest := ScriptFrom(old_, new_, AfterOld(step, i), AfterNew(step, j));
    assert ([step] + rest)[1..] == rest;
  }

  /** A step of the walk that changes something. */
  method Change<T(==)>(old_: seq<T>, new_: seq<T>, lcs: array2<nat>, i: nat, j: nat, end: nat)
    returns (i': nat, j': nat, changedEnd: nat)
    requires i <= |old_| && j <= |new_| && (i < |old_| || j < |new_|)
    requires i < |old_| && j < |new_| ==> old_[i] != new_[j]
    requires IsScoreTable(old_, new_, lcs)
    ensures var step := NextStep(old_, new_, i, j);
            !step.Keep? && i' == AfterOld(step, i) && j' == AfterNew(step, j) && changedEnd == Extend(step, i, end)
  {
    var at := i + 1;
    if i < |old_| && j < |new_| {
      var deleteScore, insertScore := lcs[i + 1, j], lcs[i, j + 1];
      if deleteScore == insertScore {
        return i + 1, j + 1, i + 1;
      } else if deleteScore > insertScore {
        return i + 1, j, i + 1;
      } else {
        return i, j + 1, Max(end, at);
      }
    } else if i < |old_| {
      return i + 1, j, i + 1;
    } else {
      return i, j + 1, Max(end, at);
    }
  }

  /** The walk over the score table. */
  method Walk<T(==)>(old_: seq<T>, new_: seq<T>, lcs: array2<nat>) returns (changes: seq<Range>)
    requires IsScoreTable(old_, new_, lcs)
    ensures changes == RangesFrom(ScriptFrom(old_, new_, 0, 0), 0, None, 0)
  {
    hide ScriptFrom, Extend;
    var i: nat, j: nat, changedEnd: nat := 0, 0, 0;
    changes := [];
    var changedStart: Option<nat> := None;
    ghost var all := Remaining(old_, new_, 0, 0, None, 0);
    while i < |old_| || j < |new_|
      invariant i <= |old_| && j <= |new_|
      invariant all == changes + Remaining(old_, new_, i, j, changedStart, changedEnd)
      decreases |old_| - i + |new_| - j
    {
      UnfoldWalk(old_, new_, i, j, changedStart, changedEnd);
      if i < |old_| && j < |new_| && old_[i] == new_[j] {
        ghost var rest := Remaining(old_, new_, i + 1, j + 1, None, changedEnd);
        assert all == (changes + Close(changedStart, changedEnd)) + rest;
        if changedStart.Some? {
          changes := changes + [(changedStart.value, Max(changedEnd, changedStart.value))];
          changedStart := None;
        }
        i := i + 1;
        j := j + 1;
        assert all == changes + rest;
      } else {
        if changedStart == None { changedStart := Some(i + 1); }
        i, j, changedEnd := Change(old_, new_, lcs, i, j, changedEnd);
      }
    }
    if changedStart.Some? {
      changes := changes + [(changedStart.value, Max(changedEnd, changedStart.value))];
    }
  }

  // ---------------------------------------------------------------- what the walk promises

  /** No common subsequence of old[i..] and new[j..] is longer than the score. */
  lemma {:induction false} ScoreIsUpperBound<T>(old_: seq<T>, new_: seq<T>, i: nat, j: nat, m: seq<(nat, nat)>)
    requires i <= |old_| && j <= |new_| && Diff.IsMatching(old_, new_, m)
    requires forall k :: 0 <= k < |m| ==> i <= m[k].0 && j <= m[k].1
    ensures |m| <= Score(old_, new_, i, j)
    decreases |old_| - i + |new_| - j
  {
    if m != [] {
      ScoreGrowsSlowly(old_, new_, i, j);
      if m[0].0 > i {
        ScoreIsUpperBound(old_, new_, i + 1, j, m);
      } else if m[0].1 > j {
        ScoreIsUpperBound(old_, new_, i, j + 1, m);
      } else {
        ScoreIsUpperBound(old_, new_, i + 1, j + 1, m[1..]);
      }
    }
  }

  lemma {:induction false} ScoreGrowsSlowly<T>(old_: seq<T>, new_: seq<T>, i: nat, j: nat)
    requires i <= |old_| && j <= |new_|
    ensures i < |old_| ==> Score(old_, new_, i + 1, j) <= Score(old_, new_, i, j) <= Score(old_, new_, i + 1, j) + 1
    ensures j < |new_| ==> Score(old_, new_, i, j + 1) <= Score(old_, new_, i, j) <= Score(old_, new_, i, j + 1) + 1
    decreases |old_| - i + |new_| - j
  {
    if i < |old_| { ScoreGrowsSlowly(old_, new_, i + 1, j); }
    if j < |new_| { ScoreGrowsSlowly(old_, new_, i, j + 1); }
  }

  function Count(script: seq<Step>, step: Step): nat {
    if script == [] then 0 else Count(script[1..], step) + if script[0] == step then 1 else 0
  }

  /** The walk gives up lines of a longest common subsequence only where it replaces a line. */
  lemma {:induction false} WalkLosesByReplacing<T>(old_: seq<T>, new_: seq<T>, i: nat, j: nat)
    requires i <= |old_| && j <= |new_|
    ensures var script := ScriptFrom(old_, new_, i, j);
            Count(script, Keep) <= Score(old_, new_, i, j) <= Count(script, Keep) + Count(script, Replace)
    decreases |old_| - i + |new_| - j
  {
    if i < |old_| || j < |new_| {
      var step := NextStep(old_, new_, i, j);
      var script, rest := ScriptFrom(old_, new_, i, j), ScriptFrom(old_, new_, AfterOld(step, i), AfterNew(step, j));
      assert script[1..] == rest;
      WalkLosesByReplacing(old_, new_, AfterOld(step, i), AfterNew(step, j));
      StepScores(old_, new_, i, j);
    }
  }

  lemma StepScores<T>(old_: seq<T>, new_: seq<T>, i: nat, j: nat)
    requires i <= |old_| && j <= |new_| && (i < |old_| || j < |new_|)
    ensures var step := NextStep(old_, new_, i, j);
            var before, after := Score(old_, new_, i, j), Score(old_, new_, AfterOld(step, i), AfterNew(step, j));
            match step
            case Keep => before == after + 1
            case Replace => after <= before <= after + 1
            case Delete => before == after
            case Insert => before == after
  {
    ScoreGrowsSlowly(old_, new_, i, j);
    if i < |old_| && j < |new_| { ScoreGrowsSlowly(old_, new_, i + 1, j); }
  }

  /** A line is replaced only where dropping the old one and adding the new one leave equally long common subsequences,
      and nothing is changed where the lines are equal. */
  lemma {:induction false} WalkStep<T>(old_: seq<T>, new_: seq<T>, i: nat, j: nat)
    requires i < |old_| && j < |new_|
    ensures var step, dropped, added := ScriptFrom(old_, new_, i, j)[0], Score(old_, new_, i + 1, j),
                Score(old_, new_, i, j + 1);
            && (step.Keep? <==> old_[i] == new_[j])
            && (old_[i] != new_[j] ==>
                  && (step.Delete? <==> dropped > added) && (step.Insert? <==> added > dropped)
                  && (step.Replace? <==> added == dropped))
  {
  }

  /** The first range begins at the first line that differs. */
  lemma FirstChange<T>(old_: seq<T>, new_: seq<T>, changes: seq<Range>, p: nat)
    requires AreChanged(old_, new_, changes) && old_ != new_ && p <= |old_| && p <= |new_| && old_[..p] == new_[..p]
    requires p < |old_| && p < |new_| ==> old_[p] != new_[p]
    ensures changes != [] && changes[0].0 == p + 1
  {
    if (|old_| + 1) * (|new_| + 1) > TABLE_LIMIT {
      var prefix, suffix :| AreCommonEnds(old_, new_, prefix, suffix) && changes == BetweenEnds(old_, prefix, suffix);
      SameFront(old_, new_, p, prefix);
    } else {
      FrontIsKept(old_, new_, 0, p);
      ChangeStarts(old_, new_, p);
    }
  }

  lemma SameFront<T>(old_: seq<T>, new_: seq<T>, p: nat, q: nat)
    requires p <= |old_| && p <= |new_| && q <= |old_| && q <= |new_|
    requires old_[..p] == new_[..p] && (p < |old_| && p < |new_| ==> old_[p] != new_[p])
    requires old_[..q] == new_[..q] && (q < |old_| && q < |new_| ==> old_[q] != new_[q])
    ensures p == q
  {
    assert forall k :: 0 <= k < p ==> old_[..p][k] == old_[k] && new_[..p][k] == new_[k];
    assert forall k :: 0 <= k < q ==> old_[..q][k] == old_[k] && new_[..q][k] == new_[k];
  }

  lemma {:induction false} FrontIsKept<T>(old_: seq<T>, new_: seq<T>, i: nat, p: nat)
    requires i <= p <= |old_| && p <= |new_| && old_[..p] == new_[..p]
    ensures RangesFrom(ScriptFrom(old_, new_, i, i), i, None, 0) == RangesFrom(ScriptFrom(old_, new_, p, p), p, None, 0)
    decreases p - i
  {
    if i < p {
      assert old_[..p][i] == new_[..p][i];
      FrontIsKept(old_, new_, i + 1, p);
      assert ([Keep] + ScriptFrom(old_, new_, i + 1, i + 1))[1..] == ScriptFrom(old_, new_, i + 1, i + 1);
    }
  }

  lemma ChangeStarts<T>(old_: seq<T>, new_: seq<T>, p: nat)
    requires p <= |old_| && p <= |new_| && (p < |old_| || p < |new_|)
    requires p < |old_| && p < |new_| ==> old_[p] != new_[p]
    ensures var ranges := RangesFrom(ScriptFrom(old_, new_, p, p), p, None, 0);
            ranges != [] && ranges[0].0 == p + 1
  {
    var step := NextStep(old_, new_, p, p);
    var rest := ScriptFrom(old_, new_, AfterOld(step, p), AfterNew(step, p));
    assert ([step] + rest)[1..] == rest;
    OpenRangeStarts(rest, AfterOld(step, p), p + 1, Extend(step, p, 0));
  }

  lemma {:induction false} OpenRangeStarts(script: seq<Step>, i: nat, start: nat, end: nat)
    ensures var ranges := RangesFrom(script, i, Some(start), end);
            ranges != [] && ranges[0].0 == start
  {
    if script != [] {
      if !script[0].Keep? {
        OpenRangeStarts(script[1..], AfterOld(script[0], i), start, Extend(script[0], i, end));
      }
    }
  }

  lemma {:induction false} ScoreIsBounded<T>(old_: seq<T>, new_: seq<T>, i: nat, j: nat)
    requires i <= |old_| && j <= |new_|
    ensures Score(old_, new_, i, j) <= |old_| - i && Score(old_, new_, i, j) <= |new_| - j
    decreases |old_| - i + |new_| - j
  {
    if i < |old_| && j < |new_| {
      ScoreIsBounded(old_, new_, i + 1, j + 1);
      ScoreIsBounded(old_, new_, i + 1, j);
      ScoreIsBounded(old_, new_, i, j + 1);
    }
  }

  /** Behind the last difference every line is kept. */
  lemma {:induction false} RestIsKept<T>(old_: seq<T>, new_: seq<T>, i: nat, end: nat)
    requires i <= |old_| == |new_| && forall k :: i <= k < |old_| ==> old_[k] == new_[k]
    ensures Score(old_, new_, i, i) == |old_| - i
    ensures RangesFrom(ScriptFrom(old_, new_, i, i), i, None, end) == []
    decreases |old_| - i
  {
    if i < |old_| {
      RestIsKept(old_, new_, i + 1, end);
      assert ([Keep] + ScriptFrom(old_, new_, i + 1, i + 1))[1..] == ScriptFrom(old_, new_, i + 1, i + 1);
    }
  }

  /** A change of one line touches that line and no other. */
  lemma OneReplaced<T>(old_: seq<T>, new_: seq<T>, n: nat)
    requires |old_| == |new_| && n < |old_| && old_[n] != new_[n]
    requires forall k :: 0 <= k < |old_| && k != n ==> old_[k] == new_[k]
    ensures AreChanged(old_, new_, [(n + 1, n + 1)])
  {
    if (|old_| + 1) * (|new_| + 1) > TABLE_LIMIT {
      assert AreCommonEnds(old_, new_, n, |old_| - n - 1);
    } else {
      FrontIsKept(old_, new_, 0, n);
      ReplacedThere(old_, new_, n);
    }
  }

  lemma ReplacedThere<T>(old_: seq<T>, new_: seq<T>, n: nat)
    requires n < |old_| == |new_| && old_[n] != new_[n] && forall k :: n < k < |old_| ==> old_[k] == new_[k]
    ensures RangesFrom(ScriptFrom(old_, new_, n, n), n, None, 0) == [(n + 1, n + 1)]
  {
    RestIsKept(old_, new_, n + 1, 0);
    ScoreGrowsSlowly(old_, new_, n + 1, n);
    ScoreGrowsSlowly(old_, new_, n, n + 1);
    ScoreIsBounded(old_, new_, n + 1, n);
    ScoreIsBounded(old_, new_, n, n + 1);
    assert NextStep(old_, new_, n, n) == Replace;
    var rest := ScriptFrom(old_, new_, n + 1, n + 1);
    assert ([Replace] + rest)[1..] == rest;
    if n + 1 < |old_| {
      var last := ScriptFrom(old_, new_, n + 2, n + 2);
      assert ([Keep] + last)[1..] == last;
      RestIsKept(old_, new_, n + 2, n + 1);
    }
  }

  /** Every changed line is replaced by one that occurs nowhere in the old text, and occurs nowhere in the new one. */
  ghost predicate AreReplaced<T>(old_: seq<T>, new_: seq<T>) {
    && |old_| == |new_|
    && forall k :: 0 <= k < |old_| ==> old_[k] == new_[k] || (old_[k] !in new_ && new_[k] !in old_)
  }

  lemma {:induction false} ForeignNew<T>(old_: seq<T>, new_: seq<T>, i: nat, j: nat)
    requires i <= |old_| && j < |new_| && new_[j] !in old_
    ensures Score(old_, new_, i, j) == Score(old_, new_, i, j + 1)
    decreases |old_| - i
  {
    if i < |old_| {
      ForeignNew(old_, new_, i + 1, j);
      ScoreGrowsSlowly(old_, new_, i, j + 1);
    }
  }

  lemma {:induction false} ForeignOld<T>(old_: seq<T>, new_: seq<T>, i: nat, j: nat)
    requires i < |old_| && j <= |new_| && old_[i] !in new_
    ensures Score(old_, new_, i, j) == Score(old_, new_, i + 1, j)
    decreases |new_| - j
  {
    if j < |new_| {
      ForeignOld(old_, new_, i, j + 1);
      ScoreGrowsSlowly(old_, new_, i + 1, j);
    }
  }

  lemma {:induction false} ReplacedAreTouched<T>(old_: seq<T>, new_: seq<T>, i: nat, line: nat)
    requires AreReplaced(old_, new_) && i <= |old_|
    ensures Touches(ScriptFrom(old_, new_, i, i), i, line)
            <==> i < line <= |old_| && old_[line - 1] != new_[line - 1]
    decreases |old_| - i
  {
    if i < |old_| {
      hide AreReplaced, Score, ScriptFrom, Touches, NextStep;
      ReplacedAreTouched(old_, new_, i + 1, line);
      ReplacedStep(old_, new_, i);
      StepTouches(NextStep(old_, new_, i, i), ScriptFrom(old_, new_, i + 1, i + 1), i, line);
    } else {
      assert ScriptFrom(old_, new_, i, i) == [];
    }
  }

  lemma ReplacedStep<T>(old_: seq<T>, new_: seq<T>, i: nat)
    requires AreReplaced(old_, new_) && i < |old_|
    ensures NextStep(old_, new_, i, i) == if old_[i] == new_[i] then Keep else Replace
    ensures ScriptFrom(old_, new_, i, i) == [NextStep(old_, new_, i, i)] + ScriptFrom(old_, new_, i + 1, i + 1)
  {
    hide Score;
    if old_[i] != new_[i] {
      ForeignNew(old_, new_, i + 1, i);
      ForeignOld(old_, new_, i, i + 1);
    }
  }

  lemma StepTouches(step: Step, rest: seq<Step>, i: nat, line: nat)
    ensures Touches([step] + rest, i, line) <==> (!step.Keep? && line == i + 1) || Touches(rest, AfterOld(step, i), line)
  {
    assert ([step] + rest)[1..] == rest;
  }

  /** Then exactly the changed lines are in the ranges, however many there are and wherever they are, as long as the
      table is used. */
  lemma ReplacedAreExact<T>(old_: seq<T>, new_: seq<T>, changes: seq<Range>, line: nat)
    requires AreChanged(old_, new_, changes) && AreReplaced(old_, new_)
    requires (|old_| + 1) * (|new_| + 1) <= TABLE_LIMIT
    ensures InRanges(changes, line) <==> 0 < line <= |old_| && old_[line - 1] != new_[line - 1]
  {
    hide ScriptFrom, RangesFrom, Touches, InRanges;
    if old_ == new_ {
      NoRanges(line);
    } else {
      ReplacedAreTouched(old_, new_, 0, line);
      RangesAreExact(ScriptFrom(old_, new_, 0, 0), 0, None, 0, line);
    }
  }

  lemma NoRanges(line: nat)
    ensures !InRanges([], line)
  {
  }
}
