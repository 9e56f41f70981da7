// A preserved selection that holds exactly its checkpoint content also passes the comparison outside
// its nested targets, when those sit at their own places in it.
module Alignment {
  import opened Anchors
  import opened Markers
  import opened Nesting
  import opened Tracker
  import opened Guard
  import opened Verify

  // ---------------------------------------------------------------- line endings

  function Chop(x: string): string { if x != "" && x[|x| - 1] == '\r' then x[..|x| - 1] else x }

  lemma {:induction false} NormalizeAppend(x: string, y: string)
    requires x == "" || IsClosed(x)
    ensures Normalize(x + y) == Normalize(x) + Normalize(y)
    decreases |x|
  {
    if x == "" {
      assert x + y == y;
    } else if x[0] == '\r' && |x| > 1 && x[1] == '\n' {
      assert (x + y)[2..] == x[2..] + y;
      NormalizeAppend(x[2..], y);
    } else {
      assert (x + y)[1..] == x[1..] + y;
      NormalizeAppend(x[1..], y);
    }
  }

  lemma {:induction false} NormalizeLine(x: string)
    requires IsOneLine(x)
    ensures Normalize(x + "\n") == Chop(x) + "\n"
    decreases |x|
  {
    var s := x + "\n";
    if |x| > 1 {
      assert s[1..] == x[1..] + "\n";
      NormalizeLine(x[1..]);
      assert s[1] == x[1];
      assert Chop(x) == [x[0]] + Chop(x[1..]);
      assert Normalize(s) == [s[0]] + Normalize(s[1..]);
    } else {
      NormalizeShort(x);
    }
  }

  lemma NormalizeShort(x: string)
    requires |x| <= 1 && IsOneLine(x)
    ensures Normalize(x + "\n") == Chop(x) + "\n"
  {
    var s := x + "\n";
    assert Normalize("\n") == "\n" by { assert "\n"[1..] == ""; }
    if x == "" {
      assert s == "\n";
    } else if x == "\r" {
      assert s[2..] == "";
    } else {
      assert s[1..] == "\n";
    }
  }

  /** A line that ends with three carriage returns loses one more at the checkpoint than now. */
  predicate IsPlainEnding(segment: string) { !EndsWith(segment, "\r\r\r\n") }

  lemma ContentChops(x: string)
    requires forall i :: 0 <= i < |x| ==> x[i] != '\n'
    ensures IsSegment(x + "\n") && IsClosed(x + "\n") && Content(x + "\n") == Chop(x) && PlainLine(x + "\n") == Chop(x)
    ensures forall i :: 0 <= i < |Chop(x)| ==> Chop(x)[i] != '\n'
  {
    assert (x + "\n")[..|x|] == x;
  }

  /** What the lines of both comparisons are, once normalized. */
  lemma LineNormalizes(segment: string, y: string, z: string)
    requires IsSegment(segment) && IsClosed(segment) && y == Chop(segment[..|segment| - 1]) && z == Chop(y)
    ensures Normalize(segment) == y + "\n" && Content(segment) == y && PlainLine(y + "\n") == z && IsOneLine(y)
            && IsOneLine(z)
    ensures Normalize(y + "\n") == z + "\n" && Normalize(z + "\n") == Chop(z) + "\n"
  {
    var x := segment[..|segment| - 1];
    assert segment == x + "\n";
    ContentChops(x);
    ContentChops(y);
    NormalizeLine(x);
    NormalizeLine(y);
    NormalizeLine(z);
  }

  lemma NormalizedIsLine(segment: string)
    requires IsSegment(segment) && IsClosed(segment)
    ensures IsSegment(Normalize(segment)) && IsClosed(Normalize(segment))
  {
    var y := Chop(segment[..|segment| - 1]);
    LineNormalizes(segment, y, Chop(y));
  }

  /** A line of the content and the same line of the checkpoint content compare equal exactly when the line does not end
      with three carriage returns. */
  lemma LineCompares(segment: string)
    requires IsSegment(segment) && IsClosed(segment)
    ensures Normalize(Content(segment) + "\n") == Normalize(PlainLine(Normalize(segment)) + "\n")
            <==> IsPlainEnding(segment)
  {
    hide IsSegment;
    var x := segment[..|segment| - 1];
    var y := Chop(x);
    var z := Chop(y);
    LineNormalizes(segment, y, z);
    SameEnding(Chop(z), z);
    ThreeReturns(x, z);
    assert segment == x + "\n";
  }

  lemma SameEnding(p: string, q: string)
    ensures p + "\n" == q + "\n" <==> p == q
  {
    if p + "\n" == q + "\n" { assert p == (p + "\n")[..|p|] && q == (q + "\n")[..|q|]; }
  }

  lemma ThreeReturns(x: string, z: string)
    requires z == Chop(Chop(x))
    ensures Chop(z) != z <==> EndsWith(x + "\n", "\r\r\r\n")
  {
    if Chop(z) != z {
      assert (x + "\n")[|x| - 3..] == "\r\r\r\n";
    }
    if EndsWith(x + "\n", "\r\r\r\n") {
      var tail := (x + "\n")[|x| - 3..];
      assert tail[0] == x[|x| - 3] && tail[1] == x[|x| - 2] && tail[2] == x[|x| - 1];
    }
  }

  // ---------------------------------------------------------------- the kept lines

  function KeptSegments(segments: seq<string>, from: nat, upTo: nat, drop: set<nat>): seq<string>
    requires from <= upTo <= |segments|
    decreases upTo
  {
    if from == upTo then []
    else KeptSegments(segments, from, upTo - 1, drop) + if upTo in drop then [] else [segments[upTo - 1]]
  }

  function NormalizeAll(segments: seq<string>): seq<string> {
    if segments == [] then [] else NormalizeAll(segments[..|segments| - 1]) + [Normalize(segments[|segments| - 1])]
  }

  lemma {:induction false} JoinKept(segments: seq<string>, from: nat, upTo: nat, drop: set<nat>)
    requires from <= upTo <= |segments|
    ensures Join(KeptSegments(segments, from, upTo, drop)) == KeepLines(segments, from, upTo, drop)
    decreases upTo
  {
    if from < upTo {
      JoinKept(segments, from, upTo - 1, drop);
      if upTo !in drop {
        JoinAppend(KeptSegments(segments, from, upTo - 1, drop), [segments[upTo - 1]]);
        assert Join([segments[upTo - 1]]) == segments[upTo - 1];
      } else {
        assert KeptSegments(segments, from, upTo - 1, drop) + [] == KeptSegments(segments, from, upTo - 1, drop);
      }
    }
  }

  ghost predicate AreClosed(segments: seq<string>) {
    forall i :: 0 <= i < |segments| ==> IsSegment(segments[i]) && IsClosed(segments[i])
  }

  /** Normalizing lines one by one. */
  lemma {:induction false} NormalizeJoin(segments: seq<string>)
    requires AreClosed(segments)
    ensures Normalize(Join(segments)) == Join(NormalizeAll(segments)) && |NormalizeAll(segments)| == |segments|
    ensures forall i :: 0 <= i < |segments| ==>
              IsSegment(NormalizeAll(segments)[i]) && IsClosed(NormalizeAll(segments)[i])
    ensures Join(segments) == "" || IsClosed(Join(segments))
  {
    hide IsSegment;
    if segments != [] {
      var rest, last := segments[..|segments| - 1], segments[|segments| - 1];
      NormalizeJoin(rest);
      assert segments == rest + [last];
      JoinAppend(rest, [last]);
      assert Join([last]) == last;
      NormalizeAppend(Join(rest), last);
      JoinAppend(NormalizeAll(rest), [Normalize(last)]);
      assert Join([Normalize(last)]) == Normalize(last);
      NormalizedIsLine(last);
    }
  }

  /** The lines of the checkpoint content are the kept lines, normalized. */
  lemma ContentLines(segments: seq<string>)
    requires AreClosed(segments)
    ensures Segments(NormalizeContent(Join(segments))) == NormalizeAll(segments)
  {
    NormalizeJoin(segments);
    JoinSegments(NormalizeAll(segments));
    var text := Join(NormalizeAll(segments));
    assert text == "" || IsClosed(text) by {
      ClosedJoin(NormalizeAll(segments));
    }
  }

  lemma {:induction false} ClosedJoin(segments: seq<string>)
    requires forall i :: 0 <= i < |segments| ==> IsClosed(segments[i])
    ensures Join(segments) == "" || IsClosed(Join(segments))
  {
    if segments != [] { ClosedJoin(segments[1..]); }
  }

  // ---------------------------------------------------------------- both comparisons, line by line

  lemma {:induction false} BaselineOfPrefix(lines: seq<string>, line: string, first: nat, nested: seq<Nested>, n: nat)
    requires n <= |lines|
    ensures BaselineOutside(lines + [line], first, nested, n) == BaselineOutside(lines, first, nested, n)
  {
    if n > 0 { BaselineOfPrefix(lines, line, first, nested, n - 1); }
  }

  /** The checkpoint lines of the kept lines. */
  function BaseLines(kept: seq<string>): seq<string> { PlainLines(NormalizeAll(kept)) }

  lemma BaseLinesStep(kept: seq<string>, segment: string)
    ensures BaseLines(kept + [segment]) == BaseLines(kept) + [PlainLine(Normalize(segment))]
  {
    assert (kept + [segment])[..|kept|] == kept;
    var all := NormalizeAll(kept);
    assert (all + [Normalize(segment)])[..|all|] == all;
  }

  lemma {:induction false} BaseLinesLength(kept: seq<string>)
    ensures |BaseLines(kept)| == |kept| && |NormalizeAll(kept)| == |kept|
  {
    hide PlainLine;
    if kept != [] {
      BaseLinesLength(kept[..|kept| - 1]);
      BaseLinesStep(kept[..|kept| - 1], kept[|kept| - 1]);
      assert kept == kept[..|kept| - 1] + [kept[|kept| - 1]];
    }
  }

  /** The state of both comparisons after the line `upTo`. */
  datatype Compared = Compared(now: string, then_: string)

  function Compare(segments: seq<string>, markers: seq<Marker>, nested: seq<Nested>, first: nat, drop: set<nat>,
                   from: nat, upTo: nat): Compared
    requires from <= upTo <= |segments|
  {
    var lines := BaseLines(KeptSegments(segments, from, upTo, drop));
    Compared(Outside(segments, markers, nested, from, upTo), BaselineOutside(lines, first, nested, |lines|))
  }

  /** Both texts end with whole lines, and compare equal exactly under a condition. */
  ghost predicate ComparesEqual(c: Compared, equal: bool) {
    && (c.now == "" || IsClosed(c.now)) && (c.then_ == "" || IsClosed(c.then_))
    && (Normalize(c.now) == Normalize(c.then_) <==> equal)
  }

  /** Line m sits where it was: it is in a nested target now exactly when it was at the checkpoint. */
  ghost predicate IsAligned(segments: seq<string>, markers: seq<Marker>, nested: seq<Nested>, first: nat,
                            drop: set<nat>, from: nat, m: nat)
    requires from < m <= |segments|
  {
    && (IsSelectionLine(markers, m) <==> m in drop)
    && (m !in drop ==>
          && IsSegment(segments[m - 1]) && IsClosed(segments[m - 1])
          && (IsInterior(nested, m) <==> IsOriginLine(nested, first + |KeptSegments(segments, from, m - 1, drop)|)))
  }

  lemma CompareDropped(segments: seq<string>, markers: seq<Marker>, nested: seq<Nested>, first: nat, drop: set<nat>,
                       from: nat, upTo: nat)
    requires from < upTo <= |segments| && IsAligned(segments, markers, nested, first, drop, from, upTo) && upTo in drop
    ensures Compare(segments, markers, nested, first, drop, from, upTo)
            == Compare(segments, markers, nested, first, drop, from, upTo - 1)
  {
    var x := Outside(segments, markers, nested, from, upTo - 1);
    assert x + "" == x;
    var kept := KeptSegments(segments, from, upTo - 1, drop);
    assert kept + [] == kept;
  }

  lemma CompareKept(segments: seq<string>, markers: seq<Marker>, nested: seq<Nested>, first: nat, drop: set<nat>,
                    from: nat, upTo: nat)
    requires from < upTo <= |segments| && IsAligned(segments, markers, nested, first, drop, from, upTo) && upTo !in drop
    ensures var before, after := Compare(segments, markers, nested, first, drop, from, upTo - 1),
        Compare(segments, markers, nested, first, drop, from, upTo);
            if IsInterior(nested, upTo) then after == before
            else after == Compared(before.now + (Content(segments[upTo - 1]) + "\n"),
                                   before.then_ + (PlainLine(Normalize(segments[upTo - 1])) + "\n"))
  {
    var kept, segment := KeptSegments(segments, from, upTo - 1, drop), segments[upTo - 1];
    var lines := BaseLines(kept);
    BaseLinesStep(kept, segment);
    BaseLinesLength(kept);
    BaselineOfPrefix(lines, PlainLine(Normalize(segment)), first, nested, |lines|);
    var x := Outside(segments, markers, nested, from, upTo - 1);
    assert x + "" == x;
    var y := BaselineOutside(lines, first, nested, |lines|);
    assert y + "" == y;
  }

  /** No kept line outside the nested targets ends with three carriage returns. */
  predicate IsPlainOutside(segments: seq<string>, nested: seq<Nested>, drop: set<nat>, from: nat, upTo: nat)
    requires from <= upTo <= |segments|
    decreases upTo
  {
    from == upTo
    || (IsPlainOutside(segments, nested, drop, from, upTo - 1)
        && (upTo in drop || IsInterior(nested, upTo) || IsPlainEnding(segments[upTo - 1])))
  }

  lemma {:induction false} NormalizedIsClosed(s: string)
    requires IsClosed(s)
    ensures IsClosed(Normalize(s))
    decreases |s|
  {
    if s[0] == '\r' && |s| > 1 && s[1] == '\n' {
      if |s| > 2 { NormalizedIsClosed(s[2..]); } else { assert s[2..] == ""; }
    } else if |s| > 1 {
      NormalizedIsClosed(s[1..]);
    }
  }

  /** Texts of whole lines are equal exactly when their last lines and what is before them are. */
  lemma LastLinesCompare(p: string, u: string, q: string, v: string)
    requires (p == "" || IsClosed(p)) && (q == "" || IsClosed(q)) && IsSegment(u) && IsClosed(u) && IsSegment(v)
             && IsClosed(v)
    ensures p + u == q + v <==> p == q && u == v
  {
    if p + u == q + v {
      if |u| < |v| { InsideLine(p, u, q, v); }
      if |v| < |u| { InsideLine(q, v, p, u); }
      assert p == (p + u)[..|p|] && q == (q + v)[..|q|] && u == (p + u)[|p|..] && v == (q + v)[|q|..];
    }
  }

  lemma InsideLine(p: string, u: string, q: string, v: string)
    requires (p == "" || IsClosed(p)) && u != "" && IsSegment(v) && p + u == q + v
    ensures |u| >= |v|
  {
    assert |p + u| == |p| + |u| && |q + v| == |q| + |v|;
    if |u| < |v| { SharedCharacter(p, u, q, v); }
  }

  lemma SharedCharacter(p: string, u: string, q: string, v: string)
    requires p + u == q + v && |q| < |p| <= |q| + |v|
    ensures v[|p| - 1 - |q|] == p[|p| - 1]
  {
    assert (p + u)[|p| - 1] == p[|p| - 1] && (q + v)[|p| - 1] == v[|p| - 1 - |q|];
  }

  /** One more line on both sides. */
  lemma OneMoreCompares(before: Compared, segment: string, equal: bool)
    requires IsSegment(segment) && IsClosed(segment) && ComparesEqual(before, equal)
    ensures ComparesEqual(Compared(before.now + (Content(segment) + "\n"),
                                   before.then_ + (PlainLine(Normalize(segment)) + "\n")), equal
                                       && IsPlainEnding(segment))
  {
    var u, v := Content(segment) + "\n", PlainLine(Normalize(segment)) + "\n";
    LineSides(segment, u, v);
    LineCompares(segment);
    OneMore(before, u, v, Normalize(u), Normalize(v), equal, IsPlainEnding(segment));
  }

  lemma LineSides(segment: string, u: string, v: string)
    requires IsSegment(segment) && IsClosed(segment)
    requires u == Content(segment) + "\n" && v == PlainLine(Normalize(segment)) + "\n"
    ensures IsClosed(u) && IsClosed(v) && IsSegment(Normalize(u)) && IsClosed(Normalize(u))
    ensures IsSegment(Normalize(v)) && IsClosed(Normalize(v))
  {
    var y := Chop(segment[..|segment| - 1]);
    LineNormalizes(segment, y, Chop(y));
    NormalizedIsLine(u);
    NormalizedIsLine(v);
  }

  lemma OneMore(before: Compared, u: string, v: string, normalU: string, normalV: string, equal: bool, plain: bool)
    requires ComparesEqual(before, equal) && (normalU == normalV <==> plain)
    requires Normalize(u) == normalU && Normalize(v) == normalV && IsClosed(u) && IsClosed(v)
    requires IsSegment(normalU) && IsClosed(normalU) && IsSegment(normalV) && IsClosed(normalV)
    ensures ComparesEqual(Compared(before.now + u, before.then_ + v), equal && plain)
  {
    NormalizeAppend(before.now, u);
    NormalizeAppend(before.then_, v);
    NormalizedEnds(before.now);
    NormalizedEnds(before.then_);
    LastLinesCompare(Normalize(before.now), normalU, Normalize(before.then_), normalV);
  }

  lemma NormalizedEnds(s: string)
    requires s == "" || IsClosed(s)
    ensures Normalize(s) == "" || IsClosed(Normalize(s))
  {
    if s != "" { NormalizedIsClosed(s); }
  }

  /** Both comparisons go line by line, and agree exactly while the lines are plain. */
  lemma {:induction false} ComparesLineByLine(segments: seq<string>, markers: seq<Marker>, nested: seq<Nested>,
                                              first: nat, drop: set<nat>, from: nat, upTo: nat)
    requires from <= upTo <= |segments|
    requires forall m :: from < m <= upTo ==> IsAligned(segments, markers, nested, first, drop, from, m)
    ensures ComparesEqual(Compare(segments, markers, nested, first, drop, from, upTo),
                          IsPlainOutside(segments, nested, drop, from, upTo))
    decreases upTo
  {
    if from < upTo {
      ComparesLineByLine(segments, markers, nested, first, drop, from, upTo - 1);
      assert IsAligned(segments, markers, nested, first, drop, from, upTo);
      CompareStep(segments, markers, nested, first, drop, from, upTo);
    }
  }

  lemma CompareStep(segments: seq<string>, markers: seq<Marker>, nested: seq<Nested>, first: nat, drop: set<nat>,
                    from: nat, upTo: nat)
    requires from < upTo <= |segments| && IsAligned(segments, markers, nested, first, drop, from, upTo)
    requires ComparesEqual(Compare(segments, markers, nested, first, drop, from, upTo - 1),
                           IsPlainOutside(segments, nested, drop, from, upTo - 1))
    ensures ComparesEqual(Compare(segments, markers, nested, first, drop, from, upTo),
                          IsPlainOutside(segments, nested, drop, from, upTo))
  {
    if upTo in drop {
      CompareDropped(segments, markers, nested, first, drop, from, upTo);
    } else {
      CompareKept(segments, markers, nested, first, drop, from, upTo);
      OneMoreCompares(Compare(segments, markers, nested, first, drop, from, upTo - 1), segments[upTo - 1],
                      IsPlainOutside(segments, nested, drop, from, upTo - 1));
    }
  }
}
