// src/hooks/enforce.rs, decide_write: which writes to a file with selections are denied, and what a
// write that is not denied leaves alone.
module Guard {
  import opened Anchors
  import opened Markers
  import opened Nesting
  import opened Tracker
  import opened Resolving
  import LineRanges

  datatype Command = Preserve | Target

  /** Where a selection was at its checkpoint, and its content there; a content digest stands for the
      content it was made from. */
  datatype Origin = Origin(commit: string, path: string, startLine: nat, endLine: nat, content: string)

  datatype Record = Record(id: string, command: Command, currentPath: string, origin: Origin)

  datatype Rule =
    | TrustDirectoryAccess | CraneMetadataWrite | HookSettingsWrite | EditNotSimulatable
    | SelectionFileDelete | MarkerChanged | MarkerForged | PreservedSelection | UnregisteredMarker
    | WriteNamesNoFile | SafetyQuarantined | IntegrityFailed | ModeObserve | ModeAssisted | SafetyDegraded
    | ZoneConfigUnresolved | ZoneObserve | ZoneAssisted | ZoneRestricted | CreditsExhausted | ScriptRisk(code: string)

  function FindRecord(registry: seq<Record>, id: string): Option<Record> {
    if registry == [] then None else if registry[0].id == id then Some(registry[0]) else FindRecord(registry[1..], id)
  }

  // ---------------------------------------------------------------- lines as the guard compares them

  /** A line as the standard library splits it: a carriage return goes only before a newline. */
  function PlainLine(segment: string): string {
    if !IsClosed(segment) then segment
    else
      var line := segment[..|segment| - 1];
      if line != "" && line[|line| - 1] == '\r' then line[..|line| - 1] else line
  }

  function PlainLines(segments: seq<string>): seq<string> {
    if segments == [] then [] else PlainLines(segments[..|segments| - 1]) + [PlainLine(segments[|segments| - 1])]
  }

  lemma {:induction false} PlainLinesAre(segments: seq<string>)
    ensures |PlainLines(segments)| == |segments|
    ensures forall i :: 0 <= i < |segments| ==> PlainLines(segments)[i] == PlainLine(segments[i])
  {
    if segments != [] { PlainLinesAre(segments[..|segments| - 1]); }
  }

  // ---------------------------------------------------------------- the shape of the markers

  /** The trimmed lines of the markers. */
  function Shape(segments: seq<string>, markers: seq<Marker>): seq<string> {
    if markers == [] then []
    else
      Shape(segments, markers[..|markers| - 1]) + [ShapeOf(segments, markers[|markers| - 1].line)]
  }

  function ShapeOf(segments: seq<string>, line: nat): string {
    if 0 < line <= |segments| then Trim(Content(segments[line - 1])) else ""
  }

  lemma {:induction false} ShapeAt(segments: seq<string>, markers: seq<Marker>)
    ensures |Shape(segments, markers)| == |markers|
    ensures forall i :: 0 <= i < |markers| ==> Shape(segments, markers)[i] == ShapeOf(segments, markers[i].line)
  {
    if markers != [] {
      var rest := markers[..|markers| - 1];
      ShapeAt(segments, rest);
      forall i | 0 <= i < |rest|
        ensures Shape(segments, rest)[i] == ShapeOf(segments, markers[i].line)
      {
        assert rest[i] == markers[i];
      }
    }
  }

  /** A marker says what its trimmed line says. */
  lemma MarkIsParsed(language: Option<CommentSyntax>, text: string, i: nat)
    requires i < |FindMarkers(language, text)|
    ensures |Shape(Segments(text), FindMarkers(language, text))| == |FindMarkers(language, text)|
    ensures FindMarkers(language, text)[i].mark
            == ParseMark(language, Shape(Segments(text), FindMarkers(language, text))[i])
  {
    var segments, markers := Segments(text), FindMarkers(language, text);
    ScanIsOrdered(language, text);
    ShapeAt(segments, markers);
    assert IsMarkerOf(LineMarks(language, segments), segments, |segments|, markers[i]);
  }

  /** Equal shapes are equal marks, so every selection resolves at the same markers. */
  lemma SameShapeSameMarks(language: Option<CommentSyntax>, before: string, after: string)
    requires Shape(Segments(before), FindMarkers(language, before))
             == Shape(Segments(after), FindMarkers(language, after))
    ensures MarksOf(FindMarkers(language, before)) == MarksOf(FindMarkers(language, after))
  {
    var x, y := FindMarkers(language, before), FindMarkers(language, after);
    ShapeAt(Segments(before), x);
    ShapeAt(Segments(after), y);
    forall i | 0 <= i < |x|
      ensures x[i].mark == y[i].mark
    {
      MarkIsParsed(language, before, i);
      MarkIsParsed(language, after, i);
    }
  }

  // ---------------------------------------------------------------- one selection

  /** The only markers of a selection, with its two ends. */
  ghost predicate HasOneOfEach(id: string, marks: seq<Mark>) {
    && HasEnd(id, Start, marks) && !HasTwoEnds(id, Start, marks)
    && HasEnd(id, End, marks) && !HasTwoEnds(id, End, marks)
  }

  /** All changes lie strictly between two lines. */
  predicate AreBetween(changed: seq<(nat, nat)>, from: nat, upTo: nat) {
    changed == [] || (changed[0].0 > from && changed[0].1 < upTo && AreBetween(changed[1..], from, upTo))
  }

  lemma {:induction false} BetweenAt(changed: seq<(nat, nat)>, from: nat, upTo: nat)
    requires AreBetween(changed, from, upTo)
    ensures forall k :: 0 <= k < |changed| ==> changed[k].0 > from && changed[k].1 < upTo
  {
    if changed != [] { BetweenAt(changed[1..], from, upTo); }
  }

  /** A target selection strictly inside the selection whose interior holds every change. */
  ghost predicate ExcusedBy(child: Record, id: string, old_: Location, markers: seq<Marker>, changed: seq<(nat, nat)>) {
    && child.command == Target && child.id != id && HasOneOfEach(child.id, MarksOf(markers))
    && var start, end := markers[TheEnd(child.id, Start, MarksOf(markers))].line,
        markers[TheEnd(child.id, End, MarksOf(markers))].line;
       start > old_.startMarkerLine && end < old_.endMarkerLine && AreBetween(changed, start, end)
  }

  ghost predicate Excused(registry: seq<Record>, id: string, old_: Location, markers: seq<Marker>,
                          changed: seq<(nat, nat)>) {
    registry != [] && (ExcusedBy(registry[0], id, old_, markers, changed)
                       || Excused(registry[1..], id, old_, markers, changed))
  }

  /** Why a write is denied for one selection, if it is. */
  ghost function Objection(registry: seq<Record>, id: string, before: FileScan, after: FileScan,
                           changed: seq<(nat, nat)>): Option<Rule>
    requires IsOrderly(before) && IsOrderly(after)
  {
    var old_, new_ := ResolveOne(id, before), ResolveOne(id, after);
    var record := FindRecord(registry, id);
    if old_.Unresolved? || new_.Unresolved? || old_.location.content == new_.location.content then None
    else if record.None? then Some(UnregisteredMarker)
    else if record.value.command.Target? then None
    else if Excused(registry, id, old_.location, before.markers, changed) then None
    else Some(PreservedSelection)
  }

  /** The only markers of a selection in a file. */
  ghost predicate AreOnlyEnds(id: string, markers: seq<Marker>, s: nat, e: nat) {
    && s < |markers| && e < |markers|
    && (forall i :: 0 <= i < |markers| ==> (IsEnd(id, Start, markers[i].mark) <==> i == s))
    && (forall i :: 0 <= i < |markers| ==> (IsEnd(id, End, markers[i].mark) <==> i == e))
  }

  /** A target with one marker of each kind, strictly inside the selection and strictly around every change. */
  ghost predicate IsExcuse(child: Record, id: string, old_: Location, markers: seq<Marker>, changed: seq<(nat, nat)>) {
    && child.command == Target && child.id != id
    && exists s: nat, e: nat :: AreOnlyEnds(child.id, markers, s, e) && HoldsAll(old_, markers, changed, s, e)
  }

  /** Two markers strictly inside the selection, and strictly around every change. */
  ghost predicate HoldsAll(old_: Location, markers: seq<Marker>, changed: seq<(nat, nat)>, s: nat, e: nat) {
    && s < |markers| && e < |markers|
    && old_.startMarkerLine < markers[s].line && markers[e].line < old_.endMarkerLine
    && forall k :: 0 <= k < |changed| ==> markers[s].line < changed[k].0 && changed[k].1 < markers[e].line
  }

  lemma {:induction false} BetweenMeans(changed: seq<(nat, nat)>, from: nat, upTo: nat)
    ensures AreBetween(changed, from, upTo)
            <==> forall k :: 0 <= k < |changed| ==> from < changed[k].0 && changed[k].1 < upTo
  {
    if changed != [] {
      var rest := changed[1..];
      BetweenMeans(rest, from, upTo);
      assert forall k :: 0 < k < |changed| ==> changed[k] == rest[k - 1];
      assert forall k :: 0 <= k < |rest| ==> rest[k] == changed[k + 1];
    }
  }

  lemma OnlyEndsMean(id: string, markers: seq<Marker>, s: nat, e: nat)
    ensures AreOnlyEnds(id, markers, s, e) ==> s < |markers| && e < |markers|
    ensures AreOnlyEnds(id, markers, s, e)
            <==> && HasOneOfEach(id, MarksOf(markers))
                 && TheEnd(id, Start, MarksOf(markers)) == s && TheEnd(id, End, MarksOf(markers)) == e
  {
    var marks := MarksOf(markers);
    OnlyEnd(id, Start, marks, s);
    OnlyEnd(id, End, marks, e);
    forall i | 0 <= i < |markers|
      ensures marks[i] == markers[i].mark
    {
    }
  }

  lemma ExcuseMeans(child: Record, id: string, old_: Location, markers: seq<Marker>, changed: seq<(nat, nat)>)
    ensures ExcusedBy(child, id, old_, markers, changed) <==> IsExcuse(child, id, old_, markers, changed)
  {
    hide HasOneOfEach, AreOnlyEnds, AreBetween;
    var marks := MarksOf(markers);
    if HasOneOfEach(child.id, marks) {
      var s, e := OneOfEach(child.id, marks);
      OnlyEndsMean(child.id, markers, s, e);
      BetweenMeans(changed, markers[s].line, markers[e].line);
    }
    if IsExcuse(child, id, old_, markers, changed) {
      var s: nat, e: nat :| AreOnlyEnds(child.id, markers, s, e) && HoldsAll(old_, markers, changed, s, e);
      OnlyEndsMean(child.id, markers, s, e);
      BetweenMeans(changed, markers[s].line, markers[e].line);
    }
  }

  lemma OneOfEach(id: string, marks: seq<Mark>) returns (s: nat, e: nat)
    requires HasOneOfEach(id, marks)
    ensures s < |marks| && e < |marks| && TheEnd(id, Start, marks) == s && TheEnd(id, End, marks) == e
  {
    s, e := TheEnd(id, Start, marks), TheEnd(id, End, marks);
  }

  lemma {:induction false} ExcusedMeans(registry: seq<Record>, id: string, old_: Location, markers: seq<Marker>,
                                        changed: seq<(nat, nat)>)
    ensures Excused(registry, id, old_, markers, changed)
            <==> exists child :: child in registry && IsExcuse(child, id, old_, markers, changed)
  {
    hide ExcusedBy, IsExcuse;
    if registry != [] {
      ExcuseMeans(registry[0], id, old_, markers, changed);
      ExcusedMeans(registry[1..], id, old_, markers, changed);
      assert registry == [registry[0]] + registry[1..];
    }
  }

  lemma {:induction false} FirstRecord(registry: seq<Record>, id: string)
    ensures FindRecord(registry, id).None? <==> forall record :: record in registry ==> record.id != id
    ensures FindRecord(registry, id).Some? ==>
              exists k :: 0 <= k < |registry| && registry[k] == FindRecord(registry, id).value
                          && registry[k].id == id && forall j :: 0 <= j < k ==> registry[j].id != id
  {
    if registry != [] {
      assert registry == [registry[0]] + registry[1..];
      if registry[0].id == id {
        assert registry[0] in registry;
      } else {
        FirstRecord(registry[1..], id);
        if FindRecord(registry[1..], id).Some? {
          var k :| 0 <= k < |registry[1..]| && registry[1..][k] == FindRecord(registry, id).value
                   && registry[1..][k].id == id && forall j :: 0 <= j < k ==> registry[1..][j].id != id;
          assert registry[k + 1] == FindRecord(registry, id).value;
          assert forall j :: 0 < j < k + 1 ==> registry[j] == registry[1..][j - 1];
        }
      }
    }
  }

  /** When the guard objects: to a changed selection that no record has, and to a changed preserved selection unless a
      target inside it holds every change. It never objects to a target, nor to what it cannot compare. */
  lemma ObjectionMeans(registry: seq<Record>, id: string, before: FileScan, after: FileScan, changed: seq<(nat, nat)>)
    requires IsOrderly(before) && IsOrderly(after)
    ensures var x, y := ResolveOne(id, before), ResolveOne(id, after);
            var objection := Objection(registry, id, before, after, changed);
            if x.Unresolved? || y.Unresolved? || x.location.content == y.location.content then objection == None
            else if forall record :: record in registry ==> record.id != id then objection == Some(UnregisteredMarker)
            else
              && FindRecord(registry, id).Some?
              && match FindRecord(registry, id).value.command
                 case Target => objection == None
                 case Preserve =>
                   objection
                   == if exists child :: child in registry && IsExcuse(child, id, x.location, before.markers, changed)
                      then None else Some(PreservedSelection)
  {
    hide ResolveOne, Excused, IsExcuse, FindRecord;
    FirstRecord(registry, id);
    if ResolveOne(id, before).Resolved? {
      ExcusedMeans(registry, id, ResolveOne(id, before).location, before.markers, changed);
    }
  }

  /** The objections for the selection markers from position n on. */
  ghost function Objections(registry: seq<Record>, n: nat, before: FileScan, after: FileScan,
                            changed: seq<(nat, nat)>): seq<Rule>
    requires n <= |before.markers| && IsOrderly(before) && IsOrderly(after)
    decreases |before.markers| - n
  {
    if n == |before.markers| then []
    else
      var mark := before.markers[n].mark;
      (if mark.kind.Selection? && mark.id.Some? then
         match Objection(registry, mark.id.value, before, after, changed)
         case Some(rule) => [rule]
         case None => []
       else [])
      + Objections(registry, n + 1, before, after, changed)
  }

  /** The same, for objections given by a function. */
  ghost function Collected(judge: string -> Option<Rule>, markers: seq<Marker>, n: nat): seq<Rule>
    requires n <= |markers|
    decreases |markers| - n
  {
    if n == |markers| then [] else Raised(judge, markers[n].mark) + Collected(judge, markers, n + 1)
  }

  ghost function Raised(judge: string -> Option<Rule>, mark: Mark): seq<Rule> {
    if mark.kind.Selection? && mark.id.Some? then
      match judge(mark.id.value)
      case Some(rule) => [rule]
      case None => []
    else []
  }

  predicate IsAsked(id: string) { true }

  ghost predicate IsJudge(judge: string -> Option<Rule>, registry: seq<Record>, before: FileScan, after: FileScan,
                          changed: seq<(nat, nat)>) {
    && IsOrderly(before) && IsOrderly(after)
    && forall id {:trigger IsAsked(id)} :: IsAsked(id) ==> judge(id) == Objection(registry, id, before, after, changed)
  }

  lemma {:induction false} ObjectionsAreCollected(judge: string -> Option<Rule>, registry: seq<Record>, n: nat,
                                                  before: FileScan, after: FileScan, changed: seq<(nat, nat)>)
    requires IsJudge(judge, registry, before, after, changed) && n <= |before.markers|
    ensures Objections(registry, n, before, after, changed) == Collected(judge, before.markers, n)
    decreases |before.markers| - n
  {
    hide Objection;
    if n < |before.markers| {
      ObjectionsAreCollected(judge, registry, n + 1, before, after, changed);
      OneCollected(judge, registry, n, before, after, changed);
    }
  }

  lemma OneCollected(judge: string -> Option<Rule>, registry: seq<Record>, n: nat, before: FileScan, after: FileScan,
                     changed: seq<(nat, nat)>)
    requires IsJudge(judge, registry, before, after, changed) && n < |before.markers|
    ensures Objections(registry, n, before, after, changed)
            == Raised(judge, before.markers[n].mark) + Objections(registry, n + 1, before, after, changed)
  {
    var mark := before.markers[n].mark;
    assert mark.id.Some? ==> IsAsked(mark.id.value);
  }

  // ---------------------------------------------------------------- what an allowed write keeps

  /** Two texts agree on every line up to old line `from` and from old line `upTo` on. */
  predicate AgreeOutside(old_: seq<string>, new_: seq<string>, from: nat, upTo: nat) {
    || old_ == new_
    || (&& 1 <= from < upTo <= |old_| && from + (|old_| - (upTo - 1)) <= |new_|
        && old_[..from] == new_[..from] && old_[upTo - 1..] == new_[|new_| - (|old_| - (upTo - 1))..])
  }

  /** A preserved selection still resolves at the same markers, and either its content is the same or
      the file changed only inside one target selection nested in it. */
  ghost predicate IsKept(registry: seq<Record>, id: string, before: FileScan, after: FileScan)
    requires IsOrderly(before) && IsOrderly(after)
  {
    var old_, new_ := ResolveOne(id, before), ResolveOne(id, after);
    old_.Resolved? ==>
      && new_.Resolved? && JudgeOne(id, MarksOf(before.markers)) == JudgeOne(id, MarksOf(after.markers))
      && (old_.location.content == new_.location.content
          || OnlyTargetChanged(registry, id, old_.location, before, after))
  }

  ghost predicate OnlyTargetChanged(registry: seq<Record>, id: string, old_: Location, before: FileScan,
                                    after: FileScan) {
    exists child :: child in registry && IsChangedTarget(child, id, old_, before, after)
  }

  ghost predicate IsChangedTarget(child: Record, id: string, old_: Location, before: FileScan, after: FileScan) {
    && child.command == Target && child.id != id && HasOneOfEach(child.id, MarksOf(before.markers))
    && var start, end := before.markers[TheEnd(child.id, Start, MarksOf(before.markers))].line,
                         before.markers[TheEnd(child.id, End, MarksOf(before.markers))].line;
       old_.startMarkerLine < start && end < old_.endMarkerLine
       && AgreeOutside(PlainLines(before.segments), PlainLines(after.segments), start, end)
  }

  lemma {:induction false} ExcuseIsTarget(registry: seq<Record>, id: string, old_: Location, before: FileScan,
                                          after: FileScan, changed: seq<(nat, nat)>)
    requires Excused(registry, id, old_, before.markers, changed) && IsOrderly(before)
    requires LineRanges.Covers(PlainLines(before.segments), PlainLines(after.segments), changed)
    requires changed == [] <==> PlainLines(before.segments) == PlainLines(after.segments)
    ensures OnlyTargetChanged(registry, id, old_, before, after)
  {
    if ExcusedBy(registry[0], id, old_, before.markers, changed) {
      var child := registry[0];
      var a, b := TheEnd(child.id, Start, MarksOf(before.markers)), TheEnd(child.id, End, MarksOf(before.markers));
      ChangesAreConfined(before.segments, after.segments, changed, before.markers[a].line, before.markers[b].line);
      assert IsChangedTarget(child, id, old_, before, after);
    } else {
      ExcuseIsTarget(registry[1..], id, old_, before, after, changed);
      var child :| child in registry[1..] && IsChangedTarget(child, id, old_, before, after);
      assert child in registry;
    }
  }

  lemma ChangesAreConfined(before: seq<string>, after: seq<string>, changed: seq<(nat, nat)>, from: nat, upTo: nat)
    requires LineRanges.Covers(PlainLines(before), PlainLines(after), changed)
    requires changed == [] <==> PlainLines(before) == PlainLines(after)
    requires AreBetween(changed, from, upTo) && 0 < from && upTo <= |before|
    ensures AgreeOutside(PlainLines(before), PlainLines(after), from, upTo)
  {
    PlainLinesAre(before);
    if changed != [] { ConfinedAgree(PlainLines(before), PlainLines(after), changed, from, upTo); }
  }

  lemma ConfinedAgree(old_: seq<string>, new_: seq<string>, changed: seq<(nat, nat)>, from: nat, upTo: nat)
    requires LineRanges.Covers(old_, new_, changed) && changed != []
    requires AreBetween(changed, from, upTo) && 0 < from && upTo <= |old_|
    ensures AgreeOutside(old_, new_, from, upTo)
  {
    BetweenAt(changed, from, upTo);
    assert from < changed[0].0 <= changed[0].1 < upTo;
    LineRanges.Confined(old_, new_, changed, from, upTo);
  }

  lemma {:induction false} NoneRaised(judge: string -> Option<Rule>, markers: seq<Marker>, n: nat, k: nat)
    requires n <= k < |markers| && Collected(judge, markers, n) == []
    ensures Raised(judge, markers[k].mark) == []
    decreases k - n
  {
    hide Raised;
    if n < k {
      assert Collected(judge, markers, n + 1) == [];
      NoneRaised(judge, markers, n + 1, k);
    }
  }

  lemma NoneObjectedTo(judge: string -> Option<Rule>, registry: seq<Record>, before: FileScan, after: FileScan,
                       changed: seq<(nat, nat)>, k: nat)
    requires IsJudge(judge, registry, before, after, changed) && k < |before.markers|
    requires Objections(registry, 0, before, after, changed) == []
    requires before.markers[k].mark.kind.Selection? && before.markers[k].mark.id.Some?
    ensures Objection(registry, before.markers[k].mark.id.value, before, after, changed).None?
  {
    ObjectionsAreCollected(judge, registry, 0, before, after, changed);
    NoneRaised(judge, before.markers, 0, k);
    assert IsAsked(before.markers[k].mark.id.value);
  }

  lemma NoObjectionToAny(registry: seq<Record>, before: FileScan, after: FileScan, changed: seq<(nat, nat)>, k: nat)
    requires k < |before.markers| && IsOrderly(before) && IsOrderly(after)
    requires Objections(registry, 0, before, after, changed) == []
    requires before.markers[k].mark.kind.Selection? && before.markers[k].mark.id.Some?
    ensures Objection(registry, before.markers[k].mark.id.value, before, after, changed).None?
  {
    NoneObjectedTo(id => Objection(registry, id, before, after, changed), registry, before, after, changed, k);
  }

  /** A write that keeps the shape of the markers and meets no objection keeps every preserved
      selection. */
  lemma NoObjectionKeeps(registry: seq<Record>, id: string, before: FileScan, after: FileScan, changed: seq<(nat, nat)>)
    requires IsOrderly(before) && IsOrderly(after) && MarksOf(before.markers) == MarksOf(after.markers)
    requires LineRanges.Covers(PlainLines(before.segments), PlainLines(after.segments), changed)
    requires changed == [] <==> PlainLines(before.segments) == PlainLines(after.segments)
    requires Objections(registry, 0, before, after, changed) == []
    requires FindRecord(registry, id).Some? && FindRecord(registry, id).value.command == Preserve
    ensures IsKept(registry, id, before, after)
  {
    hide Pairs, JudgeFile, Objections, PlainLines;
    var marks := MarksOf(before.markers);
    if JudgeOne(id, marks).At? {
      var a, b := JudgeOne(id, marks).start, JudgeOne(id, marks).end;
      ResolvesIff(id, marks, a, b);
      assert IsEnd(id, Start, marks[a]);
      NoObjectionToAny(registry, before, after, changed, a);
      if Excused(registry, id, ResolveOne(id, before).location, before.markers, changed) {
        ExcuseIsTarget(registry, id, ResolveOne(id, before).location, before, after, changed);
      }
    }
  }
}
