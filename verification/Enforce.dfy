// src/hooks/enforce.rs: deciding a write, and making a decision stricter.
module Enforce {
  import opened Anchors
  import opened Markers
  import opened Nesting
  import opened Tracker
  import opened Resolving
  import opened Guard
  import LineRanges
  import Zones

  datatype Decision = Allow | Deny | RequireApproval | Quarantine

  datatype Mode = Observe | Assisted | Other

  datatype Safety = Active | Degraded | Quarantined

  datatype Operation = Read | Write | Execute | OtherTool

  /** The session a decision is made in. */
  datatype Session = Session(registry: seq<Record>, integrityOk: bool, mode: Mode, safety: Safety,
                             available: Option<nat>, writeCost: nat, selectionCost: nat,
                             limits: map<string, Zones.Limit>, zoneError: bool)

  /** Why a path is protected. */
  type Protection = rule: Rule | rule.TrustDirectoryAccess? || rule.CraneMetadataWrite? || rule.HookSettingsWrite?
    witness TrustDirectoryAccess

  /** What simulating an edit gives. */
  datatype Applied = NotSimulatable | Deleted | Written(text: string)

  /** One file of a write: whether its path is protected, its path inside the repository, the syntax of its language,
      its text now, the proposed edit, and the codes of what the script pre-check finds in the new text. */
  datatype FileChange = FileChange(protection: Option<Protection>, path: Option<string>,
                                   language: Option<CommentSyntax>, before: Option<string>, applied: Applied,
                                   risks: seq<string>)

  function Strictness(decision: Decision): nat {
    match decision
    case Allow => 0
    case RequireApproval => 1
    case Deny => 2
    case Quarantine => 3
  }

  function FloorStrictness(floor: Option<(Decision, Rule)>): nat {
    if floor.None? then 0 else Strictness(floor.value.0)
  }

  /** The decision a limit asks for at least. */
  function FloorOf(limit: Zones.Limit): Option<(Decision, Rule)> {
    if limit.ceiling == Zones.Observe then Some((Deny, ZoneObserve))
    else if limit.ceiling == Zones.Assisted then Some((RequireApproval, ZoneAssisted))
    else if limit.criticality == Zones.Restricted then Some((RequireApproval, ZoneRestricted))
    else None
  }

  /** The decision that a limit asks for, in words: none in an observe zone, approval in an assisted or restricted
      one. */
  lemma FloorMeans(limit: Zones.Limit)
    ensures limit.ceiling == Zones.Observe ==> FloorOf(limit) == Some((Deny, ZoneObserve))
    ensures limit.ceiling == Zones.Assisted ==> FloorOf(limit) == Some((RequireApproval, ZoneAssisted))
    ensures limit.ceiling == Zones.Delegated || limit.ceiling == Zones.Autonomous ==>
              FloorOf(limit)
              == if limit.criticality == Zones.Restricted then Some((RequireApproval, ZoneRestricted)) else None
  {
  }

  function ExtraCost(criticality: Zones.Criticality): nat {
    match criticality
    case Routine => 0
    case Sensitive => 1
    case Critical => 3
    case Restricted => 5
  }

  /** A broader change asks for a decision that is at least as strict, and costs at least as much. */
  lemma BroaderChangesAreStricter(a: Zones.Option<Zones.Limit>, b: Zones.Option<Zones.Limit>)
    requires Zones.IsNoBroader(b, a) && a.Some?
    ensures FloorStrictness(FloorOf(b.value)) >= FloorStrictness(FloorOf(a.value))
    ensures ExtraCost(b.value.criticality) >= ExtraCost(a.value.criticality)
  {
  }

  /** The floor of two changes together is the stricter of their floors. */
  lemma JoinedFloor(a: Zones.Limit, b: Zones.Limit)
    ensures var joined := Zones.JoinLimits(Zones.Some(a), Zones.Some(b));
            FloorStrictness(FloorOf(joined.value))
            == if FloorStrictness(FloorOf(a)) > FloorStrictness(FloorOf(b)) then FloorStrictness(FloorOf(a))
                else FloorStrictness(FloorOf(b))
  {
  }

  /** What a more critical file costs in addition. */
  lemma ExtraCostIs()
    ensures ExtraCost(Zones.Routine) == 0 && ExtraCost(Zones.Sensitive) == 1
    ensures ExtraCost(Zones.Critical) == 3 && ExtraCost(Zones.Restricted) == 5
  {
  }

  // ---------------------------------------------------------------- zones and credits

  /** What zones and credits add up to in a decision. */
  datatype Charges = Charges(floor: Option<(Decision, Rule)>, cost: nat, zones: set<string>)

  predicate IsFloor(floor: Option<(Decision, Rule)>) {
    floor.Some? ==> floor.value.0 == Deny || floor.value.0 == RequireApproval
  }

  /** The stricter of two floors, the first if they are equally strict. */
  function StricterFloor(a: Option<(Decision, Rule)>, b: Option<(Decision, Rule)>): Option<(Decision, Rule)> {
    if FloorStrictness(b) > FloorStrictness(a) then b else a
  }

  function Charged(before: Charges, limit: Zones.Option<Zones.Limit>): Charges {
    match limit
    case None => before
    case Some(l) =>
      Charges(StricterFloor(before.floor, FloorOf(l)), before.cost + ExtraCost(l.criticality),
              before.zones + l.entities)
  }

  /** What changing some lines of a file charges, by the limits on it. */
  ghost predicate AreCharged(limits: map<string, Zones.Limit>, path: string, changed: seq<(nat, nat)>, before: Charges,
                             after: Charges) {
    if path !in limits then after == before
    else exists limit :: Zones.IsLimitFor(limits[path], changed, limit) && after == Charged(before, limit)
  }

  /** The lines that a write changes: those of one edit script of a rewrite, and all of a deleted file. */
  ghost predicate AreChangesOf(change: FileChange, changed: seq<(nat, nat)>) {
    match change.applied
    case NotSimulatable => false
    case Deleted => changed == var count := |Segments(BeforeText(change))|; if count == 0 then [] else [(1, count)]
    case Written(text) =>
      var p, q := PlainLines(Segments(BeforeText(change))), PlainLines(Segments(text));
      LineRanges.AreChanged(p, q, changed)
  }

  function WithRisks(before: Charges, risks: seq<string>): Charges {
    if before.floor.Some? || risks == [] then before
    else before.(floor := Some((RequireApproval, ScriptRisk(risks[0]))))
  }

  /** What one file of a write charges. */
  ghost predicate IsWeighed(session: Session, change: FileChange, before: Charges, after: Charges) {
    if change.protection.Some? || change.path.None? then after == before
    else
      var held := before.(cost := before.cost + if HoldsSelections(session, change) then session.selectionCost else 0);
      if change.applied.NotSimulatable? then after == held else IsWeighedFrom(session, change, held, after)
  }

  ghost predicate IsWeighedFrom(session: Session, change: FileChange, held: Charges, after: Charges) {
    exists changed, zoned :: IsWeighedBy(session, change, changed, held, zoned, after)
  }

  /** By the limits on the changed lines first, and then by what the script pre-check found. */
  ghost predicate IsWeighedBy(session: Session, change: FileChange, changed: seq<(nat, nat)>, held: Charges,
                              zoned: Charges, after: Charges) {
    && change.path.Some? && AreChangesOf(change, changed)
    && AreCharged(session.limits, change.path.value, changed, held, zoned)
    && after == if change.applied.Written? then WithRisks(zoned, change.risks) else zoned
  }

  /** What the first n files of a write charge. */
  ghost predicate AreWeighed(session: Session, files: seq<FileChange>, n: nat, start: Charges, end: Charges)
    requires n <= |files|
    decreases n, 1
  {
    if n == 0 then end == start else exists mid :: AreWeighedOver(session, files, n, start, mid, end)
  }

  ghost predicate AreWeighedOver(session: Session, files: seq<FileChange>, n: nat, start: Charges, mid: Charges,
                                 end: Charges)
    requires 0 < n <= |files|
    decreases n, 0
  {
    AreWeighed(session, files, n - 1, start, mid) && IsWeighed(session, files[n - 1], mid, end)
  }

  /** The limits on what a write changes in one file ask for no floor, and the script pre-check finds nothing. */
  ghost predicate AsksNothing(session: Session, change: FileChange) {
    change.protection.None? && change.path.Some? && !change.applied.NotSimulatable? ==>
      && (change.applied.Written? ==> change.risks == [])
      && (change.path.value in session.limits ==>
            exists changed, limit :: IsOpenTo(change, session.limits[change.path.value], changed, limit))
  }

  /** The limit on the lines that a change touches leaves it to the agent. */
  ghost predicate IsOpenTo(change: FileChange, own: Zones.Limit, changed: seq<(nat, nat)>,
                           limit: Zones.Option<Zones.Limit>) {
    && AreChangesOf(change, changed) && Zones.IsLimitFor(own, changed, limit)
    && (limit.Some? ==>
          && limit.value.ceiling != Zones.Observe && limit.value.ceiling != Zones.Assisted
          && limit.value.criticality != Zones.Restricted)
  }

  lemma ChargedNothing(before: Charges, limit: Zones.Option<Zones.Limit>)
    requires Charged(before, limit).floor.None?
    ensures before.floor.None? && (limit.Some? ==>
                                     && limit.value.ceiling != Zones.Observe && limit.value.ceiling != Zones.Assisted
                                     && limit.value.criticality != Zones.Restricted)
  {
  }

  lemma WeighedNothing(session: Session, change: FileChange, before: Charges, after: Charges)
    requires IsWeighed(session, change, before, after) && after.floor.None?
    ensures before.floor.None? && AsksNothing(session, change)
  {
    hide HoldsSelections, Charged, LineRanges.AreChanged, PlainLines, Segments, Zones.IsLimitFor;
    if change.protection.None? && change.path.Some? && !change.applied.NotSimulatable? {
      var held := before.(cost := before.cost + if HoldsSelections(session, change) then session.selectionCost else 0);
      var changed, zoned :| IsWeighedBy(session, change, changed, held, zoned, after);
      if change.path.value in session.limits {
        var limit :| Zones.IsLimitFor(session.limits[change.path.value], changed, limit)
                     && zoned == Charged(held, limit);
        ChargedNothing(held, limit);
        assert IsOpenTo(change, session.limits[change.path.value], changed, limit);
      }
    }
  }

  /** When no floor is asked for in the end, no file asks for one. */
  lemma {:induction false} NothingAsked(session: Session, files: seq<FileChange>, n: nat, start: Charges, end: Charges)
    requires n <= |files| && AreWeighed(session, files, n, start, end) && end.floor.None?
    ensures start.floor.None? && forall k :: 0 <= k < n ==> AsksNothing(session, files[k])
  {
    hide IsWeighed, AsksNothing;
    if n > 0 {
      var mid :| AreWeighedOver(session, files, n, start, mid, end);
      WeighedNothing(session, files[n - 1], mid, end);
      NothingAsked(session, files, n - 1, start, mid);
    }
  }

  /** A file that is rewritten or deleted, and is as a whole in a zone whose ceiling is observe. */
  predicate IsInObserveZone(session: Session, change: FileChange) {
    && change.protection.None? && change.path.Some? && !change.applied.NotSimulatable?
    && change.path.value in session.limits
    && session.limits[change.path.value].ceiling == Zones.Observe && session.limits[change.path.value].entities != {}
  }

  lemma ObserveLimit(own: Zones.Limit, changed: seq<(nat, nat)>, limit: Zones.Option<Zones.Limit>)
    requires own.ceiling == Zones.Observe && own.entities != {} && Zones.IsLimitFor(own, changed, limit)
    ensures limit.Some? && limit.value.ceiling == Zones.Observe
  {
    Zones.NoBroaderThanOwn(own, changed, |own.scopes|, limit.value);
  }

  lemma ChargedMore(before: Charges, limit: Zones.Option<Zones.Limit>)
    requires IsFloor(before.floor)
    ensures IsFloor(Charged(before, limit).floor)
    ensures FloorStrictness(Charged(before, limit).floor) >= FloorStrictness(before.floor)
    ensures limit.Some? && limit.value.ceiling == Zones.Observe ==> FloorStrictness(Charged(before, limit).floor) == 2
  {
  }

  /** A file only makes the floor stricter, and one in an observe zone makes it a denial. */
  lemma WeighedMore(session: Session, change: FileChange, before: Charges, after: Charges)
    requires IsWeighed(session, change, before, after) && IsFloor(before.floor)
    ensures IsFloor(after.floor) && FloorStrictness(after.floor) >= FloorStrictness(before.floor)
    ensures IsInObserveZone(session, change) ==> FloorStrictness(after.floor) == 2
  {
    hide HoldsSelections, Charged, LineRanges.AreChanged, PlainLines, Segments, Zones.IsLimitFor;
    if change.protection.None? && change.path.Some? && !change.applied.NotSimulatable? {
      var held := before.(cost := before.cost + if HoldsSelections(session, change) then session.selectionCost else 0);
      var changed, zoned :| IsWeighedBy(session, change, changed, held, zoned, after);
      if change.path.value in session.limits {
        var own := session.limits[change.path.value];
        var limit :| Zones.IsLimitFor(own, changed, limit) && zoned == Charged(held, limit);
        if IsInObserveZone(session, change) { ObserveLimit(own, changed, limit); }
        ChargedMore(held, limit);
      }
    }
  }

  lemma {:induction false} ObserveZoneDenies(session: Session, files: seq<FileChange>, n: nat, start: Charges,
                                             end: Charges)
    requires n <= |files| && AreWeighed(session, files, n, start, end) && IsFloor(start.floor)
    ensures IsFloor(end.floor)
    ensures (exists k :: 0 <= k < n && IsInObserveZone(session, files[k])) ==> FloorStrictness(end.floor) == 2
  {
    hide IsWeighed, IsInObserveZone, FloorStrictness;
    if n > 0 {
      var mid :| AreWeighedOver(session, files, n, start, mid, end);
      ObserveZoneDenies(session, files, n - 1, start, mid);
      WeighedMore(session, files[n - 1], mid, end);
      AtMostDeny(end.floor);
    }
  }

  lemma AtMostDeny(floor: Option<(Decision, Rule)>)
    requires IsFloor(floor)
    ensures FloorStrictness(floor) <= 2
  {
  }

  // ---------------------------------------------------------------- one file of a write

  function BeforeText(change: FileChange): string { if change.before.Some? then change.before.value else "" }

  predicate IsCurrentPath(registry: seq<Record>, path: string) {
    registry != [] && (registry[0].currentPath == path || IsCurrentPath(registry[1..], path))
  }

  predicate HoldsSelections(session: Session, change: FileChange) {
    change.path.Some?
    && (FindMarkers(change.language, BeforeText(change)) != [] || IsCurrentPath(session.registry, change.path.value))
  }

  function Ids(markers: seq<Marker>): set<string> {
    if markers == [] then {}
    else (if markers[0].mark.id.Some? then {markers[0].mark.id.value} else {}) + Ids(markers[1..])
  }

  function ShapeOfText(language: Option<CommentSyntax>, text: string): seq<string> {
    Shape(Segments(text), FindMarkers(language, text))
  }

  /** The rules a rewrite of a file breaks; `changed` are the line ranges it changes. */
  ghost predicate IsJudged(registry: seq<Record>, path: string, language: Option<CommentSyntax>, before: string,
                           after: string, changed: seq<(nat, nat)>, broken: seq<Rule>) {
    if ShapeOfText(language, before) != ShapeOfText(language, after) then
      var isOld := Ids(FindMarkers(language, after)) <= Ids(FindMarkers(language, before));
      broken == [if isOld then MarkerChanged else MarkerForged]
    else
      var old_, new_ := ScanFile(language, path, before), ScanFile(language, path, after);
      && LineRanges.AreChanged(PlainLines(old_.segments), PlainLines(new_.segments), changed)
      && IsOrderly(old_) && IsOrderly(new_)
      && broken == Objections(registry, 0, old_, new_, changed)
  }

  /** The rules one file of a write breaks. */
  ghost predicate Breaks(session: Session, change: FileChange, broken: seq<Rule>) {
    if change.protection.Some? then broken == [change.protection.value]
    else if change.path.None? then broken == []
    else
      match change.applied
      case NotSimulatable => broken == if HoldsSelections(session, change) then [EditNotSimulatable] else []
      case Deleted => broken == if HoldsSelections(session, change) then [SelectionFileDelete] else []
      case Written(text) =>
        exists changed :: IsJudged(session.registry, change.path.value, change.language, BeforeText(change), text,
                                   changed, broken)
  }

  /** What a write leaves alone in one file: every preserved selection that resolved is kept. */
  ghost predicate Preserves(session: Session, change: FileChange) {
    change.protection.None? && change.path.Some? && change.applied.Written? ==>
      var old_ := ScanFile(change.language, change.path.value, BeforeText(change));
      var new_ := ScanFile(change.language, change.path.value, change.applied.text);
      && IsOrderly(old_) && IsOrderly(new_) && MarksOf(old_.markers) == MarksOf(new_.markers)
      && forall id :: IsPreserved(session.registry, id) ==> IsKept(session.registry, id, old_, new_)
  }

  ghost predicate IsPreserved(registry: seq<Record>, id: string) {
    FindRecord(registry, id).Some? && FindRecord(registry, id).value.command == Preserve
  }

  lemma {:induction false} CurrentPathMeans(registry: seq<Record>, path: string)
    ensures IsCurrentPath(registry, path) <==> exists record :: record in registry && record.currentPath == path
  {
    if registry != [] {
      CurrentPathMeans(registry[1..], path);
      assert registry == [registry[0]] + registry[1..];
    }
  }

  /** When deleting a file, or an edit that cannot be simulated, is denied: exactly if the file has a marker or a
      selection was last seen in it. A protected path is denied, and one outside the repository is not decided here. */
  lemma BreaksMeans(session: Session, change: FileChange, broken: seq<Rule>)
    requires Breaks(session, change, broken)
    requires change.protection.Some? || change.path.None? || !change.applied.Written?
    ensures var holds := change.path.Some?
                         && (FindMarkers(change.language, BeforeText(change)) != []
                             || exists record :: record in session.registry && record.currentPath == change.path.value);
            broken
            == if change.protection.Some? then [change.protection.value]
               else if !holds then []
               else if change.applied.Deleted? then [SelectionFileDelete] else [EditNotSimulatable]
  {
    hide FindMarkers, IsCurrentPath, BeforeText;
    if change.path.Some? { CurrentPathMeans(session.registry, change.path.value); }
  }

  /** A rewrite without any marker, before or after, breaks nothing. */
  lemma PlainRewriteBreaksNothing(session: Session, change: FileChange, broken: seq<Rule>)
    requires Breaks(session, change, broken) && change.protection.None? && change.path.Some? && change.applied.Written?
    requires FindMarkers(change.language, BeforeText(change)) == []
    requires FindMarkers(change.language, change.applied.text) == []
    ensures broken == []
  {
    hide FindMarkers, LineRanges.AreChanged, PlainLines, IsOrderly;
  }

  /** A write that breaks no rule keeps every preserved selection. */
  lemma UnbrokenPreserves(session: Session, change: FileChange)
    requires Breaks(session, change, [])
    ensures Preserves(session, change)
  {
    if change.protection.None? && change.path.Some? && change.applied.Written? {
      var before, after := BeforeText(change), change.applied.text;
      var changed :| IsJudged(session.registry, change.path.value, change.language, before, after, changed, []);
      var old_, new_ := ScanFile(change.language, change.path.value, before),
          ScanFile(change.language, change.path.value, after);
      SameShapeSameMarks(change.language, before, after);
      LineRanges.ChangedCover(PlainLines(old_.segments), PlainLines(new_.segments), changed);
      forall id | IsPreserved(session.registry, id)
        ensures IsKept(session.registry, id, old_, new_)
      {
        NoObjectionKeeps(session.registry, id, old_, new_, changed);
      }
    }
  }

  /** Breaking such a rule counts as an attempt to get around the guard. */
  predicate IsBypass(rule: Rule) { !rule.EditNotSimulatable? && !rule.PreservedSelection? && !rule.WriteNamesNoFile? }

  predicate HasBypass(broken: seq<Rule>) { exists rule :: rule in broken && IsBypass(rule) }

  lemma OneBypass(rule: Rule)
    ensures HasBypass([rule]) <==> IsBypass(rule)
  {
    assert rule in [rule];
  }

  lemma NoBypass()
    ensures !HasBypass([])
  {
  }

  lemma BypassJoins(a: seq<Rule>, b: seq<Rule>)
    ensures HasBypass(a + b) <==> HasBypass(a) || HasBypass(b)
  {
  }

  /** A selection that resolves before and after, with another content. */
  ghost predicate IsChanged(id: string, before: FileScan, after: FileScan)
    requires IsOrderly(before) && IsOrderly(after)
  {
    var x, y := ResolveOne(id, before), ResolveOne(id, after);
    x.Resolved? && y.Resolved? && x.location.content != y.location.content
  }

  /** The selections among the first n markers that change, once for each marker. */
  ghost function ChangedIds(differs: string -> bool, markers: seq<Marker>, n: nat): seq<string>
    requires n <= |markers|
  {
    if n == 0 then [] else ChangedIds(differs, markers, n - 1) + ChangedId(differs, markers[n - 1].mark)
  }

  ghost function ChangedId(differs: string -> bool, mark: Mark): seq<string> {
    if mark.kind.Selection? && mark.id.Some? && differs(mark.id.value) then [mark.id.value] else []
  }

  ghost predicate IsDifference(differs: string -> bool, before: FileScan, after: FileScan) {
    IsOrderly(before) && IsOrderly(after) && forall id {:trigger IsAsked(id)} :: IsAsked(id) ==>
      differs(id) == IsChanged(id, before, after)
  }

  /** The changed selections that a rewrite with the same marker shape reports. */
  ghost predicate AreReported(path: string, language: Option<CommentSyntax>, before: string, after: string,
                              reported: seq<string>) {
    if ShapeOfText(language, before) != ShapeOfText(language, after) then reported == []
    else
      var old_, new_ := ScanFile(language, path, before), ScanFile(language, path, after);
      && IsOrderly(old_) && IsOrderly(new_)
      && exists differs :: IsDifference(differs, old_, new_)
                           && reported == ChangedIds(differs, old_.markers, |old_.markers|)
  }

  /** Whether a target selection inside the changed one holds every change. */
  method FindExcuse(registry: seq<Record>, id: string, old_: Location, markers: seq<Marker>, changed: seq<(nat, nat)>)
    returns (excused: bool)
    ensures excused == Excused(registry, id, old_, markers, changed)
  {
    assert registry[0..] == registry;
    for k := 0 to |registry|
      invariant Excused(registry, id, old_, markers, changed) == Excused(registry[k..], id, old_, markers, changed)
    {
      var child := registry[k];
      if child.command == Target && child.id != id {
        var starts := Ends(child.id, Start, markers);
        var ends := Ends(child.id, End, markers);
        if |starts| == 1 && |ends| == 1 && markers[starts[0]].line > old_.startMarkerLine
           && markers[ends[0]].line < old_.endMarkerLine
           && AreBetween(changed, markers[starts[0]].line, markers[ends[0]].line) {
          return true;
        }
      }
    }
    excused := false;
  }

  method FindObjection(registry: seq<Record>, id: string, before: FileScan, after: FileScan, changed: seq<(nat, nat)>,
                       ghost lineMarks: seq<Option<Mark>>, ghost lineMarks': seq<Option<Mark>>)
    returns (rule: Option<Rule>, differs: bool)
    requires IsOrderly(before) && IsOrderly(after)
    requires IsScanned(lineMarks, before.segments, before.markers)
             && IsScanned(lineMarks', after.segments, after.markers)
    ensures rule == Objection(registry, id, before, after, changed) && differs == IsChanged(id, before, after)
  {
    SingleFile(id, before);
    SingleFile(id, after);
    var old_ := ResolveScan(id, [before], [lineMarks]);
    var new_ := ResolveScan(id, [after], [lineMarks']);
    if old_.Unresolved? || new_.Unresolved? || old_.location.content == new_.location.content { return None, false; }
    differs := true;
    var excused := FindExcuse(registry, id, old_.location, before.markers, changed);
    var record := FindRecord(registry, id);
    if excused && record.Some? && record.value.command == Preserve { return None, true; }
    rule := if record.None? then Some(UnregisteredMarker) else if record.value.command == Preserve
        then Some(PreservedSelection) else None;
  }

  lemma Regroup<T>(a: seq<T>, b: seq<T>, c: seq<T>)
    ensures a + (b + c) == a + b + c
  {
  }

  lemma EmptyAdds<T>(a: seq<T>, b: seq<T>)
    ensures a + b == a <==> b == []
  {
    if b == [] { assert a + b == a; }
  }

  lemma ScannedOrderly(language: Option<CommentSyntax>, path: string, text: string)
    ensures var file := ScanFile(language, path, text);
            IsOrderly(file) && IsScanned(LineMarks(language, file.segments), file.segments, file.markers)
  {
    ScanFileIsOrderly(language, path, text);
    ScanIsOrdered(language, text);
  }

  /** The objections to a rewrite and the selections it reports, given by functions of an identifier. */
  lemma JudgedBy(registry: seq<Record>, path: string, language: Option<CommentSyntax>, before: string, after: string,
                 x: FileScan, y: FileScan, ranges: seq<(nat, nat)>)
    returns (judge: string -> Option<Rule>, differs: string -> bool)
    requires ShapeOfText(language, before) == ShapeOfText(language, after)
    requires x == ScanFile(language, path, before) && y == ScanFile(language, path, after)
    requires IsOrderly(x) && IsOrderly(y)
    requires LineRanges.AreChanged(PlainLines(x.segments), PlainLines(y.segments), ranges)
    ensures IsJudge(judge, registry, x, y, ranges) && IsDifference(differs, x, y)
    ensures IsJudged(registry, path, language, before, after, ranges, Collected(judge, x.markers, 0))
    ensures AreReported(path, language, before, after, ChangedIds(differs, x.markers, |x.markers|))
  {
    hide Objection, IsChanged, ResolveOne, FindMarkers, LineRanges.AreChanged, PlainLines, ShapeOfText, AreInOrder;
    judge := id => Objection(registry, id, x, y, ranges);
    differs := id => IsChanged(id, x, y);
    ObjectionsAreCollected(judge, registry, 0, x, y, ranges);
    assert IsDifference(differs, x, y);
  }

  lemma NothingReported(registry: seq<Record>, path: string, language: Option<CommentSyntax>, before: string,
                        after: string, rule: Rule)
    requires ShapeOfText(language, before) != ShapeOfText(language, after)
    requires rule == if Ids(FindMarkers(language, after)) <= Ids(FindMarkers(language, before)) then MarkerChanged
                     else MarkerForged
    ensures IsJudged(registry, path, language, before, after, [], [rule])
    ensures AreReported(path, language, before, after, [])
  {
  }

  class Decided {
    var decision: Decision
    var bypass: bool
    var cost: nat
    var rules: seq<Rule>
    var selections: seq<string>
    var zones: set<string>
    var zoneFloor: Option<(Decision, Rule)>

    constructor (cost: nat)
      ensures decision == Allow && !bypass && this.cost == cost && rules == [] && selections == [] && zones == {}
              && zoneFloor == None
    {
      decision, bypass, this.cost, rules, selections, zones, zoneFloor := Allow, false, cost, [], [], {}, None;
    }

    ghost function Weight(): Charges
      reads this
    {
      Charges(zoneFloor, cost, zones)
    }

    method Refuse(rule: Rule, isBypass: bool)
      modifies this`decision, this`bypass, this`rules
      ensures decision == Deny && bypass == (old(bypass) || isBypass) && rules == old(rules) + [rule]
    {
      decision, bypass, rules := Deny, bypass || isBypass, rules + [rule];
    }

    /** Require approval when the action costs more credits than are available. */
    method Charge(available: Option<nat>)
      modifies this`decision, this`rules
      ensures available.Some? && cost > available.value ==>
                decision == RequireApproval && rules == old(rules) + [CreditsExhausted]
      ensures available.None? || cost <= available.value ==> decision == old(decision) && rules == old(rules)
    {
      if available.Some? && cost > available.value {
        decision, rules := RequireApproval, rules + [CreditsExhausted];
      }
    }

    /** Apply integrity, mode, safety, zones and credits to a decision. It only gets stricter; a change
        stays allowed exactly when nothing speaks against it. In assisted mode and in a degraded
        session, approval is required before zones are looked at. */
    method Gate(session: Session, operation: Operation)
      requires decision != Quarantine && IsFloor(zoneFloor)
      modifies this`decision, this`rules
      ensures Strictness(decision) >= Strictness(old(decision))
      ensures old(decision) != Allow ==> decision == old(decision) && rules == old(rules)
      ensures decision == Allow
              <==> && old(decision) == Allow && (session.available.None? || cost <= session.available.value)
                   && (operation == Read
                       || (session.safety == Active && session.integrityOk && session.mode == Other
                           && !session.zoneError && zoneFloor.None?))
      ensures old(decision) == Allow && decision == Deny
              <==> && old(decision) == Allow && operation != Read && session.safety != Quarantined
                   && (!session.integrityOk || session.mode == Observe
                       || (session.mode == Other && session.safety == Active
                           && (session.zoneError || (zoneFloor.Some? && zoneFloor.value.0 == Deny))))
      ensures decision == Quarantine <==> old(decision) == Allow && operation != Read && session.safety == Quarantined
    {
      if decision != Allow || operation == Read {
        if decision == Allow { Charge(session.available); }
        return;
      }
      if session.safety == Quarantined {
        decision, rules := Quarantine, rules + [SafetyQuarantined];
      } else if !session.integrityOk {
        decision, rules := Deny, rules + [IntegrityFailed];
      } else if session.mode == Observe {
        decision, rules := Deny, rules + [ModeObserve];
      } else if session.mode == Assisted {
        decision, rules := RequireApproval, rules + [ModeAssisted];
      } else if session.safety == Degraded {
        decision, rules := RequireApproval, rules + [SafetyDegraded];
      } else if session.zoneError {
        decision, rules := Deny, rules + [ZoneConfigUnresolved];
      } else if zoneFloor.Some? {
        decision, rules := zoneFloor.value.0, rules + [zoneFloor.value.1];
      } else {
        Charge(session.available);
      }
    }

    /** Take the limits on the changed lines into account: the stricter floor stays. */
    method ApplyZoneLimits(limits: map<string, Zones.Limit>, path: string, changed: seq<(nat, nat)>)
      requires IsFloor(zoneFloor)
      modifies this`cost, this`zones, this`zoneFloor
      ensures IsFloor(zoneFloor)
      ensures AreCharged(limits, path, changed, old(Weight()), Weight())
    {
      if path !in limits { return; }
      var limit := Zones.ForLines(limits[path], changed);
      if limit.None? {
        assert Weight() == Charged(old(Weight()), limit);
        return;
      }
      zones := zones + limit.value.entities;
      cost := cost + ExtraCost(limit.value.criticality);
      var floor := FloorOf(limit.value);
      if floor.Some? {
        var stricter := zoneFloor.None? || (floor.value.0 == Deny && zoneFloor.value.0 != Deny);
        if stricter { zoneFloor := floor; }
      }
      assert Weight() == Charged(old(Weight()), limit);
    }

    /** Object to one changed selection, if it may not change. */
    method RefuseChange(registry: seq<Record>, mark: Mark, before: FileScan, after: FileScan, changed: seq<(nat, nat)>,
                        ghost lineMarks: seq<Option<Mark>>, ghost lineMarks': seq<Option<Mark>>,
                        ghost judge: string -> Option<Rule>, ghost differs: string -> bool)
      requires IsScanned(lineMarks, before.segments, before.markers)
               && IsScanned(lineMarks', after.segments, after.markers)
      requires IsJudge(judge, registry, before, after, changed) && IsDifference(differs, before, after)
      modifies this`decision, this`bypass, this`rules, this`selections
      ensures rules == old(rules) + Raised(judge, mark) && selections == old(selections) + ChangedId(differs, mark)
      ensures bypass == (old(bypass) || HasBypass(Raised(judge, mark)))
      ensures decision == if Raised(judge, mark) == [] then old(decision) else Deny
    {
      hide HasBypass, ResolveOne, IsScanned;
      NoBypass();
      if mark.kind.Selection? && mark.id.Some? {
        assert IsAsked(mark.id.value);
        var rule, isChanged := FindObjection(registry, mark.id.value, before, after, changed, lineMarks, lineMarks');
        if isChanged { selections := selections + [mark.id.value]; }
        if rule.Some? {
          Refuse(rule.value, rule.value == UnregisteredMarker);
          OneBypass(rule.value);
        }
      }
      EmptyAdds(old(rules), []);
      EmptyAdds(old(selections), []);
    }

    /** Object to every changed selection that may not change. */
    method RefuseChanges(registry: seq<Record>, before: FileScan, after: FileScan, changed: seq<(nat, nat)>,
                         ghost lineMarks: seq<Option<Mark>>, ghost lineMarks': seq<Option<Mark>>,
                         ghost judge: string -> Option<Rule>, ghost differs: string -> bool)
      requires IsScanned(lineMarks, before.segments, before.markers)
               && IsScanned(lineMarks', after.segments, after.markers)
      requires IsJudge(judge, registry, before, after, changed) && IsDifference(differs, before, after)
      modifies this`decision, this`bypass, this`rules, this`selections
      ensures rules == old(rules) + Collected(judge, before.markers, 0)
      ensures bypass == (old(bypass) || HasBypass(Collected(judge, before.markers, 0)))
      ensures selections == old(selections) + ChangedIds(differs, before.markers, |before.markers|)
      ensures decision == if rules == old(rules) then old(decision) else Deny
    {
      hide HasBypass, ResolveOne, IsScanned, Objection;
      NoBypass();
      ghost var all := Collected(judge, before.markers, 0);
      ghost var added: seq<Rule> := [];
      for n := 0 to |before.markers|
        invariant added + Collected(judge, before.markers, n) == all
        invariant rules == old(rules) + added && decision == if added == [] then old(decision) else Deny
        invariant bypass == (old(bypass) || HasBypass(added))
        invariant selections == old(selections) + ChangedIds(differs, before.markers, n)
      {
        RefuseChange(registry, before.markers[n].mark, before, after, changed, lineMarks, lineMarks', judge, differs);
        ghost var more := Raised(judge, before.markers[n].mark);
        Regroup(added, more, Collected(judge, before.markers, n + 1));
        Regroup(old(selections), ChangedIds(differs, before.markers, n), ChangedId(differs, before.markers[n].mark));
        BypassJoins(added, more);
        added := added + more;
      }
      EmptyAdds(added, []);
      EmptyAdds(old(rules), added);
      assert added == all;
    }

    /** Decide the new text of a file. */
    method DecideText(registry: seq<Record>, path: string, language: Option<CommentSyntax>, before: string,
                      after: string)
      returns (ghost broken: seq<Rule>, ghost reported: seq<string>)
      modifies this`decision, this`bypass, this`rules, this`selections
      ensures exists changed :: IsJudged(registry, path, language, before, after, changed, broken)
      ensures rules == old(rules) + broken && decision == if broken == [] then old(decision) else Deny
      ensures bypass == (old(bypass) || HasBypass(broken))
      ensures selections == old(selections) + reported && AreReported(path, language, before, after, reported)
    {
      hide IsScanned, HasBypass, IsJudged, AreReported;
      if ShapeOfText(language, before) != ShapeOfText(language, after) {
        var isOld := Ids(FindMarkers(language, after)) <= Ids(FindMarkers(language, before));
        var rule := if isOld then MarkerChanged else MarkerForged;
        Refuse(rule, true);
        broken, reported := [rule], [];
        OneBypass(rule);
        NothingReported(registry, path, language, before, after, rule);
        return;
      }
      broken, reported := DecideSelections(registry, path, language, before, after);
    }

    /** Decide the new text of a file whose markers keep their shape. */
    method DecideSelections(registry: seq<Record>, path: string, language: Option<CommentSyntax>, before: string,
                            after: string)
      returns (ghost broken: seq<Rule>, ghost reported: seq<string>)
      requires ShapeOfText(language, before) == ShapeOfText(language, after)
      modifies this`decision, this`bypass, this`rules, this`selections
      ensures exists changed :: IsJudged(registry, path, language, before, after, changed, broken)
      ensures rules == old(rules) + broken && decision == if broken == [] then old(decision) else Deny
      ensures bypass == (old(bypass) || HasBypass(broken))
      ensures selections == old(selections) + reported && AreReported(path, language, before, after, reported)
    {
      hide IsScanned, LineRanges.AreChanged, LineRanges.Covers, PlainLines, HasBypass, FindMarkers, ShapeOfText,
           IsJudged, AreReported, IsJudge, IsDifference, Collected, ChangedIds, IsOrderly, Objections;
      var old_, new_ := ScanFile(language, path, before), ScanFile(language, path, after);
      ScannedOrderly(language, path, before);
      ScannedOrderly(language, path, after);
      var ranges := LineRanges.ChangedLineRanges(PlainLines(old_.segments), PlainLines(new_.segments));
      ghost var judge, differs := JudgedBy(registry, path, language, before, after, old_, new_, ranges);
      broken, reported := Collected(judge, old_.markers, 0), ChangedIds(differs, old_.markers, |old_.markers|);
      RefuseChanges(registry, old_, new_, ranges, LineMarks(language, old_.segments),
                    LineMarks(language, new_.segments), judge, differs);
      EmptyAdds(old(rules), broken);
    }

    /** Take the limits on the lines of a rewrite into account. */
    method ApplyZonesToRewrite(limits: map<string, Zones.Limit>, path: string, before: string, after: string)
      returns (ghost changed: seq<(nat, nat)>)
      requires IsFloor(zoneFloor)
      modifies this`cost, this`zones, this`zoneFloor
      ensures IsFloor(zoneFloor) && AreCharged(limits, path, changed, old(Weight()), Weight())
      ensures var p, q := PlainLines(Segments(before)), PlainLines(Segments(after));
              LineRanges.AreChanged(p, q, changed)
    {
      var ranges := LineRanges.ChangedLineRanges(PlainLines(Segments(before)), PlainLines(Segments(after)));
      changed := ranges;
      ApplyZoneLimits(limits, path, ranges);
    }

    /** Require approval for what the script pre-check found, unless a floor is set already. */
    method ApplyRisks(risks: seq<string>)
      modifies this`zoneFloor
      ensures zoneFloor
              == if old(zoneFloor).Some? || risks == [] then old(zoneFloor)
                 else Some((RequireApproval, ScriptRisk(risks[0])))
    {
      for k := 0 to |risks|
        invariant zoneFloor
                  == if old(zoneFloor).Some? || k == 0 then old(zoneFloor)
                     else Some((RequireApproval, ScriptRisk(risks[0])))
      {
        if zoneFloor.None? { zoneFloor := Some((RequireApproval, ScriptRisk(risks[k]))); }
      }
    }

    /** Decide one file of a write: every broken rule denies it. */
    method DecideWrite(session: Session, change: FileChange) returns (ghost broken: seq<Rule>)
      requires IsFloor(zoneFloor)
      modifies this
      ensures Breaks(session, change, broken)
      ensures rules == old(rules) + broken && decision == if broken == [] then old(decision) else Deny
      ensures bypass == (old(bypass) || HasBypass(broken))
      ensures IsFloor(zoneFloor) && IsWeighed(session, change, old(Weight()), Weight())
    {
      hide HoldsSelections, IsJudged, BeforeText, Segments, Zones.IsLimitFor, AreCharged, LineRanges.AreChanged,
           HasBypass, AreReported;
      broken := [];
      NoBypass();
      if change.protection.Some? {
        Refuse(change.protection.value, true);
        broken := [change.protection.value];
        OneBypass(change.protection.value);
        return;
      }
      if change.path.None? { return; }
      var holds := HoldsSelections(session, change);
      if holds { cost := cost + session.selectionCost; }
      ghost var held := Weight();
      match change.applied {
        case NotSimulatable =>
          if holds {
            Refuse(EditNotSimulatable, false);
            broken := [EditNotSimulatable];
            OneBypass(EditNotSimulatable);
          }
        case Deleted =>
          var count := |Segments(BeforeText(change))|;
          var changed := if count == 0 then [] else [(1, count)];
          ApplyZoneLimits(session.limits, change.path.value, changed);
          assert IsWeighedBy(session, change, changed, held, Weight(), Weight());
          if holds {
            Refuse(SelectionFileDelete, true);
            broken := [SelectionFileDelete];
            OneBypass(SelectionFileDelete);
          }
        case Written(text) =>
          ghost var changed := ApplyZonesToRewrite(session.limits, change.path.value, BeforeText(change), text);
          ghost var zoned := Weight();
          ApplyRisks(change.risks);
          assert IsWeighedBy(session, change, changed, held, zoned, Weight());
          ghost var reported;
          broken, reported := DecideText(session.registry, change.path.value, change.language, BeforeText(change),
                                         text);
      }
    }
  }

  /** The files of a write break no rule. */
  predicate AreUnbroken(files: seq<FileChange>, broken: seq<seq<Rule>>) {
    files != [] && forall k :: 0 <= k < |broken| ==> broken[k] == []
  }

  /** Decide a whole write, which breaks the given rules. It is allowed exactly when it breaks none, the session is
      active and sound, no zone asks for more, and there are credits for it; then every file of it preserves every
      preserved selection, which is so too when only a human has to approve it. */
  method DecideFiles(session: Session, files: seq<FileChange>) returns (decided: Decided, ghost broken: seq<seq<Rule>>)
    ensures |broken| == |files| && forall k :: 0 <= k < |files| ==> Breaks(session, files[k], broken[k])
    ensures AreWeighed(session, files, |files|, Charges(None, session.writeCost, {}), decided.Weight())
    ensures decided.decision == Allow
            <==> && AreUnbroken(files, broken) && session.safety == Active && session.integrityOk
                 && session.mode == Other && !session.zoneError && decided.zoneFloor.None?
                 && (session.available.None? || decided.cost <= session.available.value)
    ensures decided.decision == Quarantine <==> AreUnbroken(files, broken) && session.safety == Quarantined
    ensures decided.decision == Deny
            <==> !AreUnbroken(files, broken)
                 || (session.safety != Quarantined
                     && (!session.integrityOk || session.mode == Observe
                         || (session.mode == Other && session.safety == Active
                             && (session.zoneError
                                 || (decided.zoneFloor.Some? && decided.zoneFloor.value.0 == Deny)))))
    ensures decided.decision == Allow || decided.decision == RequireApproval ==>
              forall k :: 0 <= k < |files| ==> Preserves(session, files[k])
    ensures decided.decision == Allow ==> forall k :: 0 <= k < |files| ==> AsksNothing(session, files[k])
    ensures (exists k :: 0 <= k < |files| && IsInObserveZone(session, files[k])) ==>
              decided.zoneFloor.Some? && decided.zoneFloor.value.0 == Deny
  {
    hide Breaks, IsWeighed, Preserves, AsksNothing, FloorStrictness, IsInObserveZone;
    decided := new Decided(session.writeCost);
    broken := [];
    ghost var start := Charges(None, session.writeCost, {});
    if files == [] { decided.Refuse(WriteNamesNoFile, false); }
    for n := 0 to |files|
      invariant fresh(decided) && IsFloor(decided.zoneFloor)
      invariant |broken| == n && forall k :: 0 <= k < n ==> Breaks(session, files[k], broken[k])
      invariant decided.decision == if AreUnbroken(files, broken) then Allow else Deny
      invariant AreWeighed(session, files, n, start, decided.Weight())
    {
      ghost var mid := decided.Weight();
      ghost var rules := decided.DecideWrite(session, files[n]);
      broken := broken + [rules];
      assert AreWeighedOver(session, files, n + 1, start, mid, decided.Weight());
    }
    ObserveZoneDenies(session, files, |files|, start, decided.Weight());
    StrictnessTells(decided.zoneFloor);
    decided.Gate(session, Write);
    if AreUnbroken(files, broken) {
      AllPreserve(session, files, broken);
    }
    if decided.decision == Allow {
      NothingAsked(session, files, |files|, start, decided.Weight());
    }
  }

  lemma StrictnessTells(floor: Option<(Decision, Rule)>)
    requires IsFloor(floor)
    ensures FloorStrictness(floor) == 2 <==> floor.Some? && floor.value.0 == Deny
  {
  }

  lemma AllPreserve(session: Session, files: seq<FileChange>, broken: seq<seq<Rule>>)
    requires |broken| == |files| && forall k :: 0 <= k < |files| ==> Breaks(session, files[k], broken[k])
    requires AreUnbroken(files, broken)
    ensures forall k :: 0 <= k < |files| ==> Preserves(session, files[k])
  {
    forall k | 0 <= k < |files|
      ensures Preserves(session, files[k])
    {
      UnbrokenPreserves(session, files[k]);
    }
  }
}
