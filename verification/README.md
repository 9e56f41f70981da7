# Crane: verified model

Crane keeps marked code, called selections, intact while agents edit files. A selection is the text
between a start and an end marker comment. A signed registry says of each selection whether it must
be preserved or must change. This project models the parts of Crane that decide something, and proves
what they promise:

- markers: splitting text into lines, reading and rendering marker comments, matching them with a
  stack, resolving a selection, and creating one (`Anchors`, `Markers`, `Nesting`, `Tracker`,
  `Resolving`, `Insertion`, `Contents`, `Create`, `Creatable`, `Additions`);
- the guard before a write and the verifier after it (`LineRanges`, `Guard`, `Enforce`, `Zones`,
  `Verify`, `Surroundings`, `Alignment`, `Preserving`, `Places`, `InPlace`, with the counterexamples
  `MovedMarker`, `LostReturn` and `BrokenMarker`);
- line diffs (`Diff`, `LineRanges`);
- the policy language and the edits of its text (`PolicyTokens`, `PolicyTexts`, `PolicyGrammar`,
  `PolicyParser`, `PolicySpelling`, `PolicyEdits`, `PolicyCommutes`, `PolicyLaws`);
- the signed governance state (`Digests`, `AuditChain`, `CheckpointChain`, `SelectionMap`,
  `Integrity`, `Passing`, `Governance`, `GovernanceRuns`);
- graphs (`Cycles`, `Graph`, `Flows`), changes of selected code (`Changes`, `Lexing`, `Splitting`,
  `Classify`), path patterns (`Glob`), the rate limiter (`Limits`) and dates (`IsoTime`).

How the model reads the source:

- A text is a sequence of characters, and offsets count characters, not bytes.
- Whatever comes from outside is an argument: file texts, the checkpoint's text, the clock, drawn
  identifiers, the protected paths, the commits that git has, the character classes of Unicode.
- The trust code is ideal. A digest is the term of what it digests and of its domain, so two digests are
  equal exactly when those are; a signature verifies exactly when the key made it over the message.
- Where the source's code and its documentation differ, the model follows the code. The header of the glob
  module gives `*` and `?` their usual meaning (src/platform/glob.rs:1-3), without the exception under
  Findings; the comment on governance_digest says that the digest of an unreadable file never equals a
  signed one (src/governance/state.rs:130-131), but commit signs whatever digest the state has
  (src/governance/state.rs:608).
- A `hide` statement in a proof names functions whose definitions the proof does not need.

## Model

| member | source | states |
|---|---|---|
| Create.Create | src/selection/create.rs:110-303 | When each answer is given. No comment syntax, broken markers, an empty file, a range outside 1 to the number of lines, an existing selection in the way, lines that differ from the checkpoint, no free identifier: each exactly then, in this order. Otherwise the first free identifier is used, and resolving it decides. A creation that succeeds inserts its two markers around the lines asked for, and everything in IsSafe holds of the new text. |
| Creatable.CreatedIff | src/selection/create.rs:203-303 | In a file whose lines without markers are those of its checkpoint version, neither text ending with a carriage return, a selection is created exactly when the lines are in the file, hold a line without a marker, hold the markers of whole selections only, no selection is in the way, and a free identifier is drawn. |
| Creatable.UnchangedIsCreated | src/selection/create.rs:203-303 | In a file without markers that is its checkpoint version every range of its lines can be selected, given a free identifier, except up to a last line that ends with a carriage return in a text without CRLF; a range is invalid exactly when it is not in the file. |
| Creatable.PlacedIff | src/selection/create.rs:290-303 | Once the range is accepted, the resolve and content checks pass exactly around whole selections whose last line reads as at the checkpoint. |
| Create.CreationIsSafe | src/selection/create.rs:290-303 | The resolve check and the content check suffice: every other selection resolves exactly if it did, with the same content, its markers moved with the lines; the new one resolves at the two new lines; deleting those lines gives the old text up to a final line ending. |
| Create.SafeInScan | src/selection/tracker.rs:173-282 | The same among all files: replacing the edited file keeps every other selection as it was in the whole scan, and the new one resolves there as it does in its file. |
| Create.FilterIff | src/selection/create.rs:226-235 | What the overlap filter lets through, exactly: ranges beside, inside or around a selection, two shapes that hold only one of its markers, and anything where the end marker is not behind the start marker. |
| Create.AnyRejectsMeans | src/selection/create.rs:211-235 | The overlap check refuses exactly when some start marker, with the line of its first end marker or the last line, is in the way. |
| Create.FilterIsImplied | src/selection/create.rs:226-235 | Whatever the resolve and content checks accept, the overlap filter accepts against every matched pair of markers, so against those it refuses nothing that would have been safe. |
| Create.FreshId | src/selection/create.rs:66-87 | The first drawn identifier that is well-formed and free; none only if all 32 are not. |
| Create.DefaultStartMeans | src/selection/create.rs:192-202 | Without a start line, selecting begins at line 2 exactly when the text begins with `#!` or `<?xml` and has a newline before its last character. |
| Create.Origin | src/selection/create.rs:246-278 | The range is accepted exactly when a longest mapping sends its marker-free lines to consecutive checkpoint lines; those lines then have the same text, in order. |
| Create.UnchangedIsAccepted | src/selection/create.rs:246-278 | In a file whose marker-free lines are the lines of its checkpoint version, whichever longest mapping is found, a range is accepted exactly when it has such a line, and mapped to those same lines. |
| Anchors.Lines | src/selection/anchors.rs:201-240 | Splitting into lines gives every line with its number, offsets and text without its ending; the lines with their endings join to the text. |
| Anchors.JoinSegments | src/selection/anchors.rs:201-240 | Splitting a text that was put together from lines gives those lines back. |
| Markers.RenderedParses | src/selection/anchors.rs:166-199 | A rendered marker of a selection, a zone or a flow, in every supported comment syntax, is a candidate line and is read back as itself. |
| Markers.LineIsMarker | src/selection/anchors.rs:286-360 | A line is a well-formed marker exactly when its trimmed text is the rendered one of its kind, identifier and boundary, in the syntax of its file. |
| Markers.OthersAreBroken | src/selection/anchors.rs:286-360 | A candidate line that is no rendered marker with an identifier of its kind has a problem. |
| Markers.CandidateMeans | src/selection/anchors.rs:257-284 | A line is a candidate exactly when it is a comment opener of some language, whitespace, and `@crane:`. |
| Markers.CandidateContainsTag | src/selection/anchors.rs:257-284 | The early return of find_markers for texts without the tag skips no marker. |
| Insertion.InsertIsInsertLines | src/selection/anchors.rs:369-402 | The inserted text, line by line: the old lines with two indented marker lines around the range, and an ending put on a last line that has none. |
| Insertion.MarkersRead | src/selection/anchors.rs:369-402 | Both inserted lines, character by character: the whitespace of the first selected line, a comment in the syntax of the file, and CRLF exactly when the text has one. |
| Insertion.DeletingMarkersRestores | src/selection/anchors.rs:369-402 | Deleting the two inserted lines gives the old text back, up to a final line ending. |
| Nesting.PairsAreLaminar | src/selection/tracker.rs:292-318 | The matched pairs of a file are pairwise nested or disjoint. |
| Nesting.OverlapIsUnreachable | src/selection/tracker.rs:250-266 | The selection_overlap verdict of resolve cannot occur. |
| Nesting.ResolvesIff | src/selection/tracker.rs:173-282 | A selection resolves at two markers exactly when they are the only ones with its identifier and the stack matches them. |
| Nesting.InsertionAddsOnePair | src/selection/tracker.rs:292-318 | Inserting two markers that match each other, with every end marker between them matched, adds exactly their pair to the pairs of the file. |
| Nesting.GroupIsHarmless | src/selection/tracker.rs:292-318 | Markers put around whole selections are matched, and so is every end marker between them. |
| Contents.ContentKept | src/selection/tracker.rs:320-367 | After such an insertion every existing pair holds the same content. |
| Tracker.SelectionIntervals | src/selection/tracker.rs:292-318 | The loop with its stack computes the specified pairs, by line. |
| Tracker.ProjectedContent | src/selection/tracker.rs:320-367 | The loop that copies around child markers gives the lines between the markers without the children's marker lines, normalized. |
| Tracker.ResolveIsLocal | src/selection/tracker.rs:196-209 | A selection resolves in a scan exactly as in the one file that holds its identifier, when no other file does. |
| Resolving.ResolveScan | src/selection/tracker.rs:173-282 | The steps of resolve give the specified verdict and location, each error case included. |
| Resolving.ResolvedSpan | src/selection/tracker.rs:268-282 | A resolved selection is between its start and its end marker: its lines are those between them, and its offsets cut exactly these lines out of the text. |
| Additions.OutsideLinesAreHarmless | src/selection/tracker.rs:173-367 | Adding marker-free lines outside a selection (or, read from right to left, deleting them) leaves its verdict and content alone and moves its lines. |
| LineRanges.ChangedLineRanges | src/hooks/enforce.rs:101-176 | The ranges are those of the walk over the score table, or of the maximal common ends when the table would be too large: ordered, disjoint, exactly the old lines that one edit script from old to new touches, an insertion touching the line after it, and empty exactly when nothing changes. |
| LineRanges.Walk | src/hooks/enforce.rs:130-176 | The walk over the score table produces the ranges of an edit script from old to new. |
| LineRanges.ReplacedAreExact | src/hooks/enforce.rs:123-176 | When every changed line is replaced by one that occurs nowhere else, the table branch reports exactly the changed lines, wherever they are. |
| LineRanges.FirstChange | src/hooks/enforce.rs:101-176 | In both branches the first range begins at the first line that differs. |
| LineRanges.WalkLosesByReplacing | src/hooks/enforce.rs:123-171 | The walk keeps a longest common subsequence but for lines it replaces, and it replaces one only where dropping the old line and adding the new one are equally good (WalkStep). |
| LineRanges.ScoreIsUpperBound | src/hooks/enforce.rs:125-134 | No common subsequence is longer than the score in the table. |
| LineRanges.Confined | src/hooks/enforce.rs:101-176 | When every range lies strictly between two old lines, everything up to the first and from the second on is kept. |
| Diff.MapLines | src/governance/diff.rs:12-35 | The map is sound (equal lines, increasing) and maps as many lines as any sound map can. |
| Diff.Myers | src/governance/diff.rs:44-109 | The pairs found form a longest common subsequence. |
| Diff.Search | src/governance/diff.rs:52-85 | The trace holds the furthest-reaching points of every round up to the edit distance, although rounds are written over each other in place. |
| Diff.ReachIsComplete | src/governance/diff.rs:52-85 | Every point within d insertions and deletions is at or behind the frontier of round d. |
| Guard.SameShapeSameMarks | src/hooks/enforce.rs:587-618 | Texts whose marker lines trim to the same strings have the same markers, so resolve gives the same verdicts in both. |
| Guard.NoObjectionKeeps | src/hooks/enforce.rs:626-687 | A write that keeps the marker shape and meets no objection keeps each preserved selection: it resolves after exactly if it did before, and its content is the same or the texts agree outside the interior of one target inside it. |
| Guard.ObjectionMeans | src/hooks/enforce.rs:626-687 | When a changed selection is objected to, and why: a preserved one unless one target inside it holds every change, an unregistered one always, a target never. |
| Enforce.Decided.DecideWrite | src/hooks/enforce.rs:488-687 | Deciding one file adds exactly the rules it breaks and denies exactly if there is one; the limit on the lines it changes, if the file has one, makes the floor the stricter one and adds its cost and its names, a held selection adds its cost, and what the script pre-check found asks for approval where no floor is set. |
| Enforce.DecideFiles | src/hooks/enforce.rs:284-297 | Exactly when a whole write is allowed, denied or quarantined. Unless it is denied or quarantined, every file of it preserves every preserved selection; when it is allowed, no limit on the changed lines of any file asks for a floor and the script pre-check found nothing; a file in an observe zone makes the floor a denial. |
| Enforce.NothingAsked | src/hooks/enforce.rs:437-486 | When no floor is asked for in the end, no file of the write has a limit on its changed lines that asks for one. |
| Enforce.ObserveZoneDenies | src/hooks/enforce.rs:437-486 | One written file that is in an observe zone as a whole makes the floor of the write a denial, whatever lines it changes. |
| Enforce.FloorMeans | src/hooks/enforce.rs:454-486 | The floor a limit asks for: a denial for observe, approval for assisted or restricted, nothing otherwise. |
| Enforce.BreaksMeans | src/hooks/enforce.rs:519-574 | Deleting a file, or an edit that cannot be simulated, is denied exactly when the file holds a marker or a selection was last seen in it. |
| Enforce.PlainRewriteBreaksNothing | src/hooks/enforce.rs:576-687 | A rewrite without markers before and after breaks no rule. |
| Enforce.Decided.Gate | src/hooks/enforce.rs:368-435 | The gate only makes a decision stricter, and says exactly when an action stays allowed, is denied, or is quarantined. |
| Enforce.BroaderChangesAreStricter | src/hooks/enforce.rs:437-486 | A limit that leaves no more asks for a decision at least as strict and costs at least as much. |
| Verify.Evaluate | src/governance/verify.rs:238-338 | A preserve command is resolved in the repository scan and judged in the file where the selection is; the loops that collect nested targets and project both texts give the specified judgement. |
| Verify.JudgeIsLocal | src/governance/verify.rs:575-586 | A command whose selection is in one file of the scan only is judged there as in that file alone. |
| Verify.JudgeMeans | src/governance/verify.rs:568-600 | In one file: a command is unresolved exactly when its selection is, and passes exactly when it holds its checkpoint content, or some target is inside, none is foreign, the checkpoint is available and the text outside the targets reads as it did. |
| Verify.NestedMeans | src/governance/verify.rs:247-290 | One target inside that is of another commit or path, or not strictly inside at the checkpoint, leaves nothing to compare; otherwise the nested targets are exactly the ones inside, with their marker lines and their checkpoint lines. |
| Verify.ChildMeans | src/governance/verify.rs:253-277 | A target is inside exactly when it has one well-formed marker of each kind and both are strictly between the markers of its parent. |
| Preserving.GuardImpliesVerifier | src/governance/verify.rs:575-586 | A preserve command that passes still passes after any write the guard allows, exactly under a stated condition, whether the checkpoint is available or not. Content left alone: it is the checkpoint's, or the text outside the nested targets stays. Content changed inside one nested target: the comparison outside the targets passed before the write. Any other write is judged anew; OtherExcusesAreMalformed and InPlacePasses say which those are and when they pass. |
| Preserving.GuardImpliesVerifierInScan | src/governance/verify.rs:553-586 | The same for resolution in the whole scan with the written file replaced: selections in other files keep passing, and one in this file passes exactly under the condition. |
| Preserving.HeldContentPasses | src/governance/verify.rs:306-338 | For a selection that holds its checkpoint content, with its targets at their own offsets, the comparison outside them passes exactly when there is a target, the checkpoint is available, and no line outside ends with three carriage returns. |
| Preserving.OtherExcusesAreMalformed | src/hooks/enforce.rs:645-668 | A write that changes the content without any nested target holding the change is allowed only through targets with a malformed marker. |
| InPlace.InPlacePasses | src/governance/verify.rs:306-338 | For a selection that has changed since its checkpoint, a write that leaves the markers on their lines passes exactly when every line outside the nested targets reads the same, or the checkpoint content is back. |
| Places.StayingPasses | src/hooks/enforce.rs:641-643 | A write that leaves the content alone, and as many content lines before the start marker and before the end marker of each nested target, leaves the command passing. |
| Preserving.UnbrokenIsAllowed | src/hooks/enforce.rs:581-687 | A rewrite for which decide_write adds no denial is an allowed write in the sense of the theorem above. |
| Alignment.ComparesLineByLine | src/governance/verify.rs:306-338 | For a selection that holds its checkpoint content, with its targets at their own offsets, the two projected texts are equal exactly when every line outside the targets is plain. |
| Zones.ContainsTag | src/governance/zones.rs:311-331 | The tag is found exactly when it occurs in the whole stream, however reads split it. |
| Zones.ForLines | src/governance/zones.rs:1016-1045 | The limit on changed lines is the combination of the file's own and those of the scopes they touch, if either says anything. |
| Zones.TouchedMeans | src/governance/zones.rs:1017-1026 | A change touches a scope exactly when it changes a line of it. |
| Zones.ForLinesJoins | src/governance/zones.rs:1016-1045 | The limit on two changes together is the join of their limits: the stricter ceiling, the higher criticality, the entities of both. |
| Zones.MoreScopesAreNoBroader | src/governance/zones.rs:1016-1045 | One more scope on a file never broadens the limit on any change. |
| Zones.EntityLimits | src/governance/zones.rs:1110-1134 | Accumulating over entities gives every file its limit; inactive entities give nothing. |
| Zones.LimitIsStrict | src/governance/zones.rs:1110-1134 | The limit of a file leaves no more than any active entity that covers it. |
| Zones.LimitIsTight | src/governance/zones.rs:1110-1134 | And no less: its ceiling, criticality and entity names are those of some covering entities, or the open ones. |
| Zones.AddScopes | src/governance/zones.rs:1133-1149 | Every scope between markers is put on its file, in order; a file that had no limit is open but for them. |
| Zones.ScopeIsStrict | src/governance/zones.rs:1016-1045 | A change of a line between two markers has a limit that leaves no more than their scope, whatever else is on the file. |
| PolicyTokens.Tokenize | src/governance/policy.rs:162-212 | The loop gives the tokens and offsets that the laws below are about, or that the text does not read. |
| PolicyTexts.CommentReads | src/governance/policy.rs:171-185 | A comment with `#` or `//` leaves no token: what follows its newline reads as if it stood there alone. |
| PolicyTexts.BlanksAreDropped | src/governance/policy.rs:162-170 | Spaces, tabs, carriage returns and newlines in front leave no token. |
| PolicyTexts.ErrMeansStray | src/governance/policy.rs:162-212 | A text does not read exactly when some character outside its comments is no blank, no symbol and no name character. |
| PolicyTokens.TokensJoin | src/governance/policy.rs:162-212 | Tokens of a join are the tokens of its parts, when the cut does not split a word or a comment. |
| PolicyParser.Parse | src/governance/policy.rs:257-416 | The parsing loops give exactly what the grammar's reader gives. |
| PolicyGrammar.ReadSectionsIs | src/governance/policy.rs:257-416 | The parser accepts exactly the token texts of valid files and reads back what was written. |
| PolicySpelling.KindMeans | src/governance/changes.rs:39-49 | The spellings of a change type, exactly: its name, with any letters in either case and hyphens for underscores. |
| PolicySpelling.PolicyParses | src/governance/policy.rs:257-416 | A policy written out as text, with one command of each kind, parses to that command, with its offsets. |
| PolicyLaws.InsertCommutes | src/governance/policy.rs:424-447 | For text that parses, inserting a rendered valid command parses to the same policies with the command appended to its block. It also bounds the block's brace by the text, which RemoveUndoesInsert asks for. |
| PolicyLaws.InsertedText | src/governance/policy.rs:424-447 | The inserted command stands on a line of its own behind four spaces: before the line of the closing brace, or before the brace when something else is on its line. |
| PolicyLaws.RemoveCommutes | src/governance/policy.rs:449-465 | For text that parses, removing any command parses to the same policies without it. |
| PolicyLaws.RemovedText | src/governance/policy.rs:449-465 | Removing a command takes its whole line when only whitespace is before it and only whitespace or a comment behind it; otherwise it takes the command and nothing else. |
| PolicyLaws.RemoveUndoesInsert | src/governance/policy.rs:424-465 | Removing what was just inserted gives the text back exactly when only whitespace precedes the closing brace on its line. |
| AuditChain.Verify | src/governance/audit.rs:101-117 | The loop accepts exactly the chains whose numbers, links and digests are right. |
| AuditChain.AppendKeeps | src/governance/audit.rs:79-99 | Appending the next entry keeps a chain a chain. |
| AuditChain.HeadFixesChain | src/governance/audit.rs:63-77 | Chains with equal heads are equal. |
| CheckpointChain.CheckpointLog.Append | src/governance/checkpoints.rs:127-162 | Appends unless the name is taken, and keeps the chain valid. |
| CheckpointChain.CheckpointLog.VerifyChain | src/governance/checkpoints.rs:164-181 | The loop accepts exactly the chains with right links, digests and distinct names. |
| CheckpointChain.HeadFixesChain | src/governance/checkpoints.rs:108-125 | Logs with equal heads are equal. |
| SelectionMap.RenderMap | src/selection/registry.rs:306-327 | Sorting and pushing the lines of the map gives the specified text. |
| SelectionMap.MapRoundTrips | src/selection/registry.rs:306-344 | Reading a rendered map gives back the pairs that went in, as a multiset, whatever comments head it. |
| SelectionMap.MalformedMeans | src/selection/registry.rs:329-344 | A map is malformed exactly when some line of it is neither blank, nor a comment, nor an identifier and a digest with whitespace between them. |
| SelectionMap.PairMeans | src/selection/registry.rs:329-344 | A line is read as a pair exactly when it is that identifier and that digest, with whitespace between, before and behind. |
| Integrity.StatementBinds | src/governance/admins.rs:63-119 | An admin statement verifies only for the repository, owner, epoch and list it was signed for. |
| Integrity.Check | src/governance/state.rs:306-529 | The check gives the specified findings in the specified order, among them the early return when no manifest is there, and the epoch it remembers; CleanMeansPasses and EpochIsRemembered say what these are. |
| Passing.CleanMeansPasses | src/governance/state.rs:306-529 | Nothing blocks exactly when the state is what it must be: keys, signature, head, digests, chains, map, anchor. |
| Passing.EpochIsRemembered | src/governance/state.rs:494-498 | A check never lowers the remembered epoch, and a state that passes with a list of administrators raises it to that of the list. |
| Passing.HeadFixesState | src/governance/state.rs:70-86 | States that pass under one head hold the same configuration, checkpoints, context, audit trail and records, whoever checks them. |
| Passing.RecordOrderIsFree | src/governance/state.rs:256-265 | The order of the records in the registry does not matter to what a manifest covers, as long as no identifier occurs twice. |
| GovernanceRuns.MapChangeIsSeen | src/governance/state.rs:437-458 | A state that passes still does after its map is replaced exactly when the new one lists the same identifiers and digests. |
| GovernanceRuns.LostCommitIsSeen | src/governance/state.rs:462-490 | It still does elsewhere exactly when the commits of its checkpoints are there. |
| Governance.Clone.Commit | src/governance/state.rs:546-637 | Commit, step by step on the clone's fields, is the specified transition: what it refuses, what it signs, and the anchor it moves. |
| GovernanceRuns.CommitWrites | src/governance/state.rs:578-637 | What a commit writes: a manifest one generation above the one it replaces, or the first, that names its head, covers what is written, is signed and anchored; the change with every record sealed; and one audit entry that tells who asked for what and when. |
| GovernanceRuns.NextNamesAnchored | src/governance/state.rs:578-637 | When nobody signed since this machine did, its next manifest names the head it anchored. |
| GovernanceRuns.RefusedWritesNothing | src/governance/state.rs:546-585 | A commit that is refused writes nothing and moves no anchor. |
| GovernanceRuns.CommitPasses | src/governance/state.rs:546-637 | A commit whose change keeps the state it loads sound leaves a state that passes the check; a first commit needs a sound state to start from. |
| GovernanceRuns.EveryCommitPasses | src/governance/state.rs:546-637 | On every run of such commits and arbitrary replacements, each commit's output passes the check. |
| GovernanceRuns.GenerationsIncrease | src/governance/state.rs:578-637 | On every run that keeps a manifest, the generations this machine signs strictly increase. |
| GovernanceRuns.NeverTwoHeads | src/governance/state.rs:578-637 | So it never signs two heads at one generation. |
| GovernanceRuns.OldListsAreRefused | src/governance/admins.rs:168-189 | Once a machine was asked to commit on a state in which nothing blocks, no state with an older list of administrators passes its check, whatever happens in between. |
| GovernanceRuns.CheckpointIsWellBehaved | src/governance/checkpoints.rs:127-162 | Appending a checkpoint of an available commit keeps every sound state sound, so the run properties apply to it. |
| GovernanceRuns.SelectionKeepsSound | src/selection/create.rs:371-381 | Adding the record of a new selection keeps a sound state sound exactly when its identifier is well-formed and free in the state that the commit loads; the commit does not look for it again. |
| GovernanceRuns.CreationPasses | src/selection/create.rs:371-381 | The commit that create makes leaves a state that passes the check, for such an identifier. |
| Cycles.FindCycle | src/governance/graph.rs:33-78 | The search ends, returns only genuine closed walks, and returns None exactly when the graph is acyclic. |
| Graph.Builder.Node | src/governance/graph.rs:104-118 | A node is added unless its identifier is taken. |
| Graph.Builder.AddEdge | src/governance/graph.rs:135-169 | An edge between known nodes that is new is accepted, or rejected exactly when it would close a cycle; Valid keeps the accepted edges acyclic, equal to the adjacency, without duplicates, and every rejected edge closing a cycle with what is accepted now. |
| Graph.FindPath | src/governance/graph.rs:171-186 | The breadth-first search answers exactly whether accepted edges lead from one node to another. |
| Graph.Builder.Check | src/governance/graph.rs:33-78 | On the accepted edges of a builder, find_cycle gives None. |
| Graph.ParentIsSmallest | src/governance/graph.rs:253-271 | The parent is a smallest enclosing span of the same file, and there is one whenever some span may be one. |
| Graph.ParentsAreForest | src/governance/graph.rs:253-271 | Following parents never returns to where it began, identical spans included. |
| Flows.Discover | src/governance/flows.rs:598-677 | The nodes are exactly the definitions within max_depth resolvable calls of an entry point, each once and at its shortest distance; the edges and unresolved calls are those of the expanded nodes; the entry points and unresolved entries are listed in order; the files are those of the nodes; and exactly when the status is which. |
| Flows.EntryIsUnique | src/governance/flows.rs:555-596 | An entry point resolves exactly to the only definition it can mean; PathEntryMeans and BareEntryMeans say which those are. |
| Flows.PathEntryMeans | src/governance/flows.rs:555-578 | `path:symbol` means a definition exactly when its path is that one or ends with it behind a slash, and its qualified name or its name is the symbol, or its qualified name ends with it behind a dot. |
| Flows.BareEntryMeans | src/governance/flows.rs:555-578 | An entry without a colon asks only for the name. |
| Flows.IdentifierResolves | src/governance/flows.rs:555-596 | The identifier of a definition resolves to it exactly when no other definition fits its path and its name. |
| Flows.TargetMeans | src/governance/flows.rs:642-665 | A call is followed exactly to the only definition with that name, or else to the only one in the file of the caller. |
| Changes.Lex | src/governance/changes.rs:226-330 | The loop gives the tokens and comments of the pieces that ScanReads describes. |
| Changes.ScanReads | src/governance/changes.rs:226-330 | What each piece is: a token is the text it was read from; a line comment ends before the first newline behind its opener or with the text, a block comment with its first closer or with the text, and the body of either is what is in between, with whitespace collapsed. |
| Lexing.LineCommentLeaves | src/governance/changes.rs:260-269 | A line comment leaves the tokens of the text before it and of the text from its newline on, and adds one comment. |
| Lexing.PartsLex | src/governance/changes.rs:226-330 | A text lexes as its parts do, wherever lexing comes to the cut. |
| Lexing.OperatorIsLongest | src/governance/changes.rs:190-195 | An operator is the longest listed one that starts there. |
| Splitting.CollapseKeepsWords | src/governance/changes.rs:213-215 | Collapsing whitespace keeps the words of a comment and nothing else: two comments are equal exactly when their words are. |
| Changes.Measure | src/governance/changes.rs:349-403 | The loop over tokens, with its counters and numbering map, gives the specified features. |
| Changes.FeaturesCount | src/governance/changes.rs:349-403 | A literal, operator or call is counted as often as it stands among the tokens, and so are loops and branches. |
| Changes.ShapeIsCanonical | src/governance/changes.rs:349-403 | Two lexed token streams have the same shape exactly when a one-to-one renaming of names turns one into the other. |
| Classify.Classify | src/governance/changes.rs:475-505 | The summary of two versions, in the comment syntax of their language, is the specified one. |
| Classify.SummaryMeans | src/governance/changes.rs:475-495 | The summary says exactly whether the texts, the tokens, the comments, the number of some literal, operator or call, and the number of loops or branches differ. |
| Classify.ReplacedIsBusiness | src/governance/changes.rs:475-495 | Replacing a literal, or an operator that does not join names, by another literal or operator is a business change. |
| Classify.SemanticMeans | src/governance/changes.rs:507-533 | A semantic change is accepted exactly when names are replaced one to one with the same calls left, and a name or a comment differs. |
| Classify.EveryCodeChangeHasAKind | src/governance/changes.rs:507-533 | Every code change is of one of the four kinds, a restructuring is of no other, and no change is both business and semantic. |
| Glob.SegmentMatches | src/platform/glob.rs:52-77 | The loop with one remembered star gives the specified greedy answer. |
| Glob.PathMatchesMeans | src/platform/glob.rs:12-50 | A path found to match does match, `**` included, and a path without a star that matches is found to. |
| Limits.Limiter.Allow | src/server/limits.rs:102-121 | Each answer is that of the specified bucket run, and the buckets stay those of the run. |
| Limits.WindowIsBounded | src/server/limits.rs:102-121 | In any window of T seconds a key is granted at most rate * (1 + T / 60), whether idle buckets are pruned or not. |
| Limits.RefusedIsUsedUp | src/server/limits.rs:102-121 | A key is refused only when in the window since one of its own requests it was granted all that the window allows: one more would be more than rate * (1 + T / 60). |
| Limits.PruningChangesNothing | src/server/limits.rs:107-110 | Pruning buckets idle for 120 seconds never changes an answer. |
| Limits.KeysAreIndependent | src/server/limits.rs:111-121 | A request gets the answer it would get if its key were the only one, whether idle buckets are pruned or not. |
| IsoTime.CivilIsRight | src/platform/render.rs:12-36 | Every day number has a valid date, as in section 5.7 and Appendix C of RFC 3339, that converts back to it. |
| IsoTime.RenderReads | src/platform/render.rs:12-36 | The text has the fields of section 5.6 of RFC 3339 in their places, and year, month, day, hour, minute and second name exactly the second that was given. |
| IsoTime.TextsAreDistinct | src/platform/render.rs:12-36 | Times with the same text are in the same second. |
| MovedMarker.AllowedWriteFails | src/hooks/enforce.rs:641-643 | A finding, see below: a concrete write that the guard allows and the verifier then fails. |
| LostReturn.AllowedChangeFails | src/governance/verify.rs:306-338 | A finding, see below: a second such write, inside a target. |
| BrokenMarker.AllowedChangeFails | src/governance/verify.rs:247-268 | A finding, see below: a third such write, between the markers of a target one of which is malformed. |
| Alignment.LineCompares | src/governance/verify.rs:306-338 | The two comparisons see a line alike exactly when it does not end with three carriage returns before its newline. |
| Glob.CompleteExactly | src/platform/glob.rs:52-77 | A finding, see below: every match of every pattern against a segment is found exactly when the segment has no star. |
| Glob.PathCompleteExactly | src/platform/glob.rs:31-50 | The same for whole paths. |
| Classify.SameShapeSameComplexity | src/governance/changes.rs:171-171 | A finding, see below: with the same shape, complexity differs exactly when `until` occurs a different number of times. |
| Classify.RenamingUntilChangesComplexity | src/governance/changes.rs:171-171 | In every supported language, the text `until` changed to `u` is classified as a code change with the same shape and another complexity. |
| GovernanceRuns.AdvancesExactly | src/governance/state.rs:557-586 | A finding, see below: a commit signs above the anchor exactly when a manifest is present. |
| GovernanceRuns.DeletedManifestForks | src/governance/state.rs:557-586 | A run in which one machine signs two heads at generation one. |
| GovernanceRuns.GovernanceChangeIsSeen | src/governance/state.rs:134-150 | A finding, see below: an edit of governance.yaml is noticed exactly when it changes the parsed meaning. |
| Create.FilterAcceptsCrossing | src/selection/create.rs:226-235 | A finding, see below: two crossing ranges that the overlap filter accepts. |
| Create.UnmatchedFilterIff | src/selection/create.rs:211-235 | What the overlap filter lets through at a start marker without an end marker, exactly. |
| Create.FilterRefusesSafe | src/selection/create.rs:211-235 | A finding, see below: a selection behind every marker, up to the last line, is safe; the check against a start marker without an end marker refuses it exactly when it does not begin on the line after that marker. |
| Creatable.FinalReturnIsRefused | src/selection/create.rs:292-303 | A finding, see below: an unchanged file of one line that cannot be selected. |

## Findings

Properties one might expect that the code does not have. Each has an input and the exact condition.

- The guard does not imply the verifier. `MovedMarker.AllowedWriteFails`: a write that moves a line across
  the end marker of a target nested in a preserved selection keeps the selection's content, so
  decide_write skips it (src/hooks/enforce.rs:641-643), yet changes the text outside the target.
  `LostReturn.AllowedChangeFails`: a preserved selection holds its checkpoint content, and a line outside
  its target ends with three carriage returns and a newline; after an allowed change inside the target
  the verifier takes the ending off that line differently on its two sides.
  `BrokenMarker.AllowedChangeFails`: a write changes a line between the markers of a nested target whose start
  marker has text behind it. The guard counts the markers of a target whatever is wrong with them
  (src/hooks/enforce.rs:652-661), the verifier only well-formed ones (src/governance/verify.rs:252, 263), so
  the line is inside a target for one and outside every target for the other.
  `Preserving.GuardImpliesVerifier` says exactly when the property holds, for every allowed write.
- Wildcard matching misses matches of texts that contain a star, because a literal is tried before the
  star (src/platform/glob.rs:58). `Glob.CompleteExactly` and `Glob.PathCompleteExactly`: all matches of all
  patterns are found exactly when the text has none.
- The same shape does not imply the same complexity: `until` counts as a loop but is no keyword, so it can
  be renamed. `Classify.SameShapeSameComplexity` is the exact condition,
  `Classify.RenamingUntilChangesComplexity` the input.
- Generations do not increase on every run. A commit that finds no manifest skips the check and signs
  generation one (src/governance/state.rs:557, 569). `GovernanceRuns.AdvancesExactly` is the exact
  condition, `GovernanceRuns.DeletedManifestForks` the run that signs two heads at generation one.
- Not every edit of governance.yaml is noticed. A text that cannot be parsed has a fixed digest, which can
  be signed; `GovernanceRuns.GovernanceChangeIsSeen` says that an edit passes exactly when it keeps the
  parsed meaning, with all unreadable texts meaning the same.
- The overlap filter of create lets two crossing shapes through. `Create.FilterIff` lists what it accepts,
  `Create.FilterAcceptsCrossing` the crossing ones; the resolve and content checks after it refuse them.
- The overlap filter also refuses safe ranges. A start marker without an end marker counts as reaching to the
  last line (src/selection/create.rs:223), so a selection behind it that ends there is refused although
  nothing else would change. `Create.FilterRefusesSafe` gives all those ranges, `Create.UnmatchedFilterIff`
  what the filter lets through at such a marker.
- Not every unchanged line can be selected. A last line that ends with a carriage return and has no newline gets
  one, and in a text without CRLF it then reads without the carriage return, unlike at the checkpoint
  (src/selection/create.rs:298). `Creatable.UnchangedIsCreated` is the exact condition,
  `Creatable.FinalReturnIsRefused` an input.
- In assisted mode and in the degraded state a zone denial becomes a request for approval: gate tests them
  before zone_error and the zone floor (src/hooks/enforce.rs:391-412). `Enforce.Decided.Gate` states exactly
  when the answer is a denial.

## Left out

- Git, file, network and database calls, the governance lock, crash points between the files that a commit
  writes, and atomic renames. A commit is one step.
- Bytes: offsets are character counts, so multi-byte characters have offset one. Texts are taken as valid
  UTF-8.
- SHA-512, Ed25519 and canonical JSON: digests are terms and signatures are ideal.
- Finding definitions and calls in source text (src/governance/flows.rs:94-477), and the script and shell
  heuristics (src/hooks/scripts.rs, src/hooks/shell.rs): guesses without an exact meaning. What the script
  pre-check finds in a written file is an argument of DecideWrite.
- Target commands of the verifier are modelled by Classify; the pending state of a target, and scanning a
  repository for moved files, are not modelled.
- Scan findings, stage findings, the metadata fingerprint of cached limits, message wording, JSON layout,
  the command line, integrations, telemetry and the dashboard.
- The line and column that a policy syntax error names, and the reasons and labels that flows give to unresolved
  entries, unresolved calls and edges.
- Creatable.CreatedIff: is about texts that do not end with a carriage return. Creatable.PlacedIff has no such
  condition, and Creatable.UnchangedIsCreated says what happens without it.
- Lexing.LineCommentLeaves: is about comments that lexing comes to, so not about an opener inside a string.
- The order in which the guard's reasons are worded, and the resources and zone names it lists. The rules it
  reports are in order.
- Limits.WindowIsBounded: uses real numbers, so rounding of floating point is not covered, and takes request
  times as given by one monotone clock.
- IsoTime.TextsAreDistinct: day counts are unbounded; a 64-bit count of milliseconds is a special case.
- Preserving.HeldContentPasses: is about targets whose lines at the checkpoint sit at their own offset in
  their parent, strictly inside it, with its commit and path. GuardImpliesVerifier does not ask for that.
- Places.StayingPasses: goes one way; a write may also leave the text outside the targets alone when equal
  lines change places around a marker.
- Integrity.Check: leaves out the returns for a trust directory or an anchor that cannot be read
  (src/governance/state.rs:325, 500).
- Flows.Discover: asks for what the finder of definitions gives, that a qualified name is the name, or a type,
  a dot and the name. Definitions may share a path and a qualified name.
- Changes.ShapeIsCanonical: takes the classes of letters and digits as an argument that tells identifiers,
  digits and punctuation apart, instead of the Unicode tables.
- LineRanges.ChangedLineRanges: the score table is a two-dimensional array where the source keeps one flat vector.
- Tracker.ProjectedContent: the source sorts the offsets of child markers; they are already in file order here.
