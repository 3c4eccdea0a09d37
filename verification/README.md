# Belay: detection, experience governance, projection and MCP registration

Belay watches coding agents. It turns the events of a session into findings, turns recurring findings
into "experiences" that a person approves and later requests select, projects findings into issues, and
registers itself with the agents' MCP configuration. This project models the decision logic of those four
parts in Dafny and proves what it is for. `dafny verify dfyconfig.toml` checks everything.

## What is modelled

**The session pipeline** (`internal/detection`). `Events` holds an observation and its prepared form.
`Coalesce` groups observations by identity, joins a live and a historical observation when each is the
only opposite-source candidate of the other, and merges the pair. The compatibility relation is a time
window, so it is not transitive, and a merge fills in a missing command signature, so it could make new
pairs: `CoalesceIdempotent` shows that it never does. `CoalesceTheorems` says what compatibility and
merging mean in the events' own terms. `Prepare` lifts, sorts and coalesces a session.
`Attempts` pairs command executions with results in the loop of the source, against a declarative pairing;
`AttemptTheorems` says what the attempts mean. `Detectors` and `CommandFailures` hold three of the
built-in detectors. `Fingerprints` holds the length-prefixed fingerprint key, `Catalog` the all-or-nothing
merge of detector results, and `DetectorSlot` the concurrent life of one detector as a state machine over
every interleaving of callers, workers, time-outs and panics.

**Experience governance** (`internal/experience` and the selector in `internal/localapp`). `PathMatch` is
the `**` matcher, `Lexical` the word overlap, `Experiences` the content, `Eligibility` the gates and the
score of a request, `Selection` the budgeted choice, `Narrowing` the check on narrowed approvals, and
`Conflict` the conflict preflight. `NarrowingSelection` and `Disjointness` connect the syntactic checks on
approvals and conflicts with the requests that can select a content.

**Projection** (`internal/analysis/reconciler.go`). `Paging` reads a fixed, strictly ordered snapshot page
by page under caps. `Grouping` is the incremental grouping of findings with bounded citations, proved
equal to a reading of each whole group; `GroupTheorems` says what the result means and when it depends on
the order of the findings.

**MCP registration** (`internal/localapp/mcp_config*.go`). `McpRegistry` is the outside world: an entry per
agent, a status command that answers truly or not at all, add and remove commands of host programs that
may do anything and report anything, and the registry files that Belay rewrites itself. `McpConfig` is
status, install, update with rollback and uninstall; each method's result is a function of the trace of its
exchanges. `McpTheorems` proves what a trace can do to a registry, `McpManage` is a whole call with the
manifest file, and `McpRuns` covers any number of calls by changing executables with anyone editing the
registries, and losing or damaging the manifest, in between. Nobody else writes during a call.

`Common` and `Ordering` hold options, text, time windows, Go's string order, a stable sort, and facts
about permutations.

Loops of the source are loops here, with a specification function or predicate beside them; the theorems
are lemmas about those specifications.

## Properties of the code that turned out conditional

- Narrowing an approval can widen selection. If the original names no task families, the families a
  narrowing adds become words that a task hint can share. `WhenNarrowingWidens` gives the exact condition
  for one request, `NarrowingIsSafeIff` for a pair of contents, and `AddingAFamilyCanWiden` a concrete pair.
- Disjoint task families rarely keep two experiences apart: shared words stand in for a family.
  `DisjointFamiliesNeverMeetIff` says exactly which pairs they keep apart, over all requests: those of which
  one has a condition that selection never admits, and those whose texts both lack a usable word.
  `DisjointFamiliesCanMeet` builds the request for every other pair, and `DisjointFamiliesMeetIff` is the
  exact condition for one request.
- The merged confidence and severity of a group depend on the order of the findings for some values outside
  the known ranks. `ConfidenceOrderIff` and `SeverityOrderIff` give the exact conditions.
- For fingerprints that validation admits (not empty, no empty name or value) a match key identifies the
  detector and the fingerprint, except between two detector IDs of which one imitates the other: it continues
  the other's ID, after a NUL, with text that breaks off while non-empty length-prefixed fields are read.
  `SharedKeyIff` states that this is exactly when some such fingerprints collide. `NulInDetectorIdCollides`
  names a colliding pair, `NulNeedNotCollide` IDs with a NUL that do not collide, and IDs without NUL never do
  (`ImitatorHasNul`). The condition leaves aside that validation also sorts the dimensions.
- The window test agrees with exact time differences unless one time lies 292 years or more before the
  other, because 64-bit negation leaves the least value negative (`WindowTestIsExact`, `CodedTestIsExact`).
  For events less than 2^63 ns apart the code's compatibility graph is the exact one (`CodedGraphIsExact`), so
  the results on coalescing hold of the code. Beyond that its graph need not be symmetric: on the three events
  of `FarTimesPairOneWay` the code pairs the first with the second and then the third with the second again.
  The pairing of adjacent command events uses the same test, so a result 2^63 ns or more before its execution
  counts as within five seconds in the code, and the results on attempts hold of sessions without such times.

## Model

| member | source | states |
|---|---|---|
| Common.WindowTestIsExact | internal/detection/coalesce.go:254-259 | The saturating, 64-bit window test equals the exact one except when the first time lies 2^63 ns or more before the second, where it always says "within". |
| Common.SplitJoins | internal/experience/pathmatch.go:12-13 | The parts of a split text hold no separator and, joined by it, give the text back. |
| Common.TrimSpaceTrims | internal/experience/hash.go:370-380 | Trimming cuts off exactly the white space around a text. |
| Common.ToLowerMeans | internal/detection/attempts.go:264-296 | Lower-casing maps each capital letter to its small one and nothing else. |
| Ordering.LessIsLexicographic | internal/analysis/reconciler.go:607-609 | One string is less than another when it ends, or has the smaller character, at the first difference. |
| Events.EventBeforeOrdersDistinctIds | internal/detection/prepare.go:67-79 | Events with different IDs are always strictly ordered, one way or the other. |
| Coalesce.BuildGroups | internal/detection/coalesce.go:27-44 | Each identity group holds exactly the candidates of the events with that identity and a known source, in list order; an identity without candidates has no group. |
| Coalesce.UniqueOppositeCandidates | internal/detection/coalesce.go:87-115 | A single result means exactly one opposite-source candidate in the window with compatible tool call and signature, and it is that one; the search stops once a second is found. |
| Coalesce.PairGroup | internal/detection/coalesce.go:48-65 | The loop over one group adds exactly the isolated edges inside that group, in both directions, and nothing else. |
| Coalesce.PairCandidates | internal/detection/coalesce.go:46-66 | For any iteration order over the groups, `paired` is exactly the set of isolated edges of the compatibility graph; groups over 256 contribute none. |
| Coalesce.PairingInvolution | internal/detection/coalesce.go:46-66 | `paired` is a fixpoint-free involution that joins a live with a historical observation. |
| Coalesce.CodedTestIsExact | internal/detection/coalesce.go:96-109 | The code's test on two candidates differs from the exact one exactly when everything else agrees and the candidate lies 2^63 ns or more after the other; for candidates closer than that it is exact and symmetric. |
| Coalesce.CodedGraphIsExact | internal/detection/coalesce.go:87-115 | For events of which no two are 2^63 ns or more apart, the compatibility graph computed with 64-bit arithmetic has exactly the edges of the exact one. |
| Coalesce.FarTimesPairOneWay | internal/detection/coalesce.go:53-64 | Three events on which the code's graph has exactly the edges 0 to 1, 1 to 2 and 2 to 1: the far event's only candidate has another one as its only candidate. |
| Coalesce.PairingUnique | internal/detection/coalesce.go:46-66 | The compatibility graph alone determines `paired`: no map or list iteration order matters. |
| Coalesce.IsolatedSymmetric | internal/detection/coalesce.go:57-64 | An isolated edge is isolated seen from either end, and its ends share their identity group. |
| Coalesce.MergePairs | internal/detection/coalesce.go:68-83 | The merge loop yields one item per unpaired event and one per pair, at the place of its earlier end. |
| Coalesce.CoalesceEvents | internal/detection/coalesce.go:26-85 | The whole pass returns the sorted merge of the unique pairing. |
| CoalesceTheorems.IdentityIff | internal/detection/coalesce.go:128-171 | Two events share an identity exactly when session, kind, actor, outcome, exit code and the subject their kind names agree, the subject being known. |
| CoalesceTheorems.ToolIdentityIff | internal/detection/detectors.go:320-354 | An event has a tool identity exactly when it names the tool of an MCP server, in its details or else in its resource, or a tool of the harness; the identity tells which. |
| CoalesceTheorems.SameToolIff | internal/detection/detectors.go:320-354 | Two events have one tool identity exactly when they name the same tool. |
| CoalesceTheorems.EdgeMeans | internal/detection/coalesce.go:46-171 | Two events are compatible exactly when they may be sightings of one occurrence, one from a hook and one from an artifact, at most a second apart, without conflicting tool calls or commands, in a group of at most 256. |
| CoalesceTheorems.MergeKeepsTheRicher | internal/detection/coalesce.go:173-239 | A merge keeps the event of deeper coverage, then of more confidence, then the earlier one; it fills in what its enrichment lacks, unites the evidence, and is historical or live if either was. |
| CoalesceTheorems.FlagsAreConserved | internal/detection/coalesce.go:173-190 | The pass neither adds nor loses historical or live evidence, on which the verification-gap detector rests. |
| CoalesceIdempotent.FillingShrinks | internal/detection/coalesce.go:225-239 | Two merged observations that are compatible were compatible before a missing signature was filled in. |
| CoalesceIdempotent.MergeKeepsGroup | internal/detection/coalesce.go:173-190 | A merged event keeps the identity of its ends and the source of the end with the higher coverage rank. |
| CoalesceIdempotent.MergedGroupSize | internal/detection/coalesce.go:49-51 | Merging never grows an identity group and leaves the size of a group without pairs as it was. |
| CoalesceIdempotent.MergedEdge | internal/detection/coalesce.go:68-85 | Every edge among merged observations joins two unpaired ones and was an edge before, in a group of at most 256. |
| CoalesceIdempotent.MergedHasNoPairs | internal/detection/coalesce.go:68-85 | After merging, no observation is the unique opposite candidate of its own unique opposite candidate. |
| CoalesceIdempotent.CoalescingIsIdempotent | internal/detection/coalesce.go:26-115 | A second pass over the output finds no pair and returns the same list, for every list of events. |
| CoalesceIdempotent.EvidenceIsConserved | internal/detection/coalesce.go:173-190 | An ID that is evidence of one item is evidence of exactly one output item, and no ID appears that was not there. |
| Prepare.PrepareSession | internal/detection/prepare.go:33-65 | The in-place lifting and sorting rejects over 10000 events and foreign events, and otherwise returns the coalesced sorted session. |
| Prepare.PreparedInOrder | internal/detection/prepare.go:67-79 | Prepared events ascend by sequence, then by time, then by event ID. |
| Prepare.PreparationFailsIff | internal/detection/prepare.go:33-65 | Exactly which sessions are refused: a blank ID, more than 10000 events, or an event of another session. |
| Prepare.PreparedFromInput | internal/detection/prepare.go:33-65 | Every prepared event is an input event; one that stands alone has exactly the enrichment given for its ID. |
| Prepare.PreparedFlags | internal/detection/prepare.go:33-65 | A prepared session has historical evidence exactly when some input is historical or an artifact, and live evidence exactly when some input is a hook's and not historical. |
| Prepare.PreparationIgnoresArrivalOrder | internal/detection/prepare.go:33-79 | Any two permutations of a session's events with distinct IDs prepare to the same session. |
| Prepare.EvidencePartitionsInput | internal/detection/prepare.go:33-65 | Every input event's ID is in the evidence of exactly one prepared event, and all evidence is input. |
| Prepare.CitationIds | internal/detection/prepare.go:160-183 | Citations are distinct non-empty evidence IDs, at most 50; the flag is true exactly when there are at most 50 distinct ones, and then none is missing. |
| Attempts.CommandToolCallMultiplicity | internal/detection/attempts.go:134-159 | The counters hold, per tool-call ID, the number of command executions and results of the session. |
| Attempts.CountsDecide | internal/detection/attempts.go:134-159 | Counts of one and one mean exactly that the ID has one execution and one result. |
| Attempts.CompleteToolCall | internal/detection/attempts.go:77-92 | A result completes the pending execution of its ID exactly when the two form a tool-call pair. |
| Attempts.CompleteAdjacent | internal/detection/attempts.go:93-104 | A result without an ID completes the last attempt exactly when it forms an adjacent pair with the event right before it. |
| Attempts.BeginAttempt | internal/detection/attempts.go:107-124 | Any other signed command event opens an attempt; an unsigned one opens none. |
| Attempts.CommandAttempts | internal/detection/attempts.go:58-127 | The loop over positions with its pending map computes exactly the declarative pairing: attempts are the unpaired signed command events and the pairs, in order of their first event. |
| Attempts.PairUnique | internal/detection/attempts.go:58-127 | Two pairs that share an event are the same pair. |
| AttemptTheorems.FirstPositionsIncrease | internal/detection/attempts.go:58-127 | First positions of the attempts strictly increase. |
| AttemptTheorems.AttemptShape | internal/detection/attempts.go:177-251 | An attempt is one event, or an execution followed by its result; its trust says which kind of pair it is. |
| AttemptTheorems.PairsAreExact | internal/detection/attempts.go:58-127 | Two positions form a paired attempt if and only if they are a tool-call pair or an adjacent pair, with tool-call trust exactly for the former. |
| AttemptTheorems.NoEventInTwoAttempts | internal/detection/attempts.go:58-127 | No event is in two attempts. |
| AttemptTheorems.SignedCommandsAreCovered | internal/detection/attempts.go:58-127 | Every signed command event is in an attempt. |
| AttemptTheorems.JoinIsLeastUpperBound | internal/detection/attempts.go:205-251 | Verdicts unknown, succeeded, failed and contradicted form a lattice in which merging takes the least upper bound. |
| AttemptTheorems.MergeJoins | internal/detection/attempts.go:205-251 | Merging an event into an attempt joins the two verdicts. |
| AttemptTheorems.OutcomeIsJoin | internal/detection/attempts.go:205-286 | An attempt's outcome and conflict flag are the join of its events' verdicts; a contradicted attempt is never decided. |
| AttemptTheorems.OutcomeMeans | internal/detection/attempts.go:253-286 | An event is failed or succeeded by what its exit code or its text says, and contradicts itself exactly when it says both. |
| AttemptTheorems.ClassMeans | internal/detection/attempts.go:288-304 | A command's class is one of six, whatever its case and the space around it, or unknown. |
| AttemptTheorems.PairMeans | internal/detection/attempts.go:77-104 | What a pair is, by kinds, tool call IDs, signatures, neighbourhood and five seconds, without the model's own notions. |
| AttemptTheorems.AttemptFields | internal/detection/attempts.go:177-251 | An attempt has its first event's signature, the time span of its events, and the one class its signed events agree on. |
| AttemptTheorems.AttemptStanding | internal/detection/attempts.go:107-124 | A lone execution, a lone result and a pair are told apart, and exactly which lone results count as no repetition. |
| Detectors.FindLastEnd | internal/detection/detectors.go:558-568 | Finds the last `session.end`, or reports that there is none. |
| Detectors.BySignature | internal/detection/detectors.go:570-577 | The map holds, per signature, its kept attempts in order, and no empty group. |
| Detectors.ScanSeries | internal/detection/detectors.go:584-594 | What stands after a series is its last decided attempt if that failed. |
| Detectors.StandingIsLastDecided | internal/detection/detectors.go:584-597 | An attempt stands if and only if it is the last decided verification of its signature that ended in time, and it failed. |
| Detectors.DetectUnresolvedVerification | internal/detection/detectors.go:550-613 | A signature is reported exactly when its last decided paired verification attempt ending before the last `session.end` failed; one finding each, in signature order. |
| Detectors.UnresolvedMeans | internal/detection/detectors.go:570-597 | Reported are exactly the failed pairs of a test, build, typecheck, lint or format check before the last end that no later one of the same command decides otherwise. |
| Detectors.UnresolvedFindingMeans | internal/detection/detectors.go:598-611 | The finding is certain and severe, spans from the failure to the end of the session, and cites execution, result and end. |
| Detectors.DimensionsMean | internal/detection/prepare.go:133-158 | A fingerprint is the scope and the given values, ordered by name and value; the scope is the project's when it is known and undisputed. |
| Detectors.RetainedVerificationLiveCompatible | internal/detection/detectors.go:519-548 | True exactly for purely live evidence of one hook harness with a tool-call change and a lifecycle end. |
| Detectors.DetectRetainedVerificationGap | internal/detection/detectors.go:447-517 | Reports the last change and the last end exactly when no verification command lies between them and the evidence is historical (low confidence) or live-compatible (medium). |
| Detectors.GapMeans | internal/detection/detectors.go:447-498 | A gap lies between the last file change and the last end of the session, with no verification command in between. |
| Detectors.LiveCompatibleMeans | internal/detection/detectors.go:519-548 | Live evidence is one of three harnesses, nothing historical, and hooks that saw a change and the end. |
| CommandFailures.AttemptBounds | internal/detection/detectors.go:664-679 | The bounds are the earliest first and the latest last time of the attempts. |
| CommandFailures.ReportFailures | internal/detection/detectors.go:232-267 | Medium severity from three repetition-eligible failures on, low confidence exactly when a lone result is among them, evidence of all of them in order. |
| CommandFailures.DetectExplicitCommandFailures | internal/detection/detectors.go:216-269 | One finding for each signature with a failed attempt, in signature order, made of all failed attempts of that signature. |
| Fingerprints.DimensionKeyInjective | internal/detection/catalog.go:315-328 | The length-prefixed key determines the sequence of (name, value) pairs, whatever characters they contain. |
| Fingerprints.MatchKeyInjective | internal/detection/catalog.go:303-313 | Unless one detector ID imitates the other, equal match keys mean equal detector and fingerprint, for all fingerprints without empty names or values. |
| Fingerprints.SharedKeyIff | internal/detection/catalog.go:281-328 | Two different detector IDs share a key for some non-empty fingerprints without empty names or values if and only if one is the other, a NUL, and text that with a NUL behind it breaks off inside a non-empty length-prefixed field or right behind a value. |
| Fingerprints.ImitatorHasNul | internal/detection/catalog.go:303-313 | A detector ID that imitates another contains a NUL right behind the other's ID. |
| Fingerprints.NulInDetectorIdCollides | internal/detection/catalog.go:303-313 | Names two detector IDs and two valid, sorted fingerprints with the same key. |
| Fingerprints.NulNeedNotCollide | internal/detection/catalog.go:303-313 | IDs with a NUL that share a key with another ID under no valid fingerprints, one of them because only an empty name would make it collide. |
| Catalog.NormalizedMatch | internal/detection/catalog.go:271-301 | A validated match cites its first 50 IDs once each and in order, stays complete exactly if it cited no more, has its dimensions in order, and is otherwise unchanged. |
| Catalog.DuplicateMatch | internal/detection/catalog.go:303-313 | Reports a duplicate exactly when two matches share a key. |
| Catalog.DistinctKeysMeansDistinctPairs | internal/detection/catalog.go:303-313 | When no detector ID imitates another, no duplicate is found among matches with valid fingerprints if and only if all (detector, fingerprint) pairs differ. |
| Catalog.NoNulNoImitation | internal/detection/catalog.go:303-313 | That is so in particular when no detector ID contains a NUL. |
| Catalog.AcceptedAreValid | internal/detection/catalog.go:271-301 | Every accepted match carries its own detector's ID and, after sorting, a fingerprint without empty names or values. |
| Catalog.SortMatchesHasOneResult | internal/detection/catalog.go:330-345 | Without duplicates, every sorted arrangement of the matches is the same list, so the unstable sort has one result. |
| Catalog.AcceptMatches | internal/detection/catalog.go:132-152 | Adds a detector's matches up to the first invalid one, saying whether one was invalid and whether the limit of 100 was passed. |
| Catalog.MergeRun | internal/detection/catalog.go:108-153 | One detector adds its accepted matches, its failures and its applicability, or withdraws the whole result when the limit is passed. |
| Catalog.Withdraw | internal/detection/catalog.go:146-149 | Truncation leaves absence open for every detector reached. |
| Catalog.Run | internal/detection/catalog.go:84-167 | All or nothing: matches are published, sorted, only if every detector succeeded within the limit without duplicates; failures and applicability are those of the detectors, in order. |
| Catalog.SucceededMeans | internal/detection/catalog.go:271-300 | A detector succeeds exactly when it answers and each of its matches is its own, has all its fields, an honest time span, and a fingerprint without empty names or values. |
| Catalog.PublishedInOrder | internal/detection/catalog.go:330-345 | At most a hundred matches are published, by detector ID and, within a detector, by fingerprint key. |
| Catalog.RunIgnoresDetectorOrder | internal/detection/catalog.go:84-167 | Status and published matches do not depend on the order of the detectors. |
| Catalog.PublishedIffPairsDiffer | internal/detection/catalog.go:154-167 | A run of detectors of which none imitates another, all succeeding within the limit, is published if and only if all accepted (detector, fingerprint) pairs differ. |
| DetectorSlot.Slot.TryStart | internal/detection/catalog.go:244-252 | Succeeds exactly when the detector is not running, which it then is, as in the start step of every state of the protocol. |
| DetectorSlot.Slot.Finish | internal/detection/catalog.go:254-258 | The detector is no longer running, as in the finish step of every state of the protocol. |
| DetectorSlot.RunsKeepInvariant | internal/detection/catalog.go:179-258 | After every interleaving, `running` holds exactly while one goroutine is live, and channels hold at most the response of their own goroutine. |
| DetectorSlot.DetectorIsExclusive | internal/detection/catalog.go:179-242 | At most one goroutine evaluates the detector; its single send never blocks, so it can always go on; an answered caller has its own goroutine's response. |
| DetectorSlot.BusyOnlyWhileLive | internal/detection/catalog.go:191-196 | A call is turned away exactly while another goroutine, possibly of a caller that timed out, is live. |
| DetectorSlot.OnlyOwnStepsMoveAWorker | internal/detection/catalog.go:198-214 | A goroutine moves only by its own steps, each of which brings it closer to having sent. |
| PathMatch.MatchIffCut | internal/experience/pathmatch.go:11-37 | A pattern matches if and only if the file's segments split into consecutive blocks, one per pattern segment, `**` taking any number and every other segment one it matches. |
| PathMatch.RelativeMatchIff | internal/experience/pathmatch.go:11-37 | A pattern matches a file exactly when its parts between slashes read the file's: `**` any number, any other part one name that it cuts character by character. |
| PathMatch.AdjacentAnySegmentsCollapse | internal/experience/pathmatch.go:11-37 | Two adjacent `**` segments mean the same as one. |
| PathMatch.GlobIffNameCut | internal/experience/pathmatch.go:29-34 | Within a segment a pattern matches exactly the names that split into one block per pattern character: any run for `*`, one character for `?`, the character itself otherwise, never a slash for a wildcard. |
| PathMatch.SampleMatches | internal/experience/pathmatch.go:11-37 | Every pattern matches the file obtained by replacing each wildcard character with a letter, so no path restriction is unsatisfiable. |
| Lexical.LexicalOverlap | internal/localapp/experience_compiler.go:555-571 | The counting loop over the hint's terms, in any order, yields the number of shared terms capped at 10. |
| Lexical.TermsOfJoin | internal/localapp/experience_compiler.go:573-599 | The terms of joined texts are the terms of the parts: no word arises or is lost at the seams. |
| Lexical.TermIsItsOwnHint | internal/localapp/experience_compiler.go:573-611 | A term of any text, given as a hint, has exactly itself as its terms. |
| Lexical.TermsMean | internal/localapp/experience_compiler.go:573-599 | The terms of a text are its longest runs of letters and digits, in lower case and their usual form, without the common words. |
| Lexical.UsualForms | internal/localapp/experience_compiler.go:573-611 | Names the twenty-one common words and the words known in several forms. |
| Lexical.OverlapCounts | internal/localapp/experience_compiler.go:555-571 | The overlap is the number of shared terms, up to ten. |
| Eligibility.ScoreExperience | internal/localapp/experience_compiler.go:457-539 | The gate-by-gate loop admits a content exactly when scope, paths and unresolved restrictions do, with the score the gates add up to. |
| Eligibility.PathsMatchMonotone | internal/localapp/experience_compiler.go:541-553 | Fewer patterns match no path that more patterns do not. |
| Eligibility.TermsOfText | internal/localapp/experience_compiler.go:479-485 | The searchable words of a content are those of description, instruction, rationale and task families. |
| Narrowing.NormalizedIsSetList | internal/experience/hash.go:370-401 | Normalised lists are strictly sorted: they are sets. |
| Narrowing.NarrowedComparableSet | internal/experience/approval.go:164-184 | The map-and-count loop accepts exactly the lists that narrow, and says whether strictly. |
| Narrowing.StrictMeansProper | internal/experience/approval.go:164-184 | Strict narrowing is a proper subset, or any non-empty list under an unrestricted one. |
| Narrowing.ValidateNarrowedProposal | internal/experience/approval.go:82-162 | The check accepts exactly the proposals that keep everything outside the scope lists and the expiry, narrow each list and the expiry, and strictly narrow some list. |
| Narrowing.NarrowsIff | internal/experience/approval.go:82-194 | Accepted are exactly the proposals that keep everything but the four scope lists and the expiry, keep each list within the original's, make some list smaller, and expire no later. |
| Narrowing.KeepsTheRestIff | internal/experience/approval.go:91-114 | What must be kept, field by field: kind, scope kind, project, session, description, conditions, exclusions, all of the guidance and the verifier, up to the order and spacing of lists. |
| Narrowing.SameVerifierIff | internal/experience/hash.go:320-344 | Two verifiers count as the same exactly when kind and parameters agree, lists as sets. |
| Narrowing.NormalizedMeans | internal/experience/hash.go:370-401 | A normalised list names exactly the trimmed, non-blank items of the list, each once and in order. |
| Narrowing.ValidateApprovedProposal | internal/experience/approval.go:55-80 | Accepts exactly valid, compiled content of the same project that, by approval mode, narrows the original or differs from it; any other mode is refused. |
| Narrowing.NarrowingChangesContent | internal/experience/approval.go:82-162 | Narrowing is irreflexive: it always changes the scope. |
| Narrowing.NarrowingIsTransitive | internal/experience/approval.go:82-194 | A narrowing of a narrowing is a narrowing of the original. |
| Narrowing.NarrowingDecreasesMeasure | internal/experience/approval.go:164-184 | The total size of the lists, an empty list ranking above every list within the limit of 128, strictly decreases. |
| Narrowing.NarrowingChainsAreFinite | internal/experience/approval.go:82-194 | No chain of accepted narrowings is longer than the measure of its first element. |
| NarrowingSelection.NarrowingNeverWidens | internal/experience/approval.go:82-194 | Every request eligible for a narrowed approval is eligible for the original, provided it names a path, or the original lists families, or the approval does not. |
| NarrowingSelection.WhenNarrowingWidens | internal/localapp/experience_compiler.go:457-539 | A narrowing admits a request its original refuses if and only if families were added where there were none, the request names no path, the original restricts paths, and it shares no word with the original. |
| NarrowingSelection.NarrowingIsSafeIff | internal/experience/approval.go:82-194 | A narrowing widens selection for no request at all if and only if it does not add a new word, through families, to a content restricted by paths only. |
| NarrowingSelection.OpeningRequest | internal/localapp/experience_compiler.go:457-539 | For every narrowing that adds such a word, builds the request that the narrowing admits and the original refuses. |
| NarrowingSelection.NarrowingNeverOutlives | internal/experience/approval.go:186-194 | A narrowing is never in force when its original has expired. |
| NarrowingSelection.AddingAFamilyCanWiden | internal/experience/approval.go:82-162 | A concrete valid narrowing, adding the family "deploy" to a path-restricted rule, admits a request the rule refuses. |
| Conflict.ValidateAdvisory | internal/experience/conflict.go:77-135 | The loops with seen-sets accept exactly the advisories that are bounded, distinct and consistent with their state. |
| Conflict.ReasonsFit | internal/experience/conflict.go:49-66 | Distinct valid reason codes never exceed the limit, since there are only eleven. |
| Conflict.ExactSetsDisjoint | internal/experience/conflict.go:278-292 | True exactly for two non-empty lists without a common element. |
| Conflict.OppositionIsExact | internal/experience/evaluate/evaluate.go:474-575 | Two verifiers about files are reported as opposed if and only if no set of changed files satisfies both. |
| Conflict.CompareWithActive | internal/experience/conflict.go:167-202 | The comparison loop collects exactly the overlapping references, the reasons of both kinds, and whether some verifier is opposed; an invalid experience fails the whole comparison. |
| Conflict.Preflight | internal/experience/conflict.go:142-221 | Fails exactly when the proposal or an active experience is invalid, and otherwise yields the advisory of the set of active experiences, which is valid. |
| Conflict.PreflightIsDetermined | internal/experience/conflict.go:142-221 | The advisory is determined by the set of active experiences: order and repetition do not matter. |
| Conflict.PreflightIsValid | internal/experience/conflict.go:142-221 | Every preflight advisory passes its own validation, also when references are cut at the limit. |
| Conflict.DisjointReasonMeans | internal/experience/conflict.go:254-276 | Exactly when each of the five reasons is given: the first that applies, in the order project, session, harnesses, models, families. |
| Conflict.OppositionMeans | internal/experience/conflict.go:294-325 | Exactly when verifiers are opposed by a path, and when by a pattern. |
| Conflict.ReasonsAreAlphabetical | internal/experience/conflict.go:341-352 | The order of the reasons is the alphabetical order of their codes. |
| Conflict.AdvisoryInOrder | internal/experience/conflict.go:204-219 | An advisory lists at most 64 references by ID and version, and its reasons by their codes. |
| Conflict.MarkingIsSafe | internal/experience/conflict.go:226-252 | Marking an incomplete active set succeeds on every valid advisory, stays valid, never claims "no conflict", keeps references and a stronger state, adds one reason, and is idempotent. |
| Disjointness.DisjointScopesShareNoRequest | internal/experience/conflict.go:254-276 | Different projects, sessions, harnesses or models mean that no request is eligible for both experiences. |
| Disjointness.DisjointFamiliesNeedOverlap | internal/experience/conflict.go:272-274 | Disjoint task families mean the same for requests that share no word with either. |
| Disjointness.DisjointFamiliesMeetIff | internal/localapp/experience_compiler.go:457-539 | A request is eligible for both of two experiences with disjoint families if and only if scopes and paths admit it and it shares words with both, or with one while naming a family, and any paths needed, of the other. |
| Disjointness.DisjointFamiliesCanMeet | internal/localapp/experience_compiler.go:457-539 | Whenever one of the texts has a usable word and both have path conditions only, builds a request that is eligible for both experiences although their families are disjoint. |
| Disjointness.DisjointFamiliesNeverMeetIff | internal/experience/conflict.go:272-274 | Disjoint families keep two experiences apart over all requests if and only if one has a condition that is no path pattern, or neither text has a usable word. |
| Selection.PickGreedily | internal/localapp/experience_compiler.go:297-310 | The budget loop takes the greedy choice from the ranking, stopping at three. |
| Selection.AdmitRef | internal/localapp/experience_compiler.go:252-277 | One stored experience is admitted exactly when it is active, unexpired and eligible, with its score and tokens. |
| Selection.LoadRef | internal/localapp/experience_compiler.go:211-251 | The checks on a stored experience, one after the other, accept exactly the soundly stored ones. |
| Selection.ItemMeans | internal/localapp/experience_compiler.go:258-277 | A candidate carries the experience's content, its score, and a quarter of its bytes, rounded up, as tokens. |
| Selection.AdmitRefs | internal/localapp/experience_compiler.go:209-278 | Fails exactly when some reference is not soundly stored, and otherwise keeps the active, unexpired, eligible ones with their scores. |
| Selection.Select | internal/localapp/experience_compiler.go:152-311 | The whole selection is the greedy choice over the ranking of the admitted experiences, or an error for an unsound generation. |
| Selection.BestFirst | internal/localapp/experience_compiler.go:279-310 | Selected experiences stand by descending score, equal scores by ID and version. |
| Selection.LeftOutForBetter | internal/localapp/experience_compiler.go:297-309 | An admitted experience is left out only if three better ones are selected, or the better ones selected leave too few of 600 tokens. |
| Selection.RefsInOrder | internal/localapp/experience_compiler.go:178-202 | The result names the generation's references, at most 500, by ID and version. |
| Selection.EveryChoiceIsJustified | internal/localapp/experience_compiler.go:297-310 | Each ranked item is picked right after the picks above it, or came after three picks, or overflowed the budget those picks left. |
| Selection.RankingIsUnique | internal/localapp/experience_compiler.go:279-290 | For distinct references the ranking is the only sorted arrangement, so the unstable sort does not matter. |
| Selection.SelectionIgnoresRefOrder | internal/localapp/experience_compiler.go:178-311 | The result does not depend on the order of the generation's references. |
| Selection.SelectionIsBounded | internal/localapp/experience_compiler.go:292-311 | At most three experiences within 600 tokens, all from the generation. |
| Paging.PageAt | internal/analysis/reconciler.go:271-317 | The page after the last row read is the next stretch of the snapshot: the cursor skips and repeats nothing. |
| Paging.SessionEvents | internal/analysis/reconciler.go:271-317 | Returns the first min(N, 10000) events and reports truncation if and only if there are more. |
| Paging.TakePage | internal/analysis/reconciler.go:365-384 | A page extends the prefix read so far; it stops at 1000 findings or 1000 citations, keeping what fits of the last one. |
| Paging.NewestFirst | internal/storage/local/store.go:980-995 | Findings are read from the newest to the oldest, and at one time from the largest ID down. |
| Paging.SessionFindings | internal/analysis/reconciler.go:332-395 | Terminates with at most 1000 findings and 1000 citations, a prefix whose last item alone may be clipped, and reports truncation exactly when something is missing; an untruncated answer is everything. |
| Grouping.SmallestIncremental | internal/analysis/reconciler.go:612-621 | Cutting to the 50 smallest citations after each finding loses none of the 50 smallest of all, and detects exactly whether there ever were more. |
| Grouping.OpenedThenExtended | internal/analysis/reconciler.go:557-621 | A new group updated with its first finding is the occurrence of that finding alone. |
| Grouping.ExtendedOccurrence | internal/analysis/reconciler.go:597-621 | Updating the occurrence of a group with one more finding gives the occurrence of the larger group, for every field. |
| Grouping.IdentifiableIff | internal/storage/local/identity.go:95-120 | Deriving an issue identity fails exactly for a finding without scope, rule or rule version: its event types are never empty. |
| Grouping.AddFinding | internal/analysis/reconciler.go:557-623 | One finding joins its group, opens one, or is dropped for want of room, and the groups stay those of all findings so far. |
| Grouping.GroupFindings | internal/analysis/reconciler.go:497-635 | The loop with its map and counters returns, in key order, for each of the first hundred keys the occurrence of all findings admitted to it, and reports truncation exactly when a finding, a citation or a key was dropped; it fails exactly when a finding reached lacks a scope, a rule or a rule version. |
| GroupTheorems.CitationsAreTheSmallest | internal/analysis/reconciler.go:612-621 | A group's citations are sorted, at most 50, below every citation left out, and marked complete if and only if none is left out. |
| GroupTheorems.BoundsIgnoreOrder | internal/analysis/reconciler.go:601-609 | First and last sighting and origin record are the same for any order of the findings. |
| GroupTheorems.OriginIsLeast | internal/analysis/reconciler.go:607-609 | The origin record is the least finding ID of the group. |
| GroupTheorems.SeverityIsHighest | internal/analysis/reconciler.go:786-792 | The merged severity is one of the group's and of the highest rank. |
| GroupTheorems.WorstSeverity | internal/analysis/reconciler.go:786-792 | The merged severity is critical if any is, else high, medium, low or info likewise; with none known it is the first finding's. |
| GroupTheorems.ConfidenceIsLowest | internal/analysis/reconciler.go:794-800 | The merged confidence is one of the group's and, unless an empty one is among them, of the lowest rank; an unknown one prevails. |
| GroupTheorems.LeastConfidence | internal/analysis/reconciler.go:794-800 | The merged confidence is low if any is, else medium, else high, unless an unknown one prevails or an empty one is among them. |
| GroupTheorems.SeverityOrderIff | internal/analysis/reconciler.go:786-792 | The merged severity is independent of the order if and only if some severity is known or all are alike. |
| GroupTheorems.ConfidenceOrderIff | internal/analysis/reconciler.go:794-800 | The merged confidence is independent of the order if and only if there is one unknown value, or none and no empty one beside others. |
| GroupTheorems.GroupIgnoresOrder | internal/analysis/reconciler.go:597-621 | All fields the update maintains are the same for any order of the group's findings, for settled severities and confidences. |
| GroupTheorems.FirstFindingGives | internal/analysis/reconciler.go:561-596 | The fields a group takes from its first finding: key, rule version, harness or "unknown", dimensions, and the scope it is shown under. |
| GroupTheorems.ScopeMeans | internal/analysis/reconciler.go:526-532 | A finding's own scope counts unless it has none or the session's is in conflict; else the project's if known, else the session. |
| GroupTheorems.MaterialMeans | internal/analysis/reconciler.go:533-547 | A finding is fingerprinted by rule, version and the types of its cited events, each once and in order. |
| GroupTheorems.GroupingCaps | internal/analysis/reconciler.go:512-560 | A finding keeps its first citations up to fifty, or up to the thousandth in all; there are a hundred groups at most, and one is refused only when there are a hundred. |
| GroupTheorems.TruncatedIff | internal/analysis/reconciler.go:509-561 | The result is reported as truncated unless each finding cites at most fifty events, starts before and ends within the thousand counted from the first, and the groups number at most a hundred. |
| GroupTheorems.OneKeyOneRule | internal/analysis/reconciler.go:526-556 | Findings with one fingerprint agree in scope identity, rule, rule version and dimensions, as long as fingerprints do not collide. |
| GroupTheorems.GroupOfOneKeyIgnoresOrder | internal/analysis/reconciler.go:557-621 | Then only the harness and the scope's quality and shown identity can depend on the order, and the signal is the rule's. |
| GroupTheorems.UndroppedFindingsArePlaced | internal/analysis/reconciler.go:512-623 | When nothing is reported truncated, every finding is in a kept group with all its citations. |
| McpRegistry.Host.Inspect | internal/localapp/mcp_config.go:689-711 | A look changes no registry and shows what is held, or does not answer. |
| McpRegistry.Host.Add | internal/localapp/mcp_config.go:726-750 | An add changes at most its own agent's registry; a host command with any effect, a registry file only as `mcpJSONRegistry.add` may. |
| McpRegistry.Host.AddToFile | internal/localapp/mcp_config_file.go:187-219 | A file gains the entry whole or stays as it was, is never written over an existing entry, and reports success only if the entry is there. |
| McpRegistry.Host.Remove | internal/localapp/mcp_config.go:752-767 | A remove changes at most its own agent's registry, a file only as `mcpJSONRegistry.remove` may. |
| McpRegistry.Host.RemoveFromFile | internal/localapp/mcp_config_file.go:225-248 | A file loses only an allowed, safe entry, and reports success only if nothing is left. |
| McpRegistry.Host.AddAndLook | internal/localapp/mcp_config.go:541-542 | An add is followed by one look; both are on record and only this agent's registry may have changed. |
| McpRegistry.Host.RemoveAndLook | internal/localapp/mcp_config.go:582-583 | A remove is followed by one look; both are on record and only this agent's registry may have changed. |
| McpConfig.Manifest.Record | internal/localapp/mcp_config.go:1125-1140 | Records the identity for its agent and leaves the other agents' records alone. |
| McpConfig.Manifest.Forget | internal/localapp/mcp_config.go:685-685 | Drops the agent's record and leaves the others alone. |
| McpConfig.CurrentWhateverTheManifest | internal/localapp/mcp_config.go:1067-1098 | An entry is current exactly when it is the user-scope entry of the current identity, whatever the manifest. |
| McpConfig.StatusTarget | internal/localapp/mcp_config.go:431-470 | One look, and the status, ownership and error that follow from what it showed. |
| McpConfig.InstallTarget | internal/localapp/mcp_config.go:472-530 | Follows the install protocol; result and manifest are those of its trace: the manifest records the current identity exactly when a change is reported. |
| McpConfig.InstallAbsent | internal/localapp/mcp_config.go:532-556 | Add, then look; installed only if the look shows the current identity. |
| McpConfig.UpdateRecognized | internal/localapp/mcp_config.go:558-592 | Look again, remove, look; goes on only while the looks show what they must. |
| McpConfig.ReplaceRemoved | internal/localapp/mcp_config.go:593-624 | Add, look, and on an empty slot put the old entry back and look; every ending has its own status and error. |
| McpConfig.UninstallTarget | internal/localapp/mcp_config.go:626-687 | Follows the uninstall protocol; the manifest forgets the agent exactly when a change is reported. |
| McpTheorems.InstallIsCareful | internal/localapp/mcp_config.go:472-624 | An entry is added only into a slot just seen empty, removed only when it is Belay's and two looks in a row showed it so, and a look follows either. |
| McpTheorems.UninstallIsCareful | internal/localapp/mcp_config.go:626-687 | The same for uninstalling. |
| McpTheorems.ForeignEntryIsLeftAlone | internal/localapp/mcp_config.go:481-530 | A foreign or unreadable entry gets no add and no remove and stays as it is, on install and on uninstall. |
| McpTheorems.UnseenEntryIsLeftAlone | internal/localapp/mcp_config.go:449-455 | So does any entry while the first look is unverifiable or unavailable. |
| McpTheorems.InstalledMeansHeld | internal/localapp/mcp_config.go:532-556 | A reported change means that the registry holds the current identity, which it did not before; `installed` that it held nothing. |
| McpTheorems.RestoredMeansUnchanged | internal/localapp/mcp_config.go:610-619 | `rollback_restored` means that the registry holds the identity the manifest records, as before. |
| McpTheorems.InstallingAgainOnlyLooks | internal/localapp/mcp_config.go:481-486 | Once the current identity is registered, installing again issues nothing but one look. |
| McpTheorems.FileInstallLosesNothingElse | internal/localapp/mcp_config_file.go:187-219 | With a registry file an install leaves what was there, the current entry, or, only after a reported failure of an update, nothing. |
| McpTheorems.SmoothInstallResult | internal/localapp/mcp_config.go:472-530 | When no command fails, what the registry holds decides the result. |
| McpTheorems.RemovedMeansNothingHeld | internal/localapp/mcp_config.go:661-686 | `removed` means that the registry holds nothing and held an entry of Belay's. |
| McpTheorems.FileUninstallLosesNothingElse | internal/localapp/mcp_config_file.go:225-248 | With a registry file, only Belay's entry can go. |
| McpTheorems.SmoothUninstallResult | internal/localapp/mcp_config.go:626-687 | When no command fails, what the registry holds decides the result. |
| McpTheorems.OwnershipMeans | internal/localapp/mcp_config.go:1067-1113 | What a look says about ownership: none, unknown, foreign, exactly when. |
| McpTheorems.FailureMeans | internal/localapp/mcp_config.go:1115-1123 | A failed command is blamed on its output, its exit code or the look after it, exactly when. |
| McpTheorems.SafeTextMeans | internal/localapp/mcp_config.go:191-201 | Text is safe exactly when it is not blank and holds no control character. |
| McpTheorems.SafeIdentityMeans | internal/localapp/mcp_config_file.go:253-265 | An identity may be written to or removed from a registry file only with an absolute command and arguments, all of safe text. |
| McpManage.Disk.Write | internal/localapp/mcp_config_manifest.go:108-152 | Writes a valid manifest under a valid header, whole or not at all. |
| McpManage.ServeTarget | internal/localapp/mcp_config.go:329-383 | Serves one target by the requested action, or reports it undetected; other agents' registries and records stay. |
| McpManage.Manage | internal/localapp/mcp_config.go:255-402 | Serves all targets, writes the manifest exactly when there is a change to record, and marks every changed target when that fails. |
| McpRuns.ChangedMeansAgreement | internal/localapp/mcp_config.go:331-402 | After a reported change the registry, the records in memory and, unless an error is reported, the manifest file agree. |
| McpRuns.CompleteMeansDone | internal/localapp/mcp_config.go:1142-1169 | A complete install has the current identity in every detected registry; a complete uninstall has every target detected and empty. |
| McpRuns.InstallCompleteIff | internal/localapp/mcp_config.go:1142-1156 | An install in which nothing fails is complete exactly when each detected registry holds the current entry, nothing where one may be added, or an earlier entry of Belay's where it may be replaced. |
| McpRuns.UninstallCompleteIff | internal/localapp/mcp_config.go:1162-1165 | An uninstall in which nothing fails is complete exactly when each target is detected and empty or holds Belay's entry. |
| McpRuns.StatusCompleteIff | internal/localapp/mcp_config.go:1155-1161 | A status call in which nothing fails is complete exactly when each target is detected and readable. |
| McpRuns.RecordsStayValid | internal/localapp/mcp_config_manifest.go:72-106 | Whatever a call records for the four harnesses keeps the manifest valid, so that it can be written. |
| McpRuns.RecordedIsSafe | internal/localapp/mcp_config_manifest.go:94-106 | Every identity that may be recorded may also be written to a registry file and removed from it. |
| McpRuns.ValidTargetsMean | internal/localapp/mcp_config_manifest.go:72-106 | A valid manifest names at most the four harnesses, each with a user entry that runs Belay as an MCP server. |
| McpRuns.NoHeaderMeans | internal/localapp/mcp_config.go:255-281 | A manifest is not written over a damaged one, nor without an installation ID, nor created by anything but an install. |
| McpRuns.MarkingMeans | internal/localapp/mcp_config.go:387-394 | A failed write marks exactly the targets that changed and alters nothing else. |
| McpRuns.ManifestStaysValid | internal/localapp/mcp_config_manifest.go:72-152 | A valid manifest file stays valid, a damaged one is never written over, and a status call changes nothing. |
| McpRuns.RepeatedInstallOnlyLooks | internal/localapp/mcp_config.go:481-486 | Repeating a complete install looks at most once at each registry and changes neither the registries nor the manifest file. |
| McpRuns.RunsStayHonest | internal/localapp/mcp_config.go:331-402 | In every run, each identity in the manifest file is one that Belay itself added and then saw in that registry. |
| McpRuns.RunsAreSafe | internal/localapp/mcp_config.go:472-687 | In every run, whatever the commands do, an add is issued only where nothing is registered, and a remove only for the caller's own entry or one that Belay added in an earlier call. |
| McpRuns.RunsKeepForeignEntries | internal/localapp/mcp_config.go:472-687 | In every run a call leaves each registry as it was unless it held nothing or an entry of Belay's. |

## Left out

- Storage, encryption, migrations: the reconciler reads a fixed, strictly ordered snapshot.
- Cancellation through contexts, and wall-clock time beyond the detector time-out step; the per-target and overall time-outs of a configuration call are covered by commands that do not answer.
- Strings are sequences of characters, one per byte: white space, letter case and letters are ASCII, and `?` in a path pattern takes one character.
- Lexical.LexicalOverlap: does not count letters and numbers outside ASCII as term characters, because the model has no Unicode tables.
- Lexical.TermIsItsOwnHint: does not cover terms with letters and numbers outside ASCII, for the same reason.
- Disjointness.DisjointFamiliesNeverMeetIff: does not bound requests; a word longer than a task hint may be, or more than 128 path restrictions between two experiences, can put the request it builds over the limits of selection requests.
- `path.Match` is modelled for the alphabet that pattern validation admits (no brackets, no backslash).
- Time is an unbounded integer of nanoseconds; `Common.WindowTestIsExact` says where 64-bit arithmetic differs.
- Identity keys are tuples instead of NUL-joined strings; hashes and derived issue IDs are functions without further properties.
- Fingerprints.SharedKeyIff: does not use the order that validation puts on dimensions, so IDs that collide only under fingerprints whose dimensions are not sorted count as imitating.
- Fingerprints.MatchKeyInjective: does not cover such IDs, for the same reason.
- Catalog.DistinctKeysMeansDistinctPairs: does not cover such IDs either.
- Failures of the store while it derives a key.
- Content hashes: two contents have the same hash exactly when their normalised forms agree, with conditions compared as a set.
- Field-by-field validation of experiences beyond what the theorems need, generation timestamps and hashes, and the normalisation and size limits of selection requests.
- Selection at the zero time, which is refused as an invalid request.
- Errors carry no text: every failing path of selection and of the preflight is one error value.
- The other built-in detectors (tool failures, repeated attempts, permission denials) and the absence predicates: the same loop shape over the same attempts.
- Detector entries' fixed descriptive texts, and the conversion of the three detectors' findings into catalog matches.
- The catalog's failed session preparation, which ends a run before any detector.
- Conflict.MarkingIsSafe: does not model that the Go function may share a slice with its argument.
- GroupTheorems.GroupIgnoresOrder: leaves out the fields that the first finding of a group fixes (harness, rule version, scope, dimensions); `GroupOfOneKeyIgnoresOrder` covers rule version and dimensions, and the others do depend on which finding comes first.
- Detector occurrences, capabilities, retries and watermarks of the reconciler.
- Parsing of the host programs' status output, the JSON documents around the one entry, directories, symbolic links and locking: a registry holds nothing, an entry, or something unreadable, and no other writer acts during a call.
- `manageMCPConfig` before the lock (unusable executable, unusable home, lock failure): no target is touched there.
- The default branches for a status that `statusMCPConfigTarget` never returns.
