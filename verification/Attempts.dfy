/** Pairing command executions with their results (`internal/detection/attempts.go`). */
module Attempts {
  import opened Common
  import opened Events

  const ADJACENT_PAIR_WINDOW := 5 * SECOND

  datatype Outcome = Unknown | Succeeded | Failed

  datatype Trust = UnpairedResult | ExecObservation | AdjacentPair | ToolCallPair {
    predicate Paired() { AdjacentPair? || ToolCallPair? }
  }

  datatype Attempt = Attempt(
    signature: string, commandClass: string, events: seq<PreparedEvent>, first: int, last: int,
    firstPos: nat, lastPos: nat, outcome: Outcome, conflict: bool, trust: Trust,
    repetitionEligible: bool, classConflict: bool)

  const CLASS_UNKNOWN := "unknown"

  function NormalizedCommandClass(value: string): string {
    var class' := ToLower(TrimSpace(value));
    if class' in {"test", "build", "typecheck", "lint", "format_check", "other"} then class' else CLASS_UNKNOWN
  }

  /** The outcome an event states, and whether its exit code and outcome text contradict each other. */
  function EventOutcome(event: Event): (Outcome, bool) {
    var code := event.observation.exitCode;
    var fromCode := if code.None? then Unknown else if code.value == 0 then Succeeded else Failed;
    var value := ToLower(TrimSpace(event.observation.outcome));
    var fromValue := if value == "succeeded" then Succeeded else if value == "failed" then Failed else Unknown;
    if fromCode != Unknown && fromValue != Unknown && fromCode != fromValue then (Unknown, true)
    else if fromCode != Unknown then (fromCode, false)
    else (fromValue, false)
  }

  // ---------- one attempt ----------

  function NewAttempt(item: PreparedEvent, position: nat): Attempt {
    var (outcome, conflict) := EventOutcome(item.event);
    Attempt(
      item.enrichment.signature, NormalizedCommandClass(item.enrichment.commandClass), [item],
      item.event.occurredAt, item.event.occurredAt, position, position, outcome, conflict,
      if item.event.observation.kind == "command.exec" then ExecObservation else UnpairedResult,
      true, false)
  }

  function MergedOutcome(attempt: Attempt, item: PreparedEvent): (Outcome, bool) {
    var (outcome, conflict) := EventOutcome(item.event);
    if conflict then (Unknown, true)
    else if outcome == Unknown then (attempt.outcome, attempt.conflict)
    else if attempt.conflict then (Unknown, attempt.conflict)
    else if attempt.outcome == Unknown then (outcome, attempt.conflict)
    else if attempt.outcome != outcome then (Unknown, true)
    else (attempt.outcome, attempt.conflict)
  }

  function MergedClass(attempt: Attempt, item: PreparedEvent): (string, bool) {
    var incoming := NormalizedCommandClass(item.enrichment.commandClass);
    if item.enrichment.signature == "" then (attempt.commandClass, attempt.classConflict)
    else if attempt.classConflict then (CLASS_UNKNOWN, true)
    else if attempt.commandClass == CLASS_UNKNOWN then (incoming, false)
    else if incoming != CLASS_UNKNOWN && incoming != attempt.commandClass then (CLASS_UNKNOWN, true)
    else (attempt.commandClass, false)
  }

  function MergeAttempt(attempt: Attempt, item: PreparedEvent, position: nat, trust: Trust): Attempt {
    var (outcome, conflict) := MergedOutcome(attempt, item);
    var (commandClass, classConflict) := MergedClass(attempt, item);
    var at := item.event.occurredAt;
    attempt.(events := attempt.events + [item],
             first := if at < attempt.first then at else attempt.first,
             last := if at > attempt.last then at else attempt.last,
             lastPos := position, trust := trust,
             outcome := outcome, conflict := conflict,
             commandClass := commandClass, classConflict := classConflict)
  }

  // ---------- which events pair up ----------

  predicate IsExec(item: PreparedEvent) { item.event.observation.kind == "command.exec" }

  predicate IsResult(item: PreparedEvent) { item.event.observation.kind == "command.result" }

  function CallId(item: PreparedEvent): string { ToolCallId(item.event) }

  function Signature(item: PreparedEvent): string { item.enrichment.signature }

  /** `resultMatchesAttemptIdentity` for an attempt with the given signature. */
  predicate MatchesIdentity(result: PreparedEvent, signature: string) {
    signature != "" && (Signature(result) == "" || Signature(result) == signature)
  }

  ghost predicate OnlyExec(events: seq<PreparedEvent>, id: string, i: nat) {
    && i < |events| && IsExec(events[i]) && CallId(events[i]) == id
    && (forall k :: 0 <= k < |events| && IsExec(events[k]) && CallId(events[k]) == id ==> k == i)
  }

  ghost predicate OnlyResult(events: seq<PreparedEvent>, id: string, j: nat) {
    && j < |events| && IsResult(events[j]) && CallId(events[j]) == id
    && (forall k :: 0 <= k < |events| && IsResult(events[k]) && CallId(events[k]) == id ==> k == j)
  }

  /** The only exec and the only result of a tool call, in that order, with compatible signatures. */
  ghost predicate IsToolCallPair(events: seq<PreparedEvent>, i: nat, j: nat) {
    && i < j < |events| && CallId(events[i]) != ""
    && OnlyExec(events, CallId(events[i]), i) && OnlyResult(events, CallId(events[i]), j)
    && MatchesIdentity(events[j], Signature(events[i]))
  }

  /** An exec directly followed by a result, neither with a tool call ID, within five seconds. */
  predicate IsAdjacentPair(events: seq<PreparedEvent>, i: nat, j: nat) {
    && j == i + 1 && j < |events|
    && IsExec(events[i]) && IsResult(events[j])
    && CallId(events[i]) == "" && CallId(events[j]) == ""
    && MatchesIdentity(events[j], Signature(events[i]))
    && Within(events[j].event.occurredAt, events[i].event.occurredAt, ADJACENT_PAIR_WINDOW)
  }

  ghost predicate IsPair(events: seq<PreparedEvent>, i: nat, j: nat) {
    IsToolCallPair(events, i, j) || IsAdjacentPair(events, i, j)
  }

  ghost predicate IsSecond(events: seq<PreparedEvent>, j: nat) {
    exists i: nat :: IsPair(events, i, j)
  }

  /** The positions that begin an attempt: signed command events that do not complete an earlier one. */
  ghost predicate Starts(events: seq<PreparedEvent>, p: nat) {
    && p < |events| && (IsExec(events[p]) || IsResult(events[p]))
    && Signature(events[p]) != "" && !IsSecond(events, p)
  }

  ghost predicate HasExec(events: seq<PreparedEvent>, id: string) {
    exists k :: 0 <= k < |events| && IsExec(events[k]) && CallId(events[k]) == id
  }

  predicate AdjacentExecWithoutId(events: seq<PreparedEvent>, p: nat)
    requires p < |events|
  {
    && p > 0 && IsExec(events[p - 1]) && CallId(events[p - 1]) == ""
    && Within(events[p].event.occurredAt, events[p - 1].event.occurredAt, ADJACENT_PAIR_WINDOW)
  }

  /** A result that belongs to some exec, although it could not be paired, does not count as a repetition. */
  ghost predicate RepetitionEligible(events: seq<PreparedEvent>, p: nat)
    requires p < |events|
  {
    IsResult(events[p]) ==>
      && !(CallId(events[p]) != "" && HasExec(events, CallId(events[p])))
      && !AdjacentExecWithoutId(events, p)
  }

  // ---------- the declarative result ----------

  ghost predicate HasResultBelow(events: seq<PreparedEvent>, p: nat, n: nat) {
    exists j: nat :: j < n && IsPair(events, p, j)
  }

  ghost function ResultOf(events: seq<PreparedEvent>, p: nat, n: nat): (j: nat)
    requires HasResultBelow(events, p, n)
    ensures j < n && IsPair(events, p, j)
  {
    var j: nat :| j < n && IsPair(events, p, j); j
  }

  ghost function Started(events: seq<PreparedEvent>, p: nat): Attempt
    requires p < |events|
  {
    NewAttempt(events[p], p).(repetitionEligible := RepetitionEligible(events, p))
  }

  function PairTrust(item: PreparedEvent): Trust {
    if CallId(item) == "" then AdjacentPair else ToolCallPair
  }

  /** The attempt begun at `p`, with its result if that lies below `n`. */
  ghost function AttemptAt(events: seq<PreparedEvent>, p: nat, n: nat): Attempt
    requires p < |events|
  {
    if HasResultBelow(events, p, n) then
      var j := ResultOf(events, p, n);
      MergeAttempt(Started(events, p), events[j], j, PairTrust(events[p]))
    else Started(events, p)
  }

  /** The attempts begun below `m`, with the results that lie below `n`. */
  ghost function AttemptsBelow(events: seq<PreparedEvent>, m: nat, n: nat): seq<Attempt>
    requires m <= |events|
  {
    if m == 0 then []
    else AttemptsBelow(events, m - 1, n) + (if Starts(events, m - 1) then [AttemptAt(events, m - 1, n)] else [])
  }

  ghost function AttemptsOf(events: seq<PreparedEvent>): seq<Attempt> {
    AttemptsBelow(events, |events|, |events|)
  }

  /** How many attempts begin below `m`, so also the place of one that begins at `m`. */
  ghost function StartCount(events: seq<PreparedEvent>, m: nat): nat {
    if m == 0 then 0 else StartCount(events, m - 1) + if Starts(events, m - 1) then 1 else 0
  }

  // ---------- facts about pairs ----------

  lemma PairShape(events: seq<PreparedEvent>, i: nat, j: nat)
    requires IsPair(events, i, j)
    ensures i < j < |events| && IsExec(events[i]) && IsResult(events[j]) && CallId(events[i]) == CallId(events[j])
    ensures Signature(events[i]) != "" && Starts(events, i)
  {
    forall k: nat
      ensures !IsPair(events, k, i)
    {
    }
  }

  lemma PairUnique(events: seq<PreparedEvent>, i: nat, j: nat, k: nat, l: nat)
    requires IsPair(events, i, j) && IsPair(events, k, l)
    ensures i == k <==> j == l
  {
  }

  lemma {:induction false} StartCountMonotone(events: seq<PreparedEvent>, i: nat, m: nat)
    requires i <= m
    ensures StartCount(events, i) <= StartCount(events, m)
    ensures i < m && Starts(events, i) ==> StartCount(events, i) < StartCount(events, m)
    decreases m
  {
    if i < m {
      StartCountMonotone(events, i, m - 1);
    }
  }

  lemma {:induction false} BelowLength(events: seq<PreparedEvent>, m: nat, n: nat)
    requires m <= |events|
    ensures |AttemptsBelow(events, m, n)| == StartCount(events, m)
  {
    if m > 0 {
      BelowLength(events, m - 1, n);
    }
  }

  lemma {:induction false} BelowAt(events: seq<PreparedEvent>, m: nat, n: nat, i: nat)
    requires i < m <= |events| && Starts(events, i)
    ensures StartCount(events, i) < |AttemptsBelow(events, m, n)|
    ensures AttemptsBelow(events, m, n)[StartCount(events, i)] == AttemptAt(events, i, n)
    decreases m
  {
    hide Starts, AttemptAt;
    BelowLength(events, m, n);
    BelowLength(events, m - 1, n);
    StartCountMonotone(events, i, m);
    if i < m - 1 {
      BelowAt(events, m - 1, n, i);
    }
  }

  lemma SameBound(events: seq<PreparedEvent>, p: nat, n: nat)
    requires p < |events| && !IsPair(events, p, n)
    ensures AttemptAt(events, p, n + 1) == AttemptAt(events, p, n)
  {
    hide IsPair;
    assert HasResultBelow(events, p, n + 1) <==> HasResultBelow(events, p, n) by {
      assert forall j: nat :: j < n + 1 && IsPair(events, p, j) ==> j < n;
    }
    if HasResultBelow(events, p, n) {
      PairUnique(events, p, ResultOf(events, p, n + 1), p, ResultOf(events, p, n));
    }
  }

  /** Reading position `n` changes nothing begun earlier, unless it completes a pair. */
  lemma {:induction false} NoPairAt(events: seq<PreparedEvent>, m: nat, n: nat)
    requires m <= |events| && !IsSecond(events, n)
    ensures AttemptsBelow(events, m, n + 1) == AttemptsBelow(events, m, n)
  {
    hide IsPair, Starts, AttemptAt;
    if m > 0 {
      NoPairAt(events, m - 1, n);
      SameBound(events, m - 1, n);
    }
  }

  lemma CompletedOnce(events: seq<PreparedEvent>, i: nat, n: nat)
    requires IsPair(events, i, n)
    ensures !HasResultBelow(events, i, n)
  {
    forall j: nat | j < n
      ensures !IsPair(events, i, j)
    {
      if IsPair(events, i, j) { PairUnique(events, i, j, i, n); }
    }
  }

  lemma CompletedAttempt(events: seq<PreparedEvent>, i: nat, n: nat)
    requires IsPair(events, i, n)
    ensures i < |events| && AttemptAt(events, i, n) == Started(events, i)
    ensures AttemptAt(events, i, n + 1) == MergeAttempt(Started(events, i), events[n], n, PairTrust(events[i]))
  {
    PairShape(events, i, n);
    assert HasResultBelow(events, i, n + 1);
    PairUnique(events, i, n, i, ResultOf(events, i, n + 1));
    CompletedOnce(events, i, n);
  }

  /** Reading the result at `n` changes exactly the attempt begun at `i`. */
  lemma {:induction false} PairAt(events: seq<PreparedEvent>, m: nat, i: nat, n: nat)
    requires i < m <= |events| && IsPair(events, i, n)
    ensures Starts(events, i) && StartCount(events, i) < |AttemptsBelow(events, m, n)|
    ensures AttemptsBelow(events, m, n + 1) ==
              AttemptsBelow(events, m, n)[StartCount(events, i) := AttemptAt(events, i, n + 1)]
    decreases m
  {
    hide IsPair, Starts, AttemptAt;
    PairShape(events, i, n);
    BelowAt(events, m, n, i);
    BelowLength(events, m - 1, n);
    if i == m - 1 {
      UnpairedBelow(events, i, i, n);
    } else {
      PairAt(events, m - 1, i, n);
      if IsPair(events, m - 1, n) {
        PairUnique(events, i, n, m - 1, n);
      }
      SameBound(events, m - 1, n);
    }
  }

  lemma {:induction false} UnpairedBelow(events: seq<PreparedEvent>, m: nat, i: nat, n: nat)
    requires m <= i < |events| && IsPair(events, i, n)
    ensures AttemptsBelow(events, m, n + 1) == AttemptsBelow(events, m, n)
  {
    hide IsPair, Starts, AttemptAt;
    if m > 0 {
      UnpairedBelow(events, m - 1, i, n);
      if IsPair(events, m - 1, n) {
        PairUnique(events, i, n, m - 1, n);
      }
      SameBound(events, m - 1, n);
    }
  }

  // ---------- counting the events of a tool call ----------

  datatype Counts = Counts(execs: nat, results: nat)

  predicate IsCall(item: PreparedEvent, exec: bool, id: string) {
    (if exec then IsExec(item) else IsResult(item)) && CallId(item) == id
  }

  function CallCount(events: seq<PreparedEvent>, exec: bool, id: string, n: nat): nat
    requires n <= |events|
  {
    if n == 0 then 0 else CallCount(events, exec, id, n - 1) + if IsCall(events[n - 1], exec, id) then 1 else 0
  }

  ghost function CallPositions(events: seq<PreparedEvent>, exec: bool, id: string, n: nat): set<nat>
    requires n <= |events|
  {
    set k: nat | k < n && IsCall(events[k], exec, id)
  }

  lemma {:induction false} CallCountIsCardinality(events: seq<PreparedEvent>, exec: bool, id: string, n: nat)
    requires n <= |events|
    ensures CallCount(events, exec, id, n) == |CallPositions(events, exec, id, n)|
  {
    hide IsCall;
    if n > 0 {
      CallCountIsCardinality(events, exec, id, n - 1);
      assert CallPositions(events, exec, id, n) ==
             CallPositions(events, exec, id, n - 1) + if IsCall(events[n - 1], exec, id) then {n - 1} else {};
    }
  }

  lemma OneCall(events: seq<PreparedEvent>, exec: bool, id: string)
    ensures CallCount(events, exec, id, |events|) == 1 <==>
              exists i: nat :: CallPositions(events, exec, id, |events|) == {i}
    ensures CallCount(events, exec, id, |events|) == 0 <==> CallPositions(events, exec, id, |events|) == {}
  {
    CallCountIsCardinality(events, exec, id, |events|);
    var positions := CallPositions(events, exec, id, |events|);
    if |positions| == 1 {
      var i :| i in positions;
      assert |positions - {i}| == 0;
      assert positions == {i};
    }
  }

  function CountsOf(counts: map<string, Counts>, id: string): Counts {
    if id in counts then counts[id] else Counts(0, 0)
  }

  function CallCounts(events: seq<PreparedEvent>, id: string, n: nat): Counts
    requires n <= |events|
  {
    Counts(CallCount(events, true, id, n), CallCount(events, false, id, n))
  }

  method CommandToolCallMultiplicity(events: seq<PreparedEvent>) returns (result: map<string, Counts>)
    ensures forall id :: id != "" ==> CountsOf(result, id) == CallCounts(events, id, |events|)
  {
    result := map[];
    for index := 0 to |events|
      invariant forall id :: id != "" ==> CountsOf(result, id) == CallCounts(events, id, index)
    {
      var item := events[index];
      assert forall id ::
          var before, after := CallCounts(events, id, index), CallCounts(events, id, index + 1);
          && after.execs == before.execs + (if IsCall(item, true, id) then 1 else 0)
          && after.results == before.results + (if IsCall(item, false, id) then 1 else 0);
      var id := CallId(item);
      if id == "" {
        continue;
      }
      var counts := CountsOf(result, id);
      if IsExec(item) {
        counts := counts.(execs := counts.execs + 1);
      } else if IsResult(item) {
        counts := counts.(results := counts.results + 1);
      } else {
        continue;
      }
      result := result[id := counts];
    }
  }

  ghost predicate OneOfEach(events: seq<PreparedEvent>, id: string) {
    (exists i: nat :: OnlyExec(events, id, i)) && (exists j: nat :: OnlyResult(events, id, j))
  }

  lemma OnlyIsSingleton(events: seq<PreparedEvent>, id: string, i: nat)
    ensures OnlyExec(events, id, i) <==> CallPositions(events, true, id, |events|) == {i}
    ensures OnlyResult(events, id, i) <==> CallPositions(events, false, id, |events|) == {i}
  {
    var execs, results := CallPositions(events, true, id, |events|), CallPositions(events, false, id, |events|);
    assert forall k :: 0 <= k < |events| ==> (k in execs <==> IsExec(events[k]) && CallId(events[k]) == id);
    assert forall k :: 0 <= k < |events| ==> (k in results <==> IsResult(events[k]) && CallId(events[k]) == id);
    assert i in {i};
  }

  lemma CountsDecide(events: seq<PreparedEvent>, id: string)
    ensures CallCounts(events, id, |events|) == Counts(1, 1) <==> OneOfEach(events, id)
    ensures CallCounts(events, id, |events|).execs > 0 <==> HasExec(events, id)
  {
    OneCall(events, true, id);
    OneCall(events, false, id);
    var execs, results := CallPositions(events, true, id, |events|), CallPositions(events, false, id, |events|);
    forall i: nat
      ensures OnlyExec(events, id, i) <==> execs == {i}
      ensures OnlyResult(events, id, i) <==> results == {i}
    {
      OnlyIsSingleton(events, id, i);
    }
    if HasExec(events, id) {
      var k :| 0 <= k < |events| && IsExec(events[k]) && CallId(events[k]) == id;
      assert k in execs;
    }
  }

  // ---------- the pairing loop ----------

  /** The exec at `i` has a tool call ID, used once by an exec and once by a result not read below `n`. */
  ghost predicate Waits(events: seq<PreparedEvent>, n: nat, i: nat) {
    && i < n && i < |events| && IsExec(events[i]) && CallId(events[i]) != "" && Signature(events[i]) != ""
    && OneOfEach(events, CallId(events[i])) && !HasResultBelow(events, i, n)
  }

  ghost function Waiting(events: seq<PreparedEvent>, n: nat): set<nat> {
    set i: nat | i < n && Waits(events, n, i)
  }

  /** `pending` maps the tool call of each waiting exec to the place of its attempt. */
  ghost predicate PendingFor(events: seq<PreparedEvent>, waiting: set<nat>, pending: map<string, nat>) {
    && (forall i :: i in waiting ==>
          && i < |events| && CallId(events[i]) in pending && pending[CallId(events[i])] == StartCount(events, i))
    && (forall i, k :: i in waiting && k in waiting && CallId(events[i]) == CallId(events[k]) ==> i == k)
    && (forall id :: id in pending ==> exists i :: i in waiting && CallId(events[i]) == id)
  }

  lemma SameExec(events: seq<PreparedEvent>, n: nat, i: nat, k: nat)
    requires Waits(events, n, i) && k < |events| && IsExec(events[k])
    ensures CallId(events[k]) == CallId(events[i]) ==> i == k
  {
  }

  lemma WaitingStep(events: seq<PreparedEvent>, n: nat)
    requires n < |events|
    ensures Waiting(events, n + 1) ==
              (set i | i in Waiting(events, n) && !IsPair(events, i, n))
              + (if IsExec(events[n]) && CallId(events[n]) != "" && Signature(events[n]) != ""
                    && OneOfEach(events, CallId(events[n])) then {n} else {})
  {
    hide IsPair, OneOfEach;
    NoEarlyResult(events, n);
    forall i: nat | i < n
      ensures HasResultBelow(events, i, n + 1) <==> HasResultBelow(events, i, n) || IsPair(events, i, n)
    {
    }
  }

  lemma NoEarlyResult(events: seq<PreparedEvent>, n: nat)
    requires n < |events|
    ensures !HasResultBelow(events, n, n + 1)
  {
    if HasResultBelow(events, n, n + 1) {
      PairShape(events, n, ResultOf(events, n, n + 1));
    }
  }

  lemma WaitingUnchanged(events: seq<PreparedEvent>, n: nat)
    requires n < |events| && !IsSecond(events, n)
    requires IsExec(events[n]) && CallId(events[n]) != "" && Signature(events[n]) != "" ==>
               !OneOfEach(events, CallId(events[n]))
    ensures Waiting(events, n + 1) == Waiting(events, n)
  {
    hide IsPair, OneOfEach;
    WaitingStep(events, n);
  }

  lemma PendingAdded(events: seq<PreparedEvent>, n: nat, pending: map<string, nat>)
    requires n < |events| && PendingFor(events, Waiting(events, n), pending) && IsExec(events[n])
    requires CallId(events[n]) != "" && Signature(events[n]) != "" && OneOfEach(events, CallId(events[n]))
    ensures PendingFor(events, Waiting(events, n + 1), pending[CallId(events[n]) := StartCount(events, n)])
  {
    hide IsPair, OneOfEach, HasResultBelow;
    WaitingStep(events, n);
    forall i | i in Waiting(events, n)
      ensures !IsPair(events, i, n) && CallId(events[i]) != CallId(events[n])
    {
      if IsPair(events, i, n) { PairShape(events, i, n); }
      SameExec(events, n, i, n);
    }
    assert Waiting(events, n + 1) == Waiting(events, n) + {n};
  }

  lemma PendingRemoved(events: seq<PreparedEvent>, n: nat, pending: map<string, nat>, i: nat)
    requires n < |events| && PendingFor(events, Waiting(events, n), pending)
    requires i in Waiting(events, n) && IsPair(events, i, n)
    ensures PendingFor(events, Waiting(events, n + 1), pending - {CallId(events[i])})
  {
    hide OneOfEach, IsPair, HasResultBelow, Waits, PendingFor;
    WaitingStep(events, n);
    PairShape(events, i, n);
    forall k | k in Waiting(events, n)
      ensures IsPair(events, k, n) <==> k == i
    {
      if IsPair(events, k, n) { PairUnique(events, k, n, i, n); }
    }
    assert Waiting(events, n + 1) == Waiting(events, n) - {i};
    PendingWithout(events, Waiting(events, n), pending, i);
  }

  lemma PendingWithout(events: seq<PreparedEvent>, waiting: set<nat>, pending: map<string, nat>, i: nat)
    requires PendingFor(events, waiting, pending) && i in waiting && i < |events|
    ensures PendingFor(events, waiting - {i}, pending - {CallId(events[i])})
  {
    hide CallId, StartCount;
  }

  /** A result with a tool call ID completes the attempt of exactly a waiting exec that agrees with it. */
  lemma ToolResult(events: seq<PreparedEvent>, n: nat, i: nat)
    requires n < |events| && IsResult(events[n]) && CallId(events[n]) != ""
    ensures IsPair(events, i, n) <==>
              && i in Waiting(events, n) && CallId(events[i]) == CallId(events[n])
              && MatchesIdentity(events[n], Signature(events[i]))
  {
    var id := CallId(events[n]);
    if IsPair(events, i, n) {
      PairShape(events, i, n);
      assert OnlyExec(events, id, i) && OnlyResult(events, id, n);
      CompletedOnce(events, i, n);
    }
    if i in Waiting(events, n) && CallId(events[i]) == id {
      assert OneOfEach(events, id);
      assert OnlyExec(events, id, i) && OnlyResult(events, id, n);
    }
  }

  lemma PendingLookup(events: seq<PreparedEvent>, n: nat, pending: map<string, nat>, id: string) returns (i: nat)
    requires n <= |events| && PendingFor(events, Waiting(events, n), pending) && id in pending
    ensures i in Waiting(events, n) && i < |events| && CallId(events[i]) == id
    ensures pending[id] == StartCount(events, i) < |AttemptsBelow(events, n, n)|
    ensures AttemptsBelow(events, n, n)[pending[id]] == Started(events, i)
  {
    i :| i in Waiting(events, n) && CallId(events[i]) == id;
    assert Starts(events, i) by {
      forall k: nat
        ensures !IsPair(events, k, i)
      {
        if IsPair(events, k, i) { PairShape(events, k, i); }
      }
    }
    BelowAt(events, n, n, i);
  }

  /** Reading a position that completes no pair adds its own attempt, if it begins one. */
  lemma ReadUnpaired(events: seq<PreparedEvent>, n: nat)
    requires n < |events| && !IsSecond(events, n)
    ensures AttemptsBelow(events, n + 1, n + 1) ==
              AttemptsBelow(events, n, n) + if Starts(events, n) then [Started(events, n)] else []
  {
    NoPairAt(events, n, n);
    NoEarlyResult(events, n);
  }

  lemma ReadPair(events: seq<PreparedEvent>, n: nat, i: nat)
    requires IsPair(events, i, n)
    ensures i < n < |events| && StartCount(events, i) < |AttemptsBelow(events, n, n)|
    ensures AttemptsBelow(events, n, n)[StartCount(events, i)] == Started(events, i)
    ensures AttemptsBelow(events, n + 1, n + 1) ==
              AttemptsBelow(events, n, n)[StartCount(events, i) :=
                MergeAttempt(Started(events, i), events[n], n, PairTrust(events[i]))]
  {
    hide IsPair;
    PairShape(events, i, n);
    PairAt(events, n, i, n);
    CompletedAttempt(events, i, n);
    BelowAt(events, n, n, i);
    assert IsSecond(events, n);
  }

  lemma {:induction false} BelowMember(events: seq<PreparedEvent>, m: nat, n: nat, a: Attempt) returns (p: nat)
    requires m <= |events| && a in AttemptsBelow(events, m, n)
    ensures p < m && Starts(events, p) && a == AttemptAt(events, p, n)
  {
    if a in AttemptsBelow(events, m - 1, n) {
      p := BelowMember(events, m - 1, n, a);
    } else {
      p := m - 1;
    }
  }

  /** The test on the last attempt recognises exactly the adjacent pairs. */
  lemma AdjacentTest(events: seq<PreparedEvent>, n: nat)
    requires 0 < n < |events| && AttemptsBelow(events, n, n) != []
    requires IsExec(events[n - 1]) && CallId(events[n - 1]) == ""
    ensures var last := AttemptsBelow(events, n, n)[|AttemptsBelow(events, n, n)| - 1];
            && (Starts(events, n - 1) <==> last.lastPos == n - 1)
            && (Starts(events, n - 1) ==>
                  StartCount(events, n - 1) == |AttemptsBelow(events, n, n)| - 1 && last == Started(events, n - 1))
  {
    var attempts := AttemptsBelow(events, n, n);
    var last := attempts[|attempts| - 1];
    BelowLength(events, n, n);
    if Starts(events, n - 1) {
      NoEarlyResult(events, n - 1);
      BelowAt(events, n, n, n - 1);
    } else {
      var p := BelowMember(events, n, n, last);
      if HasResultBelow(events, p, n) {
        PairShape(events, p, ResultOf(events, p, n));
      }
    }
  }

  lemma NotSecond(events: seq<PreparedEvent>, n: nat)
    requires n < |events| && !IsResult(events[n])
    ensures !IsSecond(events, n)
  {
    if i: nat :| IsPair(events, i, n) {
      PairShape(events, i, n);
    }
  }

  /** What is left to do at position `n` once no pair was completed there. */
  lemma ToolResultUnpaired(events: seq<PreparedEvent>, n: nat, pending: map<string, nat>)
    requires n < |events| && IsResult(events[n]) && CallId(events[n]) != ""
    requires PendingFor(events, Waiting(events, n), pending)
    requires forall i: nat | i in Waiting(events, n) && CallId(events[i]) == CallId(events[n]) ::
               !MatchesIdentity(events[n], Signature(events[i]))
    ensures !IsSecond(events, n)
  {
    hide IsPair;
    forall i: nat
      ensures !IsPair(events, i, n)
    {
      ToolResult(events, n, i);
    }
  }

  /** The lookup of a result with a tool call ID fails only when it completes nothing. */
  lemma ToolResultMiss(events: seq<PreparedEvent>, n: nat, pending: map<string, nat>, counts: Counts)
    requires n < |events| && IsResult(events[n]) && CallId(events[n]) != ""
    requires PendingFor(events, Waiting(events, n), pending)
    requires counts == CallCounts(events, CallId(events[n]), |events|)
    requires counts == Counts(1, 1) && CallId(events[n]) in pending ==>
               forall i: nat | i in Waiting(events, n) && CallId(events[i]) == CallId(events[n]) ::
                 !MatchesIdentity(events[n], Signature(events[i]))
    ensures !IsSecond(events, n)
  {
    hide IsPair;
    CountsDecide(events, CallId(events[n]));
    ToolResultUnpaired(events, n, pending);
  }

  lemma ReadAdjacentPair(events: seq<PreparedEvent>, n: nat)
    requires 0 < n < |events| && IsAdjacentPair(events, n - 1, n)
    ensures AttemptsBelow(events, n, n) != []
    ensures var attempts := AttemptsBelow(events, n, n);
            && AttemptsBelow(events, n + 1, n + 1) ==
                 attempts[|attempts| - 1 := MergeAttempt(attempts[|attempts| - 1], events[n], n, AdjacentPair)]
            && Waiting(events, n + 1) == Waiting(events, n)
  {
    ReadPair(events, n, n - 1);
    AdjacentDecides(events, n);
    WaitingStep(events, n);
    forall i | i in Waiting(events, n)
      ensures !IsPair(events, i, n)
    {
      if IsPair(events, i, n) { PairShape(events, i, n); }
    }
  }

  lemma IdLessResultUnpaired(events: seq<PreparedEvent>, n: nat)
    requires n < |events| && IsResult(events[n]) && CallId(events[n]) == ""
    requires n > 0 ==> !IsAdjacentPair(events, n - 1, n)
    ensures !IsSecond(events, n)
  {
    if i: nat :| IsPair(events, i, n) {
      PairShape(events, i, n);
    }
  }

  /** An adjacent pair shows at the last attempt. */
  lemma AdjacentDecides(events: seq<PreparedEvent>, n: nat)
    requires 0 < n < |events| && IsResult(events[n]) && CallId(events[n]) == ""
    ensures var attempts, previous := AttemptsBelow(events, n, n), events[n - 1];
            IsAdjacentPair(events, n - 1, n) <==>
              && attempts != [] && IsExec(previous) && CallId(previous) == ""
              && attempts[|attempts| - 1].lastPos == n - 1
              && MatchesIdentity(events[n], attempts[|attempts| - 1].signature)
              && Within(events[n].event.occurredAt, previous.event.occurredAt, ADJACENT_PAIR_WINDOW)
    ensures IsAdjacentPair(events, n - 1, n) ==>
              StartCount(events, n - 1) == |AttemptsBelow(events, n, n)| - 1
  {
    if IsAdjacentPair(events, n - 1, n) {
      assert IsPair(events, n - 1, n);
      ReadPair(events, n, n - 1);
      AdjacentTest(events, n);
      PairShape(events, n - 1, n);
    } else if IsExec(events[n - 1]) && CallId(events[n - 1]) == "" && AttemptsBelow(events, n, n) != [] {
      AdjacentTest(events, n);
    }
  }

  /** The state of the loop when the positions below `n` have been read. */
  ghost predicate ReadBelow(
    events: seq<PreparedEvent>, n: nat, attempts: seq<Attempt>, pending: map<string, nat>)
    requires n <= |events|
  {
    attempts == AttemptsBelow(events, n, n) && PendingFor(events, Waiting(events, n), pending)
  }

  /** A result with a tool call ID: completes the pending attempt of its exec, if they belong together. */
  method CompleteToolCall(
    events: seq<PreparedEvent>, position: nat, counts: Counts, attempts0: seq<Attempt>, pending0: map<string, nat>)
    returns (completed: bool, attempts: seq<Attempt>, pending: map<string, nat>)
    requires position < |events| && IsResult(events[position]) && CallId(events[position]) != ""
    requires counts == CallCounts(events, CallId(events[position]), |events|)
    requires ReadBelow(events, position, attempts0, pending0)
    ensures completed ==> ReadBelow(events, position + 1, attempts, pending)
    ensures !completed ==> attempts == attempts0 && pending == pending0 && !IsSecond(events, position)
  {
    hide IsPair, PendingFor, Waiting, AttemptAt, IsAdjacentPair, OneOfEach, CallCounts, HasExec, MergeAttempt;
    var item, id := events[position], CallId(events[position]);
    if counts == Counts(1, 1) && id in pending0 {
      ghost var i := PendingLookup(events, position, pending0, id);
      ToolResult(events, position, i);
      var index := pending0[id];
      if MatchesIdentity(item, attempts0[index].signature) {
        ReadPair(events, position, i);
        PendingRemoved(events, position, pending0, i);
        return true, attempts0[index := MergeAttempt(attempts0[index], item, position, ToolCallPair)], pending0 - {id};
      }
      SoleWaiting(events, position, pending0, i);
    }
    ToolResultMiss(events, position, pending0, counts);
    return false, attempts0, pending0;
  }

  lemma SoleWaiting(events: seq<PreparedEvent>, n: nat, pending: map<string, nat>, i: nat)
    requires PendingFor(events, Waiting(events, n), pending) && i in Waiting(events, n)
    ensures forall k :: k in Waiting(events, n) && CallId(events[k]) == CallId(events[i]) ==> k == i
  {
  }

  /** A result without one: completes the attempt just begun by the exec before it, if they belong together. */
  method CompleteAdjacent(
    events: seq<PreparedEvent>, position: nat, attempts0: seq<Attempt>, ghost pending: map<string, nat>)
    returns (completed: bool, attempts: seq<Attempt>)
    requires position < |events| && IsResult(events[position]) && CallId(events[position]) == ""
    requires ReadBelow(events, position, attempts0, pending)
    ensures completed ==> ReadBelow(events, position + 1, attempts, pending)
    ensures !completed ==> attempts == attempts0 && !IsSecond(events, position)
  {
    hide IsPair, PendingFor, Waiting, AttemptAt, IsAdjacentPair, AttemptsBelow, MergeAttempt;
    var item := events[position];
    if position > 0 && |attempts0| > 0 {
      AdjacentDecides(events, position);
      var previous := events[position - 1];
      var last := |attempts0| - 1;
      var candidate := attempts0[last];
      if IsExec(previous) && CallId(previous) == "" && candidate.lastPos == position - 1
         && MatchesIdentity(item, candidate.signature)
         && Within(item.event.occurredAt, previous.event.occurredAt, ADJACENT_PAIR_WINDOW) {
        ReadAdjacentPair(events, position);
        return true, attempts0[last := MergeAttempt(candidate, item, position, AdjacentPair)];
      }
    }
    if position > 0 { AdjacentDecides(events, position); }
    IdLessResultUnpaired(events, position);
    return false, attempts0;
  }

  /** Any other signed command event begins an attempt; an unsigned one is skipped. */
  method BeginAttempt(
    events: seq<PreparedEvent>, position: nat, counts: Counts, attempts0: seq<Attempt>, pending0: map<string, nat>)
    returns (attempts: seq<Attempt>, pending: map<string, nat>)
    requires position < |events| && (IsExec(events[position]) || IsResult(events[position]))
    requires CallId(events[position]) != "" ==> counts == CallCounts(events, CallId(events[position]), |events|)
    requires ReadBelow(events, position, attempts0, pending0) && !IsSecond(events, position)
    ensures ReadBelow(events, position + 1, attempts, pending)
  {
    hide IsSecond, PendingFor, Waiting, AttemptAt, OneOfEach, CallCounts, HasExec;
    var item, id := events[position], CallId(events[position]);
    CountsDecide(events, id);
    ReadUnpaired(events, position);
    if Signature(item) == "" {
      WaitingUnchanged(events, position);
      return attempts0, pending0;
    }
    var attempt := NewAttempt(item, position);
    if IsResult(item) {
      if id != "" && counts.execs > 0 {
        attempt := attempt.(repetitionEligible := false);
      } else if AdjacentExecWithoutId(events, position) {
        attempt := attempt.(repetitionEligible := false);
      }
    }
    attempts, pending := attempts0 + [attempt], pending0;
    if IsExec(item) && id != "" && counts == Counts(1, 1) {
      PendingAdded(events, position, pending);
      BelowLength(events, position, position);
      pending := pending[id := |attempts| - 1];
    } else {
      WaitingUnchanged(events, position);
    }
  }

  /** The loop of `commandAttempts` computes the declarative pairing. */
  method CommandAttempts(events: seq<PreparedEvent>) returns (attempts: seq<Attempt>)
    ensures attempts == AttemptsOf(events)
  {
    attempts := [];
    var pending: map<string, nat> := map[];
    var multiplicity := CommandToolCallMultiplicity(events);
    assert Waiting(events, 0) == {};
    for position := 0 to |events|
      invariant ReadBelow(events, position, attempts, pending)
    {
      hide IsSecond, PendingFor, Waiting, AttemptAt, CallCounts, HasExec;
      var item := events[position];
      if !IsExec(item) && !IsResult(item) {
        NotSecond(events, position);
        ReadUnpaired(events, position);
        WaitingUnchanged(events, position);
        continue;
      }
      var id := CallId(item);
      var counts := if id == "" then Counts(0, 0) else CountsOf(multiplicity, id);
      var completed := false;
      if IsResult(item) {
        if id != "" {
          completed, attempts, pending := CompleteToolCall(events, position, counts, attempts, pending);
        } else {
          completed, attempts := CompleteAdjacent(events, position, attempts, pending);
        }
      } else {
        NotSecond(events, position);
      }
      if completed {
        continue;
      }
      attempts, pending := BeginAttempt(events, position, counts, attempts, pending);
    }
  }
}
