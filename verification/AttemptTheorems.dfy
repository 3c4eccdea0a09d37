/** What the list of attempts says about a session, for every event list. */
module AttemptTheorems {
  import opened Common
  import opened Events
  import opened Attempts

  lemma FirstPosition(events: seq<PreparedEvent>, p: nat, n: nat)
    requires p < |events|
    ensures AttemptAt(events, p, n).firstPos == p
  {
  }

  ghost predicate Increasing(attempts: seq<Attempt>) {
    forall k, l :: 0 <= k < l < |attempts| ==> attempts[k].firstPos < attempts[l].firstPos
  }

  lemma {:induction false} FirstPositionsIncrease(events: seq<PreparedEvent>, m: nat, n: nat)
    requires m <= |events|
    ensures Increasing(AttemptsBelow(events, m, n))
  {
    hide Starts, AttemptAt;
    if m > 0 {
      FirstPositionsIncrease(events, m - 1, n);
      var before, attempts := AttemptsBelow(events, m - 1, n), AttemptsBelow(events, m, n);
      forall k | 0 <= k < |before|
        ensures before[k].firstPos < m - 1
      {
        var p := BelowMember(events, m - 1, n, before[k]);
        FirstPosition(events, p, n);
      }
      FirstPosition(events, m - 1, n);
      assert attempts == before || attempts == before + [AttemptAt(events, m - 1, n)];
    }
  }

  /** Where an attempt comes from: the position it begins at, and its result if it has one. */
  lemma AttemptShape(events: seq<PreparedEvent>, a: Attempt)
    requires a in AttemptsOf(events)
    ensures a.firstPos <= a.lastPos < |events| && Starts(events, a.firstPos)
    ensures a == AttemptAt(events, a.firstPos, |events|)
    ensures a.trust.Paired() <==> a.firstPos < a.lastPos
    ensures a.trust.Paired() <==> HasResultBelow(events, a.firstPos, |events|)
    ensures a.trust.Paired() ==> IsPair(events, a.firstPos, a.lastPos) && a.events == [events[a.firstPos], events[a.lastPos]]
    ensures !a.trust.Paired() ==> a.firstPos == a.lastPos && a.events == [events[a.firstPos]]
    ensures a.trust == ToolCallPair ==> IsToolCallPair(events, a.firstPos, a.lastPos)
    ensures a.trust == AdjacentPair ==> IsAdjacentPair(events, a.firstPos, a.lastPos)
  {
    var p := BelowMember(events, |events|, |events|, a);
    if HasResultBelow(events, p, |events|) {
      PairShape(events, p, ResultOf(events, p, |events|));
    }
  }

  /** The pairs among the attempts are exactly the tool-call pairs and the adjacent pairs of the session. */
  lemma PairsAreExact(events: seq<PreparedEvent>, i: nat, j: nat)
    ensures IsPair(events, i, j) <==>
            exists a :: a in AttemptsOf(events) && a.trust.Paired() && a.firstPos == i && a.lastPos == j
    ensures (exists a :: a in AttemptsOf(events) && a.trust == ToolCallPair && a.firstPos == i && a.lastPos == j)
            <==> IsToolCallPair(events, i, j)
  {
    forall a | a in AttemptsOf(events)
      ensures a.trust.Paired() ==> IsPair(events, a.firstPos, a.lastPos)
      ensures a.trust == ToolCallPair ==> IsToolCallPair(events, a.firstPos, a.lastPos)
    {
      AttemptShape(events, a);
    }
    if IsPair(events, i, j) {
      PairShape(events, i, j);
      BelowAt(events, |events|, |events|, i);
      var a := AttemptAt(events, i, |events|);
      assert HasResultBelow(events, i, |events|);
      PairUnique(events, i, j, i, ResultOf(events, i, |events|));
      assert a in AttemptsOf(events) && a.firstPos == i && a.lastPos == j;
    }
  }

  predicate Covers(a: Attempt, p: nat) {
    a.firstPos == p || a.lastPos == p
  }

  /** No event is in two attempts. */
  lemma NoEventInTwoAttempts(events: seq<PreparedEvent>, k: nat, l: nat, p: nat)
    requires k < |AttemptsOf(events)| && l < |AttemptsOf(events)| && k != l
    ensures !(Covers(AttemptsOf(events)[k], p) && Covers(AttemptsOf(events)[l], p))
  {
    var a, b := AttemptsOf(events)[k], AttemptsOf(events)[l];
    FirstPositionsIncrease(events, |events|, |events|);
    assert a in AttemptsOf(events) && b in AttemptsOf(events);
    AttemptShape(events, a);
    AttemptShape(events, b);
    hide IsPair, AttemptAt;
    assert a.firstPos != b.firstPos by {
      var attempts := AttemptsOf(events);
      assert Increasing(attempts);
      assert k < l ==> attempts[k].firstPos < attempts[l].firstPos;
      assert l < k ==> attempts[l].firstPos < attempts[k].firstPos;
    }
    if a.trust.Paired() && b.trust.Paired() {
      PairUnique(events, a.firstPos, a.lastPos, b.firstPos, b.lastPos);
    }
    assert a.trust.Paired() ==> IsSecond(events, a.lastPos);
    assert b.trust.Paired() ==> IsSecond(events, b.lastPos);
  }

  /** Every signed command event is in an attempt. */
  lemma SignedCommandsAreCovered(events: seq<PreparedEvent>, p: nat)
    requires p < |events| && (IsExec(events[p]) || IsResult(events[p])) && Signature(events[p]) != ""
    ensures exists a :: a in AttemptsOf(events) && Covers(a, p)
  {
    if i: nat :| IsPair(events, i, p) {
      PairsAreExact(events, i, p);
    } else {
      BelowAt(events, |events|, |events|, p);
      assert Covers(AttemptAt(events, p, |events|), p);
    }
  }

  // ---------- outcomes ----------

  /** What is known about a command, ordered by how much has been claimed. */
  datatype Verdict = NoVerdict | Pass | Fail | Contradiction

  predicate Leq(a: Verdict, b: Verdict) {
    a == b || a == NoVerdict || b == Contradiction
  }

  function Join(a: Verdict, b: Verdict): Verdict {
    if Leq(a, b) then b else if Leq(b, a) then a else Contradiction
  }

  lemma JoinIsLeastUpperBound(a: Verdict, b: Verdict, c: Verdict)
    ensures Leq(a, Join(a, b)) && Leq(b, Join(a, b))
    ensures Leq(a, c) && Leq(b, c) ==> Leq(Join(a, b), c)
  {
  }

  function VerdictOf(outcome: Outcome, conflict: bool): Verdict {
    if conflict then Contradiction
    else match outcome
      case Unknown => NoVerdict
      case Succeeded => Pass
      case Failed => Fail
  }

  function EventVerdict(item: PreparedEvent): Verdict {
    var (outcome, conflict) := EventOutcome(item.event);
    VerdictOf(outcome, conflict)
  }

  function JoinAll(items: seq<PreparedEvent>): Verdict {
    if items == [] then NoVerdict else Join(EventVerdict(items[0]), JoinAll(items[1..]))
  }

  lemma ConflictIsUndecided(event: Event)
    ensures EventOutcome(event).1 ==> EventOutcome(event).0 == Unknown
  {
  }

  lemma MergeJoins(attempt: Attempt, item: PreparedEvent, position: nat, trust: Trust)
    requires attempt.conflict ==> attempt.outcome == Unknown
    ensures var merged := MergeAttempt(attempt, item, position, trust);
            && (merged.conflict ==> merged.outcome == Unknown)
            && VerdictOf(merged.outcome, merged.conflict) ==
                 Join(VerdictOf(attempt.outcome, attempt.conflict), EventVerdict(item))
  {
    ConflictIsUndecided(item.event);
    hide EventOutcome;
  }

  lemma NewAttemptVerdict(item: PreparedEvent, position: nat)
    ensures var fresh' := NewAttempt(item, position);
            && (fresh'.conflict ==> fresh'.outcome == Unknown)
            && VerdictOf(fresh'.outcome, fresh'.conflict) == EventVerdict(item)
  {
  }

  /** An attempt's outcome is the join of its events' verdicts; a contradicted one is never decided. */
  lemma OutcomeIsJoin(events: seq<PreparedEvent>, a: Attempt)
    requires a in AttemptsOf(events)
    ensures VerdictOf(a.outcome, a.conflict) == JoinAll(a.events)
    ensures a.conflict ==> a.outcome == Unknown
  {
    hide IsPair, Starts, MergeAttempt, NewAttempt, EventVerdict;
    AttemptShape(events, a);
    var p := a.firstPos;
    NewAttemptVerdict(events[p], p);
    if a.trust.Paired() {
      var j := a.lastPos;
      PairUnique(events, p, ResultOf(events, p, |events|), p, j);
      MergeJoins(Started(events, p), events[j], j, PairTrust(events[p]));
      assert a.events[1..] == [events[j]] && a.events[1..][1..] == [];
      assert JoinAll(a.events[1..]) == EventVerdict(events[j]);
    } else {
      assert a.events[1..] == [];
    }
  }

  // ---------- what an event says ----------

  /** An event says that the command failed, or that it succeeded, by its exit code or by its outcome text. */
  predicate SaysFailed(event: Event) {
    || (event.observation.exitCode.Some? && event.observation.exitCode.value != 0)
    || ToLower(TrimSpace(event.observation.outcome)) == "failed"
  }

  predicate SaysSucceeded(event: Event) {
    event.observation.exitCode == Some(0) || ToLower(TrimSpace(event.observation.outcome)) == "succeeded"
  }

  /** An event is decided by what it says, and contradicts itself when it says both. */
  lemma OutcomeMeans(event: Event)
    ensures EventOutcome(event).1 <==> SaysFailed(event) && SaysSucceeded(event)
    ensures EventOutcome(event).0.Failed? <==> SaysFailed(event) && !SaysSucceeded(event)
    ensures EventOutcome(event).0.Succeeded? <==> SaysSucceeded(event) && !SaysFailed(event)
  {
  }

  /** The class of a command is one of six, whatever its case and the space around it, or unknown. */
  lemma ClassMeans(value: string)
    ensures var c := ToLower(TrimSpace(value));
            NormalizedCommandClass(value) in {c, "unknown"}
            && (NormalizedCommandClass(value) == c <==>
                  c in {"test", "build", "typecheck", "lint", "format_check", "other", "unknown"})
  {
  }

  // ---------- pairs, in the events' own terms ----------

  predicate NamesExec(item: PreparedEvent) {
    item.event.observation.kind == "command.exec"
  }

  predicate NamesResult(item: PreparedEvent) {
    item.event.observation.kind == "command.result"
  }

  /** Of all commands the session runs under this tool call ID. */
  predicate OnlyOf(events: seq<PreparedEvent>, id: string, k: nat, exec: bool) {
    forall l :: (0 <= l < |events| && ToolCallId(events[l].event) == id
                 && (if exec then NamesExec(events[l]) else NamesResult(events[l]))) ==> l == k
  }

  lemma PairMeans(events: seq<PreparedEvent>, i: nat, j: nat)
    ensures IsPair(events, i, j) <==>
              && i < j < |events| && NamesExec(events[i]) && NamesResult(events[j])
              && ToolCallId(events[i].event) == ToolCallId(events[j].event)
              && events[i].enrichment.signature != ""
              && events[j].enrichment.signature in {"", events[i].enrichment.signature}
              && (if ToolCallId(events[i].event) == "" then
                    && j == i + 1
                    && -5_000_000_000 <= events[j].event.occurredAt - events[i].event.occurredAt <= 5_000_000_000
                  else
                    && OnlyOf(events, ToolCallId(events[i].event), i, true)
                    && OnlyOf(events, ToolCallId(events[i].event), j, false))
  {
    hide ToolCallId;
  }

  // ---------- the other fields of an attempt ----------

  /** The classes its signed events name. */
  ghost function NamedClasses(items: seq<PreparedEvent>): set<string> {
    set item | item in items && item.enrichment.signature != ""
      && NormalizedCommandClass(item.enrichment.commandClass) != "unknown" ::
      NormalizedCommandClass(item.enrichment.commandClass)
  }

  /** The signature is that of the first event, the times span the events, the class is the one they agree on. */
  lemma AttemptFields(events: seq<PreparedEvent>, a: Attempt)
    requires a in AttemptsOf(events)
    ensures a.firstPos < |events| && a.signature == events[a.firstPos].enrichment.signature != ""
    ensures forall item :: item in a.events ==> a.first <= item.event.occurredAt <= a.last
    ensures exists item :: item in a.events && item.event.occurredAt == a.first
    ensures exists item :: item in a.events && item.event.occurredAt == a.last
    ensures a.classConflict <==> exists c, d :: c in NamedClasses(a.events) && d in NamedClasses(a.events) && c != d
    ensures forall c :: a.commandClass == c != "unknown" <==> NamedClasses(a.events) == {c}
  {
    hide NormalizedCommandClass, IsPair, NamedClasses, MergeAttempt, NewAttempt, EventOutcome;
    AttemptShape(events, a);
    var p := a.firstPos;
    if a.trust.Paired() {
      var j := ResultOf(events, p, |events|);
      PairUnique(events, p, j, p, a.lastPos);
      FieldsOfTwo(events[p], events[j], a.events);
      SingleFields(events, p);
      PairedFields(Started(events, p), events[p], events[j], j, PairTrust(events[p]));
      ClassesAgree(NamedClasses(a.events), NormalizedCommandClass(events[p].enrichment.commandClass),
                   NormalizedCommandClass(events[j].enrichment.commandClass), events[j].enrichment.signature != "",
                   a.commandClass, a.classConflict);
    } else {
      FieldsOfOne(events[p], a.events);
      SingleFields(events, p);
      ClassesAgree(NamedClasses(a.events), NormalizedCommandClass(events[p].enrichment.commandClass),
                   "unknown", false, a.commandClass, a.classConflict);
    }
    hide *;
  }

  lemma ClassesAgree(named: set<string>, c: string, d: string, signed: bool, agreed: string, conflict: bool)
    requires named == (if c == "unknown" then {} else {c}) + (if d == "unknown" || !signed then {} else {d})
    requires conflict <==> c != "unknown" && d != "unknown" && signed && c != d
    requires agreed == if conflict then "unknown" else if d != "unknown" && signed then d else c
    ensures conflict <==> exists x, y :: x in named && y in named && x != y
    ensures forall x :: agreed == x != "unknown" <==> named == {x}
  {
    if conflict {
      assert c in named && d in named;
    }
    forall x
      ensures agreed == x != "unknown" <==> named == {x}
    {
      if named == {x} {
        assert x in named;
      }
    }
  }

  lemma SingleFields(events: seq<PreparedEvent>, p: nat)
    requires p < |events|
    ensures var item, a := events[p], Started(events, p);
            && a.signature == item.enrichment.signature
            && a.first == a.last == item.event.occurredAt && !a.classConflict
            && a.commandClass == NormalizedCommandClass(item.enrichment.commandClass)
  {
  }

  lemma PairedFields(started: Attempt, first: PreparedEvent, second: PreparedEvent, position: nat, trust: Trust)
    requires started.signature == first.enrichment.signature && !started.classConflict
    requires started.first == started.last == first.event.occurredAt
    requires started.commandClass == NormalizedCommandClass(first.enrichment.commandClass)
    ensures var a := MergeAttempt(started, second, position, trust);
            var c := NormalizedCommandClass(first.enrichment.commandClass);
            var d := NormalizedCommandClass(second.enrichment.commandClass);
            var known := second.enrichment.signature != "" && d != "unknown";
            && a.signature == first.enrichment.signature
            && a.first <= first.event.occurredAt <= a.last && a.first <= second.event.occurredAt <= a.last
            && a.first in {first.event.occurredAt, second.event.occurredAt}
            && a.last in {first.event.occurredAt, second.event.occurredAt}
            && (a.classConflict <==> c != "unknown" && known && c != d)
            && a.commandClass == (if a.classConflict then "unknown" else if known then d else c)
  {
    hide NormalizedCommandClass, MergedOutcome;
  }

  lemma FieldsOfOne(item: PreparedEvent, items: seq<PreparedEvent>)
    requires items == [item] && item.enrichment.signature != ""
    ensures item in items && forall x :: x in items ==> x == item
    ensures var c := NormalizedCommandClass(item.enrichment.commandClass);
            NamedClasses(items) == if c == "unknown" then {} else {c}
  {
    hide NormalizedCommandClass;
    assert items[0] == item;
  }

  lemma FieldsOfTwo(first: PreparedEvent, second: PreparedEvent, items: seq<PreparedEvent>)
    requires items == [first, second] && first.enrichment.signature != ""
    ensures first in items && second in items && forall x :: x in items ==> x == first || x == second
    ensures var c := NormalizedCommandClass(first.enrichment.commandClass);
            var d := NormalizedCommandClass(second.enrichment.commandClass);
            NamedClasses(items) == (if c == "unknown" then {} else {c})
                                   + (if d == "unknown" || second.enrichment.signature == "" then {} else {d})
  {
    hide NormalizedCommandClass;
    assert items[0] == first && items[1] == second;
  }

  /** What kind of evidence an attempt rests on, and whether it counts as a repetition. */
  lemma AttemptStanding(events: seq<PreparedEvent>, a: Attempt)
    requires a in AttemptsOf(events)
    ensures a.firstPos < |events|
    ensures a.trust == ExecObservation <==> a.firstPos == a.lastPos && NamesExec(events[a.firstPos])
    ensures a.trust == UnpairedResult <==> a.firstPos == a.lastPos && NamesResult(events[a.firstPos])
    ensures a.repetitionEligible <==>
              || NamesExec(events[a.firstPos])
              || (&& (ToolCallId(events[a.firstPos].event) == "" ||
                      forall k :: 0 <= k < |events| && NamesExec(events[k]) ==>
                        ToolCallId(events[k].event) != ToolCallId(events[a.firstPos].event))
                  && !(&& a.firstPos > 0 && NamesExec(events[a.firstPos - 1]) && ToolCallId(events[a.firstPos - 1].event) == ""
                       && -5_000_000_000 <= events[a.firstPos].event.occurredAt - events[a.firstPos - 1].event.occurredAt
                                         <= 5_000_000_000))
  {
    AttemptShape(events, a);
    hide ToolCallId, IsPair, EventOutcome, NormalizedCommandClass, MergedOutcome, MergedClass;
  }
}
