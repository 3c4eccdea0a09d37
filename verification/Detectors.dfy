/** Two of the built-in detectors (`internal/detection/detectors.go`), each against a declarative reading. */
module Detectors {
  import opened Common
  import opened Ordering
  import opened Events
  import opened Attempts
  import opened AttemptTheorems
  import opened Fingerprints
  import opened Prepare

  /** A match before its evidence is turned into citations. */
  datatype Finding = Finding(
    detector: string, severity: string, confidence: string, first: int, last: int,
    evidence: seq<PreparedEvent>, dimensions: seq<Dimension>)

  predicate IsVerificationClass(value: string) {
    value in {"test", "build", "typecheck", "lint", "format_check"}
  }

  function Kind(item: PreparedEvent): string { item.event.observation.kind }

  // ---------- the last session.end ----------

  ghost predicate IsLastEnd(events: seq<PreparedEvent>, t: nat) {
    && t < |events| && Kind(events[t]) == "session.end"
    && (forall k :: t < k < |events| ==> Kind(events[k]) != "session.end")
  }

  method FindLastEnd(events: seq<PreparedEvent>) returns (terminal: Option<nat>)
    ensures terminal.Some? ==> IsLastEnd(events, terminal.value)
    ensures terminal.None? ==> forall k :: 0 <= k < |events| ==> Kind(events[k]) != "session.end"
  {
    terminal := None;
    for index := 0 to |events|
      invariant terminal.Some? ==> terminal.value < index && Kind(events[terminal.value]) == "session.end"
                                   && forall k :: terminal.value < k < index ==> Kind(events[k]) != "session.end"
      invariant terminal.None? ==> forall k :: 0 <= k < index ==> Kind(events[k]) != "session.end"
    {
      if Kind(events[index]) == "session.end" {
        terminal := Some(index);
      }
    }
  }

  // ---------- attempts by signature ----------

  function Select(attempts: seq<Attempt>, keep: Attempt -> bool, signature: string, n: nat): seq<Attempt>
    requires n <= |attempts|
  {
    if n == 0 then []
    else
      var last := attempts[n - 1];
      Select(attempts, keep, signature, n - 1) + (if keep(last) && last.signature == signature then [last] else [])
  }

  method BySignature(attempts: seq<Attempt>, keep: Attempt -> bool) returns (groups: map<string, seq<Attempt>>)
    ensures forall signature :: signature in groups ==> groups[signature] == Select(attempts, keep, signature, |attempts|) != []
    ensures forall signature :: signature !in groups ==> Select(attempts, keep, signature, |attempts|) == []
  {
    groups := map[];
    for k := 0 to |attempts|
      invariant forall signature :: signature in groups ==> groups[signature] == Select(attempts, keep, signature, k) != []
      invariant forall signature :: signature !in groups ==> Select(attempts, keep, signature, k) == []
    {
      var attempt := attempts[k];
      SelectStep(attempts, keep, k);
      hide Select;
      if keep(attempt) {
        var before := if attempt.signature in groups then groups[attempt.signature] else [];
        groups := groups[attempt.signature := before + [attempt]];
      }
    }
  }

  lemma SelectStep(attempts: seq<Attempt>, keep: Attempt -> bool, n: nat)
    requires n < |attempts|
    ensures forall signature :: Select(attempts, keep, signature, n + 1) ==
              Select(attempts, keep, signature, n)
              + if keep(attempts[n]) && attempts[n].signature == signature then [attempts[n]] else []
  {
  }

  // ---------- unresolved verification at completion ----------

  predicate EndedVerification(a: Attempt, terminal: nat) {
    a.lastPos < terminal && a.trust.Paired() && IsVerificationClass(a.commandClass)
  }

  function Ended(terminal: nat): Attempt -> bool {
    a => EndedVerification(a, terminal)
  }

  /** Attempt k is the last decided one of its signature among the first n attempts that ended in time. */
  ghost predicate IsLastDecided(attempts: seq<Attempt>, terminal: nat, n: nat, k: nat) {
    && k < n <= |attempts| && EndedVerification(attempts[k], terminal) && attempts[k].outcome != Unknown
    && (forall l :: (k < l < n && EndedVerification(attempts[l], terminal)
                     && attempts[l].signature == attempts[k].signature) ==> attempts[l].outcome == Unknown)
  }

  ghost predicate IsUnresolved(attempts: seq<Attempt>, terminal: nat, n: nat, a: Attempt)
    requires n <= |attempts|
  {
    exists k: nat :: k < n && IsLastDecided(attempts, terminal, n, k) && attempts[k] == a && a.outcome == Failed
  }

  /** The scan of one series: a failure stands until a later success. */
  function Standing(series: seq<Attempt>): Option<Attempt> {
    if series == [] then None
    else
      var last := series[|series| - 1];
      match last.outcome
      case Failed => Some(last)
      case Succeeded => None
      case Unknown => Standing(series[..|series| - 1])
  }

  lemma LastDecidedStep(attempts: seq<Attempt>, terminal: nat, n: nat, k: nat)
    requires k < n < |attempts|
    ensures var last := attempts[n];
            var overrides := EndedVerification(last, terminal) && last.outcome != Unknown
                             && last.signature == attempts[k].signature;
            IsLastDecided(attempts, terminal, n + 1, k) <==> IsLastDecided(attempts, terminal, n, k) && !overrides
  {
  }

  function Override(standing: Option<Attempt>, last: Attempt): Option<Attempt> {
    match last.outcome
    case Failed => Some(last)
    case Succeeded => None
    case Unknown => standing
  }

  lemma StandingStep(attempts: seq<Attempt>, terminal: nat, signature: string, n: nat)
    requires 0 < n <= |attempts|
    ensures var last, before := attempts[n - 1], Standing(Select(attempts, Ended(terminal), signature, n - 1));
            Standing(Select(attempts, Ended(terminal), signature, n)) ==
              if EndedVerification(last, terminal) && last.signature == signature then Override(before, last) else before
  {
    var before, last := Select(attempts, Ended(terminal), signature, n - 1), attempts[n - 1];
    assert (before + [last])[..|before|] == before;
    assert before + [] == before;
  }

  lemma {:induction false} StandingIsLastDecided(attempts: seq<Attempt>, terminal: nat, n: nat, a: Attempt)
    requires n <= |attempts|
    ensures Standing(Select(attempts, Ended(terminal), a.signature, n)) == Some(a)
            <==> IsUnresolved(attempts, terminal, n, a)
  {
    if n > 0 {
      hide IsUnresolved, EndedVerification;
      StandingIsLastDecided(attempts, terminal, n - 1, a);
      StandingStep(attempts, terminal, a.signature, n);
      UnresolvedStep(attempts, terminal, n, a);
    }
  }

  /** What stands in a series has its signature. */
  lemma {:induction false} StandingSignature(attempts: seq<Attempt>, terminal: nat, signature: string, n: nat)
    requires n <= |attempts|
    ensures var standing := Standing(Select(attempts, Ended(terminal), signature, n));
            standing.Some? ==> standing.value.signature == signature
  {
    if n > 0 {
      hide EndedVerification;
      StandingSignature(attempts, terminal, signature, n - 1);
      StandingStep(attempts, terminal, signature, n);
    }
  }

  lemma LastIsDecided(attempts: seq<Attempt>, terminal: nat, n: nat)
    requires 0 < n <= |attempts|
    ensures IsLastDecided(attempts, terminal, n, n - 1) <==>
              EndedVerification(attempts[n - 1], terminal) && attempts[n - 1].outcome != Unknown
  {
  }

  lemma UnresolvedStep(attempts: seq<Attempt>, terminal: nat, n: nat, a: Attempt)
    requires 0 < n <= |attempts|
    ensures var last := attempts[n - 1];
            var decides := EndedVerification(last, terminal) && last.signature == a.signature && last.outcome != Unknown;
            IsUnresolved(attempts, terminal, n, a) <==>
              if decides then a == last && last.outcome == Failed else IsUnresolved(attempts, terminal, n - 1, a)
  {
    hide IsLastDecided, EndedVerification;
    LastIsDecided(attempts, terminal, n);
    if IsUnresolved(attempts, terminal, n, a) {
      var k: nat :| k < n && IsLastDecided(attempts, terminal, n, k) && attempts[k] == a && a.outcome == Failed;
      if k < n - 1 { LastDecidedStep(attempts, terminal, n - 1, k); }
    }
    if IsUnresolved(attempts, terminal, n - 1, a) {
      var k: nat :| k < n - 1 && IsLastDecided(attempts, terminal, n - 1, k) && attempts[k] == a && a.outcome == Failed;
      LastDecidedStep(attempts, terminal, n - 1, k);
    }
  }

  /** `scopeDimensions`. */
  function ScopeDimension(session: PreparedSession): Dimension {
    if session.projectScope != "" && session.scopeQuality != "unscoped" && session.scopeQuality != "conflict"
    then Dimension("project_scope_id", session.projectScope)
    else Dimension("session_id", session.sessionId)
  }

  function Dimensions(session: PreparedSession, values: seq<Dimension>): seq<Dimension> {
    Sort([ScopeDimension(session)] + values, DimensionBefore)
  }

  function UnresolvedFinding(session: PreparedSession, terminal: nat, a: Attempt): Finding
    requires terminal < |session.events|
  {
    var end := session.events[terminal];
    Finding("unresolved_verification_failure_at_completion", "high", "high", a.first, end.event.occurredAt,
            a.events + [end],
            Dimensions(session, [Dimension("command_class", a.commandClass), Dimension("command_signature_id", a.signature)]))
  }

  /** The unresolved attempts of the first n signatures. */
  function Reported(attempts: seq<Attempt>, terminal: nat, signatures: seq<string>, n: nat): seq<Attempt>
    requires n <= |signatures|
  {
    if n == 0 then []
    else
      var standing := Standing(Select(attempts, Ended(terminal), signatures[n - 1], |attempts|));
      Reported(attempts, terminal, signatures, n - 1) + (if standing.Some? then [standing.value] else [])
  }

  lemma {:induction false} ReportedSpec(attempts: seq<Attempt>, terminal: nat, signatures: seq<string>, n: nat)
    requires n <= |signatures| && StrictlySorted(signatures, Less)
    ensures forall a: Attempt :: a in Reported(attempts, terminal, signatures, n) <==>
              a.signature in signatures[..n] && IsUnresolved(attempts, terminal, |attempts|, a)
    ensures SignaturesIncrease(Reported(attempts, terminal, signatures, n))
  {
    hide IsUnresolved, Standing;
    if n > 0 {
      ReportedSpec(attempts, terminal, signatures, n - 1);
      var before := Reported(attempts, terminal, signatures, n - 1);
      StandingSignature(attempts, terminal, signatures[n - 1], |attempts|);
      forall a: Attempt | a.signature == signatures[n - 1]
        ensures Standing(Select(attempts, Ended(terminal), signatures[n - 1], |attempts|)) == Some(a)
                <==> IsUnresolved(attempts, terminal, |attempts|, a)
      {
        StandingIsLastDecided(attempts, terminal, |attempts|, a);
      }
      assert signatures[..n] == signatures[..n - 1] + [signatures[n - 1]];
      forall i | 0 <= i < |before|
        ensures Less(before[i].signature, signatures[n - 1])
      {
        assert before[i] in before;
      }
    }
  }

  ghost predicate SignaturesIncrease(reported: seq<Attempt>) {
    forall i, j :: 0 <= i < j < |reported| ==> Less(reported[i].signature, reported[j].signature)
  }

  function UnresolvedFindings(session: PreparedSession, terminal: nat, reported: seq<Attempt>): seq<Finding>
    requires terminal < |session.events|
  {
    MapSeq(a => UnresolvedFinding(session, terminal, a), reported)
  }

  /** `findings` reports exactly the unresolved attempts, in the order of their signatures. */
  ghost predicate IsReportOf(
    session: PreparedSession, attempts: seq<Attempt>, terminal: nat, findings: seq<Finding>, reported: seq<Attempt>)
    requires terminal < |session.events|
  {
    && findings == UnresolvedFindings(session, terminal, reported) && SignaturesIncrease(reported)
    && forall a: Attempt :: a in reported <==> IsUnresolved(attempts, terminal, |attempts|, a)
  }

  method ScanSeries(series: seq<Attempt>) returns (unresolved: Option<Attempt>)
    ensures unresolved == Standing(series)
  {
    unresolved := None;
    for k := 0 to |series|
      invariant unresolved == Standing(series[..k])
    {
      assert series[..k + 1][..k] == series[..k];
      match series[k].outcome {
        case Failed => unresolved := Some(series[k]);
        case Succeeded => unresolved := None;
        case Unknown =>
      }
    }
    assert series[..|series|] == series;
  }

  /**
   * A signature is reported exactly when its last decided verification attempt that ended before the
   * last `session.end` failed; there is one finding for each, in the order of the signatures.
   */
  method DetectUnresolvedVerification(session: PreparedSession)
    returns (findings: seq<Finding>)
    ensures (forall t: nat :: !IsLastEnd(session.events, t)) ==> findings == []
    ensures forall t: nat :: IsLastEnd(session.events, t) ==>
              exists reported :: IsReportOf(session, AttemptsOf(session.events), t, findings, reported)
  {
    findings := [];
    var attempts := CommandAttempts(session.events);
    var lastEnd := FindLastEnd(session.events);
    if lastEnd.None? {
      return;
    }
    var terminal := lastEnd.value;
    OneLastEnd(session.events, terminal);
    findings := ReportSeries(session, attempts, terminal);
  }

  lemma OneLastEnd(events: seq<PreparedEvent>, terminal: nat)
    requires IsLastEnd(events, terminal)
    ensures forall t: nat :: IsLastEnd(events, t) ==> t == terminal
  {
  }

  method ReportSeries(session: PreparedSession, attempts: seq<Attempt>, terminal: nat)
    returns (findings: seq<Finding>)
    requires terminal < |session.events|
    ensures exists reported :: IsReportOf(session, attempts, terminal, findings, reported)
  {
    var groups := BySignature(attempts, Ended(terminal));
    LessIsStrictTotal();
    var signatures := SortedElements(groups.Keys, Less);
    hide Select, Standing, IsUnresolved, UnresolvedFindings, Reported, SignaturesIncrease, Less;
    findings := ReportSignatures(session, attempts, terminal, groups, signatures);
    forall signature | Select(attempts, Ended(terminal), signature, |attempts|) != []
      ensures signature in signatures
    {
    }
    AllReported(attempts, terminal, signatures);
    assert IsReportOf(session, attempts, terminal, findings, Reported(attempts, terminal, signatures, |signatures|));
  }

  method ReportSignatures(
    session: PreparedSession, ghost attempts: seq<Attempt>, terminal: nat,
    groups: map<string, seq<Attempt>>, signatures: seq<string>)
    returns (findings: seq<Finding>)
    requires terminal < |session.events|
    requires forall signature :: signature in signatures ==>
               signature in groups && groups[signature] == Select(attempts, Ended(terminal), signature, |attempts|)
    ensures findings == UnresolvedFindings(session, terminal, Reported(attempts, terminal, signatures, |signatures|))
  {
    assert Reported(attempts, terminal, signatures, 0) == [];
    NoFindings(session, terminal);
    hide Select, Standing, UnresolvedFinding, UnresolvedFindings, Reported;
    findings := [];
    for index := 0 to |signatures|
      invariant findings == UnresolvedFindings(session, terminal, Reported(attempts, terminal, signatures, index))
    {
      assert signatures[index] in signatures;
      var unresolved := ScanSeries(groups[signatures[index]]);
      NextReported(attempts, terminal, signatures, index);
      if unresolved.None? {
        continue;
      }
      OneMoreFinding(session, terminal, Reported(attempts, terminal, signatures, index), unresolved.value);
      findings := findings + [UnresolvedFinding(session, terminal, unresolved.value)];
    }
  }

  /** A listing of the signatures that ended in time reports every unresolved attempt. */
  lemma AllReported(attempts: seq<Attempt>, terminal: nat, signatures: seq<string>)
    requires StrictlySorted(signatures, Less)
    requires forall signature :: Select(attempts, Ended(terminal), signature, |attempts|) != [] ==> signature in signatures
    ensures var reported := Reported(attempts, terminal, signatures, |signatures|);
            && SignaturesIncrease(reported)
            && forall a: Attempt :: a in reported <==> IsUnresolved(attempts, terminal, |attempts|, a)
  {
    hide Select, Standing, IsUnresolved, Reported, Less;
    ReportedSpec(attempts, terminal, signatures, |signatures|);
    assert signatures[..|signatures|] == signatures;
    forall a: Attempt | IsUnresolved(attempts, terminal, |attempts|, a)
      ensures a.signature in signatures
    {
      StandingIsLastDecided(attempts, terminal, |attempts|, a);
      NothingStands();
    }
  }

  lemma NoFindings(session: PreparedSession, terminal: nat)
    requires terminal < |session.events|
    ensures UnresolvedFindings(session, terminal, []) == []
  {
  }

  lemma OneMoreFinding(session: PreparedSession, terminal: nat, reported: seq<Attempt>, a: Attempt)
    requires terminal < |session.events|
    ensures UnresolvedFindings(session, terminal, reported + [a]) ==
            UnresolvedFindings(session, terminal, reported) + [UnresolvedFinding(session, terminal, a)]
  {
    hide UnresolvedFinding;
  }

  lemma NextReported(attempts: seq<Attempt>, terminal: nat, signatures: seq<string>, n: nat)
    requires n < |signatures|
    ensures var standing := Standing(Select(attempts, Ended(terminal), signatures[n], |attempts|));
            Reported(attempts, terminal, signatures, n + 1) ==
            Reported(attempts, terminal, signatures, n) + (if standing.Some? then [standing.value] else [])
  {
  }

  lemma NothingStands()
    ensures Standing([]) == None
  {
  }

  // ---------- changes left unverified ----------

  predicate IsMutation(item: PreparedEvent) {
    Kind(item) == "file.write" || Kind(item) == "file.delete"
  }

  predicate IsVerificationCommand(item: PreparedEvent) {
    (IsExec(item) || IsResult(item)) && IsVerificationClass(NormalizedCommandClass(item.enrichment.commandClass))
  }

  /** The last change before position t. */
  ghost predicate IsLastMutation(events: seq<PreparedEvent>, t: nat, m: nat) {
    && m < t <= |events| && IsMutation(events[m]) && forall k :: m < k < t ==> !IsMutation(events[k])
  }

  const HOOK_HARNESSES := {"codex", "claude-code", "cursor"}

  /**
   * Live evidence on which the absence of a verification means something: one known harness, hooks that
   * saw a change at tool-call depth and the end of the session at lifecycle depth, nothing historical.
   */
  ghost predicate LiveCompatible(events: seq<PreparedEvent>) {
    && (forall item :: item in events ==> !item.historical)
    && (exists harness :: harness in HOOK_HARNESSES && OneHarness(events, harness))
    && (exists item :: item in events && HookAt(item, "tool_call") && IsMutation(item))
    && (exists item :: item in events && HookAt(item, "lifecycle") && Kind(item) == "session.end")
  }

  ghost predicate OneHarness(events: seq<PreparedEvent>, harness: string) {
    && (exists item :: item in events && item.event.agent == harness)
    && (forall item :: item in events && item.event.agent != "" ==> item.event.agent == harness)
  }

  predicate HookAt(item: PreparedEvent, depth: string) {
    item.event.sourceKind == "hook" && item.event.depth == depth
  }

  method RetainedVerificationLiveCompatible(events: seq<PreparedEvent>) returns (compatible: bool)
    ensures compatible == LiveCompatible(events)
  {
    hide IsMutation, HookAt;
    var harness, mutationSeen, endSeen := "", false, false;
    for k := 0 to |events|
      invariant forall item :: item in events[..k] ==> !item.historical
      invariant forall item :: item in events[..k] && item.event.agent != "" ==> item.event.agent == harness
      invariant harness != "" ==> exists item :: item in events[..k] && item.event.agent == harness
      invariant mutationSeen <==> exists item :: item in events[..k] && HookAt(item, "tool_call") && IsMutation(item)
      invariant endSeen <==> exists item :: item in events[..k] && HookAt(item, "lifecycle") && Kind(item) == "session.end"
    {
      var item := events[k];
      assert item in events;
      assert events[..k + 1] == events[..k] + [item];
      if item.historical {
        return false;
      }
      if item.event.agent != "" {
        if harness == "" {
          harness := item.event.agent;
        } else if harness != item.event.agent {
          ghost var other :| other in events[..k] && other.event.agent == harness;
          assert other in events && item in events;
          return false;
        }
      }
      if HookAt(item, "tool_call") && IsMutation(item) {
        mutationSeen := true;
      }
      if HookAt(item, "lifecycle") && Kind(item) == "session.end" {
        endSeen := true;
      }
    }
    assert events[..|events|] == events;
    compatible := harness in HOOK_HARNESSES && mutationSeen && endSeen;
    assert harness != "" ==> OneHarness(events, harness);
  }

  /** Changes followed by the end of the session with no verification command in between. */
  ghost predicate IsGap(events: seq<PreparedEvent>, m: nat, t: nat) {
    && IsLastEnd(events, t) && IsLastMutation(events, t, m)
    && (forall k :: m < k < t ==> !IsVerificationCommand(events[k]))
  }

  /**
   * `detectRetainedVerificationGap`: reports the last change and the last end exactly when they enclose
   * no verification and the evidence is historical (low confidence) or live-compatible (medium).
   */
  method DetectRetainedVerificationGap(events: seq<PreparedEvent>)
    returns (gap: Option<(nat, nat)>, confidence: string)
    ensures gap.Some? <==> (exists m: nat, t: nat :: IsGap(events, m, t))
                           && ((exists item :: item in events && item.historical) || LiveCompatible(events))
    ensures gap.Some? ==> IsGap(events, gap.value.0, gap.value.1)
    ensures gap.Some? ==> (confidence == if exists item :: item in events && item.historical then "low" else "medium")
  {
    hide IsMutation, IsVerificationCommand, LiveCompatible;
    gap, confidence := None, "";
    var terminal := FindLastEnd(events);
    if terminal.None? {
      return;
    }
    var t := terminal.value;
    var finalMutation: Option<nat> := None;
    for index := 0 to t
      invariant finalMutation.Some? ==> IsLastMutation(events, index, finalMutation.value)
      invariant finalMutation.None? ==> forall k :: 0 <= k < index ==> !IsMutation(events[k])
    {
      if IsMutation(events[index]) {
        finalMutation := Some(index);
      }
    }
    if finalMutation.None? {
      return;
    }
    var m := finalMutation.value;
    for index := m + 1 to t
      invariant forall k :: m < k < index ==> !IsVerificationCommand(events[k])
    {
      if IsVerificationCommand(events[index]) {
        return;
      }
    }
    assert IsGap(events, m, t);
    if exists k :: 0 <= k < |events| && events[k].historical {
      return Some((m, t)), "low";
    }
    var compatible := RetainedVerificationLiveCompatible(events);
    if compatible {
      return Some((m, t)), "medium";
    }
  }

  // ---------- the reports, in the session's own terms ----------

  const VERIFICATION_CLASSES := ["test", "build", "typecheck", "lint", "format_check"]

  /** An execution with its result, of a verification command, that ended before the session did. */
  predicate Settles(a: Attempt, terminal: nat) {
    a.firstPos < a.lastPos < terminal && a.commandClass in VERIFICATION_CLASSES
  }

  lemma SettlesIff(events: seq<PreparedEvent>, a: Attempt, terminal: nat)
    requires a in AttemptsOf(events)
    ensures EndedVerification(a, terminal) <==> Settles(a, terminal)
  {
    AttemptShape(events, a);
    assert VERIFICATION_CLASSES[0] == "test" && VERIFICATION_CLASSES[1] == "build" && VERIFICATION_CLASSES[2] == "typecheck"
           && VERIFICATION_CLASSES[3] == "lint" && VERIFICATION_CLASSES[4] == "format_check";
  }

  /** Reported are the failures that no later settled attempt of the same command decides otherwise. */
  lemma UnresolvedMeans(events: seq<PreparedEvent>, terminal: nat, a: Attempt)
    ensures var attempts := AttemptsOf(events);
            IsUnresolved(attempts, terminal, |attempts|, a) <==>
              exists k :: 0 <= k < |attempts| && attempts[k] == a && a.outcome.Failed? && Settles(a, terminal)
                && forall l :: (k < l < |attempts| && attempts[l].signature == a.signature && Settles(attempts[l], terminal))
                     ==> attempts[l].outcome.Unknown?
  {
    var attempts := AttemptsOf(events);
    forall k | 0 <= k < |attempts|
      ensures EndedVerification(attempts[k], terminal) <==> Settles(attempts[k], terminal)
    {
      SettlesIff(events, attempts[k], terminal);
    }
    hide EndedVerification, Settles, AttemptsOf;
  }

  /** What is said of an unresolved failure: certain and severe, from the failure to the end, with both as evidence. */
  lemma UnresolvedFindingMeans(session: PreparedSession, terminal: nat, a: Attempt)
    requires IsLastEnd(session.events, terminal) && a in AttemptsOf(session.events) && Settles(a, terminal)
    ensures var f, es := UnresolvedFinding(session, terminal, a), session.events;
            && f.detector == "unresolved_verification_failure_at_completion" && f.severity == f.confidence == "high"
            && f.evidence == [es[a.firstPos], es[a.lastPos], es[terminal]] && a.firstPos < a.lastPos < terminal
            && f.first <= es[a.firstPos].event.occurredAt && f.first <= es[a.lastPos].event.occurredAt
            && f.first in {es[a.firstPos].event.occurredAt, es[a.lastPos].event.occurredAt}
            && f.last == es[terminal].event.occurredAt
            && multiset(f.dimensions) == multiset{
                 ScopeDimension(session), Dimension("command_class", a.commandClass),
                 Dimension("command_signature_id", es[a.firstPos].enrichment.signature)}
  {
    SettledFields(session.events, terminal, a);
    UnresolvedDimensions(session, a);
    hide Dimensions, ScopeDimension, AttemptsOf, Settles;
  }

  lemma UnresolvedDimensions(session: PreparedSession, a: Attempt)
    ensures var c, s := Dimension("command_class", a.commandClass), Dimension("command_signature_id", a.signature);
            multiset(Dimensions(session, [c, s])) == multiset{ScopeDimension(session), c, s}
  {
    var c, s := Dimension("command_class", a.commandClass), Dimension("command_signature_id", a.signature);
    DimensionsMean(session, [c, s]);
    hide Dimensions, ScopeDimension;
  }

  lemma SettledFields(events: seq<PreparedEvent>, terminal: nat, a: Attempt)
    requires a in AttemptsOf(events) && Settles(a, terminal)
    ensures a.lastPos < |events| && a.events == [events[a.firstPos], events[a.lastPos]]
    ensures a.first <= events[a.firstPos].event.occurredAt && a.first <= events[a.lastPos].event.occurredAt
    ensures a.first in {events[a.firstPos].event.occurredAt, events[a.lastPos].event.occurredAt}
    ensures a.signature == events[a.firstPos].enrichment.signature
  {
    AttemptShape(events, a);
    AttemptFields(events, a);
    hide AttemptsOf, IsPair;
    assert a.events == [events[a.firstPos], events[a.lastPos]];
    assert a.events[0] in a.events && a.events[1] in a.events;
  }

  /** The scope and the given values, ordered by name and then by value. */
  lemma DimensionsMean(session: PreparedSession, values: seq<Dimension>)
    ensures multiset(Dimensions(session, values)) == multiset{ScopeDimension(session)} + multiset(values)
    ensures forall i, j :: 0 <= i < j < |Dimensions(session, values)| ==>
              var x, y := Dimensions(session, values)[i], Dimensions(session, values)[j];
              !Less(y.name, x.name) && (x.name == y.name ==> !Less(y.value, x.value))
    ensures ScopeDimension(session).name == "project_scope_id" <==>
              session.projectScope != "" && session.scopeQuality !in {"unscoped", "conflict"}
    ensures ScopeDimension(session) in
              {Dimension("project_scope_id", session.projectScope), Dimension("session_id", session.sessionId)}
  {
    var all := [ScopeDimension(session)] + values;
    SortMultiset(all, DimensionBefore);
    DimensionBeforeIsStrictWeak();
    SortSorted(all, DimensionBefore);
    var sorted := Dimensions(session, values);
    hide ScopeDimension, Sort;
    forall i, j | 0 <= i < j < |sorted|
      ensures !Less(sorted[j].name, sorted[i].name)
      ensures sorted[i].name == sorted[j].name ==> !Less(sorted[j].value, sorted[i].value)
    {
      LessTotal(sorted[i].name, sorted[j].name);
    }
  }

  predicate NamesChange(item: PreparedEvent) {
    item.event.observation.kind in {"file.write", "file.delete"}
  }

  predicate NamesVerification(item: PreparedEvent) {
    && item.event.observation.kind in {"command.exec", "command.result"}
    && ToLower(TrimSpace(item.enrichment.commandClass)) in VERIFICATION_CLASSES
  }

  lemma KindsMean(item: PreparedEvent)
    ensures IsMutation(item) == NamesChange(item) && IsVerificationCommand(item) == NamesVerification(item)
  {
    assert VERIFICATION_CLASSES[0] == "test" && VERIFICATION_CLASSES[1] == "build" && VERIFICATION_CLASSES[2] == "typecheck"
           && VERIFICATION_CLASSES[3] == "lint" && VERIFICATION_CLASSES[4] == "format_check";
    ClassMeans(item.enrichment.commandClass);
  }

  /** A gap: the last file change before the last end of the session, with no verification command after it. */
  lemma GapMeans(events: seq<PreparedEvent>, m: nat, t: nat)
    ensures IsGap(events, m, t) <==>
              && m < t < |events| && NamesChange(events[m]) && events[t].event.observation.kind == "session.end"
              && (forall k :: t < k < |events| ==> events[k].event.observation.kind != "session.end")
              && (forall k :: m < k < t ==> !NamesChange(events[k]) && !NamesVerification(events[k]))
  {
    forall item
      ensures IsMutation(item) == NamesChange(item) && IsVerificationCommand(item) == NamesVerification(item)
    {
      KindsMean(item);
    }
    hide IsMutation, IsVerificationCommand, NamesChange, NamesVerification;
  }

  /** Live evidence: nothing historical, one of three harnesses, and its hooks saw a change and the end. */
  lemma LiveCompatibleMeans(events: seq<PreparedEvent>)
    ensures LiveCompatible(events) <==>
              && (forall k :: 0 <= k < |events| ==> !events[k].historical)
              && (exists k :: 0 <= k < |events| && events[k].event.agent in {"codex", "claude-code", "cursor"}
                    && forall l :: 0 <= l < |events| ==> events[l].event.agent in {"", events[k].event.agent})
              && (exists k :: 0 <= k < |events| && events[k].event.sourceKind == "hook"
                    && events[k].event.depth == "tool_call" && NamesChange(events[k]))
              && (exists k :: 0 <= k < |events| && events[k].event.sourceKind == "hook"
                    && events[k].event.depth == "lifecycle" && events[k].event.observation.kind == "session.end")
  {
    forall item
      ensures IsMutation(item) == NamesChange(item)
    {
      KindsMean(item);
    }
    OneHarnessMeans(events);
    hide IsMutation, NamesChange, OneHarness;
    assert forall k :: 0 <= k < |events| ==> events[k] in events;
  }

  lemma OneHarnessMeans(events: seq<PreparedEvent>)
    ensures (exists harness :: harness in HOOK_HARNESSES && OneHarness(events, harness)) <==>
            exists k :: 0 <= k < |events| && events[k].event.agent in {"codex", "claude-code", "cursor"}
                    && forall l :: 0 <= l < |events| ==> events[l].event.agent in {"", events[k].event.agent}
  {
    if harness :| harness in HOOK_HARNESSES && OneHarness(events, harness) {
      var item :| item in events && item.event.agent == harness;
      var k :| 0 <= k < |events| && events[k] == item;
      assert harness in {"codex", "claude-code", "cursor"};
    }
    if k :| 0 <= k < |events| && events[k].event.agent in {"codex", "claude-code", "cursor"}
            && (forall l :: 0 <= l < |events| ==> events[l].event.agent in {"", events[k].event.agent}) {
      assert OneHarness(events, events[k].event.agent);
    }
  }
}
