/** The detector of explicitly failed commands (`detectExplicitCommandFailures` in `internal/detection/detectors.go`). */
module CommandFailures {
  import opened Ordering
  import opened Events
  import opened Attempts
  import opened Fingerprints
  import opened Prepare
  import opened Detectors

  const REPEATED_FAILURES := 3

  function HasFailed(): Attempt -> bool {
    (a: Attempt) => a.outcome == Outcome.Failed
  }

  ghost function RepeatedIn(series: seq<Attempt>): set<nat> {
    set k: nat | k < |series| && series[k].repetitionEligible
  }

  function EventsOf(series: seq<Attempt>): seq<PreparedEvent> {
    if series == [] then [] else EventsOf(series[..|series| - 1]) + series[|series| - 1].events
  }

  ghost predicate IsSpan(series: seq<Attempt>, first: int, last: int) {
    && (exists a :: a in series && a.first == first) && (exists a :: a in series && a.last == last)
    && (forall a :: a in series ==> first <= a.first && a.last <= last)
  }

  /** What is reported of the failed attempts of one signature. */
  ghost predicate IsFailureFinding(session: PreparedSession, signature: string, series: seq<Attempt>, finding: Finding) {
    && finding.detector == "explicit_command_failure"
    && finding.severity == (if |RepeatedIn(series)| >= REPEATED_FAILURES then "medium" else "low")
    && finding.confidence == (if HasLoneResult(series) then "low" else "high")
    && IsSpan(series, finding.first, finding.last)
    && finding.evidence == EventsOf(series)
    && finding.dimensions == Dimensions(session, [Dimension("command_signature_id", signature)])
  }

  ghost predicate HasFailure(attempts: seq<Attempt>, signature: string) {
    exists a :: a in attempts && a.outcome.Failed? && a.signature == signature
  }

  /** The failed attempts of a signature, in order. */
  function FailedSeries(attempts: seq<Attempt>, signature: string): seq<Attempt> {
    Select(attempts, HasFailed(), signature, |attempts|)
  }

  /** One finding, made of the whole failed series, for each signature with a failure. */
  ghost predicate IsFailureReport(
    session: PreparedSession, attempts: seq<Attempt>, signatures: seq<string>, findings: seq<Finding>)
  {
    && StrictlySorted(signatures, Less) && |findings| == |signatures|
    && (forall s :: s in signatures <==> HasFailure(attempts, s))
    && forall k :: 0 <= k < |findings| ==>
         IsFailureFinding(session, signatures[k], FailedSeries(attempts, signatures[k]), findings[k])
  }

  lemma {:induction false} SelectMembers(attempts: seq<Attempt>, signature: string, n: nat)
    requires n <= |attempts|
    ensures forall a :: a in Select(attempts, HasFailed(), signature, n) <==>
              a in attempts[..n] && a.outcome.Failed? && a.signature == signature
  {
    if n > 0 {
      SelectMembers(attempts, signature, n - 1);
      assert attempts[..n] == attempts[..n - 1] + [attempts[n - 1]];
    }
  }

  lemma FailureMeansSeries(attempts: seq<Attempt>, signature: string)
    ensures HasFailure(attempts, signature) <==> FailedSeries(attempts, signature) != []
  {
    SelectMembers(attempts, signature, |attempts|);
    assert attempts[..|attempts|] == attempts;
    var series := FailedSeries(attempts, signature);
    if series != [] {
      assert series[0] in series;
    }
  }

  lemma OneMoreRepeated(series: seq<Attempt>, k: nat)
    requires k < |series|
    ensures RepeatedIn(series[..k + 1]) == RepeatedIn(series[..k]) + if series[k].repetitionEligible then {k} else {}
    ensures k !in RepeatedIn(series[..k])
  {
  }

  method AttemptBounds(series: seq<Attempt>) returns (first: int, last: int)
    requires series != []
    ensures IsSpan(series, first, last)
  {
    first, last := series[0].first, series[0].last;
    assert series[0] in series;
    for k := 1 to |series|
      invariant exists a :: a in series && a.first == first
      invariant exists a :: a in series && a.last == last
      invariant forall i :: 0 <= i < k ==> first <= series[i].first && series[i].last <= last
    {
      assert series[k] in series;
      if series[k].first < first {
        first := series[k].first;
      }
      if series[k].last > last {
        last := series[k].last;
      }
    }
  }

  ghost predicate HasLoneResult(series: seq<Attempt>) {
    exists a :: a in series && a.trust.UnpairedResult?
  }

  lemma OneMoreFailure(series: seq<Attempt>, k: nat)
    requires k < |series|
    ensures EventsOf(series[..k + 1]) == EventsOf(series[..k]) + series[k].events
    ensures HasLoneResult(series[..k + 1]) <==> HasLoneResult(series[..k]) || series[k].trust.UnpairedResult?
    ensures |RepeatedIn(series[..k + 1])| == |RepeatedIn(series[..k])| + if series[k].repetitionEligible then 1 else 0
  {
    OneMoreRepeated(series, k);
    assert series[..k + 1][..k] == series[..k];
    assert series[..k + 1] == series[..k] + [series[k]];
  }

  method ReportFailures(session: PreparedSession, signature: string, failed: seq<Attempt>) returns (finding: Finding)
    requires failed != []
    ensures IsFailureFinding(session, signature, failed, finding)
  {
    var failedCount, evidence, confidence := 0, [], "high";
    for k := 0 to |failed|
      invariant failedCount == |RepeatedIn(failed[..k])| && evidence == EventsOf(failed[..k])
      invariant confidence == if HasLoneResult(failed[..k]) then "low" else "high"
    {
      OneMoreFailure(failed, k);
      hide RepeatedIn, EventsOf, HasLoneResult;
      evidence := evidence + failed[k].events;
      if failed[k].repetitionEligible {
        failedCount := failedCount + 1;
      }
      if failed[k].trust == UnpairedResult {
        confidence := "low";
      }
    }
    assert failed[..|failed|] == failed;
    hide RepeatedIn, EventsOf, HasLoneResult, IsSpan, Dimensions;
    if failedCount == 0 {
      failedCount := 1;
    }
    var first, last := AttemptBounds(failed);
    var severity := if failedCount >= 3 then "medium" else "low";
    finding := Finding(
      "explicit_command_failure", severity, confidence, first, last, evidence,
      Dimensions(session, [Dimension("command_signature_id", signature)]));
  }

  /** One finding for each signature some attempt of which failed, in the order of the signatures. */
  method DetectExplicitCommandFailures(session: PreparedSession)
    returns (findings: seq<Finding>)
    ensures exists signatures :: IsFailureReport(session, AttemptsOf(session.events), signatures, findings)
  {
    var attempts := CommandAttempts(session.events);
    var groups := BySignature(attempts, HasFailed());
    LessIsStrictTotal();
    var keys := SortedElements(groups.Keys, Less);
    hide IsFailureFinding, Select, Less, HasFailure;
    forall s
      ensures s in keys <==> HasFailure(attempts, s)
    {
      FailureMeansSeries(attempts, s);
    }
    findings := ReportSignatures(session, attempts, groups, keys);
    assert IsFailureReport(session, attempts, keys, findings);
  }

  method ReportSignatures(
    session: PreparedSession, ghost attempts: seq<Attempt>, groups: map<string, seq<Attempt>>, keys: seq<string>)
    returns (findings: seq<Finding>)
    requires forall key :: key in keys ==> key in groups && groups[key] == FailedSeries(attempts, key) != []
    ensures |findings| == |keys|
    ensures forall k :: 0 <= k < |findings| ==> IsFailureFinding(session, keys[k], FailedSeries(attempts, keys[k]), findings[k])
  {
    hide IsFailureFinding, FailedSeries;
    findings := [];
    for k := 0 to |keys|
      invariant |findings| == k
      invariant forall i :: 0 <= i < k ==> IsFailureFinding(session, keys[i], FailedSeries(attempts, keys[i]), findings[i])
    {
      assert keys[k] in keys;
      var finding := ReportFailures(session, keys[k], groups[keys[k]]);
      findings := findings + [finding];
    }
  }
}
