/** Merging the results of all detectors, all or nothing (`internal/detection/catalog.go`). */
module Catalog {
  import opened Common
  import opened Ordering
  import opened Fingerprints

  const MAX_MATCHES := 100

  /** Nanoseconds of Go's zero time. */
  const ZERO_TIME := -62_135_596_800_000_000_000

  datatype Match = Match(
    detectorId: string, detectorVersion: string, fingerprintVersion: string, category: string, titleCode: string,
    severity: string, confidence: string, firstObservedAt: int, lastObservedAt: int,
    citedEventIds: seq<string>, evidenceComplete: bool, fingerprint: seq<Dimension>)

  datatype Detector = Detector(id: string, version: string, fingerprintVersion: string)

  /** What `runDetector` hands back for one detector. */
  datatype Evaluation =
    | Failed(code: string)
    | Evaluated(matches: seq<Match>, absence: string, reason: string)

  datatype SlotRun = SlotRun(detector: Detector, evaluation: Evaluation)

  datatype Status = Current | CatalogFailed | Truncated

  datatype Failure = Failure(detectorId: string, code: string)

  datatype Applicability = Applicability(detector: Detector, absence: string, reason: string)

  datatype CatalogResult = CatalogResult(
    status: Status, matches: seq<Match>, failures: seq<Failure>, applicability: seq<Applicability>)

  // ---------- one match ----------

  predicate ValidMatch(detector: Detector, m: Match) {
    && m.detectorId == detector.id && m.detectorVersion == detector.version
    && m.fingerprintVersion == detector.fingerprintVersion
    && m.category != "" && m.titleCode != "" && m.severity != "" && m.confidence != ""
    && m.firstObservedAt != ZERO_TIME && m.lastObservedAt >= m.firstObservedAt
    && ValidFingerprint(m.fingerprint)
  }

  /** The bounds and order `validateMatch` imposes on a valid match. */
  function Normalize(m: Match): Match {
    var over := |m.citedEventIds| > MAX_CITATIONS;
    var cited := if over then m.citedEventIds[..MAX_CITATIONS] else m.citedEventIds;
    m.(citedEventIds := SortDistinct(cited, Less),
       evidenceComplete := m.evidenceComplete && !over,
       fingerprint := Sort(m.fingerprint, DimensionBefore))
  }

  /**
   * A validated match cites its first 50 IDs without repetition and in order, stays complete only if it cited
   * no more, has its dimensions ordered by name and value, and is otherwise unchanged.
   */
  lemma NormalizedMatch(m: Match)
    ensures var r := Normalize(m);
            && StrictlySorted(r.citedEventIds, Less)
            && (forall id :: id in r.citedEventIds <==>
                  exists k :: 0 <= k < |m.citedEventIds| && k < 50 && m.citedEventIds[k] == id)
            && (r.evidenceComplete <==> m.evidenceComplete && |m.citedEventIds| <= 50)
            && multiset(r.fingerprint) == multiset(m.fingerprint)
            && (forall i, j :: 0 <= i < j < |r.fingerprint| ==>
                  var x, y := r.fingerprint[i], r.fingerprint[j];
                  !Less(y.name, x.name) && (x.name == y.name ==> !Less(y.value, x.value)))
            && m == r.(citedEventIds := m.citedEventIds, evidenceComplete := m.evidenceComplete, fingerprint := m.fingerprint)
  {
    LessIsStrictTotal();
    var cited := if |m.citedEventIds| > MAX_CITATIONS then m.citedEventIds[..MAX_CITATIONS] else m.citedEventIds;
    SortDistinctSpec(cited, Less);
    SortMultiset(m.fingerprint, DimensionBefore);
    DimensionBeforeIsStrictWeak();
    SortSorted(m.fingerprint, DimensionBefore);
    var sorted := Sort(m.fingerprint, DimensionBefore);
    hide Sort, SortDistinct;
    forall i, j | 0 <= i < j < |sorted|
      ensures !Less(sorted[j].name, sorted[i].name)
      ensures sorted[i].name == sorted[j].name ==> !Less(sorted[j].value, sorted[i].value)
    {
      LessTotal(sorted[i].name, sorted[j].name);
    }
  }

  // ---------- duplicates and order ----------

  function KeyOf(m: Match): string {
    MatchKey(m.detectorId, m.fingerprint)
  }

  ghost predicate DistinctKeys(matches: seq<Match>) {
    forall i, j :: 0 <= i < j < |matches| ==> KeyOf(matches[i]) != KeyOf(matches[j])
  }

  method DuplicateMatch(matches: seq<Match>) returns (duplicate: bool)
    ensures duplicate == !DistinctKeys(matches)
  {
    var seen: set<string> := {};
    for k := 0 to |matches|
      invariant forall key :: key in seen <==> exists i :: 0 <= i < k && KeyOf(matches[i]) == key
      invariant DistinctKeys(matches[..k])
    {
      var key := KeyOf(matches[k]);
      if key in seen {
        var i :| 0 <= i < k && KeyOf(matches[i]) == key;
        assert !DistinctKeys(matches);
        return true;
      }
      seen := seen + {key};
    }
    assert matches[..|matches|] == matches;
    return false;
  }

  /** When no detector ID imitates another, `duplicateMatch` is false iff all (detector, fingerprint) pairs differ. */
  lemma DistinctKeysMeansDistinctPairs(matches: seq<Match>)
    requires forall m :: m in matches ==> ValidFingerprint(m.fingerprint)
    requires forall m, n :: m in matches && n in matches ==> !Imitates(m.detectorId, n.detectorId)
    ensures DistinctKeys(matches) <==>
            forall i, j :: 0 <= i < j < |matches| ==>
              matches[i].detectorId != matches[j].detectorId || matches[i].fingerprint != matches[j].fingerprint
  {
    forall i, j | 0 <= i < j < |matches|
      ensures KeyOf(matches[i]) == KeyOf(matches[j]) <==>
              matches[i].detectorId == matches[j].detectorId && matches[i].fingerprint == matches[j].fingerprint
    {
      assert matches[i] in matches && matches[j] in matches;
      MatchKeyInjective(matches[i].detectorId, matches[i].fingerprint, matches[j].detectorId, matches[j].fingerprint);
    }
  }

  /** In particular when none contains a NUL. */
  lemma NoNulNoImitation(matches: seq<Match>)
    requires forall m :: m in matches ==> NUL !in m.detectorId
    ensures forall m, n :: m in matches && n in matches ==> !Imitates(m.detectorId, n.detectorId)
  {
    forall m, n | m in matches && n in matches
      ensures !Imitates(m.detectorId, n.detectorId)
    {
      if Imitates(m.detectorId, n.detectorId) {
        ImitatorHasNul(m.detectorId, n.detectorId);
      }
    }
  }

  predicate MatchBefore(a: Match, b: Match) {
    var left, right := DimensionKey(a.fingerprint), DimensionKey(b.fingerprint);
    if a.detectorId != b.detectorId then Less(a.detectorId, b.detectorId)
    else if left != right then Less(left, right)
    else if a.firstObservedAt != b.firstObservedAt then a.firstObservedAt < b.firstObservedAt
    else a.lastObservedAt < b.lastObservedAt
  }

  lemma MatchBeforeIsStrictWeak()
    ensures StrictWeak(MatchBefore)
  {
    LessIsStrictTotal();
  }

  lemma DistinctKeysAreOrdered(matches: seq<Match>, a: Match, b: Match)
    requires DistinctKeys(matches) && a in matches && b in matches && a != b
    ensures MatchBefore(a, b) || MatchBefore(b, a)
  {
    var i :| 0 <= i < |matches| && matches[i] == a;
    var j :| 0 <= j < |matches| && matches[j] == b;
    assert KeyOf(a) != KeyOf(b);
    LessTotal(a.detectorId, b.detectorId);
    LessTotal(DimensionKey(a.fingerprint), DimensionKey(b.fingerprint));
  }

  /** Any two sorted arrangements of matches with distinct keys are the same list. */
  lemma SortMatchesHasOneResult(matches: seq<Match>, r: seq<Match>)
    requires DistinctKeys(matches)
    requires multiset(r) == multiset(matches) && Sorted(r, MatchBefore)
    ensures r == Sort(matches, MatchBefore)
  {
    MatchBeforeIsStrictWeak();
    SortSorted(matches, MatchBefore);
    SortMultiset(matches, MatchBefore);
    forall x, y | x in r && y in r && x != y
      ensures MatchBefore(x, y) || MatchBefore(y, x)
    {
      assert x in multiset(matches) && y in multiset(matches);
      DistinctKeysAreOrdered(matches, x, y);
    }
    SortedUnique(r, Sort(matches, MatchBefore), MatchBefore);
  }

  // ---------- a whole run ----------

  /** The matches of one detector that are accepted: up to the first invalid one. */
  function AcceptedPrefix(detector: Detector, matches: seq<Match>, n: nat): seq<Match>
    requires n <= |matches|
  {
    if n == 0 then []
    else
      var before := AcceptedPrefix(detector, matches, n - 1);
      if |before| == n - 1 && ValidMatch(detector, matches[n - 1]) then before + [Normalize(matches[n - 1])] else before
  }

  function Accepted(run: SlotRun): seq<Match> {
    match run.evaluation
    case Failed(_) => []
    case Evaluated(matches, _, _) => AcceptedPrefix(run.detector, matches, |matches|)
  }

  predicate Succeeded(run: SlotRun) {
    run.evaluation.Evaluated? && |Accepted(run)| == |run.evaluation.matches|
  }

  function AcceptedAll(runs: seq<SlotRun>, n: nat): seq<Match>
    requires n <= |runs|
  {
    if n == 0 then [] else AcceptedAll(runs, n - 1) + Accepted(runs[n - 1])
  }

  ghost predicate AllSucceeded(runs: seq<SlotRun>, n: nat)
    requires n <= |runs|
  {
    forall k :: 0 <= k < n ==> Succeeded(runs[k])
  }

  /** Nothing is published unless every detector succeeded, within the limit and without duplicates. */
  ghost function StatusOf(runs: seq<SlotRun>): Status {
    var accepted := AcceptedAll(runs, |runs|);
    if |accepted| > MAX_MATCHES then Truncated
    else if !AllSucceeded(runs, |runs|) || !DistinctKeys(accepted) then CatalogFailed
    else Current
  }

  ghost function Published(runs: seq<SlotRun>): seq<Match> {
    if StatusOf(runs).Current? then Sort(AcceptedAll(runs, |runs|), MatchBefore) else []
  }

  lemma {:induction false} AcceptedPrefixStops(detector: Detector, matches: seq<Match>, k: nat, n: nat)
    requires k < n <= |matches| && |AcceptedPrefix(detector, matches, k)| == k && !ValidMatch(detector, matches[k])
    ensures AcceptedPrefix(detector, matches, n) == AcceptedPrefix(detector, matches, k)
    decreases n
  {
    if k < n - 1 {
      AcceptedPrefixStops(detector, matches, k, n - 1);
    }
  }

  lemma {:induction false} AcceptedPrefixGrows(detector: Detector, matches: seq<Match>, k: nat, n: nat)
    requires k <= n <= |matches|
    ensures |AcceptedPrefix(detector, matches, k)| <= |AcceptedPrefix(detector, matches, n)| <= n
    decreases n
  {
    if k < n {
      AcceptedPrefixGrows(detector, matches, k, n - 1);
    } else if n > 0 {
      AcceptedPrefixGrows(detector, matches, n - 1, n - 1);
    }
  }

  lemma {:induction false} AcceptedAllGrows(runs: seq<SlotRun>, k: nat, n: nat)
    requires k <= n <= |runs|
    ensures |AcceptedAll(runs, k)| <= |AcceptedAll(runs, n)|
    decreases n
  {
    if k < n {
      AcceptedAllGrows(runs, k, n - 1);
    }
  }

  /** Adds the matches of one detector; `failed` on an invalid one, `over` when the limit is passed. */
  method AcceptMatches(detector: Detector, matches: seq<Match>, published0: seq<Match>)
    returns (published: seq<Match>, failed: bool, over: bool)
    requires |published0| <= MAX_MATCHES
    ensures over <==> |published0 + AcceptedPrefix(detector, matches, |matches|)| > MAX_MATCHES
    ensures !over ==> published == published0 + AcceptedPrefix(detector, matches, |matches|)
    ensures !over ==> (failed <==> |AcceptedPrefix(detector, matches, |matches|)| < |matches|)
  {
    published, failed, over := published0, false, false;
    for k := 0 to |matches|
      invariant |AcceptedPrefix(detector, matches, k)| == k
      invariant published == published0 + AcceptedPrefix(detector, matches, k)
      invariant |published| <= MAX_MATCHES
    {
      if !ValidMatch(detector, matches[k]) {
        AcceptedPrefixStops(detector, matches, k, |matches|);
        failed := true;
        return;
      }
      published := published + [Normalize(matches[k])];
      if |published| > MAX_MATCHES {
        AcceptedPrefixGrows(detector, matches, k + 1, |matches|);
        over := true;
        return;
      }
    }
  }

  lemma AcceptedOf(run: SlotRun)
    ensures run.evaluation.Failed? ==> Accepted(run) == [] && !Succeeded(run)
    ensures run.evaluation.Evaluated? ==>
              var matches := run.evaluation.matches;
              && Accepted(run) == AcceptedPrefix(run.detector, matches, |matches|)
              && |Accepted(run)| <= |matches|
              && (Succeeded(run) <==> !(|Accepted(run)| < |matches|))
  {
    if run.evaluation.Evaluated? {
      AcceptedPrefixGrows(run.detector, run.evaluation.matches, |run.evaluation.matches|, |run.evaluation.matches|);
    }
  }

  lemma OneMoreRun(runs: seq<SlotRun>, k: nat)
    requires k < |runs|
    ensures AcceptedAll(runs, k + 1) == AcceptedAll(runs, k) + Accepted(runs[k])
    ensures AllSucceeded(runs, k + 1) <==> AllSucceeded(runs, k) && Succeeded(runs[k])
  {
    hide Accepted, Succeeded;
  }

  /** Accepted matches are their detectors' own, with valid fingerprints. */
  lemma {:induction false} AcceptedAreValid(runs: seq<SlotRun>, n: nat)
    requires n <= |runs|
    ensures forall m :: m in AcceptedAll(runs, n) ==>
              ValidFingerprint(m.fingerprint) && exists k :: 0 <= k < n && m.detectorId == runs[k].detector.id
  {
    if n > 0 {
      AcceptedAreValid(runs, n - 1);
      hide Accepted, ValidFingerprint;
      AcceptedOfOne(runs[n - 1]);
    }
  }

  lemma AcceptedOfOne(run: SlotRun)
    ensures forall m :: m in Accepted(run) ==> ValidFingerprint(m.fingerprint) && m.detectorId == run.detector.id
  {
    if run.evaluation.Evaluated? {
      AcceptedPrefixIsValid(run.detector, run.evaluation.matches, |run.evaluation.matches|);
    }
  }

  lemma {:induction false} AcceptedPrefixIsValid(detector: Detector, matches: seq<Match>, n: nat)
    requires n <= |matches|
    ensures forall m :: m in AcceptedPrefix(detector, matches, n) ==>
              ValidFingerprint(m.fingerprint) && m.detectorId == detector.id
  {
    if n > 0 {
      AcceptedPrefixIsValid(detector, matches, n - 1);
      if ValidMatch(detector, matches[n - 1]) {
        SortedFingerprintIsValid(matches[n - 1].fingerprint);
      }
    }
  }

  lemma SortedFingerprintIsValid(x: seq<Dimension>)
    requires ValidFingerprint(x)
    ensures ValidFingerprint(Sort(x, DimensionBefore))
  {
    SortMultiset(x, DimensionBefore);
    SortElements(x, DimensionBefore);
    var sorted := Sort(x, DimensionBefore);
    forall k | 0 <= k < |sorted|
      ensures sorted[k].name != "" && sorted[k].value != ""
    {
      assert sorted[k] in sorted;
    }
  }

  /**
   * A run of detectors of which none imitates another, all succeeding within the limit, is published
   * exactly when all accepted (detector, fingerprint) pairs differ.
   */
  lemma PublishedIffPairsDiffer(runs: seq<SlotRun>)
    requires AllSucceeded(runs, |runs|) && |AcceptedAll(runs, |runs|)| <= MAX_MATCHES
    requires forall a, b :: a in runs && b in runs ==> !Imitates(a.detector.id, b.detector.id)
    ensures var all := AcceptedAll(runs, |runs|);
            StatusOf(runs).Current? <==>
              forall i, j :: 0 <= i < j < |all| ==>
                all[i].detectorId != all[j].detectorId || all[i].fingerprint != all[j].fingerprint
  {
    var all := AcceptedAll(runs, |runs|);
    AcceptedAreValid(runs, |runs|);
    hide AcceptedAll, ValidFingerprint, Imitates;
    forall m, n | m in all && n in all
      ensures !Imitates(m.detectorId, n.detectorId)
    {
      var k :| 0 <= k < |runs| && m.detectorId == runs[k].detector.id;
      var l :| 0 <= l < |runs| && n.detectorId == runs[l].detector.id;
      assert runs[k] in runs && runs[l] in runs;
    }
    DistinctKeysMeansDistinctPairs(all);
  }

  // ---------- what is reported besides the matches ----------

  /** A detector that gave no answer leaves absence open, for the reason it gave none. */
  ghost function ApplicabilityOf(run: SlotRun): Applicability {
    match run.evaluation
    case Failed(code) => Applicability(run.detector, "incomplete", code)
    case Evaluated(_, absence, reason) => Applicability(run.detector, absence, reason)
  }

  ghost function ApplicabilityAll(runs: seq<SlotRun>, n: nat): seq<Applicability>
    requires n <= |runs|
  {
    if n == 0 then [] else ApplicabilityAll(runs, n - 1) + [ApplicabilityOf(runs[n - 1])]
  }

  ghost function FailuresOf(run: SlotRun): seq<Failure> {
    if run.evaluation.Failed? then [Failure(run.detector.id, run.evaluation.code)]
    else if Succeeded(run) then []
    else [Failure(run.detector.id, "detector_invalid_output")]
  }

  ghost function FailuresAll(runs: seq<SlotRun>, n: nat): seq<Failure>
    requires n <= |runs|
  {
    if n == 0 then [] else FailuresAll(runs, n - 1) + FailuresOf(runs[n - 1])
  }

  lemma {:induction false} NoFailureMeansSuccess(runs: seq<SlotRun>, n: nat)
    requires n <= |runs|
    ensures FailuresAll(runs, n) == [] <==> AllSucceeded(runs, n)
  {
    hide Succeeded, FailuresOf;
    if n > 0 {
      NoFailureMeansSuccess(runs, n - 1);
      NoFailureIff(runs[n - 1]);
    }
  }

  lemma NoFailureIff(run: SlotRun)
    ensures FailuresOf(run) == [] <==> Succeeded(run)
  {
    hide Accepted;
  }

  /** The same detectors, with absence left open because the catalog was truncated. */
  ghost predicate WithdrawnFrom(withdrawn: seq<Applicability>, applicability: seq<Applicability>) {
    && |withdrawn| == |applicability|
    && forall k :: 0 <= k < |withdrawn| ==>
         withdrawn[k] == Applicability(applicability[k].detector, "incomplete", "catalog_truncated")
  }

  method Withdraw(applicability: seq<Applicability>) returns (withdrawn: seq<Applicability>)
    ensures WithdrawnFrom(withdrawn, applicability)
  {
    withdrawn := applicability;
    for index := 0 to |applicability|
      invariant |withdrawn| == |applicability|
      invariant forall k :: 0 <= k < |withdrawn| ==>
                  withdrawn[k] == if k < index then Applicability(applicability[k].detector, "incomplete", "catalog_truncated")
                                  else applicability[k]
    {
      withdrawn := withdrawn[index := withdrawn[index].(absence := "incomplete", reason := "catalog_truncated")];
    }
  }

  /** What one detector's run adds to the result; `over` when the match limit is passed. */
  method MergeRun(run: SlotRun, before: CatalogResult) returns (result: CatalogResult, over: bool)
    requires before.status == Current && |before.matches| <= MAX_MATCHES
    ensures over <==> |before.matches + Accepted(run)| > MAX_MATCHES
    ensures over ==>
              && WithdrawnFrom(result.applicability, before.applicability + [ApplicabilityOf(run)])
              && result == CatalogResult(Truncated, [], [], result.applicability)
    ensures !over ==>
              result == CatalogResult(Current, before.matches + Accepted(run), before.failures + FailuresOf(run),
                                      before.applicability + [ApplicabilityOf(run)])
  {
    AcceptedOf(run);
    hide Accepted, Succeeded, AcceptedPrefix;
    var detector := run.detector;
    match run.evaluation {
      case Failed(code) =>
        result := before.(
          failures := before.failures + [Failure(detector.id, code)],
          applicability := before.applicability + [Applicability(detector, "incomplete", code)]);
        over := false;
        assert before.matches + [] == before.matches;
      case Evaluated(matches, absence, reason) =>
        var published, failed;
        published, failed, over := AcceptMatches(detector, matches, before.matches);
        var applicability := before.applicability + [Applicability(detector, absence, reason)];
        if over {
          var withdrawn := Withdraw(applicability);
          result := CatalogResult(Truncated, [], [], withdrawn);
          return;
        }
        var failures := before.failures + if failed then [Failure(detector.id, "detector_invalid_output")] else [];
        result := before.(applicability := applicability, matches := published, failures := failures);
    }
  }

  /** The result after the first n runs, while within the limit. */
  ghost predicate Gathered(runs: seq<SlotRun>, n: nat, result: CatalogResult)
    requires n <= |runs|
  {
    && result == CatalogResult(Current, AcceptedAll(runs, n), FailuresAll(runs, n), ApplicabilityAll(runs, n))
    && |result.matches| <= MAX_MATCHES
  }

  /** The result when the n-th run passes the limit. */
  ghost predicate CutAt(runs: seq<SlotRun>, n: nat, result: CatalogResult)
    requires 0 < n <= |runs|
  {
    && |AcceptedAll(runs, n - 1)| <= MAX_MATCHES < |AcceptedAll(runs, n)|
    && WithdrawnFrom(result.applicability, ApplicabilityAll(runs, n))
    && result == CatalogResult(Truncated, [], [], result.applicability)
  }

  /** The loop over the detectors. */
  method RunDetectors(runs: seq<SlotRun>) returns (result: CatalogResult, over: bool)
    ensures over <==> |AcceptedAll(runs, |runs|)| > MAX_MATCHES
    ensures over ==> exists n :: 0 < n <= |runs| && CutAt(runs, n, result)
    ensures !over ==> Gathered(runs, |runs|, result)
  {
    hide Accepted, Succeeded, WithdrawnFrom, ApplicabilityOf, FailuresOf;
    result, over := CatalogResult(Current, [], [], []), false;
    for k := 0 to |runs|
      invariant Gathered(runs, k, result)
    {
      OneMoreRun(runs, k);
      result, over := MergeRun(runs[k], result);
      if over {
        AcceptedAllGrows(runs, k + 1, |runs|);
        assert CutAt(runs, k + 1, result);
        return;
      }
    }
  }

  /** A whole run publishes everything or nothing. */
  method Run(runs: seq<SlotRun>) returns (result: CatalogResult)
    ensures result.status == StatusOf(runs) && result.matches == Published(runs)
    ensures result.status.Current? ==> result.failures == []
    ensures result.status.CatalogFailed? ==>
              result.failures == if AllSucceeded(runs, |runs|) then [Failure("", "detector_invalid_output")]
                                 else FailuresAll(runs, |runs|)
    ensures result.status.Truncated? ==> exists n :: 0 < n <= |runs| && CutAt(runs, n, result)
    ensures !result.status.Truncated? ==> result.applicability == ApplicabilityAll(runs, |runs|)
  {
    var over;
    result, over := RunDetectors(runs);
    if over {
      ghost var n :| 0 < n <= |runs| && CutAt(runs, n, result);
      return;
    }
    NoFailureMeansSuccess(runs, |runs|);
    if |result.failures| > 0 {
      result := result.(status := CatalogFailed, matches := []);
      return;
    }
    var duplicate := DuplicateMatch(result.matches);
    if duplicate {
      result := result.(status := CatalogFailed, matches := [], failures := [Failure("", "detector_invalid_output")]);
      return;
    }
    result := result.(matches := Sort(result.matches, MatchBefore));
  }

  // ---------- what is published ----------

  /** A detector succeeds exactly when it answers and each of its matches is its own and complete. */
  lemma SucceededMeans(run: SlotRun)
    ensures Succeeded(run) <==>
              && run.evaluation.Evaluated?
              && forall k :: 0 <= k < |run.evaluation.matches| ==>
                   var m := run.evaluation.matches[k];
                   && m.detectorId == run.detector.id && m.detectorVersion == run.detector.version
                   && m.fingerprintVersion == run.detector.fingerprintVersion
                   && "" !in {m.category, m.titleCode, m.severity, m.confidence}
                   && m.firstObservedAt != -62_135_596_800_000_000_000 && m.firstObservedAt <= m.lastObservedAt
                   && m.fingerprint != []
                   && forall d :: d in m.fingerprint ==> d.name != "" && d.value != ""
  {
    if run.evaluation.Evaluated? {
      var matches := run.evaluation.matches;
      forall k | 0 <= k < |matches|
        ensures ValidMatch(run.detector, matches[k]) <==>
                  var m := matches[k];
                  && m.detectorId == run.detector.id && m.detectorVersion == run.detector.version
                  && m.fingerprintVersion == run.detector.fingerprintVersion
                  && "" !in {m.category, m.titleCode, m.severity, m.confidence}
                  && m.firstObservedAt != -62_135_596_800_000_000_000 && m.firstObservedAt <= m.lastObservedAt
                  && m.fingerprint != []
                  && forall d :: d in m.fingerprint ==> d.name != "" && d.value != ""
      {
        var x := matches[k].fingerprint;
        assert forall l :: 0 <= l < |x| ==> x[l] in x;
      }
      hide ValidMatch;
      AllAcceptedIff(run.detector, matches, |matches|);
    }
  }

  lemma {:induction false} AllAcceptedIff(detector: Detector, matches: seq<Match>, n: nat)
    requires n <= |matches|
    ensures |AcceptedPrefix(detector, matches, n)| <= n
    ensures |AcceptedPrefix(detector, matches, n)| == n <==> forall k :: 0 <= k < n ==> ValidMatch(detector, matches[k])
  {
    hide ValidMatch;
    if n > 0 {
      AllAcceptedIff(detector, matches, n - 1);
    }
  }

  /** Published matches number at most a hundred and stand by detector ID and, within one detector, by key. */
  lemma PublishedInOrder(runs: seq<SlotRun>)
    ensures StatusOf(runs).Truncated? <==> |AcceptedAll(runs, |runs|)| > 100
    ensures |Published(runs)| <= 100
    ensures forall i, j :: 0 <= i < j < |Published(runs)| ==>
              var a, b := Published(runs)[i], Published(runs)[j];
              !Less(b.detectorId, a.detectorId)
              && (a.detectorId == b.detectorId ==> !Less(DimensionKey(b.fingerprint), DimensionKey(a.fingerprint)))
  {
    var all := AcceptedAll(runs, |runs|);
    MatchBeforeIsStrictWeak();
    SortSorted(all, MatchBefore);
    SortMultiset(all, MatchBefore);
    var sorted := Sort(all, MatchBefore);
    hide Sort, AcceptedAll, DimensionKey, DistinctKeys, AllSucceeded;
    forall i, j | 0 <= i < j < |sorted|
      ensures var a, b := sorted[i], sorted[j];
              !Less(b.detectorId, a.detectorId)
              && (a.detectorId == b.detectorId ==> !Less(DimensionKey(b.fingerprint), DimensionKey(a.fingerprint)))
    {
      LessTotal(sorted[i].detectorId, sorted[j].detectorId);
      LessTotal(DimensionKey(sorted[i].fingerprint), DimensionKey(sorted[j].fingerprint));
    }
  }

  // ---------- the order of the detectors ----------

  lemma {:induction false} AcceptedAllAppend(a: seq<SlotRun>, b: seq<SlotRun>)
    ensures AcceptedAll(a + b, |a + b|) == AcceptedAll(a, |a|) + AcceptedAll(b, |b|)
  {
    hide Accepted;
    if b == [] {
      assert a + b == a;
    } else {
      var front := b[..|b| - 1];
      AcceptedAllAppend(a, front);
      assert (a + b)[..|a + front|] == a + front;
      AcceptedAllPrefix(a + b, a + front, |a + front|);
      AcceptedAllPrefix(b, front, |front|);
    }
  }

  lemma {:induction false} AcceptedAllPrefix(a: seq<SlotRun>, b: seq<SlotRun>, n: nat)
    requires n <= |a| && n <= |b| && a[..n] == b[..n]
    ensures AcceptedAll(a, n) == AcceptedAll(b, n)
  {
    if n > 0 {
      assert a[n - 1] == a[..n][n - 1] == b[n - 1];
      assert a[..n - 1] == a[..n][..n - 1] && b[..n - 1] == b[..n][..n - 1];
      AcceptedAllPrefix(a, b, n - 1);
    }
  }

  lemma AcceptedAllWithout(runs: seq<SlotRun>, j: nat)
    requires j < |runs|
    ensures var rest := runs[..j] + runs[j + 1..];
            multiset(AcceptedAll(runs, |runs|)) == multiset(Accepted(runs[j])) + multiset(AcceptedAll(rest, |rest|))
  {
    hide Accepted;
    assert runs == (runs[..j] + [runs[j]]) + runs[j + 1..];
    AcceptedAllAppend(runs[..j] + [runs[j]], runs[j + 1..]);
    AcceptedAllAppend(runs[..j], [runs[j]]);
    AcceptedAllAppend(runs[..j], runs[j + 1..]);
    assert AcceptedAll([runs[j]], 1) == Accepted(runs[j]) by {
      assert AcceptedAll([runs[j]], 0) == [];
    }
  }

  lemma {:induction false} AcceptedAllPermuted(a: seq<SlotRun>, b: seq<SlotRun>)
    requires multiset(a) == multiset(b)
    ensures multiset(AcceptedAll(a, |a|)) == multiset(AcceptedAll(b, |b|))
  {
    if a == [] {
      assert |b| == |multiset(b)| == |multiset(a)|;
    } else {
      hide *;
      var j := PermutedTail(a, b);
      AcceptedAllPermuted(a[1..], b[..j] + b[j + 1..]);
      AcceptedAllWithout(b, j);
      AcceptedAllWithout(a, 0);
      assert a[..0] + a[1..] == a[1..];
    }
  }

  lemma DistinctKeysPermuted(a: seq<Match>, b: seq<Match>)
    requires multiset(a) == multiset(b) && DistinctKeys(a)
    ensures DistinctKeys(b)
  {
    forall i, j | 0 <= i < j < |b|
      ensures KeyOf(b[i]) != KeyOf(b[j])
    {
      var x := PermutedPosition(b, a, i);
      var y := PermutedPair(b, a, i, j, x);
      assert x < y || y < x;
    }
  }

  /** The status and the published matches do not depend on the order in which the detectors run. */
  lemma RunIgnoresDetectorOrder(a: seq<SlotRun>, b: seq<SlotRun>)
    requires multiset(a) == multiset(b)
    ensures StatusOf(a) == StatusOf(b) && Published(a) == Published(b)
  {
    AcceptedAllPermuted(a, b);
    var x, y := AcceptedAll(a, |a|), AcceptedAll(b, |b|);
    assert |x| == |multiset(x)| == |multiset(y)| == |y|;
    if AllSucceeded(a, |a|) { AllSucceededPermuted(a, b); }
    if AllSucceeded(b, |b|) { AllSucceededPermuted(b, a); }
    if DistinctKeys(x) {
      DistinctKeysPermuted(x, y);
      MatchBeforeIsStrictWeak();
      SortSorted(y, MatchBefore);
      SortMultiset(y, MatchBefore);
      SortMatchesHasOneResult(x, Sort(y, MatchBefore));
    }
    if DistinctKeys(y) {
      DistinctKeysPermuted(y, x);
    }
  }

  lemma AllSucceededPermuted(a: seq<SlotRun>, b: seq<SlotRun>)
    requires multiset(a) == multiset(b) && AllSucceeded(a, |a|)
    ensures AllSucceeded(b, |b|)
  {
    forall k | 0 <= k < |b|
      ensures Succeeded(b[k])
    {
      var j := PermutedPosition(b, a, k);
    }
  }
}
