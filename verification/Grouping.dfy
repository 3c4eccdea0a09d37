/**
 * Grouping a session's findings into occurrences with bounded citations (`numbatOccurrences` in
 * `internal/analysis/reconciler.go`): the incremental update agrees with a reading of the whole group.
 */
module Grouping {
  import opened Common
  import opened Ordering
  import opened Paging

  const FINDING_CITATIONS := 50
  const ORIGIN_LIMIT := 100

  datatype ScopeQuality = Resolved | Lexical | Conflicting | Unscoped

  datatype SessionScope = SessionScope(sessionKey: string, projectScopeId: string, quality: ScopeQuality)

  /** What the grouping takes from elsewhere: event types, keyed fingerprints and signal codes. */
  datatype Context = Context(
    scope: SessionScope, eventTypes: map<string, string>,
    fingerprint: (string, seq<string>) -> string, signal: string -> Option<string>)

  /** `DeriveIssueIdentity` fails on an empty scope or an empty dimension. */
  predicate HasIdentity(scope: string, material: seq<string>) {
    scope != "" && "" !in material
  }

  datatype Grouped = Grouped(occurrences: seq<Occurrence>, truncated: bool)

  datatype Occurrence = Occurrence(
    fingerprint: string, originRecordId: string, harness: string, ruleVersion: string, sourceSignal: Option<string>,
    severity: string, confidence: string, scopeQuality: ScopeQuality, scopeId: string,
    first: int, last: int, evidenceComplete: bool, cited: seq<string>, dimensions: seq<string>)

  /** A finding with the citations admitted for it. */
  datatype Admission = Admission(finding: Finding, cited: seq<string>, key: string)

  // ---------- ranks ----------

  function SeverityRank(s: string): nat {
    match s
    case "info" => 1
    case "low" => 2
    case "medium" => 3
    case "high" => 4
    case "critical" => 5
    case _ => 0
  }

  function ConfidenceRank(s: string): nat {
    match s
    case "low" => 1
    case "medium" => 2
    case "high" => 3
    case _ => 0
  }

  function HigherSeverity(left: string, right: string): string {
    if SeverityRank(right) > SeverityRank(left) then right else left
  }

  function LowerConfidence(left: string, right: string): string {
    if left == "" || ConfidenceRank(right) < ConfidenceRank(left) then right else left
  }

  // ---------- the smallest citations ----------

  function Smallest(ids: seq<string>): seq<string> {
    var all := SortDistinct(ids, Less);
    if |all| > MAX_CITATIONS then all[..MAX_CITATIONS] else all
  }

  lemma {:induction false} ElementCount(s: seq<string>)
    ensures |Elements(s)| <= |s|
  {
    if s != [] {
      ElementCount(s[1..]);
      assert Elements(s) == Elements(s[1..]) + {s[0]};
    }
  }

  /** `t` lists part of `s`; what it lacks lies above the n smallest elements kept in `kept`. */
  ghost predicate LacksOnlyLarge(s: seq<string>, t: seq<string>, kept: seq<string>) {
    && StrictlySorted(s, Less) && StrictlySorted(t, Less) && StrictlySorted(kept, Less)
    && (forall x :: x in t ==> x in s) && (forall x :: x in kept ==> x in t)
    && (forall x, y :: x in s && x !in t && y in kept ==> Less(y, x))
  }

  lemma PresentBelow(s: seq<string>, t: seq<string>, kept: seq<string>, i: nat)
    requires LacksOnlyLarge(s, t, kept) && i < |s| && i < |kept|
    ensures s[i] in t
  {
    if s[i] !in t {
      LessIsStrictTotal();
      var below := Elements(s[..i]);
      forall y | y in kept
        ensures y in below
      {
        assert y in s && Less(y, s[i]);
        var j :| 0 <= j < |s| && s[j] == y;
        assert s[..i][j] == y;
      }
      ElementCount(s[..i]);
      DistinctFits(kept, below);
    }
  }

  /** Past a common prefix, the element of a part is no smaller than the element of the whole. */
  lemma NextNoSmaller(s: seq<string>, t: seq<string>, i: nat)
    requires StrictlySorted(s, Less) && StrictlySorted(t, Less)
    requires i < |s| && i < |t| && s[..i] == t[..i] && t[i] in s
    ensures t[i] == s[i] || Less(s[i], t[i])
  {
    LessIsStrictTotal();
    forall k | 0 <= k < i
      ensures s[k] == t[k] && s[k] != t[i]
    {
      assert s[k] == s[..i][k] == t[..i][k] == t[k] && Less(t[k], t[i]);
    }
    var k :| 0 <= k < |s| && s[k] == t[i];
  }

  lemma {:induction false} SamePrefix(s: seq<string>, t: seq<string>, kept: seq<string>, n: nat)
    requires LacksOnlyLarge(s, t, kept) && n <= |kept|
    ensures n <= |s| && n <= |t| && s[..n] == t[..n]
  {
    KeptFits(s, t, kept);
    if n > 0 {
      SamePrefix(s, t, kept, n - 1);
      var i := n - 1;
      PresentBelow(s, t, kept, i);
      assert t[i] in t;
      NextNoSmaller(s, t, i);
      NextNoSmaller(t, s, i);
      LessTotal(s[i], t[i]);
      assert s[..n] == s[..i] + [s[i]] && t[..n] == t[..i] + [t[i]];
    }
  }

  lemma KeptFits(s: seq<string>, t: seq<string>, kept: seq<string>)
    requires LacksOnlyLarge(s, t, kept)
    ensures |kept| <= |t| <= |s|
  {
    LessIsStrictTotal();
    ElementCount(s);
    ElementCount(t);
    DistinctFits(kept, Elements(t));
    DistinctFits(t, Elements(s));
  }

  lemma SmallestSplit(ids: seq<string>, more: seq<string>)
    requires |SortDistinct(ids, Less)| > MAX_CITATIONS
    ensures LacksOnlyLarge(SortDistinct(ids + more, Less), SortDistinct(Smallest(ids) + more, Less), Smallest(ids))
  {
    LessIsStrictTotal();
    var all := SortDistinct(ids, Less);
    var kept := Smallest(ids);
    SortDistinctSpec(ids, Less);
    SortDistinctSpec(ids + more, Less);
    SortDistinctSpec(kept + more, Less);
    forall x | x in kept
      ensures x in ids
    {
      assert x in all;
    }
    forall x, y | x in SortDistinct(ids + more, Less) && x !in SortDistinct(kept + more, Less) && y in kept
      ensures Less(y, x)
    {
      assert x in all && x !in kept;
      var i :| 0 <= i < |all| && all[i] == x;
      var j :| 0 <= j < |kept| && kept[j] == y;
      assert forall k :: 0 <= k < |kept| ==> kept[k] == all[k] && kept[k] in kept;
    }
  }

  /** Keeping only the 50 smallest after each step loses none of the 50 smallest of everything. */
  lemma SmallestIncremental(ids: seq<string>, more: seq<string>)
    ensures Smallest(Smallest(ids) + more) == Smallest(ids + more)
    ensures |SortDistinct(ids + more, Less)| > MAX_CITATIONS <==>
              |SortDistinct(ids, Less)| > MAX_CITATIONS || |SortDistinct(Smallest(ids) + more, Less)| > MAX_CITATIONS
  {
    LessIsStrictTotal();
    SortDistinctSpec(ids, Less);
    SortDistinctSpec(ids + more, Less);
    SortDistinctSpec(Smallest(ids) + more, Less);
    var s, t, kept := SortDistinct(ids + more, Less), SortDistinct(Smallest(ids) + more, Less), Smallest(ids);
    if |SortDistinct(ids, Less)| > MAX_CITATIONS {
      SmallestSplit(ids, more);
      SamePrefix(s, t, kept, MAX_CITATIONS);
      MoreThanKept(ids, more);
    } else {
      StrictlySortedUnique(s, t, Less);
    }
  }

  lemma MoreThanKept(ids: seq<string>, more: seq<string>)
    requires |SortDistinct(ids, Less)| > MAX_CITATIONS
    ensures |SortDistinct(ids + more, Less)| > MAX_CITATIONS
  {
    LessIsStrictTotal();
    SortDistinctSpec(ids, Less);
    SortDistinctSpec(ids + more, Less);
    var all := SortDistinct(ids + more, Less);
    ElementCount(all);
    DistinctFits(SortDistinct(ids, Less), Elements(all));
  }

  // ---------- which citations and findings are admitted ----------

  function Take<T>(s: seq<T>, n: nat): seq<T> {
    if |s| <= n then s else s[..n]
  }

  function CitesOf(finding: Finding, spent: nat): seq<string>
    requires spent <= CITATION_LIMIT
  {
    Take(Take(finding.cited, FINDING_CITATIONS), CITATION_LIMIT - spent)
  }

  /** Citations spent on the first n findings. */
  function Spent(findings: seq<Finding>, n: nat): (spent: nat)
    requires n <= |findings|
    ensures spent <= CITATION_LIMIT
  {
    if n == 0 then 0 else Spent(findings, n - 1) + |CitesOf(findings[n - 1], Spent(findings, n - 1))|
  }

  function ScopeIdentity(scope: SessionScope): string {
    if (scope.quality.Resolved? || scope.quality.Lexical?) && scope.projectScopeId != "" then scope.projectScopeId
    else scope.sessionKey
  }

  /** The scope a finding belongs to: its own hint wins unless the session's scope is in conflict. */
  function FindingScope(context: Context, finding: Finding): (string, ScopeQuality) {
    if !context.scope.quality.Conflicting? && finding.scopeHint != "" then (finding.scopeHint, Lexical)
    else (ScopeIdentity(context.scope), context.scope.quality)
  }

  function TypesOf(context: Context, cited: seq<string>): seq<string> {
    if cited == [] then []
    else
      var id := cited[0];
      (if id in context.eventTypes && context.eventTypes[id] != "" then [context.eventTypes[id]] else [])
      + TypesOf(context, cited[1..])
  }

  function TypeMaterial(types: seq<string>): seq<string> {
    if types == [] then [] else ["event_type", types[0]] + TypeMaterial(types[1..])
  }

  function Material(context: Context, finding: Finding, cited: seq<string>): seq<string> {
    ["rule_id", finding.ruleId, "rule_version", finding.ruleVersion]
    + TypeMaterial(SortDistinct(TypesOf(context, cited), Less))
  }

  function AdmissionOf(context: Context, finding: Finding, spent: nat): Admission
    requires spent <= CITATION_LIMIT
  {
    var cited := CitesOf(finding, spent);
    Admission(finding, cited, context.fingerprint(FindingScope(context, finding).0, Material(context, finding, cited)))
  }

  /** Its scope, rule and rule version are all known. */
  predicate Identifiable(context: Context, finding: Finding) {
    FindingScope(context, finding).0 != "" && finding.ruleId != "" && finding.ruleVersion != ""
  }

  lemma {:induction false} TypeMaterialIsKnown(types: seq<string>)
    requires "" !in types
    ensures "" !in TypeMaterial(types)
  {
    if types != [] {
      TypeMaterialIsKnown(types[1..]);
    }
  }

  lemma {:induction false} TypesAreKnown(context: Context, cited: seq<string>)
    ensures "" !in TypesOf(context, cited)
  {
    if cited != [] {
      TypesAreKnown(context, cited[1..]);
    }
  }

  /** Deriving an identity depends on the finding's own fields only: its event types are never empty. */
  lemma IdentifiableIff(context: Context, finding: Finding, cited: seq<string>)
    ensures HasIdentity(FindingScope(context, finding).0, Material(context, finding, cited)) == Identifiable(context, finding)
  {
    LessIsStrictTotal();
    TypesAreKnown(context, cited);
    SortDistinctSpec(TypesOf(context, cited), Less);
    var types := SortDistinct(TypesOf(context, cited), Less);
    TypeMaterialIsKnown(types);
    var head := ["rule_id", finding.ruleId, "rule_version", finding.ruleVersion];
    assert head[1] in head && head[3] in head;
    assert Material(context, finding, cited) == head + TypeMaterial(types);
  }

  /** The findings reached before the citations ran out, among the first n. */
  function Admissions(context: Context, findings: seq<Finding>, n: nat): seq<Admission>
    requires n <= |findings|
  {
    if n == 0 then []
    else
      var spent := Spent(findings, n - 1);
      Admissions(context, findings, n - 1)
      + (if spent < CITATION_LIMIT then [AdmissionOf(context, findings[n - 1], spent)] else [])
  }

  /** The first hundred distinct keys. */
  function AcceptedKeys(admissions: seq<Admission>): set<string> {
    if admissions == [] then {}
    else
      var keys := AcceptedKeys(admissions[..|admissions| - 1]);
      if |keys| < ORIGIN_LIMIT then keys + {admissions[|admissions| - 1].key} else keys
  }

  function Members(admissions: seq<Admission>, key: string): seq<Admission> {
    if admissions == [] then []
    else
      var last := admissions[|admissions| - 1];
      Members(admissions[..|admissions| - 1], key) + (if last.key == key then [last] else [])
  }

  // ---------- one group, read as a whole ----------

  function AllCites(members: seq<Admission>): seq<string> {
    if members == [] then [] else AllCites(members[..|members| - 1]) + members[|members| - 1].cited
  }

  function Earliest(members: seq<Admission>): int
    requires members != []
  {
    var at := members[|members| - 1].finding.detectedAt;
    if |members| == 1 then at
    else
      var before := Earliest(members[..|members| - 1]);
      if at < before then at else before
  }

  function Latest(members: seq<Admission>): int
    requires members != []
  {
    var at := members[|members| - 1].finding.detectedAt;
    if |members| == 1 then at
    else
      var before := Latest(members[..|members| - 1]);
      if at > before then at else before
  }

  function LeastId(members: seq<Admission>): string
    requires members != []
  {
    var id := members[|members| - 1].finding.id;
    if |members| == 1 then id
    else
      var before := LeastId(members[..|members| - 1]);
      if Less(id, before) then id else before
  }

  function FoldSeverity(members: seq<Admission>): string
    requires members != []
  {
    var severity := members[|members| - 1].finding.severity;
    if |members| == 1 then severity else HigherSeverity(FoldSeverity(members[..|members| - 1]), severity)
  }

  function FoldConfidence(members: seq<Admission>): string
    requires members != []
  {
    var confidence := members[|members| - 1].finding.confidence;
    if |members| == 1 then confidence else LowerConfidence(FoldConfidence(members[..|members| - 1]), confidence)
  }

  predicate SameSignal(context: Context, members: seq<Admission>, signal: Option<string>) {
    forall k :: 0 <= k < |members| ==> context.signal(members[k].finding.ruleId) == signal
  }

  function CommonSignal(context: Context, members: seq<Admission>): Option<string>
    requires members != []
  {
    var signal := context.signal(members[0].finding.ruleId);
    if SameSignal(context, members, signal) then signal else None
  }

  /** The occurrence a finding opens. */
  function Opened(context: Context, a: Admission): Occurrence {
    var (identity, quality) := FindingScope(context, a.finding);
    Occurrence(
      a.key, a.finding.id, if a.finding.harness == "" then "unknown" else a.finding.harness, a.finding.ruleVersion,
      context.signal(a.finding.ruleId), a.finding.severity, a.finding.confidence, quality,
      if quality.Resolved? || quality.Lexical? then identity else "",
      a.finding.detectedAt, a.finding.detectedAt, true, [], Material(context, a.finding, a.cited))
  }

  /** The occurrence of a whole group of findings. */
  function OccurrenceOf(context: Context, members: seq<Admission>): Occurrence
    requires members != []
  {
    Opened(context, members[0]).(
      originRecordId := LeastId(members),
      sourceSignal := CommonSignal(context, members),
      severity := FoldSeverity(members),
      confidence := FoldConfidence(members),
      first := Earliest(members),
      last := Latest(members),
      cited := Smallest(AllCites(members)),
      evidenceComplete := |SortDistinct(AllCites(members), Less)| <= MAX_CITATIONS)
  }

  // ---------- the incremental update ----------

  /** The body of the loop: `current` updated with one more finding. */
  function Extend(context: Context, current: Occurrence, a: Admission): Occurrence {
    var incoming := context.signal(a.finding.ruleId);
    var at := a.finding.detectedAt;
    var cited := SortDistinct(current.cited + a.cited, Less);
    current.(
      sourceSignal := if current.sourceSignal == incoming then current.sourceSignal else None,
      first := if at < current.first then at else current.first,
      last := if at > current.last then at else current.last,
      originRecordId := if Less(a.finding.id, current.originRecordId) then a.finding.id else current.originRecordId,
      severity := HigherSeverity(current.severity, a.finding.severity),
      confidence := LowerConfidence(current.confidence, a.finding.confidence),
      cited := Take(cited, MAX_CITATIONS),
      evidenceComplete := current.evidenceComplete && |cited| <= MAX_CITATIONS)
  }

  lemma OpenedThenExtended(context: Context, a: Admission)
    requires |a.cited| <= FINDING_CITATIONS
    ensures Extend(context, Opened(context, a), a) == OccurrenceOf(context, [a])
  {
    LessIsStrictTotal();
    LessTotal(a.finding.id, a.finding.id);
    assert [a][..0] == [] && AllCites([a]) == [] + a.cited == a.cited;
    assert Opened(context, a).cited + a.cited == a.cited;
    SortDistinctSpec(a.cited, Less);
  }

  lemma ExtendedOccurrence(context: Context, members: seq<Admission>, a: Admission)
    requires members != []
    ensures Extend(context, OccurrenceOf(context, members), a) == OccurrenceOf(context, members + [a])
  {
    var all := members + [a];
    assert all[..|all| - 1] == members;
    SmallestIncremental(AllCites(members), a.cited);
    assert CommonSignal(context, all) ==
           (var current := CommonSignal(context, members);
            if current == context.signal(a.finding.ruleId) then current else None) by {
      SignalStep(context, members, a);
    }
    hide Smallest, SortDistinct, FoldSeverity, FoldConfidence, LeastId, Earliest, Latest, CommonSignal, Material, FindingScope;
    FoldsStep(members, a);
    SmallestIsTake(AllCites(members), a.cited);
  }

  lemma SmallestIsTake(ids: seq<string>, more: seq<string>)
    ensures Smallest(Smallest(ids) + more) == Take(SortDistinct(Smallest(ids) + more, Less), MAX_CITATIONS)
  {
  }

  lemma FoldsStep(members: seq<Admission>, a: Admission)
    requires members != []
    ensures var all := members + [a];
            && FoldSeverity(all) == HigherSeverity(FoldSeverity(members), a.finding.severity)
            && FoldConfidence(all) == LowerConfidence(FoldConfidence(members), a.finding.confidence)
            && LeastId(all) == (if Less(a.finding.id, LeastId(members)) then a.finding.id else LeastId(members))
            && Earliest(all) == (if a.finding.detectedAt < Earliest(members) then a.finding.detectedAt else Earliest(members))
            && Latest(all) == (if a.finding.detectedAt > Latest(members) then a.finding.detectedAt else Latest(members))
            && AllCites(all) == AllCites(members) + a.cited
  {
    var all := members + [a];
    assert all[..|all| - 1] == members;
  }

  lemma SignalStep(context: Context, members: seq<Admission>, a: Admission)
    requires members != []
    ensures CommonSignal(context, members + [a]) ==
              (if CommonSignal(context, members) == context.signal(a.finding.ruleId)
               then CommonSignal(context, members) else None)
  {
    var all := members + [a];
    var signal := context.signal(members[0].finding.ruleId);
    assert SameSignal(context, all, signal) <==>
           SameSignal(context, members, signal) && context.signal(a.finding.ruleId) == signal by {
      assert all[|members|] == a && forall k :: 0 <= k < |members| ==> all[k] == members[k];
    }
  }

  // ---------- the loop ----------

  /** Every finding was admitted with all its citations and into a group that was kept. */
  ghost predicate NothingDropped(context: Context, findings: seq<Finding>, n: nat)
    requires n <= |findings|
  {
    && NoneCut(findings, n)
    && KeysOf(Admissions(context, findings, n)) <= AcceptedKeys(Admissions(context, findings, n))
  }

  ghost predicate NoneCut(findings: seq<Finding>, n: nat)
    requires n <= |findings|
  {
    forall i :: 0 <= i < n ==>
      Spent(findings, i) < CITATION_LIMIT && CitesOf(findings[i], Spent(findings, i)) == findings[i].cited
  }

  ghost function KeysOf(admissions: seq<Admission>): set<string> {
    set a | a in admissions :: a.key
  }

  function FingerprintsOf(result: seq<Occurrence>): seq<string> {
    seq(|result|, i requires 0 <= i < |result| => result[i].fingerprint)
  }

  lemma {:induction false} AcceptedUnlessFull(admissions: seq<Admission>)
    ensures AcceptedKeys(admissions) <= KeysOf(admissions)
    ensures |AcceptedKeys(admissions)| < ORIGIN_LIMIT ==> AcceptedKeys(admissions) == KeysOf(admissions)
    ensures |AcceptedKeys(admissions)| <= ORIGIN_LIMIT
  {
    if admissions != [] {
      var before := admissions[..|admissions| - 1];
      AcceptedUnlessFull(before);
      assert admissions == before + [admissions[|admissions| - 1]];
      assert KeysOf(admissions) == KeysOf(before) + {admissions[|admissions| - 1].key};
    }
  }

  lemma {:induction false} MembersAreAll(admissions: seq<Admission>, key: string)
    ensures forall a :: a in Members(admissions, key) <==> a in admissions && a.key == key
    ensures Members(admissions, key) != [] <==> key in KeysOf(admissions)
  {
    if admissions != [] {
      var before := admissions[..|admissions| - 1];
      MembersAreAll(before, key);
      assert admissions == before + [admissions[|admissions| - 1]];
      assert KeysOf(admissions) == KeysOf(before) + {admissions[|admissions| - 1].key};
    }
  }

  lemma OneMore(all: seq<Admission>, a: Admission)
    ensures AcceptedKeys(all + [a]) ==
            if |AcceptedKeys(all)| < ORIGIN_LIMIT then AcceptedKeys(all) + {a.key} else AcceptedKeys(all)
    ensures KeysOf(all + [a]) == KeysOf(all) + {a.key}
  {
    assert (all + [a])[..|all|] == all;
  }

  lemma OneMoreMember(all: seq<Admission>, a: Admission, key: string)
    ensures Members(all + [a], key) == if a.key == key then Members(all, key) + [a] else Members(all, key)
  {
    assert (all + [a])[..|all|] == all;
  }

  ghost predicate GroupsMatch(context: Context, all: seq<Admission>, grouped: map<string, Occurrence>) {
    && grouped.Keys == AcceptedKeys(all)
    && (forall key :: key in grouped ==> IsGroup(context, Members(all, key), grouped[key]))
  }

  ghost predicate IsGroup(context: Context, members: seq<Admission>, o: Occurrence) {
    members != [] && o == OccurrenceOf(context, members)
  }

  /** A finding that joins a group, or opens one where there is room. */
  lemma JoinGroup(context: Context, all: seq<Admission>, grouped: map<string, Occurrence>, a: Admission)
    requires GroupsMatch(context, all, grouped) && |a.cited| <= FINDING_CITATIONS
    requires a.key in grouped || |grouped| < ORIGIN_LIMIT
    ensures var current := if a.key in grouped then grouped[a.key] else Opened(context, a);
            GroupsMatch(context, all + [a], grouped[a.key := Extend(context, current, a)])
  {
    hide OccurrenceOf, Extend, Opened, Members, AcceptedKeys, KeysOf;
    KeysGrow(all, grouped, a);
    GroupGrows(context, all, grouped, a);
    var current := if a.key in grouped then grouped[a.key] else Opened(context, a);
    OtherGroupsStay(context, all, grouped, a, Extend(context, current, a));
  }

  lemma OtherGroupsStay(context: Context, all: seq<Admission>, grouped: map<string, Occurrence>, a: Admission, o: Occurrence)
    requires GroupsMatch(context, all, grouped) && IsGroup(context, Members(all + [a], a.key), o)
    requires grouped.Keys + {a.key} == AcceptedKeys(all + [a])
    ensures GroupsMatch(context, all + [a], grouped[a.key := o])
  {
    hide IsGroup, Members, AcceptedKeys;
    var next := grouped[a.key := o];
    forall key | key in next
      ensures IsGroup(context, Members(all + [a], key), next[key])
    {
      OneMoreMember(all, a, key);
    }
    assert next.Keys == grouped.Keys + {a.key};
  }

  lemma KeysGrow(all: seq<Admission>, grouped: map<string, Occurrence>, a: Admission)
    requires grouped.Keys == AcceptedKeys(all)
    requires a.key in grouped || |grouped| < ORIGIN_LIMIT
    ensures grouped.Keys + {a.key} == AcceptedKeys(all + [a])
  {
    assert |grouped| == |grouped.Keys|;
    OneMore(all, a);
  }

  lemma GroupGrows(context: Context, all: seq<Admission>, grouped: map<string, Occurrence>, a: Admission)
    requires GroupsMatch(context, all, grouped) && |a.cited| <= FINDING_CITATIONS
    requires a.key in grouped || |grouped| < ORIGIN_LIMIT
    ensures var current := if a.key in grouped then grouped[a.key] else Opened(context, a);
            IsGroup(context, Members(all + [a], a.key), Extend(context, current, a))
  {
    assert |grouped| == |grouped.Keys|;
    hide OccurrenceOf, Extend, Opened, Members, AcceptedKeys, KeysOf;
    OneMoreMember(all, a, a.key);
    if a.key in grouped {
      ExtendedOccurrence(context, Members(all, a.key), a);
    } else {
      MembersAreAll(all, a.key);
      AcceptedUnlessFull(all);
      OpenedThenExtended(context, a);
      assert Members(all, a.key) == [] && [] + [a] == [a];
    }
  }

  /** A finding that finds no room changes nothing, and its key is never kept. */
  lemma NoRoom(context: Context, all: seq<Admission>, grouped: map<string, Occurrence>, a: Admission)
    requires GroupsMatch(context, all, grouped)
    requires a.key !in grouped && |grouped| >= ORIGIN_LIMIT
    ensures GroupsMatch(context, all + [a], grouped)
    ensures !(KeysOf(all + [a]) <= AcceptedKeys(all + [a]))
  {
    assert |grouped| == |grouped.Keys|;
    hide IsGroup, Members, AcceptedKeys;
    OneMore(all, a);
    forall key | key in grouped
      ensures Members(all + [a], key) == Members(all, key)
    {
      OneMoreMember(all, a, key);
    }
    assert a.key in KeysOf(all + [a]) && a.key !in AcceptedKeys(all + [a]);
  }

  lemma {:induction false} SpentStays(findings: seq<Finding>, n: nat, m: nat)
    requires n <= m <= |findings| && Spent(findings, n) == CITATION_LIMIT
    ensures Spent(findings, m) == CITATION_LIMIT
  {
    if n < m {
      SpentStays(findings, n, m - 1);
    }
  }

  lemma NoneAdmittedNext(context: Context, findings: seq<Finding>, n: nat)
    requires n < |findings| && Spent(findings, n) == CITATION_LIMIT
    ensures Admissions(context, findings, n + 1) == Admissions(context, findings, n)
  {
  }

  /** Once the citations have run out no further finding is admitted. */
  lemma {:induction false} NoneAdmittedAfter(context: Context, findings: seq<Finding>, n: nat, m: nat)
    requires n <= m <= |findings| && Spent(findings, n) == CITATION_LIMIT
    ensures Admissions(context, findings, m) == Admissions(context, findings, n)
  {
    hide *;
    if n < m {
      NoneAdmittedAfter(context, findings, n, m - 1);
      SpentStays(findings, n, m - 1);
      NoneAdmittedNext(context, findings, m - 1);
    }
  }

  /** The keys kept so far are a lower bound of those kept later, and a key rejected stays rejected. */
  lemma DropsStay(context: Context, findings: seq<Finding>, n: nat)
    requires n < |findings|
    ensures NothingDropped(context, findings, n + 1) ==> NothingDropped(context, findings, n)
  {
    var spent := Spent(findings, n);
    var all := Admissions(context, findings, n);
    if spent < CITATION_LIMIT {
      var a := AdmissionOf(context, findings[n], spent);
      OneMore(all, a);
      AcceptedUnlessFull(all);
      if KeysOf(all + [a]) <= AcceptedKeys(all + [a]) && |AcceptedKeys(all)| < ORIGIN_LIMIT {
        assert AcceptedKeys(all) == KeysOf(all);
      }
    }
  }

  lemma NextFinding(context: Context, findings: seq<Finding>, n: nat)
    requires n < |findings| && Spent(findings, n) < CITATION_LIMIT
    ensures Spent(findings, n + 1) == Spent(findings, n) + |CitesOf(findings[n], Spent(findings, n))|
    ensures Admissions(context, findings, n + 1) ==
            Admissions(context, findings, n) + [AdmissionOf(context, findings[n], Spent(findings, n))]
  {
  }

  lemma CutShort(context: Context, findings: seq<Finding>, n: nat, m: nat)
    requires n < m <= |findings|
    requires Spent(findings, n) == CITATION_LIMIT || CitesOf(findings[n], Spent(findings, n)) != findings[n].cited
    ensures !NothingDropped(context, findings, m)
  {
  }

  lemma FullDrops(context: Context, findings: seq<Finding>, n: nat)
    requires n <= |findings|
    requires !(KeysOf(Admissions(context, findings, n)) <= AcceptedKeys(Admissions(context, findings, n)))
    ensures !NothingDropped(context, findings, n)
  {
  }

  lemma KeysMatch(context: Context, all: seq<Admission>, grouped: map<string, Occurrence>)
    requires GroupsMatch(context, all, grouped)
    ensures grouped.Keys == AcceptedKeys(all)
  {
  }

  ghost predicate AllIdentifiable(context: Context, admissions: seq<Admission>) {
    forall a :: a in admissions ==> Identifiable(context, a.finding)
  }

  lemma {:induction false} OneUnidentified(context: Context, findings: seq<Finding>, n: nat, m: nat)
    requires n <= m <= |findings| && !AllIdentifiable(context, Admissions(context, findings, n))
    ensures !AllIdentifiable(context, Admissions(context, findings, m))
  {
    hide Identifiable, AdmissionOf, Spent;
    if n < m {
      OneUnidentified(context, findings, n, m - 1);
      var a :| a in Admissions(context, findings, m - 1) && !Identifiable(context, a.finding);
      assert a in Admissions(context, findings, m);
    }
  }

  lemma OneMoreIdentified(context: Context, all: seq<Admission>, a: Admission)
    ensures AllIdentifiable(context, all + [a]) <==> AllIdentifiable(context, all) && Identifiable(context, a.finding)
  {
    hide Identifiable;
    assert a in all + [a] && forall b :: b in all ==> b in all + [a];
  }

  /** What is returned when every finding reached can be identified: the groups in key order, and the flag. */
  ghost predicate IsGrouping(context: Context, findings: seq<Finding>, grouping: Grouped) {
    var all := Admissions(context, findings, |findings|);
    && IsListing(FingerprintsOf(grouping.occurrences), AcceptedKeys(all), Less)
    && (forall o :: o in grouping.occurrences ==>
          Members(all, o.fingerprint) != [] && o == OccurrenceOf(context, Members(all, o.fingerprint)))
    && (grouping.truncated <==> !NothingDropped(context, findings, |findings|))
  }

  /**
   * The groups in key order, and whether anything was cut or dropped; an error exactly when some finding
   * reached before the citations ran out lacks a scope, a rule or a rule version.
   */
  method GroupFindings(context: Context, findings: seq<Finding>) returns (result: Result<Grouped>)
    ensures result.Ok? <==> AllIdentifiable(context, Admissions(context, findings, |findings|))
    ensures result.Ok? ==> IsGrouping(context, findings, result.value)
  {
    NothingYet(context, findings);
    hide GroupedSoFar, IsGrouping, AllIdentifiable, HasIdentity, FindingScope, Material, Admissions, Spent, NothingDropped;
    var grouped: map<string, Occurrence> := map[];
    var truncated := false;
    var citationCount := 0;
    var i := 0;
    while i < |findings|
      invariant 0 <= i <= |findings|
      invariant citationCount == Spent(findings, i)
      invariant GroupedSoFar(context, findings, i, grouped, truncated)
      invariant AllIdentifiable(context, Admissions(context, findings, i))
    {
      var finding := findings[i];
      var cited := finding.cited;
      var cut := false;
      if |cited| > FINDING_CITATIONS {
        cited := cited[..FINDING_CITATIONS];
        cut := true;
      }
      var remaining := CITATION_LIMIT - citationCount;
      if remaining == 0 {
        NothingAfter(context, findings, i, grouped, truncated);
        truncated := true;
        break;
      }
      if |cited| > remaining {
        cited := cited[..remaining];
        cut := true;
      }
      assert cited == CitesOf(finding, citationCount) && (cut <==> cited != finding.cited);
      citationCount := citationCount + |cited|;
      NextFinding(context, findings, i);
      IdentifiedSoFar(context, findings, i);
      var scope, material := FindingScope(context, finding).0, Material(context, finding, cited);
      if !HasIdentity(scope, material) {
        OneUnidentified(context, findings, i + 1, |findings|);
        return Err;
      }
      var key := context.fingerprint(scope, material);
      grouped, truncated := AddFinding(context, findings, i, Admission(finding, cited, key), grouped, truncated, cut);
      i := i + 1;
    }
    result := Finish(context, findings, grouped, truncated);
  }

  /** The state of the loop after the first n findings. */
  ghost predicate GroupedSoFar(
    context: Context, findings: seq<Finding>, n: nat, grouped: map<string, Occurrence>, truncated: bool)
    requires n <= |findings|
  {
    && GroupsMatch(context, Admissions(context, findings, n), grouped)
    && (truncated <==> !NothingDropped(context, findings, n))
  }

  lemma NothingAfter(context: Context, findings: seq<Finding>, n: nat, grouped: map<string, Occurrence>, truncated: bool)
    requires n < |findings| && Spent(findings, n) == CITATION_LIMIT
    requires GroupedSoFar(context, findings, n, grouped, truncated)
    ensures Admissions(context, findings, |findings|) == Admissions(context, findings, n)
    ensures GroupedSoFar(context, findings, |findings|, grouped, true)
  {
    hide Admissions, Spent, GroupsMatch, NothingDropped;
    NoneAdmittedAfter(context, findings, n, |findings|);
    CutShort(context, findings, n, |findings|);
  }

  lemma IdentifiedSoFar(context: Context, findings: seq<Finding>, n: nat)
    requires n < |findings| && Spent(findings, n) < CITATION_LIMIT
    ensures var finding, cited := findings[n], CitesOf(findings[n], Spent(findings, n));
            AllIdentifiable(context, Admissions(context, findings, n + 1)) <==>
              && AllIdentifiable(context, Admissions(context, findings, n))
              && HasIdentity(FindingScope(context, finding).0, Material(context, finding, cited))
  {
    hide Spent, CitesOf, Identifiable, HasIdentity, AllIdentifiable;
    NextFinding(context, findings, n);
    IdentifiableIff(context, findings[n], CitesOf(findings[n], Spent(findings, n)));
    OneMoreIdentified(context, Admissions(context, findings, n), AdmissionOf(context, findings[n], Spent(findings, n)));
  }

  /** One finding joins its group, opens one, or finds no room; `cut` when it lost citations. */
  method AddFinding(
    context: Context, ghost findings: seq<Finding>, ghost n: nat, a: Admission,
    before: map<string, Occurrence>, truncatedBefore: bool, cut: bool)
    returns (grouped: map<string, Occurrence>, truncated: bool)
    requires n < |findings| && Spent(findings, n) < CITATION_LIMIT
    requires a == AdmissionOf(context, findings[n], Spent(findings, n)) && (cut <==> a.cited != findings[n].cited)
    requires GroupedSoFar(context, findings, n, before, truncatedBefore)
    ensures GroupedSoFar(context, findings, n + 1, grouped, truncated)
  {
    hide GroupedSoFar, Extend, Opened, Spent, CitesOf, Material, FindingScope;
    if a.key !in before && |before| >= ORIGIN_LIMIT {
      DroppedFinding(context, findings, n, a, before, truncatedBefore);
      return before, true;
    }
    PlacedFinding(context, findings, n, a, before, truncatedBefore);
    var current := if a.key in before then before[a.key] else Opened(context, a);
    return before[a.key := Extend(context, current, a)], truncatedBefore || cut;
  }

  lemma DroppedFinding(
    context: Context, findings: seq<Finding>, n: nat, a: Admission, before: map<string, Occurrence>, truncatedBefore: bool)
    requires n < |findings| && Spent(findings, n) < CITATION_LIMIT
    requires a == AdmissionOf(context, findings[n], Spent(findings, n))
    requires GroupedSoFar(context, findings, n, before, truncatedBefore)
    requires a.key !in before && |before| >= ORIGIN_LIMIT
    ensures GroupedSoFar(context, findings, n + 1, before, true)
  {
    NextFinding(context, findings, n);
    hide GroupsMatch, NothingDropped, Admissions, Spent, AdmissionOf, KeysOf, AcceptedKeys;
    NoRoom(context, Admissions(context, findings, n), before, a);
    FullDrops(context, findings, n + 1);
  }

  lemma PlacedFinding(
    context: Context, findings: seq<Finding>, n: nat, a: Admission, before: map<string, Occurrence>, truncatedBefore: bool)
    requires n < |findings| && Spent(findings, n) < CITATION_LIMIT
    requires a == AdmissionOf(context, findings[n], Spent(findings, n))
    requires GroupedSoFar(context, findings, n, before, truncatedBefore)
    requires a.key in before || |before| < ORIGIN_LIMIT
    ensures var current := if a.key in before then before[a.key] else Opened(context, a);
            GroupedSoFar(context, findings, n + 1, before[a.key := Extend(context, current, a)],
                         truncatedBefore || a.cited != findings[n].cited)
  {
    var all := Admissions(context, findings, n);
    assert |a.cited| <= FINDING_CITATIONS && a.cited == CitesOf(findings[n], Spent(findings, n));
    NextFinding(context, findings, n);
    KeysMatch(context, all, before);
    hide GroupsMatch, NothingDropped, Admissions, Spent, AdmissionOf, CitesOf, KeysOf, AcceptedKeys, Extend, Opened;
    JoinGroup(context, all, before, a);
    StillNothingDropped(context, findings, n, before);
  }

  method Finish(context: Context, findings: seq<Finding>, grouped: map<string, Occurrence>, truncated: bool)
    returns (result: Result<Grouped>)
    requires GroupedSoFar(context, findings, |findings|, grouped, truncated)
    ensures result.Ok? && IsGrouping(context, findings, result.value)
  {
    hide OccurrenceOf, Opened, IsGroup, GroupsMatch, AcceptedKeys, Members, Admissions, NothingDropped, FingerprintsOf;
    ghost var all := Admissions(context, findings, |findings|);
    KeysMatch(context, all, grouped);
    forall key | key in grouped
      ensures Members(all, key) != [] && grouped[key] == OccurrenceOf(context, Members(all, key))
      ensures grouped[key].fingerprint == key
    {
      GroupOfKey(context, all, grouped, key);
    }
    var occurrences := InKeyOrder(grouped);
    return Ok(Grouped(occurrences, truncated));
  }

  lemma NothingYet(context: Context, findings: seq<Finding>)
    ensures Spent(findings, 0) == 0 && AllIdentifiable(context, Admissions(context, findings, 0))
    ensures GroupedSoFar(context, findings, 0, map[], false)
  {
  }

  lemma GroupOfKey(context: Context, all: seq<Admission>, grouped: map<string, Occurrence>, key: string)
    requires GroupsMatch(context, all, grouped) && key in grouped
    ensures Members(all, key) != [] && grouped[key] == OccurrenceOf(context, Members(all, key))
    ensures grouped[key].fingerprint == key
  {
    MembersAreAll(all, key);
    assert Members(all, key)[0] in Members(all, key);
  }

  lemma NoFingerprints()
    ensures FingerprintsOf([]) == []
  {
  }

  lemma OneMoreFingerprint(result: seq<Occurrence>, o: Occurrence)
    ensures FingerprintsOf(result + [o]) == FingerprintsOf(result) + [o.fingerprint]
  {
  }

  lemma ListedKey(keys: seq<string>, all: set<string>, k: nat)
    requires IsListing(keys, all, Less) && k < |keys|
    ensures keys[k] in all
  {
    assert keys[k] in keys;
  }

  ghost predicate TakenFrom(result: seq<Occurrence>, grouped: map<string, Occurrence>) {
    forall o :: o in result ==> o.fingerprint in grouped && o == grouped[o.fingerprint]
  }

  lemma OneMoreTaken(result: seq<Occurrence>, grouped: map<string, Occurrence>, key: string)
    requires TakenFrom(result, grouped) && key in grouped && grouped[key].fingerprint == key
    ensures TakenFrom(result + [grouped[key]], grouped)
  {
  }

  method InKeyOrder(grouped: map<string, Occurrence>) returns (result: seq<Occurrence>)
    requires forall key :: key in grouped ==> grouped[key].fingerprint == key
    ensures IsListing(FingerprintsOf(result), grouped.Keys, Less)
    ensures TakenFrom(result, grouped)
  {
    LessIsStrictTotal();
    var keys := SortedElements(grouped.Keys, Less);
    NoFingerprints();
    result := [];
    assert TakenFrom(result, grouped);
    hide Less, IsListing, StrictTotal, FingerprintsOf, TakenFrom;
    for k := 0 to |keys|
      invariant FingerprintsOf(result) == keys[..k]
      invariant TakenFrom(result, grouped)
    {
      ListedKey(keys, grouped.Keys, k);
      OneMoreTaken(result, grouped, keys[k]);
      OneMoreFingerprint(result, grouped[keys[k]]);
      result := result + [grouped[keys[k]]];
    }
    assert keys[..|keys|] == keys;
  }

  lemma OneMoreUncut(findings: seq<Finding>, n: nat)
    requires n < |findings| && Spent(findings, n) < CITATION_LIMIT
    ensures NoneCut(findings, n + 1) <==> NoneCut(findings, n) && CitesOf(findings[n], Spent(findings, n)) == findings[n].cited
  {
    hide Spent, CitesOf;
  }

  lemma StillNothingDropped(context: Context, findings: seq<Finding>, n: nat, grouped: map<string, Occurrence>)
    requires n < |findings| && Spent(findings, n) < CITATION_LIMIT
    requires grouped.Keys == AcceptedKeys(Admissions(context, findings, n))
    requires AdmissionOf(context, findings[n], Spent(findings, n)).key in grouped || |grouped| < ORIGIN_LIMIT
    ensures NothingDropped(context, findings, n + 1) <==>
              NothingDropped(context, findings, n) && CitesOf(findings[n], Spent(findings, n)) == findings[n].cited
  {
    var all := Admissions(context, findings, n);
    var a := AdmissionOf(context, findings[n], Spent(findings, n));
    assert |grouped| == |grouped.Keys|;
    assert Admissions(context, findings, n + 1) == all + [a];
    OneMoreUncut(findings, n);
    hide AcceptedKeys, KeysOf, AdmissionOf, CitesOf, NoneCut, Admissions, Spent;
    OneMore(all, a);
    DropsStay(context, findings, n);
  }
}
