/** What a group's occurrence says of its findings, and when it does not depend on the order they came in. */
module GroupTheorems {
  import opened Common
  import opened Ordering
  import opened Paging
  import opened Grouping

  // ---------- citations ----------

  lemma {:induction false} CitesOfAll(members: seq<Admission>)
    ensures forall x :: x in AllCites(members) <==> exists m :: m in members && x in m.cited
  {
    if members != [] {
      var before, last := members[..|members| - 1], members[|members| - 1];
      CitesOfAll(before);
      assert members == before + [last];
      forall x
        ensures x in AllCites(members) <==> exists m :: m in members && x in m.cited
      {
        if x in last.cited {
          assert last in members;
        }
      }
    }
  }

  /** At most 50 distinct cited IDs, none of those left out below one kept, complete iff none is left out. */
  lemma CitationsAreTheSmallest(context: Context, members: seq<Admission>)
    requires members != []
    ensures var o := OccurrenceOf(context, members);
            && StrictlySorted(o.cited, Less) && |o.cited| <= MAX_CITATIONS
            && (forall x :: x in o.cited ==> exists m :: m in members && x in m.cited)
            && (forall m, x, y :: m in members && x in m.cited && x !in o.cited && y in o.cited ==> Less(y, x))
            && (o.evidenceComplete <==> forall m, x :: m in members && x in m.cited ==> x in o.cited)
            && (!o.evidenceComplete ==> |o.cited| == MAX_CITATIONS)
  {
    LessIsStrictTotal();
    CitesOfAll(members);
    var cites := AllCites(members);
    SortDistinctSpec(cites, Less);
    SmallestOfSorted(cites);
  }

  lemma SmallestOfSorted(cites: seq<string>)
    ensures var all, kept := SortDistinct(cites, Less), Smallest(cites);
            && StrictlySorted(kept, Less) && |kept| <= MAX_CITATIONS
            && (forall x :: x in kept ==> x in cites)
            && (forall x, y :: x in cites && x !in kept && y in kept ==> Less(y, x))
            && (|all| <= MAX_CITATIONS <==> forall x :: x in cites ==> x in kept)
            && (|all| > MAX_CITATIONS ==> |kept| == MAX_CITATIONS)
  {
    LessIsStrictTotal();
    SortDistinctSpec(cites, Less);
    var all, kept := SortDistinct(cites, Less), Smallest(cites);
    hide SortDistinct, Less;
    forall x | x in kept
      ensures x in cites
    {
      assert x in all;
    }
    forall x, y | x in cites && x !in kept && y in kept
      ensures Less(y, x)
    {
      var i :| 0 <= i < |all| && all[i] == x;
      var j :| 0 <= j < |kept| && kept[j] == y;
      assert forall k :: 0 <= k < |kept| ==> all[k] == kept[k] && kept[k] in kept;
    }
    if |all| > MAX_CITATIONS {
      CutElementIsLost(all, MAX_CITATIONS);
      assert all[MAX_CITATIONS] in all;
    }
  }

  lemma CutElementIsLost(s: seq<string>, n: nat)
    requires StrictlySorted(s, Less) && n < |s|
    ensures s[n] !in s[..n]
  {
    LessIsStrictTotal();
  }

  // ---------- bounds and origin ----------

  ghost predicate IsBound(members: seq<Admission>, first: int, last: int) {
    && (exists m :: m in members && m.finding.detectedAt == first)
    && (exists m :: m in members && m.finding.detectedAt == last)
    && (forall m :: m in members ==> first <= m.finding.detectedAt <= last)
  }

  lemma {:induction false} BoundsHold(members: seq<Admission>)
    requires members != []
    ensures IsBound(members, Earliest(members), Latest(members))
  {
    var before, last := members[..|members| - 1], members[|members| - 1];
    if before != [] {
      BoundsHold(before);
      WiderBound(before, last, Earliest(before), Latest(before));
      assert members == before + [last];
    } else {
      assert last in members;
    }
  }

  lemma WiderBound(before: seq<Admission>, m: Admission, first: int, last: int)
    requires IsBound(before, first, last)
    ensures var at := m.finding.detectedAt;
            IsBound(before + [m], if at < first then at else first, if at > last then at else last)
  {
    var p, q :| p in before && p.finding.detectedAt == first && q in before && q.finding.detectedAt == last;
    var all := before + [m];
    assert p in all && q in all && m in all;
  }

  ghost predicate IsLeastId(members: seq<Admission>, id: string) {
    && (exists m :: m in members && m.finding.id == id)
    && (forall m :: m in members ==> !Less(m.finding.id, id))
  }

  lemma {:induction false} OriginIsLeast(members: seq<Admission>)
    requires members != []
    ensures IsLeastId(members, LeastId(members))
  {
    hide Less;
    var before, last := members[..|members| - 1], members[|members| - 1];
    LessTotal(last.finding.id, last.finding.id);
    if before != [] {
      OriginIsLeast(before);
      StillLeastId(before, last, LeastId(before));
      assert members == before + [last];
    } else {
      assert last in members;
    }
  }

  lemma StillLeastId(before: seq<Admission>, m: Admission, id: string)
    requires IsLeastId(before, id)
    ensures IsLeastId(before + [m], if Less(m.finding.id, id) then m.finding.id else id)
  {
    hide Less;
    var p :| p in before && p.finding.id == id;
    var all := before + [m];
    assert p in all && m in all;
    LessTotal(m.finding.id, m.finding.id);
    forall q | q in before
      ensures !Less(q.finding.id, if Less(m.finding.id, id) then m.finding.id else id)
    {
      NotLessTransitive(q.finding.id, id, if Less(m.finding.id, id) then m.finding.id else id);
    }
  }

  lemma NotLessTransitive(a: string, b: string, c: string)
    requires !Less(a, b) && (c == b || Less(c, b))
    ensures !Less(a, c)
  {
    LessIsStrictTotal();
  }

  /** First and last sighting, origin, citations and signal are the same for either order. */
  lemma BoundsIgnoreOrder(a: seq<Admission>, b: seq<Admission>)
    requires a != [] && b != [] && multiset(a) == multiset(b)
    ensures Earliest(a) == Earliest(b) && Latest(a) == Latest(b) && LeastId(a) == LeastId(b)
  {
    SameElements(a, b);
    BoundsHold(a);
    BoundsHold(b);
    OriginIsLeast(a);
    OriginIsLeast(b);
    LessTotal(LeastId(a), LeastId(b));
    hide Less, Earliest, Latest, LeastId;
    var m :| m in a && m.finding.id == LeastId(a);
    var n :| n in b && n.finding.id == LeastId(b);
    assert m in b && n in a;
  }

  lemma CitesIgnoreOrder(a: seq<Admission>, b: seq<Admission>)
    requires multiset(a) == multiset(b)
    ensures SortDistinct(AllCites(a), Less) == SortDistinct(AllCites(b), Less)
  {
    LessIsStrictTotal();
    SameElements(a, b);
    CitesOfAll(a);
    CitesOfAll(b);
    SortDistinctSpec(AllCites(a), Less);
    SortDistinctSpec(AllCites(b), Less);
    var p, q := SortDistinct(AllCites(a), Less), SortDistinct(AllCites(b), Less);
    hide SortDistinct, Less, AllCites;
    forall x
      ensures x in p <==> x in q
    {
    }
    StrictlySortedUnique(p, q, Less);
  }

  lemma SignalIsCommon(context: Context, members: seq<Admission>, code: string)
    requires members != []
    ensures CommonSignal(context, members) == Some(code) <==>
              forall m :: m in members ==> context.signal(m.finding.ruleId) == Some(code)
  {
    assert members[0] in members;
    forall k | 0 <= k < |members|
      ensures members[k] in members
    {
    }
  }

  lemma SignalIgnoresOrder(context: Context, a: seq<Admission>, b: seq<Admission>)
    requires a != [] && b != [] && multiset(a) == multiset(b)
    ensures CommonSignal(context, a) == CommonSignal(context, b)
  {
    SameElements(a, b);
    hide CommonSignal;
    forall code
      ensures CommonSignal(context, a) == Some(code) <==> CommonSignal(context, b) == Some(code)
    {
      SignalIsCommon(context, a, code);
      SignalIsCommon(context, b, code);
    }
    if CommonSignal(context, a).Some? {
      assert CommonSignal(context, a) == Some(CommonSignal(context, a).value);
    } else if CommonSignal(context, b).Some? {
      assert CommonSignal(context, b) == Some(CommonSignal(context, b).value);
    }
  }

  // ---------- severity and confidence ----------

  ghost function Severities(members: seq<Admission>): set<string> {
    set m | m in members :: m.finding.severity
  }

  ghost function Confidences(members: seq<Admission>): set<string> {
    set m | m in members :: m.finding.confidence
  }

  predicate UnknownConfidence(c: string) {
    c != "" && ConfidenceRank(c) == 0
  }

  lemma SeverityRankInjective(a: string, b: string)
    requires SeverityRank(a) == SeverityRank(b) > 0
    ensures a == b
  {
  }

  lemma ConfidenceRankInjective(a: string, b: string)
    requires ConfidenceRank(a) == ConfidenceRank(b) > 0
    ensures a == b
  {
  }

  lemma OneMoreSeverity(before: seq<Admission>, last: Admission)
    ensures Severities(before + [last]) == Severities(before) + {last.finding.severity}
    ensures Severities([]) == {}
  {
  }

  /** The fold picks a severity of the highest rank; the first of them when the rank is unknown. */
  lemma {:induction false} SeverityIsHighest(members: seq<Admission>)
    requires members != []
    ensures FoldSeverity(members) in Severities(members)
    ensures forall s :: s in Severities(members) ==> SeverityRank(s) <= SeverityRank(FoldSeverity(members))
    ensures SeverityRank(FoldSeverity(members)) == 0 ==> FoldSeverity(members) == members[0].finding.severity
  {
    hide SeverityRank, Severities;
    var before, last := members[..|members| - 1], members[|members| - 1];
    assert members == before + [last];
    OneMoreSeverity(before, last);
    if before != [] {
      SeverityIsHighest(before);
    }
  }

  /** The fold picks an unknown confidence if there is one, otherwise the lowest, unless an empty one interferes. */
  lemma {:induction false} ConfidenceIsLowest(members: seq<Admission>)
    requires members != []
    ensures FoldConfidence(members) in Confidences(members)
    ensures (exists c :: c in Confidences(members) && UnknownConfidence(c)) ==> UnknownConfidence(FoldConfidence(members))
    ensures "" !in Confidences(members) ==>
              forall c :: c in Confidences(members) ==> ConfidenceRank(FoldConfidence(members)) <= ConfidenceRank(c)
    ensures UnknownConfidence(members[0].finding.confidence) ==> FoldConfidence(members) == members[0].finding.confidence
  {
    assert ConfidenceRank("") == 0;
    hide ConfidenceRank, Confidences;
    var before, last := members[..|members| - 1], members[|members| - 1];
    assert members == before + [last];
    OneMoreConfidence(before, last);
    if before != [] {
      ConfidenceIsLowest(before);
    }
  }

  lemma OneMoreConfidence(before: seq<Admission>, last: Admission)
    ensures Confidences(before + [last]) == Confidences(before) + {last.finding.confidence}
    ensures Confidences([]) == {}
  {
  }

  lemma ConfidenceEndingInEmpty(members: seq<Admission>)
    requires members != [] && members[|members| - 1].finding.confidence == ""
    requires forall c :: c in Confidences(members) ==> !UnknownConfidence(c)
    ensures FoldConfidence(members) == ""
  {
    assert ConfidenceRank("") == 0;
    var before := members[..|members| - 1];
    if before != [] {
      ConfidenceIsLowest(before);
      forall c | c in Confidences(before)
        ensures c in Confidences(members)
      {
      }
    }
  }

  lemma ConfidenceEndingInKnown(members: seq<Admission>)
    requires members != [] && ConfidenceRank(members[|members| - 1].finding.confidence) > 0
    requires forall c :: c in Confidences(members) ==> !UnknownConfidence(c)
    ensures FoldConfidence(members) != ""
  {
    assert ConfidenceRank("") == 0;
  }

  /** The worst severity of the group, if any is known; the first finding's if none is. */
  lemma WorstSeverity(members: seq<Admission>)
    requires members != []
    ensures var all, merged := Severities(members), FoldSeverity(members);
            merged == if "critical" in all then "critical" else if "high" in all then "high"
                      else if "medium" in all then "medium" else if "low" in all then "low"
                      else if "info" in all then "info" else members[0].finding.severity
  {
    SeverityIsHighest(members);
    hide Severities, FoldSeverity;
    assert SeverityRank("critical") == 5 && SeverityRank("high") == 4 && SeverityRank("medium") == 3
           && SeverityRank("low") == 2 && SeverityRank("info") == 1;
    assert forall s :: SeverityRank(s) > 0 ==> s in {"critical", "high", "medium", "low", "info"};
  }

  /** The least confidence of the group; an unknown one if there is any. */
  lemma LeastConfidence(members: seq<Admission>)
    requires members != []
    ensures var all, merged := Confidences(members), FoldConfidence(members);
            if exists c :: c in all && c !in {"", "low", "medium", "high"} then merged in all - {"", "low", "medium", "high"}
            else "" !in all ==>
              merged == if "low" in all then "low" else if "medium" in all then "medium" else "high"
  {
    ConfidenceIsLowest(members);
    hide Confidences, FoldConfidence;
    assert ConfidenceRank("high") == 3 && ConfidenceRank("medium") == 2 && ConfidenceRank("low") == 1;
    assert forall c :: UnknownConfidence(c) <==> c !in {"", "low", "medium", "high"};
  }

  /** Some severity is known, or all are alike. */
  ghost predicate SettledSeverity(severities: set<string>) {
    || (exists s :: s in severities && SeverityRank(s) > 0)
    || (forall s, t :: s in severities && t in severities ==> s == t)
  }

  /** One unknown confidence, or none; in the latter case the empty one does not occur beside others. */
  ghost predicate SettledConfidence(confidences: set<string>) {
    if exists c :: c in confidences && UnknownConfidence(c)
    then forall c, d :: c in confidences && d in confidences && UnknownConfidence(c) && UnknownConfidence(d) ==> c == d
    else "" in confidences ==> confidences == {""}
  }

  lemma SameElements<T>(a: seq<T>, b: seq<T>)
    requires multiset(a) == multiset(b)
    ensures forall x :: x in a <==> x in b
    ensures |a| == |b|
  {
    forall x
      ensures x in a <==> x in b
    {
      assert x in multiset(a) <==> x in multiset(b);
    }
    assert |multiset(a)| == |a| && |multiset(b)| == |b|;
  }

  lemma MovedFirst(members: seq<Admission>, m: Admission) returns (moved: seq<Admission>)
    requires m in members
    ensures multiset(moved) == multiset(members) && moved != [] && moved[0] == m
  {
    var j :| 0 <= j < |members| && members[j] == m;
    MultisetSplit(members, j);
    moved := [m] + (members[..j] + members[j + 1..]);
  }

  lemma MovedLast(members: seq<Admission>, m: Admission) returns (moved: seq<Admission>)
    requires m in members
    ensures multiset(moved) == multiset(members) && moved != [] && moved[|moved| - 1] == m
  {
    var j :| 0 <= j < |members| && members[j] == m;
    MultisetSplit(members, j);
    moved := (members[..j] + members[j + 1..]) + [m];
  }

  ghost predicate SeverityIgnoresOrder(members: seq<Admission>)
    requires members != []
  {
    forall b: seq<Admission> :: b != [] && multiset(b) == multiset(members) ==> FoldSeverity(b) == FoldSeverity(members)
  }

  ghost predicate ConfidenceIgnoresOrder(members: seq<Admission>)
    requires members != []
  {
    forall b: seq<Admission> :: b != [] && multiset(b) == multiset(members) ==> FoldConfidence(b) == FoldConfidence(members)
  }

  lemma SettledSeverityAgrees(a: seq<Admission>, b: seq<Admission>)
    requires a != [] && b != [] && multiset(a) == multiset(b) && SettledSeverity(Severities(a))
    ensures FoldSeverity(a) == FoldSeverity(b)
  {
    hide SeverityRank, FoldSeverity;
    SameElements(a, b);
    assert Severities(a) == Severities(b);
    SeverityIsHighest(a);
    SeverityIsHighest(b);
    if SeverityRank(FoldSeverity(a)) > 0 {
      SeverityRankInjective(FoldSeverity(a), FoldSeverity(b));
    }
  }

  /** The severity does not depend on the order exactly when some severity is known or all are alike. */
  lemma SeverityOrderIff(members: seq<Admission>)
    requires members != []
    ensures SeverityIgnoresOrder(members) <==> SettledSeverity(Severities(members))
  {
    hide SeverityRank, FoldSeverity;
    if SettledSeverity(Severities(members)) {
      forall b: seq<Admission> | b != [] && multiset(b) == multiset(members)
        ensures FoldSeverity(b) == FoldSeverity(members)
      {
        SettledSeverityAgrees(members, b);
      }
    } else {
      var s, t :| s in Severities(members) && t in Severities(members) && s != t;
      var m :| m in members && m.finding.severity == s;
      var n :| n in members && n.finding.severity == t;
      var a := MovedFirst(members, m);
      var b := MovedFirst(members, n);
      SameElements(a, members);
      SameElements(b, members);
      SeverityIsHighest(a);
      SeverityIsHighest(b);
      assert Severities(a) == Severities(members) == Severities(b);
      assert FoldSeverity(a) == s && FoldSeverity(b) == t;
    }
  }

  lemma SettledConfidenceAgrees(a: seq<Admission>, b: seq<Admission>)
    requires a != [] && b != [] && multiset(a) == multiset(b) && SettledConfidence(Confidences(a))
    ensures FoldConfidence(a) == FoldConfidence(b)
  {
    hide ConfidenceRank, FoldConfidence;
    SameElements(a, b);
    assert Confidences(a) == Confidences(b);
    ConfidenceIsLowest(a);
    ConfidenceIsLowest(b);
    if (forall c :: c in Confidences(a) ==> !UnknownConfidence(c)) && "" !in Confidences(a) {
      assert ConfidenceRank(FoldConfidence(a)) == ConfidenceRank(FoldConfidence(b)) > 0;
      ConfidenceRankInjective(FoldConfidence(a), FoldConfidence(b));
    }
  }

  /** The confidence does not depend on the order exactly when `SettledConfidence` holds of those in the group. */
  lemma ConfidenceOrderIff(members: seq<Admission>)
    requires members != []
    ensures ConfidenceIgnoresOrder(members) <==> SettledConfidence(Confidences(members))
  {
    hide ConfidenceRank, FoldConfidence;
    if SettledConfidence(Confidences(members)) {
      forall b: seq<Admission> | b != [] && multiset(b) == multiset(members)
        ensures FoldConfidence(b) == FoldConfidence(members)
      {
        SettledConfidenceAgrees(members, b);
      }
    } else {
      var a, b := UnsettledConfidence(members);
    }
  }

  lemma UnsettledConfidence(members: seq<Admission>) returns (a: seq<Admission>, b: seq<Admission>)
    requires members != [] && !SettledConfidence(Confidences(members))
    ensures a != [] && b != [] && multiset(a) == multiset(b) == multiset(members)
    ensures FoldConfidence(a) != FoldConfidence(b)
  {
    hide ConfidenceRank, FoldConfidence;
    if c :| c in Confidences(members) && UnknownConfidence(c) {
      var d :| d in Confidences(members) && UnknownConfidence(d) &&
               exists e :: e in Confidences(members) && UnknownConfidence(e) && d != e;
      var e :| e in Confidences(members) && UnknownConfidence(e) && d != e;
      var m :| m in members && m.finding.confidence == d;
      var n :| n in members && n.finding.confidence == e;
      a := MovedFirst(members, m);
      b := MovedFirst(members, n);
      ConfidenceIsLowest(a);
      ConfidenceIsLowest(b);
    } else {
      var c :| c in Confidences(members) && c != "";
      var m :| m in members && m.finding.confidence == "";
      var n :| n in members && n.finding.confidence == c;
      a := MovedLast(members, m);
      b := MovedLast(members, n);
      SameElements(a, members);
      SameElements(b, members);
      assert Confidences(a) == Confidences(members) == Confidences(b);
      ConfidenceEndingInEmpty(a);
      ConfidenceEndingInKnown(b);
    }
  }

  // ---------- the whole occurrence ----------

  /** All that the incremental update maintains is the same whichever order the group's findings came in. */
  lemma GroupIgnoresOrder(context: Context, a: seq<Admission>, b: seq<Admission>)
    requires a != [] && b != [] && multiset(a) == multiset(b)
    requires SettledSeverity(Severities(a)) && SettledConfidence(Confidences(a))
    ensures var p, q := OccurrenceOf(context, a), OccurrenceOf(context, b);
            p.(harness := q.harness, ruleVersion := q.ruleVersion, scopeQuality := q.scopeQuality,
               scopeId := q.scopeId, dimensions := q.dimensions, fingerprint := q.fingerprint) == q
  {
    SettledSeverityAgrees(a, b);
    SettledConfidenceAgrees(a, b);
    BoundsIgnoreOrder(a, b);
    CitesIgnoreOrder(a, b);
    SignalIgnoresOrder(context, a, b);
    hide SortDistinct, FoldSeverity, FoldConfidence, Earliest, Latest, LeastId, AllCites, CommonSignal, Material, FindingScope;
  }

  // ---------- what the first finding gives a group ----------

  /** A finding's own scope counts unless the session's scope is in conflict. */
  predicate HintCounts(context: Context, finding: Finding) {
    finding.scopeHint != "" && context.scope.quality != Conflicting
  }

  /** The identity a finding is fingerprinted under. */
  lemma ScopeMeans(context: Context, finding: Finding)
    ensures var (identity, quality) := FindingScope(context, finding);
            && (HintCounts(context, finding) ==> identity == finding.scopeHint && quality == Lexical)
            && (!HintCounts(context, finding) ==>
                  && quality == context.scope.quality
                  && identity == if context.scope.quality in {Resolved, Lexical} && context.scope.projectScopeId != ""
                                 then context.scope.projectScopeId else context.scope.sessionKey)
  {
  }

  /** The rule and its version, and the types of the cited events that have one, each once and in order. */
  lemma MaterialMeans(context: Context, finding: Finding, cited: seq<string>) returns (types: seq<string>)
    ensures StrictlySorted(types, Less)
    ensures forall t :: t in types <==>
              t != "" && exists id :: id in cited && id in context.eventTypes && context.eventTypes[id] == t
    ensures var m := Material(context, finding, cited);
            && |m| == 4 + 2 * |types| && m[..4] == ["rule_id", finding.ruleId, "rule_version", finding.ruleVersion]
            && forall k :: 0 <= k < |types| ==> m[4 + 2 * k] == "event_type" && m[5 + 2 * k] == types[k]
  {
    types := SortDistinct(TypesOf(context, cited), Less);
    LessIsStrictTotal();
    SortDistinctSpec(TypesOf(context, cited), Less);
    TypesOfMeans(context, cited);
    TypePairs(types);
    hide SortDistinct, TypesOf, TypeMaterial, Less;
  }

  lemma {:induction false} TypesOfMeans(context: Context, cited: seq<string>)
    ensures forall t :: t in TypesOf(context, cited) <==>
              t != "" && exists id :: id in cited && id in context.eventTypes && context.eventTypes[id] == t
  {
    if cited != [] {
      TypesOfMeans(context, cited[1..]);
      assert cited == [cited[0]] + cited[1..];
      forall t
        ensures t in TypesOf(context, cited) <==>
                  t != "" && exists id :: id in cited && id in context.eventTypes && context.eventTypes[id] == t
      {
        if t in TypesOf(context, cited[1..]) {
          var id :| id in cited[1..] && id in context.eventTypes && context.eventTypes[id] == t;
          assert id in cited;
        }
        if id :| id in cited && id in context.eventTypes && context.eventTypes[id] == t && t != "" {
          assert id == cited[0] || id in cited[1..];
        }
      }
    }
  }

  lemma {:induction false} TypePairs(types: seq<string>)
    ensures |TypeMaterial(types)| == 2 * |types|
    ensures forall k :: 0 <= k < |types| ==>
              TypeMaterial(types)[2 * k] == "event_type" && TypeMaterial(types)[2 * k + 1] == types[k]
  {
    if types != [] {
      TypePairs(types[1..]);
      var rest := TypeMaterial(types[1..]);
      assert TypeMaterial(types) == ["event_type", types[0]] + rest;
      forall k | 0 < k < |types|
        ensures TypeMaterial(types)[2 * k] == "event_type" && TypeMaterial(types)[2 * k + 1] == types[k]
      {
        assert TypeMaterial(types)[2 * k] == rest[2 * (k - 1)] && TypeMaterial(types)[2 * k + 1] == rest[2 * (k - 1) + 1];
        assert types[k] == types[1..][k - 1];
      }
    }
  }

  /** The fields a group takes from its first finding. */
  lemma FirstFindingGives(context: Context, members: seq<Admission>)
    requires members != []
    ensures var o, f := OccurrenceOf(context, members), members[0].finding;
            && o.fingerprint == members[0].key && o.ruleVersion == f.ruleVersion
            && (o.harness == f.harness != "" || (f.harness == "" && o.harness == "unknown"))
            && o.dimensions == Material(context, f, members[0].cited)
            && o.scopeQuality == (if HintCounts(context, f) then Lexical else context.scope.quality)
            && o.scopeId == (if HintCounts(context, f) then f.scopeHint
                             else if context.scope.quality !in {Resolved, Lexical} then ""
                             else if context.scope.projectScopeId != "" then context.scope.projectScopeId
                             else context.scope.sessionKey)
  {
    hide Material, Smallest, SortDistinct, AllCites, FoldSeverity, FoldConfidence, LeastId, Earliest, Latest, CommonSignal;
  }

  /**
   * The caps: a finding keeps its first citations up to fifty, or up to the thousandth in all; and a hundred groups,
   * which all must be there to refuse one.
   */
  lemma GroupingCaps(context: Context, findings: seq<Finding>, n: nat)
    requires n <= |findings|
    ensures Spent(findings, n) <= 1000
    ensures forall i :: 0 <= i < n ==>
              var spent, cited, kept := Spent(findings, i), findings[i].cited, CitesOf(findings[i], Spent(findings, i));
              && kept <= cited && |kept| <= 50
              && (kept == cited || |kept| == 50 || spent + |kept| == 1000)
    ensures var all := Admissions(context, findings, n);
            && |AcceptedKeys(all)| <= 100
            && (forall a :: a in all && a.key !in AcceptedKeys(all) ==> |AcceptedKeys(all)| == 100)
  {
    assert CITATION_LIMIT == 1000 && ORIGIN_LIMIT == 100;
    AcceptedUnlessFull(Admissions(context, findings, n));
    hide AcceptedKeys, Admissions, Spent;
  }

  /** The citations of the first n findings, before any cut. */
  ghost function Cited(findings: seq<Finding>, n: nat): nat
    requires n <= |findings|
  {
    if n == 0 then 0 else Cited(findings, n - 1) + |findings[n - 1].cited|
  }

  /** A finding that keeps all it cites: fifty events at most, and within a thousand with those in front of it. */
  ghost predicate Fits(findings: seq<Finding>, i: nat)
    requires i < |findings|
  {
    |findings[i].cited| <= 50 && Cited(findings, i) < 1000 && Cited(findings, i) + |findings[i].cited| <= 1000
  }

  lemma SpentNext(findings: seq<Finding>, n: nat)
    requires n < |findings|
    ensures Spent(findings, n + 1) == Spent(findings, n) + |CitesOf(findings[n], Spent(findings, n))|
  {
    hide CitesOf;
  }

  lemma SpentStep(findings: seq<Finding>, n: nat)
    requires n < |findings|
    ensures Spent(findings, n + 1) == Spent(findings, n) + |CitesOf(findings[n], Spent(findings, n))|
    ensures NoneCut(findings, n + 1) <==>
              && NoneCut(findings, n)
              && Spent(findings, n) < CITATION_LIMIT && CitesOf(findings[n], Spent(findings, n)) == findings[n].cited
  {
    SpentNext(findings, n);
    hide Spent, CitesOf;
  }

  lemma NothingSpent(findings: seq<Finding>)
    ensures Spent(findings, 0) == Cited(findings, 0) == 0 && NoneCut(findings, 0)
  {
  }

  lemma FitsNext(findings: seq<Finding>, n: nat)
    requires n < |findings|
    ensures Cited(findings, n + 1) == Cited(findings, n) + |findings[n].cited|
    ensures Cited(findings, n) <= CITATION_LIMIT ==>
              (Fits(findings, n) <==>
                 Cited(findings, n) < CITATION_LIMIT && CitesOf(findings[n], Cited(findings, n)) == findings[n].cited)
    ensures Fits(findings, n) ==> Cited(findings, n + 1) <= CITATION_LIMIT
  {
  }

  lemma {:induction false} NoneCutIff(findings: seq<Finding>, n: nat)
    requires n <= |findings|
    ensures NoneCut(findings, n) <==> forall i :: 0 <= i < n ==> Fits(findings, i)
    ensures NoneCut(findings, n) ==> Spent(findings, n) == Cited(findings, n)
  {
    hide NoneCut, Spent, Fits, Cited, CitesOf;
    if n == 0 {
      NothingSpent(findings);
    } else {
      NoneCutIff(findings, n - 1);
      SpentStep(findings, n - 1);
      FitsNext(findings, n - 1);
    }
  }

  /** The result is reported as truncated unless every finding fits and the groups number at most a hundred. */
  lemma TruncatedIff(context: Context, findings: seq<Finding>)
    ensures NothingDropped(context, findings, |findings|) <==>
              && (forall i :: 0 <= i < |findings| ==> Fits(findings, i))
              && |KeysOf(Admissions(context, findings, |findings|))| <= 100
  {
    var all := Admissions(context, findings, |findings|);
    NoneCutIff(findings, |findings|);
    AcceptedUnlessFull(all);
    hide NoneCut, AcceptedKeys, KeysOf, Admissions, Fits;
    if |KeysOf(all)| <= 100 && |AcceptedKeys(all)| == 100 {
      SubsetCardinality(AcceptedKeys(all), KeysOf(all));
    }
    if KeysOf(all) <= AcceptedKeys(all) {
      SubsetCardinality(KeysOf(all), AcceptedKeys(all));
    }
  }

  // ---------- what a fingerprint fixes ----------

  ghost predicate Injective(fingerprint: (string, seq<string>) -> string) {
    forall s, m, t, n :: fingerprint(s, m) == fingerprint(t, n) ==> s == t && m == n
  }

  ghost predicate IsKeyed(context: Context, a: Admission) {
    a.key == context.fingerprint(FindingScope(context, a.finding).0, Material(context, a.finding, a.cited))
  }

  lemma {:induction false} AdmissionsAreKeyed(context: Context, findings: seq<Finding>, n: nat)
    requires n <= |findings|
    ensures forall a :: a in Admissions(context, findings, n) ==> IsKeyed(context, a)
  {
    if n > 0 {
      hide Material, FindingScope, CitesOf;
      AdmissionsAreKeyed(context, findings, n - 1);
    }
  }

  /** Findings with one fingerprint agree in scope, rule and dimensions, as long as fingerprints do not collide. */
  lemma OneKeyOneRule(context: Context, a: Admission, b: Admission)
    requires Injective(context.fingerprint) && IsKeyed(context, a) && IsKeyed(context, b) && a.key == b.key
    ensures FindingScope(context, a.finding).0 == FindingScope(context, b.finding).0
    ensures Material(context, a.finding, a.cited) == Material(context, b.finding, b.cited)
    ensures a.finding.ruleId == b.finding.ruleId && a.finding.ruleVersion == b.finding.ruleVersion
  {
    var x, y := Material(context, a.finding, a.cited), Material(context, b.finding, b.cited);
    assert x == y;
    assert x[1] == a.finding.ruleId && x[3] == a.finding.ruleVersion;
    assert y[1] == b.finding.ruleId && y[3] == b.finding.ruleVersion;
  }

  /** So only the harness and the scope's quality (and what it shows) can come from whichever finding is first. */
  lemma GroupOfOneKeyIgnoresOrder(context: Context, a: seq<Admission>, b: seq<Admission>, key: string)
    requires a != [] && b != [] && multiset(a) == multiset(b)
    requires SettledSeverity(Severities(a)) && SettledConfidence(Confidences(a))
    requires Injective(context.fingerprint) && forall m :: m in a ==> IsKeyed(context, m) && m.key == key
    ensures var p, q := OccurrenceOf(context, a), OccurrenceOf(context, b);
            p.(harness := q.harness, scopeQuality := q.scopeQuality, scopeId := q.scopeId) == q
    ensures OccurrenceOf(context, a).sourceSignal == context.signal(a[0].finding.ruleId)
  {
    SameElements(a, b);
    assert a[0] in a && b[0] in b && b[0] in a;
    OneKeyOneRule(context, a[0], b[0]);
    forall k | 0 <= k < |a|
      ensures context.signal(a[k].finding.ruleId) == context.signal(a[0].finding.ruleId)
    {
      assert a[k] in a;
      OneKeyOneRule(context, a[k], a[0]);
    }
    assert SameSignal(context, a, context.signal(a[0].finding.ruleId));
    hide SettledSeverity, SettledConfidence, Material, FindingScope, IsKeyed, Injective;
    GroupIgnoresOrder(context, a, b);
    hide FoldSeverity, FoldConfidence, Earliest, Latest, LeastId, Smallest, AllCites, SortDistinct;
  }

  // ---------- nothing is lost without being flagged ----------

  lemma {:induction false} UncutFindingsAreAdmitted(context: Context, findings: seq<Finding>, n: nat)
    requires n <= |findings| && NoneCut(findings, n)
    ensures var all := Admissions(context, findings, n);
            && |all| == n
            && forall i :: 0 <= i < n ==> all[i].finding == findings[i] && all[i].cited == findings[i].cited
  {
    hide Spent, CitesOf, FindingScope, Material;
    if n > 0 {
      UncutFindingsAreAdmitted(context, findings, n - 1);
    }
  }

  /** When nothing was dropped, every finding is in the group of a kept key with all its citations. */
  lemma UndroppedFindingsArePlaced(context: Context, findings: seq<Finding>)
    requires NothingDropped(context, findings, |findings|)
    ensures var all := Admissions(context, findings, |findings|);
            && |all| == |findings|
            && forall i :: 0 <= i < |all| ==>
                 && all[i].finding == findings[i] && all[i].cited == findings[i].cited
                 && all[i].key in AcceptedKeys(all) && all[i] in Members(all, all[i].key)
  {
    var all := Admissions(context, findings, |findings|);
    UncutFindingsAreAdmitted(context, findings, |findings|);
    hide AcceptedKeys, Members, Admissions, NoneCut;
    forall i | 0 <= i < |all|
      ensures all[i].key in AcceptedKeys(all) && all[i] in Members(all, all[i].key)
    {
      assert all[i] in all && all[i].key in KeysOf(all);
      MembersAreAll(all, all[i].key);
    }
  }
}
