/**
 * The narrowing check on approvals (`internal/experience/approval.go`) over normalized content
 * (`internal/experience/hash.go`).
 */
module Narrowing {
  import opened Common
  import opened Ordering
  import opened Experiences

  // ---------- normalization ----------

  function TrimmedItems(values: seq<string>): seq<string> {
    if values == [] then []
    else (if TrimSpace(values[0]) != "" then [TrimSpace(values[0])] else []) + TrimmedItems(values[1..])
  }

  function NormalizedStrings(values: seq<string>): seq<string> {
    SortDistinct(TrimmedItems(values), Less)
  }

  function NormalizedScope(scope: Scope): Scope {
    Scope(scope.kind, TrimSpace(scope.project), TrimSpace(scope.session),
          NormalizedStrings(scope.paths), NormalizedStrings(scope.families),
          SortDistinct(scope.harnesses, Less), NormalizedStrings(scope.models))
  }

  /** Conditions are sorted and compacted by their encoding, so only the set of them matters. */
  function NormalizedConditions(conditions: seq<Condition>): set<Condition> {
    set k | 0 <= k < |conditions| :: Condition(conditions[k].kind, NormalizedStrings(conditions[k].values))
  }

  function NormalizedGuidance(value: Guidance): Guidance {
    Guidance(TrimSpace(value.instruction), TrimSpace(value.rationale), NormalizedStrings(value.exceptions), value.strength)
  }

  function NormalizedVerifier(value: Verifier): Verifier {
    var spec := match value.spec
      case PathPatternNotModified(patterns) => PathPatternNotModified(NormalizedStrings(patterns))
      case VerificationAfterLastEdit(classes, success) => VerificationAfterLastEdit(NormalizedStrings(classes), success)
      case UserCorrectionAbsent(markers) => UserCorrectionAbsent(NormalizedStrings(markers))
      case other => other;
    Verifier(spec, SortDistinct(value.coverage, Less))
  }

  /** What the canonical content hash is taken of; hashes are equal exactly when this is. */
  datatype Canonical = Canonical(
    kind: string, scope: Scope, description: string, conditions: set<Condition>, exclusions: seq<string>,
    expiresAt: Option<int>, guidance: Guidance, verifier: Verifier)

  function CanonicalContent(p: Proposal): Canonical {
    Canonical(p.kind, NormalizedScope(p.scope), TrimSpace(p.applicability.description),
              NormalizedConditions(p.applicability.conditions), NormalizedStrings(p.applicability.exclusions),
              p.applicability.expiresAt, NormalizedGuidance(p.guidance), NormalizedVerifier(p.verifier))
  }

  /** A strictly sorted list stands for a set. */
  ghost predicate IsSetList(s: seq<string>) {
    StrictlySorted(s, Less)
  }

  lemma NormalizedIsSetList(values: seq<string>)
    ensures IsSetList(NormalizedStrings(values)) && |NormalizedStrings(values)| <= |TrimmedItems(values)| <= |values|
    ensures IsSetList(SortDistinct(values, Less)) && |SortDistinct(values, Less)| <= |values|
    ensures forall x :: x in SortDistinct(values, Less) <==> x in values
  {
    LessIsStrictTotal();
    SortDistinctSpec(TrimmedItems(values), Less);
    SortDistinctSpec(values, Less);
    TrimmedItemsShorter(values);
  }

  lemma {:induction false} TrimmedItemsShorter(values: seq<string>)
    ensures |TrimmedItems(values)| <= |values|
    ensures ValidItems(values) ==> TrimmedItems(values) == values
  {
    if values != [] {
      TrimmedItemsShorter(values[1..]);
      assert values == [values[0]] + values[1..];
    }
  }

  /** On validated items normalization only removes repetitions and order. */
  lemma NormalizedElements(values: seq<string>)
    requires ValidItems(values)
    ensures forall x :: x in NormalizedStrings(values) <==> x in values
    ensures NormalizedStrings(values) == [] <==> values == []
  {
    LessIsStrictTotal();
    TrimmedItemsShorter(values);
    SortDistinctSpec(values, Less);
    assert values != [] ==> values[0] in values;
    assert NormalizedStrings(values) != [] ==> NormalizedStrings(values)[0] in NormalizedStrings(values);
  }

  lemma SetListCardinality(s: seq<string>)
    requires IsSetList(s)
    ensures |set x | x in s| == |s|
  {
    LessIsStrictTotal();
    DistinctCount(s);
  }

  // ---------- one list ----------

  /** An empty list allows everything, so only an empty list can be replaced by anything. */
  predicate ListNarrows(original: seq<string>, approved: seq<string>) {
    original == [] || (approved != [] && forall k :: 0 <= k < |approved| ==> approved[k] in original)
  }

  predicate ListStrict(original: seq<string>, approved: seq<string>) {
    if original == [] then approved != [] else |approved| < |original|
  }

  method NarrowedComparableSet(original: seq<string>, approved: seq<string>) returns (valid: bool, strict: bool)
    ensures valid == ListNarrows(original, approved)
    ensures valid ==> strict == ListStrict(original, approved)
  {
    if |original| == 0 {
      return true, |approved| > 0;
    }
    if |approved| == 0 {
      return false, false;
    }
    var allowed := set x | x in original;
    for k := 0 to |approved|
      invariant forall i :: 0 <= i < k ==> approved[i] in original
    {
      if approved[k] !in allowed {
        return false, false;
      }
    }
    return true, |approved| < |original|;
  }

  lemma NarrowedListSize(original: seq<string>, approved: seq<string>)
    requires IsSetList(original) && IsSetList(approved) && ListNarrows(original, approved) && original != []
    ensures |approved| <= |original|
    ensures |approved| < |original| <==> exists x :: x in original && x !in approved
  {
    var a, b := set x | x in approved, set x | x in original;
    SetListCardinality(approved);
    SetListCardinality(original);
    assert a <= b by {
      forall x | x in a
        ensures x in b
      {
        var k :| 0 <= k < |approved| && approved[k] == x;
      }
    }
    SubsetCardinality(a, b);
    if a != b {
      var x :| x in b && x !in a;
      assert x in original && x !in approved;
    }
    assert forall x :: (x in a <==> x in approved) && (x in b <==> x in original);
  }

  /** Strictness is proper inclusion, where an empty list includes everything. */
  lemma StrictMeansProper(original: seq<string>, approved: seq<string>)
    requires IsSetList(original) && IsSetList(approved) && ListNarrows(original, approved)
    ensures ListStrict(original, approved) <==> original != approved
  {
    if original != [] {
      NarrowedListSize(original, approved);
      LessIsStrictTotal();
      if !ListStrict(original, approved) {
        forall x | x in approved
          ensures x in original
        {
          var k :| 0 <= k < |approved| && approved[k] == x;
        }
        StrictlySortedUnique(original, approved, Less);
      }
    } else {
      assert |original| == 0 && (!ListStrict(original, approved) ==> |approved| == 0);
    }
  }

  lemma ListsCompose(a: seq<string>, b: seq<string>, c: seq<string>)
    requires IsSetList(a) && IsSetList(b) && IsSetList(c)
    requires ListNarrows(a, b) && ListNarrows(b, c)
    ensures ListNarrows(a, c)
    ensures ListStrict(a, b) || ListStrict(b, c) ==> ListStrict(a, c)
  {
    if a != [] {
      NarrowedListSize(a, b);
      NarrowedListSize(b, c);
    }
  }

  // ---------- the whole check ----------

  predicate ExpiryNarrows(original: Option<int>, approved: Option<int>) {
    original.None? || (approved.Some? && approved.value <= original.value)
  }

  predicate SameOutsideScopeLists(o: Canonical, a: Canonical) {
    && a.kind == o.kind && a.scope.kind == o.scope.kind && a.scope.project == o.scope.project
    && a.scope.session == o.scope.session && a.guidance == o.guidance && a.verifier == o.verifier
    && a.description == o.description && a.conditions == o.conditions && a.exclusions == o.exclusions
  }

  predicate ListsNarrow(o: Scope, a: Scope) {
    && ListNarrows(o.paths, a.paths) && ListNarrows(o.families, a.families)
    && ListNarrows(o.models, a.models) && ListNarrows(o.harnesses, a.harnesses)
  }

  predicate SomeListStrict(o: Scope, a: Scope) {
    || ListStrict(o.paths, a.paths) || ListStrict(o.families, a.families)
    || ListStrict(o.models, a.models) || ListStrict(o.harnesses, a.harnesses)
  }

  predicate Narrows(original: Proposal, approved: Proposal) {
    var o, a := CanonicalContent(original), CanonicalContent(approved);
    && SameOutsideScopeLists(o, a) && ListsNarrow(o.scope, a.scope)
    && ExpiryNarrows(o.expiresAt, a.expiresAt) && SomeListStrict(o.scope, a.scope)
  }

  method ValidateNarrowedProposal(original: Proposal, approved: Proposal) returns (accepted: bool)
    ensures accepted == Narrows(original, approved)
  {
    hide CanonicalContent, ListNarrows, ListStrict;
    var o, a := CanonicalContent(original), CanonicalContent(approved);
    if !SameOutsideScopeLists(o, a) {
      return false;
    }
    var comparisons := [(o.scope.paths, a.scope.paths), (o.scope.families, a.scope.families), (o.scope.models, a.scope.models)];
    var strictlyNarrower := false;
    for k := 0 to |comparisons|
      invariant forall i :: 0 <= i < k ==> ListNarrows(comparisons[i].0, comparisons[i].1)
      invariant strictlyNarrower <==> exists i :: 0 <= i < k && ListStrict(comparisons[i].0, comparisons[i].1)
    {
      var valid, strict := NarrowedComparableSet(comparisons[k].0, comparisons[k].1);
      if !valid {
        return false;
      }
      strictlyNarrower := strictlyNarrower || strict;
    }
    assert comparisons[0] == (o.scope.paths, a.scope.paths) && comparisons[1] == (o.scope.families, a.scope.families)
           && comparisons[2] == (o.scope.models, a.scope.models);
    var valid, strict := NarrowedComparableSet(o.scope.harnesses, a.scope.harnesses);
    if !valid {
      return false;
    }
    strictlyNarrower := strictlyNarrower || strict;
    if !ExpiryNarrows(o.expiresAt, a.expiresAt) {
      return false;
    }
    return strictlyNarrower;
  }

  // ---------- what a narrowing keeps and what it restricts, in the proposals' own terms ----------

  /** The items a list names, without the space around them and without blank ones. */
  ghost function Items(values: seq<string>): set<string> {
    set k | 0 <= k < |values| && TrimSpace(values[k]) != "" :: TrimSpace(values[k])
  }

  lemma {:induction false} TrimmedItemsAre(values: seq<string>)
    ensures forall x :: x in TrimmedItems(values) <==> x in Items(values)
  {
    hide TrimSpace;
    if values != [] {
      TrimmedItemsAre(values[1..]);
      forall x
        ensures x in Items(values) <==> x in Items(values[1..]) || (x == TrimSpace(values[0]) != "")
      {
        if x in Items(values[1..]) {
          var k :| 0 <= k < |values[1..]| && TrimSpace(values[1..][k]) == x;
          assert values[k + 1] == values[1..][k];
        }
        if x in Items(values) && x != TrimSpace(values[0]) {
          var k :| 0 <= k < |values| && TrimSpace(values[k]) == x;
          assert values[1..][k - 1] == values[k];
        }
      }
    }
  }

  /** A normalised list names the items of the list, sorted and each once. */
  lemma NormalizedMeans(values: seq<string>)
    ensures IsListing(NormalizedStrings(values), Items(values), Less)
    ensures IsListing(SortDistinct(values, Less), Elements(values), Less)
  {
    LessIsStrictTotal();
    TrimmedItemsAre(values);
    SortDistinctSpec(TrimmedItems(values), Less);
    SortDistinctSpec(values, Less);
  }

  lemma SameItemsIff(a: seq<string>, b: seq<string>)
    ensures NormalizedStrings(a) == NormalizedStrings(b) <==> Items(a) == Items(b)
    ensures SortDistinct(a, Less) == SortDistinct(b, Less) <==> Elements(a) == Elements(b)
  {
    LessIsStrictTotal();
    NormalizedMeans(a);
    NormalizedMeans(b);
    hide NormalizedStrings, SortDistinct, Items, Elements, Less;
    SameListing(NormalizedStrings(a), NormalizedStrings(b), Items(a), Items(b));
    SameListing(SortDistinct(a, Less), SortDistinct(b, Less), Elements(a), Elements(b));
  }

  lemma SameListing(a: seq<string>, b: seq<string>, x: set<string>, y: set<string>)
    requires StrictTotal(Less) && IsListing(a, x, Less) && IsListing(b, y, Less)
    ensures a == b <==> x == y
  {
    if a == b {
      assert forall t :: t in x <==> t in a;
      assert forall t :: t in y <==> t in b;
    }
    if x == y {
      ListingUnique(a, b, x, Less);
    }
  }

  /** One verifier, up to the order, repetition and spacing of the lists it names. */
  ghost predicate SameVerifier(v: Verifier, w: Verifier) {
    && Elements(v.coverage) == Elements(w.coverage)
    && match v.spec
       case FileModified(p) => w.spec == FileModified(p)
       case FileNotModified(p) => w.spec == FileNotModified(p)
       case PathPatternNotModified(ps) => w.spec.PathPatternNotModified? && Items(ps) == Items(w.spec.patterns)
       case VerificationAfterLastEdit(cs, success) =>
         w.spec.VerificationAfterLastEdit? && Items(cs) == Items(w.spec.commandClasses) && success == w.spec.requireSuccess
       case UserCorrectionAbsent(ms) => w.spec.UserCorrectionAbsent? && Items(ms) == Items(w.spec.markerFamilies)
       case OtherVerifier(k, d) => w.spec == OtherVerifier(k, d)
  }

  lemma SameVerifierIff(v: Verifier, w: Verifier)
    ensures NormalizedVerifier(v) == NormalizedVerifier(w) <==> SameVerifier(v, w)
  {
    SameItemsIff(v.coverage, w.coverage);
    if v.spec.PathPatternNotModified? && w.spec.PathPatternNotModified? {
      SameItemsIff(v.spec.patterns, w.spec.patterns);
    } else if v.spec.VerificationAfterLastEdit? && w.spec.VerificationAfterLastEdit? {
      SameItemsIff(v.spec.commandClasses, w.spec.commandClasses);
    } else if v.spec.UserCorrectionAbsent? && w.spec.UserCorrectionAbsent? {
      SameItemsIff(v.spec.markerFamilies, w.spec.markerFamilies);
    }
    hide Items, Elements, NormalizedStrings, SortDistinct;
  }

  ghost predicate HasLike(c: Condition, y: seq<Condition>) {
    exists l :: 0 <= l < |y| && c.kind == y[l].kind && Items(c.values) == Items(y[l].values)
  }

  /** Each condition of one list has its like in the other. */
  ghost predicate ConditionsWithin(x: seq<Condition>, y: seq<Condition>) {
    forall k :: 0 <= k < |x| ==> HasLike(x[k], y)
  }

  lemma HasLikeIff(c: Condition, y: seq<Condition>)
    ensures HasLike(c, y) <==> Condition(c.kind, NormalizedStrings(c.values)) in NormalizedConditions(y)
  {
    forall l | 0 <= l < |y|
      ensures NormalizedStrings(c.values) == NormalizedStrings(y[l].values) <==> Items(c.values) == Items(y[l].values)
    {
      SameItemsIff(c.values, y[l].values);
    }
    hide NormalizedStrings, Items;
  }

  lemma ConditionsWithinIff(x: seq<Condition>, y: seq<Condition>)
    ensures NormalizedConditions(x) <= NormalizedConditions(y) <==> ConditionsWithin(x, y)
  {
    forall k | 0 <= k < |x|
      ensures HasLike(x[k], y) <==> Condition(x[k].kind, NormalizedStrings(x[k].values)) in NormalizedConditions(y)
    {
      HasLikeIff(x[k], y);
    }
    hide NormalizedStrings, HasLike;
    if NormalizedConditions(x) <= NormalizedConditions(y) {
      forall k | 0 <= k < |x|
        ensures HasLike(x[k], y)
      {
        assert Condition(x[k].kind, NormalizedStrings(x[k].values)) in NormalizedConditions(x);
      }
    }
  }

  /** Everything but the four scope lists and the expiry is the same, up to the order and spacing of lists. */
  ghost predicate KeepsTheRest(o: Proposal, a: Proposal) {
    && a.kind == o.kind && a.scope.kind == o.scope.kind
    && TrimSpace(a.scope.project) == TrimSpace(o.scope.project) && TrimSpace(a.scope.session) == TrimSpace(o.scope.session)
    && TrimSpace(a.applicability.description) == TrimSpace(o.applicability.description)
    && ConditionsWithin(o.applicability.conditions, a.applicability.conditions)
    && ConditionsWithin(a.applicability.conditions, o.applicability.conditions)
    && Items(a.applicability.exclusions) == Items(o.applicability.exclusions)
    && TrimSpace(a.guidance.instruction) == TrimSpace(o.guidance.instruction)
    && TrimSpace(a.guidance.rationale) == TrimSpace(o.guidance.rationale)
    && Items(a.guidance.exceptions) == Items(o.guidance.exceptions) && a.guidance.strength == o.guidance.strength
    && SameVerifier(a.verifier, o.verifier)
  }

  lemma KeepsTheRestIff(o: Proposal, a: Proposal)
    ensures SameOutsideScopeLists(CanonicalContent(o), CanonicalContent(a)) <==> KeepsTheRest(o, a)
  {
    SameVerifierIff(a.verifier, o.verifier);
    SameItemsIff(a.applicability.exclusions, o.applicability.exclusions);
    SameItemsIff(a.guidance.exceptions, o.guidance.exceptions);
    ConditionsWithinIff(o.applicability.conditions, a.applicability.conditions);
    ConditionsWithinIff(a.applicability.conditions, o.applicability.conditions);
    hide Items, NormalizedStrings, NormalizedVerifier, SameVerifier, NormalizedConditions, ConditionsWithin, TrimSpace;
  }

  /** No item may be named where none was, all may be dropped only if there were none, and none may be added. */
  predicate ItemsWithin(o: set<string>, a: set<string>) {
    o == {} || (a != {} && a <= o)
  }

  lemma ItemsWithinIff(original: seq<string>, approved: seq<string>, o: set<string>, a: set<string>)
    requires StrictTotal(Less) && IsListing(original, o, Less) && IsListing(approved, a, Less)
    ensures ListNarrows(original, approved) <==> ItemsWithin(o, a)
    ensures ListNarrows(original, approved) ==> (ListStrict(original, approved) <==> o != a)
  {
    assert (original == [] <==> o == {}) by { assert original != [] ==> original[0] in o; }
    assert (approved == [] <==> a == {}) by { assert approved != [] ==> approved[0] in a; }
    SameListing(original, approved, o, a);
    if ListNarrows(original, approved) {
      StrictMeansProper(original, approved);
    }
    assert forall k :: 0 <= k < |approved| ==> approved[k] in a;
  }

  /**
   * Exactly which proposals a narrowed approval accepts: all else is kept, each scope list stays within the
   * original's, some of them gets smaller, and the expiry comes no later.
   */
  lemma NarrowsIff(o: Proposal, a: Proposal)
    ensures Narrows(o, a) <==>
              && KeepsTheRest(o, a)
              && ItemsWithin(Items(o.scope.paths), Items(a.scope.paths))
              && ItemsWithin(Items(o.scope.families), Items(a.scope.families))
              && ItemsWithin(Items(o.scope.models), Items(a.scope.models))
              && ItemsWithin(Elements(o.scope.harnesses), Elements(a.scope.harnesses))
              && (|| Items(o.scope.paths) != Items(a.scope.paths) || Items(o.scope.families) != Items(a.scope.families)
                  || Items(o.scope.models) != Items(a.scope.models)
                  || Elements(o.scope.harnesses) != Elements(a.scope.harnesses))
              && (|| o.applicability.expiresAt.None?
                  || (a.applicability.expiresAt.Some?
                      && a.applicability.expiresAt.value <= o.applicability.expiresAt.value))
  {
    KeepsTheRestIff(o, a);
    LessIsStrictTotal();
    ListsWithin(o.scope.paths, a.scope.paths);
    ListsWithin(o.scope.families, a.scope.families);
    ListsWithin(o.scope.models, a.scope.models);
    ListsWithin(o.scope.harnesses, a.scope.harnesses);
    hide KeepsTheRest, SameOutsideScopeLists, Items, Elements;
    hide NormalizedStrings, SortDistinct, ListNarrows, ListStrict, ItemsWithin;
    hide NormalizedConditions, NormalizedGuidance, NormalizedVerifier;
  }

  lemma ListsWithin(o: seq<string>, a: seq<string>)
    ensures ListNarrows(NormalizedStrings(o), NormalizedStrings(a)) <==> ItemsWithin(Items(o), Items(a))
    ensures ItemsWithin(Items(o), Items(a)) ==>
              (ListStrict(NormalizedStrings(o), NormalizedStrings(a)) <==> Items(o) != Items(a))
    ensures ListNarrows(SortDistinct(o, Less), SortDistinct(a, Less)) <==> ItemsWithin(Elements(o), Elements(a))
    ensures ItemsWithin(Elements(o), Elements(a)) ==>
              (ListStrict(SortDistinct(o, Less), SortDistinct(a, Less)) <==> Elements(o) != Elements(a))
  {
    LessIsStrictTotal();
    NormalizedMeans(o);
    NormalizedMeans(a);
    hide Items, Elements, NormalizedStrings, SortDistinct, Less, ListNarrows, ListStrict, ItemsWithin, IsListing, StrictTotal;
    ItemsWithinIff(NormalizedStrings(o), NormalizedStrings(a), Items(o), Items(a));
    ItemsWithinIff(SortDistinct(o, Less), SortDistinct(a, Less), Elements(o), Elements(a));
  }

  datatype ApprovalMode = AsProposed | Narrowed | UserEdited | OtherMode(name: string)

  /** `ValidateApprovedProposal`, with content hashes compared through what they are taken of. */
  method ValidateApprovedProposal(original: Proposal, approved: Proposal, mode: ApprovalMode) returns (accepted: bool)
    ensures accepted <==>
              && ValidProposal(approved) && !approved.pending && approved.scope.project == original.scope.project
              && ((mode == Narrowed && Narrows(original, approved))
                  || (mode == UserEdited && CanonicalContent(approved) != CanonicalContent(original)))
    ensures accepted ==> CanonicalContent(approved) != CanonicalContent(original)
  {
    if mode != Narrowed && mode != UserEdited {
      return false;
    }
    if !ValidProposal(approved) || approved.pending || approved.scope.project != original.scope.project {
      return false;
    }
    if mode == UserEdited {
      return CanonicalContent(approved) != CanonicalContent(original);
    }
    accepted := ValidateNarrowedProposal(original, approved);
    if accepted {
      NarrowingChangesContent(original, approved);
    }
  }

  // ---------- a strict partial order without infinite chains ----------

  lemma CanonicalScopeLists(p: Proposal)
    ensures var s := CanonicalContent(p).scope;
            IsSetList(s.paths) && IsSetList(s.families) && IsSetList(s.models) && IsSetList(s.harnesses)
    ensures ValidScope(p.scope) ==>
              var s := CanonicalContent(p).scope;
              && |s.paths| <= MAX_LIST_ITEMS && |s.families| <= MAX_LIST_ITEMS
              && |s.models| <= MAX_LIST_ITEMS && |s.harnesses| <= MAX_LIST_ITEMS
  {
    NormalizedIsSetList(p.scope.paths);
    NormalizedIsSetList(p.scope.families);
    NormalizedIsSetList(p.scope.models);
    NormalizedIsSetList(p.scope.harnesses);
  }

  /** A narrowing always changes the content, so nothing narrows itself. */
  lemma NarrowingChangesContent(o: Proposal, a: Proposal)
    requires Narrows(o, a)
    ensures CanonicalContent(o).scope != CanonicalContent(a).scope
  {
  }

  lemma NarrowingIsTransitive(a: Proposal, b: Proposal, c: Proposal)
    requires Narrows(a, b) && Narrows(b, c)
    ensures Narrows(a, c)
  {
    CanonicalScopeLists(a);
    CanonicalScopeLists(b);
    CanonicalScopeLists(c);
    hide CanonicalContent, IsSetList, ListNarrows, ListStrict;
    var x, y, z := CanonicalContent(a).scope, CanonicalContent(b).scope, CanonicalContent(c).scope;
    ListsCompose(x.paths, y.paths, z.paths);
    ListsCompose(x.families, y.families, z.families);
    ListsCompose(x.models, y.models, z.models);
    ListsCompose(x.harnesses, y.harnesses, z.harnesses);
  }

  /** How much a list allows: the empty list more than any list within the limit. */
  function Rank(items: seq<string>): nat {
    if items == [] then MAX_LIST_ITEMS + 1 else |items|
  }

  function Measure(p: Proposal): nat {
    var s := CanonicalContent(p).scope;
    Rank(s.paths) + Rank(s.families) + Rank(s.models) + Rank(s.harnesses)
  }

  lemma RankDecreases(original: seq<string>, approved: seq<string>)
    requires IsSetList(original) && IsSetList(approved) && ListNarrows(original, approved)
    requires |approved| <= MAX_LIST_ITEMS
    ensures Rank(approved) <= Rank(original)
    ensures ListStrict(original, approved) ==> Rank(approved) < Rank(original)
  {
    if original != [] {
      NarrowedListSize(original, approved);
    }
  }

  lemma NarrowingDecreasesMeasure(o: Proposal, a: Proposal)
    requires Narrows(o, a) && ValidScope(a.scope)
    ensures Measure(a) < Measure(o)
  {
    CanonicalScopeLists(o);
    CanonicalScopeLists(a);
    hide CanonicalContent, IsSetList, ListNarrows, ListStrict, Rank, ValidScope;
    var x, y := CanonicalContent(o).scope, CanonicalContent(a).scope;
    RankDecreases(x.paths, y.paths);
    RankDecreases(x.families, y.families);
    RankDecreases(x.models, y.models);
    RankDecreases(x.harnesses, y.harnesses);
  }

  /** Every chain of accepted narrowings is finite: no longer than the measure of its first element. */
  lemma {:induction false} NarrowingChainsAreFinite(chain: seq<Proposal>)
    requires chain != []
    requires forall k :: 0 < k < |chain| ==> Narrows(chain[k - 1], chain[k]) && ValidScope(chain[k].scope)
    ensures |chain| - 1 <= Measure(chain[0])
    ensures |chain| - 1 + Measure(chain[|chain| - 1]) <= Measure(chain[0])
  {
    if |chain| > 1 {
      hide Narrows, ValidScope, Measure;
      var front := chain[..|chain| - 1];
      NarrowingChainsAreFinite(front);
      NarrowingDecreasesMeasure(front[|front| - 1], chain[|chain| - 1]);
    }
  }
}
