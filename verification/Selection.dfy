/** Selecting experiences for a request within a budget (`Select` in `internal/localapp/experience_compiler.go`). */
module Selection {
  import opened Common
  import opened Ordering
  import opened Experiences
  import opened Eligibility
  import opened Conflict

  const MAX_GENERATION_REFS := 500
  const MAX_SELECTED := 3
  const MAX_TOKENS := 600

  /** A stored experience with its rebuilt lifecycle and the length of its verifier's canonical encoding. */
  datatype Stored = Stored(
    experience: Experience, lifecycleKnown: bool, active: bool, expiresAt: Option<int>, verifierBytes: nat)

  type Store = map<ExperienceRef, Stored>

  datatype Generation = Generation(project: string, refs: seq<ExperienceRef>)

  datatype Selected = Selected(ref: ExperienceRef, content: Proposal, score: int, tokens: nat)

  datatype SelectionResult = SelectionResult(refs: seq<ExperienceRef>, selected: seq<Selected>, tokens: nat)

  function ByteCount(parts: seq<string>): nat {
    if parts == [] then 0 else |parts[0]| + ByteCount(parts[1..])
  }

  function EstimateTokens(stored: Stored): nat {
    var guidance := stored.experience.content.guidance;
    (|guidance.instruction| + |guidance.rationale| + stored.verifierBytes + ByteCount(guidance.exceptions) + 3) / 4
  }

  // ---------- what is selected from ----------

  predicate Sound(store: Store, project: string, request: Request, ref: ExperienceRef) {
    && ref in store
    && ValidExperience(store[ref].experience) && store[ref].experience.ref == ref
    && store[ref].experience.content.scope.project == project == request.project
    && store[ref].lifecycleKnown
    && store[ref].expiresAt == store[ref].experience.content.applicability.expiresAt
  }

  predicate Admitted(store: Store, request: Request, now: int, ref: ExperienceRef) {
    && ref in store && store[ref].active
    && (store[ref].expiresAt.Some? ==> store[ref].expiresAt.value > now)
    && Eligible(store[ref].experience.content, request)
  }

  function Item(store: Store, request: Request, ref: ExperienceRef): Selected
    requires ref in store
  {
    var content := store[ref].experience.content;
    Selected(ref, content, ScoreOf(content, request), EstimateTokens(store[ref]))
  }

  /** The first n references are soundly stored. */
  ghost predicate AllSound(store: Store, project: string, request: Request, refs: seq<ExperienceRef>, n: nat)
    requires n <= |refs|
  {
    forall k :: 0 <= k < n ==> Sound(store, project, request, refs[k])
  }

  /** The admitted experiences of the first n references. */
  function Admissions(store: Store, request: Request, now: int, refs: seq<ExperienceRef>, n: nat): seq<Selected>
    requires n <= |refs|
  {
    if n == 0 then []
    else
      var ref := refs[n - 1];
      Admissions(store, request, now, refs, n - 1)
      + (if Admitted(store, request, now, ref) then [Item(store, request, ref)] else [])
  }

  lemma SoundIsStored(store: Store, project: string, request: Request, ref: ExperienceRef)
    requires Sound(store, project, request, ref)
    ensures ref in store
  {
  }

  lemma NextSound(store: Store, project: string, request: Request, refs: seq<ExperienceRef>, k: nat)
    requires k < |refs|
    ensures AllSound(store, project, request, refs, k + 1) <==>
              AllSound(store, project, request, refs, k) && Sound(store, project, request, refs[k])
    ensures !Sound(store, project, request, refs[k]) ==> !AllSound(store, project, request, refs, |refs|)
  {
    hide Sound;
  }

  lemma NextAdmission(store: Store, request: Request, now: int, refs: seq<ExperienceRef>, n: nat)
    requires n < |refs|
    ensures Admissions(store, request, now, refs, n + 1) ==
            Admissions(store, request, now, refs, n)
            + (if Admitted(store, request, now, refs[n]) then [Item(store, request, refs[n])] else [])
  {
  }

  predicate RankBefore(a: Selected, b: Selected) {
    if a.score != b.score then a.score > b.score else RefBefore(a.ref, b.ref)
  }

  lemma RankBeforeIsStrictWeak()
    ensures StrictWeak(RankBefore)
  {
    OrdersAreTotal();
  }

  // ---------- the greedy choice ----------

  function TotalTokens(items: seq<Selected>): nat {
    if items == [] then 0 else TotalTokens(items[..|items| - 1]) + items[|items| - 1].tokens
  }

  predicate Fits(picks: seq<Selected>, item: Selected) {
    |picks| < MAX_SELECTED && TotalTokens(picks) + item.tokens <= MAX_TOKENS
  }

  /** The picks among the first n ranked items. */
  function Picks(ranked: seq<Selected>, n: nat): seq<Selected>
    requires n <= |ranked|
  {
    if n == 0 then []
    else
      var above := Picks(ranked, n - 1);
      if Fits(above, ranked[n - 1]) then above + [ranked[n - 1]] else above
  }

  lemma {:induction false} PicksGrow(ranked: seq<Selected>, k: nat, n: nat)
    requires k <= n <= |ranked|
    ensures Picks(ranked, k) <= Picks(ranked, n)
    decreases n
  {
    if k < n {
      PicksGrow(ranked, k, n - 1);
    }
  }

  lemma OneMoreToken(items: seq<Selected>, item: Selected)
    ensures TotalTokens(items + [item]) == TotalTokens(items) + item.tokens
  {
    assert (items + [item])[..|items|] == items;
  }

  lemma {:induction false} PicksWithinBudget(ranked: seq<Selected>, n: nat)
    requires n <= |ranked|
    ensures |Picks(ranked, n)| <= MAX_SELECTED && TotalTokens(Picks(ranked, n)) <= MAX_TOKENS
    ensures forall x :: x in Picks(ranked, n) ==> x in ranked[..n]
  {
    if n > 0 {
      PicksWithinBudget(ranked, n - 1);
      var above := Picks(ranked, n - 1);
      OneMoreToken(above, ranked[n - 1]);
      assert ranked[..n] == ranked[..n - 1] + [ranked[n - 1]];
      hide TotalTokens;
    }
  }

  /**
   * Each ranked item is either picked, right after the picks ranked above it, or came after three picks,
   * or overflowed the budget those picks left.
   */
  lemma EveryChoiceIsJustified(ranked: seq<Selected>, k: nat)
    requires k < |ranked|
    ensures var result, above := Picks(ranked, |ranked|), Picks(ranked, k);
            && above <= result && (forall x :: x in above ==> x in ranked[..k])
            && ((|above| < |result| && result[|above|] == ranked[k])
                || |above| == MAX_SELECTED
                || TotalTokens(above) + ranked[k].tokens > MAX_TOKENS)
  {
    PicksGrow(ranked, k, |ranked|);
    PicksGrow(ranked, k + 1, |ranked|);
    PicksWithinBudget(ranked, k);
  }

  // ---------- the whole selection ----------

  ghost function SelectOf(store: Store, generation: Generation, request: Request, now: int): Result<SelectionResult> {
    var refs := Sort(generation.refs, RefBefore);
    if generation.project != request.project || |refs| > MAX_GENERATION_REFS
       || !Distinct(generation.refs) || !AllSound(store, generation.project, request, refs, |refs|)
       || exists k :: 0 <= k < |refs| && !ValidRef(refs[k])
    then Err
    else
      var ranked := Sort(Admissions(store, request, now, refs, |refs|), RankBefore);
      var picks := Picks(ranked, |ranked|);
      Ok(SelectionResult(refs, picks, TotalTokens(picks)))
  }

  method PickGreedily(ranked: seq<Selected>) returns (selected: seq<Selected>, tokens: nat)
    ensures selected == Picks(ranked, |ranked|) && tokens == TotalTokens(selected)
  {
    selected, tokens := [], 0;
    for k := 0 to |ranked|
      invariant selected == Picks(ranked, k) && tokens == TotalTokens(selected) && |selected| <= MAX_SELECTED
    {
      if |selected| == MAX_SELECTED {
        FullPicksStay(ranked, k, |ranked|);
        break;
      }
      if ranked[k].tokens > MAX_TOKENS || tokens + ranked[k].tokens > MAX_TOKENS {
        continue;
      }
      assert (selected + [ranked[k]])[..|selected|] == selected;
      selected := selected + [ranked[k]];
      tokens := tokens + ranked[k].tokens;
    }
  }

  lemma {:induction false} FullPicksStay(ranked: seq<Selected>, k: nat, n: nat)
    requires k <= n <= |ranked| && |Picks(ranked, k)| == MAX_SELECTED
    ensures Picks(ranked, n) == Picks(ranked, k)
    decreases n
  {
    if k < n {
      FullPicksStay(ranked, k, n - 1);
    }
  }

  lemma SortedRefs(refs: seq<ExperienceRef>)
    ensures |Sort(refs, RefBefore)| == |refs| && forall x :: x in Sort(refs, RefBefore) <==> x in refs
  {
    SortMultiset(refs, RefBefore);
    SortElements(refs, RefBefore);
  }

  method CheckRefs(refs: seq<ExperienceRef>) returns (sound: bool)
    ensures sound <==> Distinct(refs) && forall ref :: ref in refs ==> ValidRef(ref)
  {
    var seen: set<ExperienceRef> := {};
    for k := 0 to |refs|
      invariant forall i :: 0 <= i < k ==> ValidRef(refs[i])
      invariant forall x :: x in seen <==> exists i :: 0 <= i < k && refs[i] == x
      invariant Distinct(refs[..k])
    {
      if !ValidRef(refs[k]) || refs[k] in seen {
        assert refs[k] in refs;
        return false;
      }
      seen := seen + {refs[k]};
    }
    assert refs[..|refs|] == refs;
    return true;
  }

  /** One stored experience: active, unexpired and eligible, with its score and tokens. */
  method AdmitRef(store: Store, request: Request, now: int, ref: ExperienceRef) returns (item: Option<Selected>)
    requires ref in store
    ensures item == if Admitted(store, request, now, ref) then Some(Item(store, request, ref)) else None
  {
    hide Eligible, ScoreOf, EstimateTokens;
    var stored := store[ref];
    if !stored.active {
      return None;
    }
    if stored.expiresAt.Some? && stored.expiresAt.value <= now {
      return None;
    }
    var score, eligibleForRequest := ScoreExperience(stored.experience.content, request);
    if !eligibleForRequest {
      return None;
    }
    return Some(Selected(ref, stored.experience.content, score, EstimateTokens(stored)));
  }

  /** The checks on one stored experience, in order. */
  method LoadRef(store: Store, project: string, request: Request, ref: ExperienceRef) returns (sound: bool)
    ensures sound == Sound(store, project, request, ref)
  {
    hide ValidExperience;
    if ref !in store {
      return false;
    }
    var stored := store[ref];
    var value := stored.experience;
    if !ValidExperience(value) {
      return false;
    }
    if value.ref != ref || value.content.scope.project != project || value.content.scope.project != request.project {
      return false;
    }
    if !stored.lifecycleKnown {
      return false;
    }
    return stored.expiresAt == value.content.applicability.expiresAt;
  }

  method AdmitRefs(store: Store, project: string, request: Request, now: int, refs: seq<ExperienceRef>)
    returns (result: Result<seq<Selected>>)
    ensures result.Ok? <==> AllSound(store, project, request, refs, |refs|)
    ensures result.Ok? ==> result.value == Admissions(store, request, now, refs, |refs|)
  {
    assert Admissions(store, request, now, refs, 0) == [] && AllSound(store, project, request, refs, 0);
    hide Sound, Admissions, Admitted, Item, AllSound;
    var eligible: seq<Selected> := [];
    for k := 0 to |refs|
      invariant AllSound(store, project, request, refs, k)
      invariant eligible == Admissions(store, request, now, refs, k)
    {
      var ref := refs[k];
      NextSound(store, project, request, refs, k);
      var sound := LoadRef(store, project, request, ref);
      if !sound {
        return Err;
      }
      SoundIsStored(store, project, request, ref);
      NextAdmission(store, request, now, refs, k);
      var item := AdmitRef(store, request, now, ref);
      if item.None? {
        continue;
      }
      eligible := eligible + [item.value];
    }
    return Ok(eligible);
  }

  method Select(store: Store, generation: Generation, request: Request, now: int) returns (result: Result<SelectionResult>)
    ensures result == SelectOf(store, generation, request, now)
  {
    hide Sound, ValidRef, RefBefore, Sort;
    SortedRefs(generation.refs);
    var refs := Sort(generation.refs, RefBefore);
    assert (exists k :: 0 <= k < |refs| && !ValidRef(refs[k])) <==> (exists ref :: ref in refs && !ValidRef(ref));
    if generation.project != request.project || |generation.refs| > MAX_GENERATION_REFS {
      return Err;
    }
    var distinct := CheckRefs(generation.refs);
    if !distinct {
      return Err;
    }
    var admitted := AdmitRefs(store, generation.project, request, now, refs);
    if admitted.Err? {
      return Err;
    }
    var ranked := Sort(admitted.value, RankBefore);
    var selected, tokens := PickGreedily(ranked);
    return Ok(SelectionResult(refs, selected, tokens));
  }

  // ---------- properties of the selection ----------

  /** The order of the generation's references does not matter. */
  lemma SelectionIgnoresRefOrder(store: Store, g: Generation, h: Generation, request: Request, now: int)
    requires g.project == h.project && multiset(g.refs) == multiset(h.refs)
    ensures SelectOf(store, g, request, now) == SelectOf(store, h, request, now)
  {
    var x, y := Sort(g.refs, RefBefore), Sort(h.refs, RefBefore);
    OrdersAreTotal();
    SortSorted(g.refs, RefBefore);
    SortSorted(h.refs, RefBefore);
    SortMultiset(g.refs, RefBefore);
    SortMultiset(h.refs, RefBefore);
    SortedUnique(x, y, RefBefore);
    DistinctPermuted(g.refs, h.refs);
    DistinctPermuted(h.refs, g.refs);
  }

  lemma DistinctPermuted(a: seq<ExperienceRef>, b: seq<ExperienceRef>)
    requires multiset(a) == multiset(b)
    ensures Distinct(a) ==> Distinct(b)
  {
    forall i, j | 0 <= i < j < |b| && Distinct(a)
      ensures b[i] != b[j]
    {
      var x := PermutedPosition(b, a, i);
      var y := PermutedPair(b, a, i, j, x);
    }
  }

  lemma {:induction false} AdmissionsSpec(store: Store, request: Request, now: int, refs: seq<ExperienceRef>, n: nat)
    requires n <= |refs|
    ensures forall x :: x in Admissions(store, request, now, refs, n) <==>
              x.ref in refs[..n] && x.ref in store && Admitted(store, request, now, x.ref) && x == Item(store, request, x.ref)
  {
    hide Admitted, Item;
    if n > 0 {
      AdmissionsSpec(store, request, now, refs, n - 1);
      assert refs[..n] == refs[..n - 1] + [refs[n - 1]];
      ItemRef(store, request, now, refs[n - 1]);
    }
  }

  lemma ItemRef(store: Store, request: Request, now: int, ref: ExperienceRef)
    ensures Admitted(store, request, now, ref) ==> ref in store && Item(store, request, ref).ref == ref
  {
  }

  /** Admitted experiences are ranked in one way only. */
  lemma RankingIsUnique(store: Store, request: Request, now: int, refs: seq<ExperienceRef>, ranked: seq<Selected>)
    requires multiset(ranked) == multiset(Admissions(store, request, now, refs, |refs|)) && Sorted(ranked, RankBefore)
    ensures ranked == Sort(Admissions(store, request, now, refs, |refs|), RankBefore)
  {
    var items := Admissions(store, request, now, refs, |refs|);
    AdmissionsSpec(store, request, now, refs, |refs|);
    RankBeforeIsStrictWeak();
    SortSorted(items, RankBefore);
    SortMultiset(items, RankBefore);
    OrdersAreTotal();
    forall x, y | x in ranked && y in ranked && x != y
      ensures RankBefore(x, y) || RankBefore(y, x)
    {
      assert x in multiset(items) && y in multiset(items);
      assert x.ref != y.ref;
    }
    SortedUnique(ranked, Sort(items, RankBefore), RankBefore);
  }

  /** At most three experiences within 600 tokens, each active, unexpired and eligible for the request. */
  lemma SelectionIsBounded(store: Store, generation: Generation, request: Request, now: int)
    requires SelectOf(store, generation, request, now).Ok?
    ensures var r := SelectOf(store, generation, request, now).value;
            && |r.selected| <= 3 && r.tokens == TotalTokens(r.selected) <= 600
            && (forall x :: x in r.selected ==>
                  x.ref in generation.refs && x.ref in store && Admitted(store, request, now, x.ref)
                  && x.content == store[x.ref].experience.content)
  {
    assert MAX_SELECTED == 3 && MAX_TOKENS == 600;
    var refs := Sort(generation.refs, RefBefore);
    var items := Admissions(store, request, now, refs, |refs|);
    var ranked := Sort(items, RankBefore);
    SortedRefs(generation.refs);
    AdmissionsSpec(store, request, now, refs, |refs|);
    SortElements(items, RankBefore);
    PicksWithinBudget(ranked, |ranked|);
    hide Admitted, ScoreOf, EstimateTokens;
    assert refs[..|refs|] == refs && ranked[..|ranked|] == ranked;
  }

  // ---------- what is selected, without the ranking ----------

  predicate SmallerRef(a: ExperienceRef, b: ExperienceRef) {
    Less(a.id, b.id) || (a.id == b.id && a.version < b.version)
  }

  /** A higher score, or the same score and a smaller reference. */
  predicate Better(a: Selected, b: Selected) {
    a.score > b.score || (a.score == b.score && SmallerRef(a.ref, b.ref))
  }

  lemma BetterIsRank(a: Selected, b: Selected)
    ensures Better(a, b) <==> RankBefore(a, b)
  {
    LessTotal(a.ref.id, a.ref.id);
  }

  /** The items of a list that are better than a given one. */
  function BetterThan(items: seq<Selected>, item: Selected): seq<Selected> {
    if items == [] then []
    else
      var last := items[|items| - 1];
      BetterThan(items[..|items| - 1], item) + (if Better(last, item) then [last] else [])
  }

  lemma {:induction false} PicksAscend(ranked: seq<Selected>, n: nat)
    requires n <= |ranked| && forall i, j :: 0 <= i < j < |ranked| ==> Better(ranked[i], ranked[j])
    ensures forall x :: x in Picks(ranked, n) ==> exists k :: 0 <= k < n && ranked[k] == x
    ensures forall i, j :: 0 <= i < j < |Picks(ranked, n)| ==> Better(Picks(ranked, n)[i], Picks(ranked, n)[j])
  {
    hide Better, Fits;
    if n > 0 {
      PicksAscend(ranked, n - 1);
      var before, picks := Picks(ranked, n - 1), Picks(ranked, n);
      forall i | 0 <= i < |before|
        ensures Better(before[i], ranked[n - 1])
      {
        assert before[i] in before;
      }
    }
  }

  /** The picks above the k-th item are those of the result that are better than it. */
  lemma {:induction false} PicksAbove(ranked: seq<Selected>, k: nat, n: nat)
    requires k <= n <= |ranked| && k < |ranked|
    requires forall i, j :: 0 <= i < j < |ranked| ==> Better(ranked[i], ranked[j])
    ensures BetterThan(Picks(ranked, n), ranked[k]) == Picks(ranked, k)
    decreases n
  {
    if n == k {
      PicksAscend(ranked, k);
      hide Better;
      AllBetter(Picks(ranked, k), ranked[k]);
    } else {
      PicksAbove(ranked, k, n - 1);
      var before, last := Picks(ranked, n - 1), ranked[n - 1];
      assert (before + [last])[..|before|] == before;
      NotBetter(ranked[k], last);
      if n - 1 == k {
        NotBetterThanItself(last);
      }
      hide Better, Fits;
    }
  }

  lemma NotBetter(a: Selected, b: Selected)
    ensures Better(a, b) ==> !Better(b, a)
  {
    LessTotal(a.ref.id, b.ref.id);
  }

  lemma NotBetterThanItself(a: Selected)
    ensures !Better(a, a)
  {
    LessTotal(a.ref.id, a.ref.id);
  }

  lemma {:induction false} AllBetter(items: seq<Selected>, item: Selected)
    requires forall x :: x in items ==> Better(x, item)
    ensures BetterThan(items, item) == items
  {
    hide Better;
    if items != [] {
      AllBetter(items[..|items| - 1], item);
      assert items == items[..|items| - 1] + [items[|items| - 1]];
    }
  }

  lemma {:induction false} AdmissionsDistinct(store: Store, request: Request, now: int, refs: seq<ExperienceRef>, n: nat)
    requires n <= |refs| && Distinct(refs)
    ensures forall i, j :: 0 <= i < j < |Admissions(store, request, now, refs, n)| ==>
              Admissions(store, request, now, refs, n)[i].ref != Admissions(store, request, now, refs, n)[j].ref
  {
    hide Admitted, Item;
    if n > 0 {
      AdmissionsDistinct(store, request, now, refs, n - 1);
      AdmissionsSpec(store, request, now, refs, n - 1);
      ItemRef(store, request, now, refs[n - 1]);
      var before := Admissions(store, request, now, refs, n - 1);
      forall i | 0 <= i < |before|
        ensures before[i].ref != refs[n - 1]
      {
        assert before[i] in before;
        var k :| 0 <= k < n - 1 && refs[..n - 1][k] == before[i].ref;
      }
    }
  }

  /** The ranking of a selection: every admitted experience once, the better before the worse. */
  lemma RankingOf(store: Store, generation: Generation, request: Request, now: int) returns (ranked: seq<Selected>)
    requires SelectOf(store, generation, request, now).Ok?
    ensures SelectOf(store, generation, request, now).value.selected == Picks(ranked, |ranked|)
    ensures forall i, j :: 0 <= i < j < |ranked| ==> Better(ranked[i], ranked[j])
    ensures forall x :: x in ranked <==>
              && x.ref in generation.refs && x.ref in store
              && Admitted(store, request, now, x.ref) && x == Item(store, request, x.ref)
  {
    var refs := DistinctRefs(store, generation, request, now);
    var items := Admissions(store, request, now, refs, |refs|);
    ranked := Sort(items, RankBefore);
    hide *;
    AllAdmitted(store, request, now, generation.refs, refs);
    RankedStrictly(items);
    SortElements(items, RankBefore);
  }

  lemma DistinctRefs(store: Store, generation: Generation, request: Request, now: int) returns (refs: seq<ExperienceRef>)
    requires SelectOf(store, generation, request, now).Ok?
    ensures Distinct(refs) && forall ref :: ref in refs <==> ref in generation.refs
    ensures var ranked := Sort(Admissions(store, request, now, refs, |refs|), RankBefore);
            SelectOf(store, generation, request, now).value.selected == Picks(ranked, |ranked|)
  {
    refs := Sort(generation.refs, RefBefore);
    SortedRefs(generation.refs);
    SortMultiset(generation.refs, RefBefore);
    DistinctPermuted(generation.refs, refs);
    hide Sort, Admissions, AllSound, Picks, Distinct, ValidRef;
  }

  lemma AllAdmitted(store: Store, request: Request, now: int, given: seq<ExperienceRef>, refs: seq<ExperienceRef>)
    requires Distinct(refs) && forall ref :: ref in refs <==> ref in given
    ensures var items := Admissions(store, request, now, refs, |refs|);
            && (forall i, j :: 0 <= i < j < |items| ==> items[i].ref != items[j].ref)
            && (forall x :: x in items <==>
                  x.ref in given && x.ref in store && Admitted(store, request, now, x.ref) && x == Item(store, request, x.ref))
  {
    AdmissionsSpec(store, request, now, refs, |refs|);
    AdmissionsDistinct(store, request, now, refs, |refs|);
    assert refs[..|refs|] == refs;
    hide Admitted, Item, Admissions;
  }

  lemma RankedStrictly(items: seq<Selected>)
    requires forall i, j :: 0 <= i < j < |items| ==> items[i].ref != items[j].ref
    ensures var ranked := Sort(items, RankBefore);
            forall i, j :: 0 <= i < j < |ranked| ==> Better(ranked[i], ranked[j])
  {
    RankBeforeIsStrictWeak();
    SortSorted(items, RankBefore);
    SortMultiset(items, RankBefore);
    OrdersAreTotal();
    var ranked := Sort(items, RankBefore);
    forall i, j | 0 <= i < j < |ranked|
      ensures Better(ranked[i], ranked[j])
    {
      var x := PermutedPosition(ranked, items, i);
      var y := PermutedPair(ranked, items, i, j, x);
      assert ranked[i].ref != ranked[j].ref;
      BetterIsRank(ranked[i], ranked[j]);
      BetterIsRank(ranked[j], ranked[i]);
    }
  }

  /** The better the score the earlier, and among equal scores the smaller the reference. */
  lemma BestFirst(store: Store, generation: Generation, request: Request, now: int, i: nat, j: nat)
    requires SelectOf(store, generation, request, now).Ok?
    requires i < j < |SelectOf(store, generation, request, now).value.selected|
    ensures var selected := SelectOf(store, generation, request, now).value.selected;
            Better(selected[i], selected[j])
  {
    var ranked := RankingOf(store, generation, request, now);
    PicksAscend(ranked, |ranked|);
  }

  /** An admitted experience is left out only if three better ones are selected or leave too few of 600 tokens. */
  lemma LeftOutForBetter(store: Store, generation: Generation, request: Request, now: int, ref: ExperienceRef)
    requires SelectOf(store, generation, request, now).Ok?
    requires ref in generation.refs && Admitted(store, request, now, ref)
    ensures var selected, item := SelectOf(store, generation, request, now).value.selected, Item(store, request, ref);
            var better := BetterThan(selected, item);
            item in selected || |better| == 3 || TotalTokens(better) + item.tokens > 600
  {
    var ranked := RankingOf(store, generation, request, now);
    var item := Item(store, request, ref);
    ItemRef(store, request, now, ref);
    hide Better, BetterThan, TotalTokens, Admitted, SelectOf;
    var k :| 0 <= k < |ranked| && ranked[k] == item;
    PicksAbove(ranked, k, |ranked|);
    EveryChoiceIsJustified(ranked, k);
  }

  /** An item carries the experience's content, its score for the request, and its size in tokens, rounded up. */
  lemma ItemMeans(store: Store, request: Request, ref: ExperienceRef)
    requires ref in store
    ensures var item, content := Item(store, request, ref), store[ref].experience.content;
            var bytes := |content.guidance.instruction| + |content.guidance.rationale| + store[ref].verifierBytes
                         + ByteCount(content.guidance.exceptions);
            && item.ref == ref && item.content == content && item.score == ScoreOf(content, request)
            && bytes <= 4 * item.tokens < bytes + 4
  {
    hide ScoreOf, ByteCount;
  }

  /** The references of a result are the generation's, by ID and version. */
  lemma RefsInOrder(store: Store, generation: Generation, request: Request, now: int)
    requires SelectOf(store, generation, request, now).Ok?
    ensures var refs := SelectOf(store, generation, request, now).value.refs;
            && multiset(refs) == multiset(generation.refs) && |refs| <= 500
            && (forall i, j :: 0 <= i < j < |refs| ==> SmallerRef(refs[i], refs[j]))
            && (forall ref :: ref in refs ==> ref.version >= 1 && ref.id != "" && TrimSpace(ref.id) == ref.id)
  {
    var refs := Sort(generation.refs, RefBefore);
    SortMultiset(generation.refs, RefBefore);
    DistinctPermuted(generation.refs, refs);
    OrdersAreTotal();
    SortSorted(generation.refs, RefBefore);
    assert forall k :: 0 <= k < |refs| ==> ValidRef(refs[k]);
    hide Sort, AllSound, Admissions, Picks;
    forall i, j | 0 <= i < j < |refs|
      ensures SmallerRef(refs[i], refs[j])
    {
      assert refs[i] != refs[j] && !RefBefore(refs[j], refs[i]);
      LessTotal(refs[i].id, refs[j].id);
    }
  }
}
