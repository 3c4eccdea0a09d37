/** What an accepted narrowing means for the requests an experience is selected for. */
module NarrowingSelection {
  import opened Common
  import opened Ordering
  import opened Experiences
  import opened Lexical
  import opened PathMatch
  import opened Eligibility
  import opened Narrowing

  // ---------- from the normalized comparison to the raw content ----------

  /** `b` only names things `a` names, an empty list naming everything. */
  ghost predicate NamesWithin(a: seq<string>, b: seq<string>) {
    a == [] || (b != [] && forall x :: x in b ==> x in a)
  }

  lemma NarrowedStringsWithin(original: seq<string>, approved: seq<string>)
    requires ValidItems(original) && ValidItems(approved)
    requires ListNarrows(NormalizedStrings(original), NormalizedStrings(approved))
    ensures NamesWithin(original, approved)
  {
    NormalizedElements(original);
    NormalizedElements(approved);
    var a := NormalizedStrings(approved);
    forall x | x in approved && original != []
      ensures x in original
    {
      var k :| 0 <= k < |a| && a[k] == x;
    }
  }

  lemma NarrowedHarnessesWithin(original: seq<string>, approved: seq<string>)
    requires ListNarrows(SortDistinct(original, Less), SortDistinct(approved, Less))
    ensures NamesWithin(original, approved)
  {
    NormalizedIsSetList(original);
    NormalizedIsSetList(approved);
    var o, a := SortDistinct(original, Less), SortDistinct(approved, Less);
    assert original != [] ==> original[0] in o;
    assert approved == [] ==> a == [];
    assert a != [] ==> a[0] in approved;
    forall x | x in approved && original != []
      ensures x in original
    {
      var k :| 0 <= k < |a| && a[k] == x;
    }
  }

  /** Each condition of one side has a counterpart of the same kind and the same values on the other. */
  lemma ConditionCounterpart(o: Proposal, a: Proposal, k: nat) returns (j: nat)
    requires ValidProposal(o) && ValidProposal(a) && k < |o.applicability.conditions|
    requires NormalizedConditions(o.applicability.conditions) == NormalizedConditions(a.applicability.conditions)
    ensures j < |a.applicability.conditions|
    ensures a.applicability.conditions[j].kind == o.applicability.conditions[k].kind
    ensures forall x :: x in a.applicability.conditions[j].values <==> x in o.applicability.conditions[k].values
  {
    var c := o.applicability.conditions[k];
    var conditions := a.applicability.conditions;
    assert Condition(c.kind, NormalizedStrings(c.values)) in NormalizedConditions(o.applicability.conditions);
    j :| 0 <= j < |conditions|
         && Condition(conditions[j].kind, NormalizedStrings(conditions[j].values))
            == Condition(c.kind, NormalizedStrings(c.values));
    NormalizedElements(c.values);
    NormalizedElements(conditions[j].values);
  }

  /** The content of a narrowing and its original, compared item by item. */
  ghost predicate NarrowerContent(o: Proposal, a: Proposal) {
    && a.scope.kind == o.scope.kind && a.scope.project == o.scope.project && a.scope.session == o.scope.session
    && a.applicability.description == o.applicability.description
    && a.guidance.instruction == o.guidance.instruction && a.guidance.rationale == o.guidance.rationale
    && NamesWithin(o.scope.paths, a.scope.paths) && NamesWithin(o.scope.families, a.scope.families)
    && NamesWithin(o.scope.harnesses, a.scope.harnesses) && NamesWithin(o.scope.models, a.scope.models)
  }

  lemma NarrowedContent(o: Proposal, a: Proposal)
    requires ValidProposal(o) && ValidProposal(a) && Narrows(o, a)
    ensures NarrowerContent(o, a)
    ensures NormalizedConditions(o.applicability.conditions) == NormalizedConditions(a.applicability.conditions)
  {
    NarrowedStringsWithin(o.scope.paths, a.scope.paths);
    NarrowedStringsWithin(o.scope.families, a.scope.families);
    NarrowedHarnessesWithin(o.scope.harnesses, a.scope.harnesses);
    NarrowedStringsWithin(o.scope.models, a.scope.models);
  }

  // ---------- gate by gate ----------

  lemma NarrowedListAdmits(original: seq<string>, approved: seq<string>, requested: string)
    requires NamesWithin(original, approved)
    ensures ListAdmits(approved, requested) ==> ListAdmits(original, requested)
  {
  }

  lemma NarrowedPathsAdmit(o: Proposal, a: Proposal, request: Request)
    requires ValidProposal(o) && ValidProposal(a) && NarrowerContent(o, a)
    requires NormalizedConditions(o.applicability.conditions) == NormalizedConditions(a.applicability.conditions)
    requires PathsAdmit(a, request)
    ensures PathsAdmit(o, request)
  {
    hide RelativePathPatternMatches, PathsMatch, ValidProposal, NormalizedConditions;
    if o.scope.paths != [] {
      PathsMatchMonotone(a.scope.paths, o.scope.paths, request.paths);
    }
    forall k | 0 <= k < |o.applicability.conditions|
      ensures o.applicability.conditions[k].kind.PathPattern?
      ensures request.paths != [] ==> PathsMatch(o.applicability.conditions[k].values, request.paths)
    {
      var j := ConditionCounterpart(o, a, k);
      PathsMatchMonotone(a.applicability.conditions[j].values, o.applicability.conditions[k].values, request.paths);
    }
  }

  lemma SameConditionCount(o: Proposal, a: Proposal)
    requires ValidProposal(o) && ValidProposal(a)
    requires NormalizedConditions(o.applicability.conditions) == NormalizedConditions(a.applicability.conditions)
    ensures o.applicability.conditions == [] <==> a.applicability.conditions == []
  {
    if o.applicability.conditions != [] {
      var j := ConditionCounterpart(o, a, 0);
    } else if a.applicability.conditions != [] {
      var j := ConditionCounterpart(a, o, 0);
    }
  }

  /** The narrowed text has no more terms, except for family words where there were no families. */
  lemma NarrowedTerms(o: Proposal, a: Proposal)
    requires NarrowerContent(o, a)
    ensures o.scope.families != [] || a.scope.families == [] ==> Terms(TextOf(a)) <= Terms(TextOf(o))
    ensures o.scope.families == [] ==> Terms(TextOf(a)) == Terms(TextOf(o)) + TermsOfAll(a.scope.families)
  {
    TermsOfText(o);
    TermsOfText(a);
    if o.scope.families != [] {
      forall term | term in TermsOfAll(a.scope.families)
        ensures term in TermsOfAll(o.scope.families)
      {
        var k :| 0 <= k < |a.scope.families| && term in Terms(a.scope.families[k]);
        assert a.scope.families[k] in a.scope.families;
        var j :| 0 <= j < |o.scope.families| && o.scope.families[j] == a.scope.families[k];
      }
    } else {
      assert TermsOfAll(o.scope.families) == {};
    }
  }

  lemma OverlapMonotone(a: Proposal, o: Proposal, request: Request)
    requires Terms(TextOf(a)) <= Terms(TextOf(o))
    ensures OverlapWith(a, request) > 0 ==> OverlapWith(o, request) > 0
  {
    hide TextOf, Terms, Overlap;
    OverlapPositive(request.hint, TextOf(a));
    OverlapPositive(request.hint, TextOf(o));
  }

  // ---------- the theorems ----------

  /**
   * A narrowing selects a request its original does not select exactly when it adds families where there
   * were none, the request names no path, the original restricts paths, and only the added family words
   * connect the request to the content.
   */
  lemma WhenNarrowingWidens(o: Proposal, a: Proposal, request: Request)
    requires ValidProposal(o) && ValidProposal(a) && Narrows(o, a)
    requires Eligible(a, request)
    ensures !Eligible(o, request) <==>
              && o.scope.families == [] && a.scope.families != []
              && request.paths == [] && RestrictsPaths(o)
              && OverlapWith(o, request) == 0
  {
    NarrowedContent(o, a);
    SameConditionCount(o, a);
    NarrowedPathsAdmit(o, a, request);
    NarrowedTerms(o, a);
    hide Narrows, ValidProposal, TextOf, Terms, Overlap, PathsAdmit, NormalizedConditions, TermsOfAll;
    NarrowedListAdmits(o.scope.harnesses, a.scope.harnesses, request.harness);
    NarrowedListAdmits(o.scope.models, a.scope.models, request.model);
    NarrowedListAdmits(o.scope.families, a.scope.families, request.family);
    if o.scope.families != [] || a.scope.families == [] {
      OverlapMonotone(a, o, request);
    }
  }

  /** Narrowing never widens selection for the requests and contents named here. */
  lemma NarrowingNeverWidens(o: Proposal, a: Proposal, request: Request)
    requires ValidProposal(o) && ValidProposal(a) && Narrows(o, a)
    requires request.paths != [] || o.scope.families != [] || a.scope.families == []
    ensures Eligible(a, request) ==> Eligible(o, request)
  {
    hide *;
    if Eligible(a, request) {
      WhenNarrowingWidens(o, a, request);
    }
  }

  /** What an approver could look for in a narrowing: added family words that open a path-restricted content. */
  ghost predicate AddsOpeningWords(o: Proposal, a: Proposal) {
    && o.scope.families == [] && RestrictsPaths(o)
    && (forall k :: 0 <= k < |o.applicability.conditions| ==> o.applicability.conditions[k].kind.PathPattern?)
    && !(TermsOfAll(a.scope.families) <= Terms(TextOf(o)))
  }

  function FirstOr(items: seq<string>, default: string): string {
    if items == [] then default else items[0]
  }

  lemma OpeningRequest(o: Proposal, a: Proposal) returns (request: Request)
    requires ValidProposal(o) && ValidProposal(a) && Narrows(o, a) && AddsOpeningWords(o, a)
    ensures Eligible(a, request) && !Eligible(o, request)
  {
    var term :| term in TermsOfAll(a.scope.families) && term !in Terms(TextOf(o));
    var f :| 0 <= f < |a.scope.families| && term in Terms(a.scope.families[f]);
    request := Request(
      a.scope.project, a.scope.session, FirstOr(a.scope.harnesses, ""), "", term, [], FirstOr(a.scope.models, ""));
    TermIsItsOwnHint(a.scope.families[f], term);
    NarrowedContent(o, a);
    NarrowedTerms(o, a);
    OverlapPositive(term, TextOf(a));
    OverlapPositive(term, TextOf(o));
    assert ScopeAdmits(a.scope, request);
    forall k | 0 <= k < |a.applicability.conditions|
      ensures a.applicability.conditions[k].kind.PathPattern?
    {
      var j := ConditionCounterpart(a, o, k);
    }
    assert PathsAdmit(a, request);
    assert OverlapWith(a, request) > 0 && OverlapWith(o, request) == 0;
    assert Unresolved(o, request);
  }

  /** Exactly which narrowings never widen selection, over all requests. */
  lemma NarrowingIsSafeIff(o: Proposal, a: Proposal)
    requires ValidProposal(o) && ValidProposal(a) && Narrows(o, a)
    ensures (forall request :: Eligible(a, request) ==> Eligible(o, request)) <==> !AddsOpeningWords(o, a)
  {
    if AddsOpeningWords(o, a) {
      var request := OpeningRequest(o, a);
    } else {
      forall request | Eligible(a, request)
        ensures Eligible(o, request)
      {
        WhenNarrowingWidens(o, a, request);
        if !Eligible(o, request) {
          WidenedByOpeningWords(o, a, request);
        }
      }
    }
  }

  lemma WidenedByOpeningWords(o: Proposal, a: Proposal, request: Request)
    requires ValidProposal(o) && ValidProposal(a) && Narrows(o, a)
    requires Eligible(a, request) && !Eligible(o, request)
    ensures AddsOpeningWords(o, a)
  {
    WhenNarrowingWidens(o, a, request);
    NarrowedContent(o, a);
    NarrowedTerms(o, a);
    SameConditionCount(o, a);
    OverlapPositive(request.hint, TextOf(a));
    OverlapPositive(request.hint, TextOf(o));
    assert Unresolved(a, request);
    var term :| term in Terms(request.hint) && term in Terms(TextOf(a));
    assert term in TermsOfAll(a.scope.families) && term !in Terms(TextOf(o));
    NarrowedPathsAdmit(o, a, request);
  }

  predicate EligibleAt(value: Proposal, request: Request, now: int) {
    && (value.applicability.expiresAt.Some? ==> value.applicability.expiresAt.value > now)
    && Eligible(value, request)
  }

  /** A narrowing is never selected at a time when its original has expired. */
  lemma NarrowingNeverOutlives(o: Proposal, a: Proposal, request: Request, now: int)
    requires Narrows(o, a) && EligibleAt(a, request, now) && Eligible(o, request)
    ensures EligibleAt(o, request, now)
  {
  }

  // ---------- a concrete narrowing that widens ----------

  const PATH_RULE := Proposal(
    "rule", Scope(ProjectScope, "p", "", ["src"], [], [], []), Applicability("x", [], [], None),
    Guidance("y", "z", [], "observe"), Verifier(OtherVerifier("observation_only", "n"), []), false)

  const DEPLOY_RULE := PATH_RULE.(scope := PATH_RULE.scope.(families := ["deploy"]))

  lemma TrimmedText(s: string)
    requires s == "" || (!IsSpace(s[0]) && !IsSpace(s[|s| - 1]))
    ensures Trimmed(s)
  {
  }

  lemma RulesAreValid()
    ensures ValidProposal(PATH_RULE) && ValidProposal(DEPLOY_RULE)
  {
    TrimmedText("p");
    TrimmedText("");
    TrimmedText("src");
    TrimmedText("deploy");
    TrimmedText("x");
    TrimmedText("y");
    TrimmedText("z");
  }

  lemma DeployNarrows()
    ensures Narrows(PATH_RULE, DEPLOY_RULE)
  {
    RulesAreValid();
    assert NormalizedStrings([]) == [];
    assert NormalizedStrings(["deploy"]) != [] by {
      assert ValidItems(DEPLOY_RULE.scope.families);
      NormalizedElements(["deploy"]);
    }
    hide NormalizedStrings, NormalizedVerifier, SortDistinct, NormalizedConditions, NormalizedGuidance;
  }

  lemma {:induction false} WordTerms(s: string)
    requires IsWord(s) && NormalizeTerm(s) == s
    ensures Terms(s) == if s in STOPWORDS then {} else {s}
  {
    WordOfWord(s, "");
    assert "" + s == s;
  }

  lemma DeployIsNew()
    ensures "deploy" !in Terms(TextOf(PATH_RULE))
  {
    TermsOfText(PATH_RULE);
    WordTerms("x");
    WordTerms("y");
    WordTerms("z");
    hide Terms, TextOf;
  }

  lemma DeployOpens()
    ensures AddsOpeningWords(PATH_RULE, DEPLOY_RULE)
  {
    var families := DEPLOY_RULE.scope.families;
    WordTerms("deploy");
    assert families[0] == "deploy" && "deploy" in Terms(families[0]);
    assert "deploy" in TermsOfAll(families);
    DeployIsNew();
    hide TermsOfAll, TextOf;
  }

  /** Adding the family "deploy" to a path-restricted rule makes it eligible where the rule was not. */
  lemma AddingAFamilyCanWiden()
    ensures ValidProposal(PATH_RULE) && ValidProposal(DEPLOY_RULE) && Narrows(PATH_RULE, DEPLOY_RULE)
    ensures exists request :: Eligible(DEPLOY_RULE, request) && !Eligible(PATH_RULE, request)
  {
    RulesAreValid();
    DeployNarrows();
    DeployOpens();
    hide *;
    var request := OpeningRequest(PATH_RULE, DEPLOY_RULE);
  }
}
