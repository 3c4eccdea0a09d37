/** What `scopesProvenDisjoint` proves about the requests two experiences are eligible for. */
module Disjointness {
  import opened Common
  import opened Experiences
  import opened Lexical
  import opened PathMatch
  import opened Eligibility
  import opened Conflict

  /** Different projects, sessions, harnesses or models: no request is eligible for both. */
  lemma DisjointScopesShareNoRequest(left: Proposal, right: Proposal, request: Request)
    requires ProvenDisjoint(left.scope, right.scope).Some?
    requires ProvenDisjoint(left.scope, right.scope) != Some(DisjointTaskFamilies)
    ensures !(Eligible(left, request) && Eligible(right, request))
  {
    hide PathsAdmit, Unresolved, OverlapWith;
    if Eligible(left, request) && Eligible(right, request) {
      SharedMember(left.scope.harnesses, right.scope.harnesses, request.harness);
      SharedMember(left.scope.models, right.scope.models, request.model);
    }
  }

  lemma SharedMember(left: seq<string>, right: seq<string>, requested: string)
    requires ListAdmits(left, requested) && ListAdmits(right, requested)
    ensures !SetsDisjoint(left, right)
  {
    if left != [] && right != [] {
      var k :| 0 <= k < |right| && right[k] == requested;
    }
  }

  /** Disjoint task families: a request eligible for both shares words with one of them. */
  lemma DisjointFamiliesNeedOverlap(left: Proposal, right: Proposal, request: Request)
    requires ProvenDisjoint(left.scope, right.scope) == Some(DisjointTaskFamilies)
    requires OverlapWith(left, request) == 0 && OverlapWith(right, request) == 0
    ensures !(Eligible(left, request) && Eligible(right, request))
  {
    hide PathsAdmit, ScopeAdmits, OverlapWith;
    if ListAdmits(left.scope.families, request.family) && ListAdmits(right.scope.families, request.family) {
      SharedMember(left.scope.families, right.scope.families, request.family);
    }
  }

  /** Nothing is left for shared words to make up for: the request names a family, and paths if they are restricted. */
  predicate StandsAlone(value: Proposal, request: Request) {
    && request.family != "" && request.family in value.scope.families
    && (request.paths == [] ==> !RestrictsPaths(value))
  }

  /** Exactly when a request is eligible for both of two experiences with disjoint task families. */
  lemma DisjointFamiliesMeetIff(left: Proposal, right: Proposal, request: Request)
    requires ProvenDisjoint(left.scope, right.scope) == Some(DisjointTaskFamilies)
    ensures Eligible(left, request) && Eligible(right, request) <==>
              && ScopeAdmits(left.scope, request) && ScopeAdmits(right.scope, request)
              && PathsAdmit(left, request) && PathsAdmit(right, request)
              && (|| (OverlapWith(left, request) > 0 && OverlapWith(right, request) > 0)
                  || (StandsAlone(left, request) && OverlapWith(right, request) > 0)
                  || (StandsAlone(right, request) && OverlapWith(left, request) > 0))
  {
    hide PathsAdmit, ScopeAdmits, OverlapWith, RestrictsPaths;
    if StandsAlone(left, request) && StandsAlone(right, request) {
      SharedMember(left.scope.families, right.scope.families, request.family);
    }
  }

  // ---------- which pairs are kept apart ----------

  ghost function AdmittedByBoth(left: seq<string>, right: seq<string>): string
    requires !SetsDisjoint(left, right)
  {
    if left == [] then (if right == [] then "" else right[0])
    else if right == [] then left[0]
    else
      var k :| 0 <= k < |right| && right[k] in left;
      right[k]
  }

  lemma AdmittedByBothIs(left: seq<string>, right: seq<string>)
    requires !SetsDisjoint(left, right) && ValidItems(left) && ValidItems(right)
    ensures ListAdmits(left, AdmittedByBoth(left, right)) && ListAdmits(right, AdmittedByBoth(left, right))
  {
  }

  predicate OnlyPathConditions(value: Proposal) {
    forall k :: 0 <= k < |value.applicability.conditions| ==> value.applicability.conditions[k].kind.PathPattern?
  }

  /** A file for the scope's paths and one for each condition: together they pass every path gate of the content. */
  function SampleFiles(value: Proposal): seq<string>
    requires ValidProposal(value)
  {
    (if value.scope.paths == [] then [] else [Sample(value.scope.paths[0])]) + ConditionFiles(value.applicability.conditions)
  }

  function ConditionFiles(conditions: seq<Condition>): seq<string>
    requires forall k :: 0 <= k < |conditions| ==> conditions[k].values != []
  {
    seq(|conditions|, k requires 0 <= k < |conditions| => Sample(conditions[k].values[0]))
  }

  lemma FirstPatternMatches(patterns: seq<string>, paths: seq<string>)
    requires patterns != [] && Sample(patterns[0]) in paths
    ensures PathsMatch(patterns, paths)
  {
    SampleMatches(patterns[0]);
    var j :| 0 <= j < |paths| && paths[j] == Sample(patterns[0]);
    assert RelativePathPatternMatches(patterns[0], paths[j]);
  }

  lemma SampleFilesAreAdmitted(value: Proposal, request: Request)
    requires ValidProposal(value) && OnlyPathConditions(value)
    requires forall file :: file in SampleFiles(value) ==> file in request.paths
    ensures PathsAdmit(value, request)
  {
    hide PathsMatch, Sample;
    var files, conditions := SampleFiles(value), value.applicability.conditions;
    if value.scope.paths != [] {
      assert files[0] == Sample(value.scope.paths[0]);
      FirstPatternMatches(value.scope.paths, request.paths);
    }
    forall k | 0 <= k < |conditions|
      ensures PathsMatch(conditions[k].values, request.paths)
    {
      assert ConditionFiles(conditions)[k] in files;
      FirstPatternMatches(conditions[k].values, request.paths);
    }
  }

  /** A request that names the first family of `stands`, the sample files of both, and a word of `shares`. */
  ghost function MeetingRequest(stands: Proposal, shares: Proposal, word: string): Request
    requires ProvenDisjoint(stands.scope, shares.scope) == Some(DisjointTaskFamilies)
    requires ValidProposal(stands) && ValidProposal(shares)
  {
    Request(
      stands.scope.project, if stands.scope.kind.SessionScope? then stands.scope.session else shares.scope.session,
      AdmittedByBoth(stands.scope.harnesses, shares.scope.harnesses), stands.scope.families[0], word,
      SampleFiles(stands) + SampleFiles(shares),
      AdmittedByBoth(stands.scope.models, shares.scope.models))
  }

  lemma ProvenDisjointSymmetric(left: Scope, right: Scope)
    requires ProvenDisjoint(left, right) == Some(DisjointTaskFamilies)
    ensures ProvenDisjoint(right, left) == Some(DisjointTaskFamilies)
  {
  }

  /**
   * Whenever one of the two texts contains a usable word, some request is eligible for both experiences
   * although their task families are disjoint: it names a family of the other and hints at that word.
   */
  lemma DisjointFamiliesCanMeet(stands: Proposal, shares: Proposal) returns (request: Request)
    requires ValidProposal(stands) && ValidProposal(shares)
    requires ProvenDisjoint(stands.scope, shares.scope) == Some(DisjointTaskFamilies)
    requires OnlyPathConditions(stands) && OnlyPathConditions(shares)
    requires Terms(TextOf(shares)) != {}
    ensures Eligible(stands, request) && Eligible(shares, request)
  {
    var word :| word in Terms(TextOf(shares));
    request := MeetingRequest(stands, shares, word);
    TermIsItsOwnHint(TextOf(shares), word);
    OverlapPositive(word, TextOf(shares));
    AdmittedByBothIs(stands.scope.harnesses, shares.scope.harnesses);
    AdmittedByBothIs(stands.scope.models, shares.scope.models);
    hide Terms, TextOf, Sample, Overlap;
    SampleFilesAreAdmitted(stands, request);
    SampleFilesAreAdmitted(shares, request);
    assert RestrictsPaths(stands) ==> SampleFiles(stands) != [];
    hide SampleFiles, PathsAdmit;
    DisjointFamiliesMeetIff(stands, shares, request);
  }

  lemma NoTermsNoOverlap(value: Proposal, request: Request)
    requires Terms(TextOf(value)) == {}
    ensures OverlapWith(value, request) == 0
  {
    OverlapPositive(request.hint, TextOf(value));
  }

  /**
   * Exactly which pairs of experiences disjoint task families keep apart, over all requests: those of which
   * one has a condition that selection never admits, and those whose texts both lack a usable word.
   */
  lemma DisjointFamiliesNeverMeetIff(left: Proposal, right: Proposal)
    requires ValidProposal(left) && ValidProposal(right)
    requires ProvenDisjoint(left.scope, right.scope) == Some(DisjointTaskFamilies)
    ensures (forall request :: !(Eligible(left, request) && Eligible(right, request))) <==>
              || !OnlyPathConditions(left) || !OnlyPathConditions(right)
              || (Terms(TextOf(left)) == {} && Terms(TextOf(right)) == {})
  {
    hide Terms, TextOf, ProvenDisjoint, ValidProposal, ScopeAdmits, OverlapWith;
    ProvenDisjointSymmetric(left.scope, right.scope);
    if OnlyPathConditions(left) && OnlyPathConditions(right) {
      if Terms(TextOf(right)) != {} {
        var request := DisjointFamiliesCanMeet(left, right);
      } else if Terms(TextOf(left)) != {} {
        var request := DisjointFamiliesCanMeet(right, left);
      } else {
        forall request
          ensures !(Eligible(left, request) && Eligible(right, request))
        {
          NoTermsNoOverlap(left, request);
          NoTermsNoOverlap(right, request);
          DisjointFamiliesNeedOverlap(left, right, request);
        }
      }
    }
  }
}
