/** Whether, and how well, an experience fits a request (`scoreExperienceSelection`). */
module Eligibility {
  import opened Common
  import opened Experiences
  import opened Lexical
  import opened PathMatch

  datatype Request = Request(
    project: string, session: string, harness: string, family: string, hint: string,
    paths: seq<string>, model: string)

  predicate PathsMatch(patterns: seq<string>, paths: seq<string>) {
    exists i, j :: 0 <= i < |patterns| && 0 <= j < |paths| && RelativePathPatternMatches(patterns[i], paths[j])
  }

  /** The words an experience is compared with. */
  function TextOf(value: Proposal): string {
    value.applicability.description + " " + value.guidance.instruction + " " + value.guidance.rationale + " "
    + Join(value.scope.families, " ")
  }

  function OverlapWith(value: Proposal, request: Request): nat {
    Overlap(request.hint, TextOf(value))
  }

  // ---------- the conditions of eligibility, one by one ----------

  predicate ListAdmits(allowed: seq<string>, requested: string) {
    allowed != [] ==> requested != "" && requested in allowed
  }

  predicate ScopeAdmits(scope: Scope, request: Request) {
    && scope.project == request.project
    && (scope.kind.SessionScope? ==> request.session != "" && scope.session == request.session)
    && ListAdmits(scope.harnesses, request.harness)
    && ListAdmits(scope.models, request.model)
  }

  /** Path restrictions, in the scope or as conditions, bind only a request that names paths. */
  predicate PathsAdmit(value: Proposal, request: Request) {
    && (value.scope.paths != [] && request.paths != [] ==> PathsMatch(value.scope.paths, request.paths))
    && (forall k :: 0 <= k < |value.applicability.conditions| ==>
          var condition := value.applicability.conditions[k];
          condition.kind.PathPattern? && (request.paths != [] ==> PathsMatch(condition.values, request.paths)))
  }

  /** Only shared words can satisfy this when a request names no path. */
  predicate RestrictsPaths(value: Proposal) {
    value.scope.paths != [] || value.applicability.conditions != []
  }

  /** A restriction the request says nothing about: only shared words can make up for it. */
  predicate Unresolved(value: Proposal, request: Request) {
    || !ListAdmits(value.scope.families, request.family)
    || (request.paths == [] && RestrictsPaths(value))
  }

  predicate Eligible(value: Proposal, request: Request) {
    && ScopeAdmits(value.scope, request)
    && PathsAdmit(value, request)
    && (Unresolved(value, request) ==> OverlapWith(value, request) > 0)
  }

  function ScoreOf(value: Proposal, request: Request): int {
    10
    + (if value.scope.kind.SessionScope? then 50 else 0)
    + (if value.scope.harnesses != [] then 20 else 0)
    + (if value.scope.families != [] && ListAdmits(value.scope.families, request.family) then 30 else 0)
    + (if value.scope.paths != [] && request.paths != [] then 30 else 0)
    + (if value.scope.models != [] then 20 else 0)
    + OverlapWith(value, request)
  }

  method ScoreExperience(value: Proposal, request: Request) returns (score: int, eligible: bool)
    ensures eligible == Eligible(value, request)
    ensures eligible ==> score == ScoreOf(value, request)
  {
    hide Overlap, TextOf;
    if value.scope.project != request.project {
      return 0, false;
    }
    score := 10;
    if value.scope.kind.SessionScope? {
      if request.session == "" || value.scope.session != request.session {
        return 0, false;
      }
      score := score + 50;
    }
    if |value.scope.harnesses| > 0 {
      if request.harness == "" || request.harness !in value.scope.harnesses {
        return 0, false;
      }
      score := score + 20;
    }
    var lexicalOverlap := LexicalOverlap(request.hint, TextOf(value));
    var unresolved := false;
    if |value.scope.families| > 0 {
      if request.family != "" && request.family in value.scope.families {
        score := score + 30;
      } else if lexicalOverlap == 0 {
        return 0, false;
      } else {
        unresolved := true;
      }
    }
    if |value.scope.paths| > 0 {
      if |request.paths| == 0 {
        unresolved := true;
      } else if !PathsMatch(value.scope.paths, request.paths) {
        return 0, false;
      } else {
        score := score + 30;
      }
    }
    if |value.scope.models| > 0 {
      if request.model == "" || request.model !in value.scope.models {
        return 0, false;
      }
      score := score + 20;
    }
    for k := 0 to |value.applicability.conditions|
      invariant forall i :: 0 <= i < k ==>
                  var condition := value.applicability.conditions[i];
                  condition.kind.PathPattern? && (request.paths != [] ==> PathsMatch(condition.values, request.paths))
      invariant unresolved <==>
                  || !ListAdmits(value.scope.families, request.family)
                  || (request.paths == [] && (value.scope.paths != [] || k > 0))
    {
      var condition := value.applicability.conditions[k];
      if !condition.kind.PathPattern? {
        return 0, false;
      }
      if |request.paths| == 0 {
        unresolved := true;
        continue;
      }
      if !PathsMatch(condition.values, request.paths) {
        return 0, false;
      }
    }
    if unresolved && lexicalOverlap == 0 {
      return 0, false;
    }
    return score + lexicalOverlap, true;
  }

  /** Path matching depends on the patterns as a set. */
  lemma PathsMatchMonotone(a: seq<string>, b: seq<string>, paths: seq<string>)
    requires forall x :: x in a ==> x in b
    ensures PathsMatch(a, paths) ==> PathsMatch(b, paths)
  {
    if PathsMatch(a, paths) {
      var i, j :| 0 <= i < |a| && 0 <= j < |paths| && RelativePathPatternMatches(a[i], paths[j]);
      assert a[i] in a;
      var k :| 0 <= k < |b| && b[k] == a[i];
    }
  }

  lemma TermsOfText(value: Proposal)
    ensures Terms(TextOf(value)) ==
              Terms(value.applicability.description) + Terms(value.guidance.instruction)
              + Terms(value.guidance.rationale) + TermsOfAll(value.scope.families)
  {
    var a, b, c := value.applicability.description, value.guidance.instruction, value.guidance.rationale;
    var families := Join(value.scope.families, " ");
    TermsOfParts(a, b);
    TermsOfParts(a + " " + b, c);
    TermsOfParts(a + " " + b + " " + c, families);
    TermsOfJoin(value.scope.families);
  }
}
