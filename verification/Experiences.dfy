/** The content of an experience (`internal/experience/model.go`), and the limits its validation puts on lists. */
module Experiences {
  import opened Common

  const MAX_LIST_ITEMS := 128

  datatype ScopeKind = ProjectScope | SessionScope

  datatype Scope = Scope(
    kind: ScopeKind, project: string, session: string,
    paths: seq<string>, families: seq<string>, harnesses: seq<string>, models: seq<string>)

  datatype ConditionKind = PathPattern | OtherCondition(name: string)

  datatype Condition = Condition(kind: ConditionKind, values: seq<string>)

  datatype Applicability = Applicability(
    description: string, conditions: seq<Condition>, exclusions: seq<string>, expiresAt: Option<int>)

  datatype Guidance = Guidance(instruction: string, rationale: string, exceptions: seq<string>, strength: string)

  datatype VerifierSpec =
    | FileModified(path: string)
    | FileNotModified(path: string)
    | PathPatternNotModified(patterns: seq<string>)
    | VerificationAfterLastEdit(commandClasses: seq<string>, requireSuccess: bool)
    | UserCorrectionAbsent(markerFamilies: seq<string>)
    | OtherVerifier(kind: string, detail: string)

  datatype Verifier = Verifier(spec: VerifierSpec, coverage: seq<string>)

  datatype Proposal = Proposal(
    kind: string, scope: Scope, applicability: Applicability, guidance: Guidance, verifier: Verifier, pending: bool)

  datatype ExperienceRef = ExperienceRef(id: string, version: int)

  datatype Experience = Experience(ref: ExperienceRef, content: Proposal)

  // ---------- what validation guarantees about text and lists ----------

  predicate Trimmed(s: string) { TrimSpace(s) == s }

  predicate ValidItems(items: seq<string>) {
    |items| <= MAX_LIST_ITEMS && forall k :: 0 <= k < |items| ==> Trimmed(items[k]) && items[k] != ""
  }

  predicate ValidScope(scope: Scope) {
    && Trimmed(scope.project) && Trimmed(scope.session)
    && (scope.kind.ProjectScope? <==> scope.session == "")
    && ValidItems(scope.paths) && ValidItems(scope.families) && ValidItems(scope.harnesses) && ValidItems(scope.models)
  }

  predicate ValidApplicability(value: Applicability) {
    && Trimmed(value.description)
    && |value.conditions| <= MAX_LIST_ITEMS
    && (forall k :: 0 <= k < |value.conditions| ==> ValidItems(value.conditions[k].values) && value.conditions[k].values != [])
    && ValidItems(value.exclusions)
  }

  predicate ValidGuidance(value: Guidance) {
    Trimmed(value.instruction) && Trimmed(value.rationale) && ValidItems(value.exceptions)
  }

  predicate ValidProposal(value: Proposal) {
    ValidScope(value.scope) && ValidApplicability(value.applicability) && ValidGuidance(value.guidance)
  }
}
