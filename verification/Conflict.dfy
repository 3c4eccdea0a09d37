/** The conflict preflight for a proposal (`internal/experience/conflict.go`). */
module Conflict {
  import opened Common
  import opened Ordering
  import opened Experiences
  import opened PathMatch

  const MAX_CONFLICT_REFS := 64
  const MAX_CONFLICT_REASONS := 16

  datatype State = NoConflict | PossibleOverlap | PossibleContradiction

  datatype Reason =
    | NoActiveExperiences | DifferentProject | DisjointSession | DisjointHarnesses | DisjointModels
    | DisjointTaskFamilies | OverlappingScope | FileVerifierOpposition | PatternVerifierOpposition
    | ExperienceRefsTruncated | ActiveQueryCapReached

  datatype Advisory = Advisory(proposalId: string, state: State, refs: seq<ExperienceRef>, reasons: seq<Reason>)

  /** The place of a reason code in the alphabetical order of the codes. */
  function Rank(reason: Reason): nat {
    match reason
    case ActiveQueryCapReached => 0
    case DifferentProject => 1
    case DisjointHarnesses => 2
    case DisjointModels => 3
    case DisjointSession => 4
    case DisjointTaskFamilies => 5
    case ExperienceRefsTruncated => 6
    case FileVerifierOpposition => 7
    case NoActiveExperiences => 8
    case OverlappingScope => 9
    case PatternVerifierOpposition => 10
  }

  predicate ReasonBefore(a: Reason, b: Reason) {
    Rank(a) < Rank(b)
  }

  predicate RefBefore(a: ExperienceRef, b: ExperienceRef) {
    if a.id != b.id then Less(a.id, b.id) else a.version < b.version
  }

  lemma OrdersAreTotal()
    ensures StrictTotal(ReasonBefore) && StrictTotal(RefBefore)
  {
    LessIsStrictTotal();
  }

  // ---------- when an advisory is valid ----------

  predicate ValidIdentifier(s: string) {
    Trimmed(s) && s != ""
  }

  predicate ValidRef(ref: ExperienceRef) {
    ValidIdentifier(ref.id) && ref.version >= 1
  }

  predicate ValidExperience(e: Experience) {
    ValidRef(e.ref) && ValidProposal(e.content)
  }

  /** What `ConflictAdvisory.Validate` accepts. */
  predicate ValidAdvisory(value: Advisory) {
    var capped := ActiveQueryCapReached in value.reasons;
    && ValidIdentifier(value.proposalId)
    && |value.refs| <= MAX_CONFLICT_REFS && 0 < |value.reasons| <= MAX_CONFLICT_REASONS
    && (forall k :: 0 <= k < |value.refs| ==> ValidRef(value.refs[k]))
    && Distinct(value.refs) && Distinct(value.reasons)
    && (value.state.NoConflict? ==> value.refs == [] && !capped)
    && (value.state.PossibleOverlap? ==> value.refs != [] || capped)
    && (value.state.PossibleContradiction? ==> value.refs != [])
  }

  method ValidateAdvisory(value: Advisory) returns (valid: bool)
    ensures valid == ValidAdvisory(value)
  {
    if !ValidIdentifier(value.proposalId) || |value.refs| > MAX_CONFLICT_REFS
       || |value.reasons| == 0 || |value.reasons| > MAX_CONFLICT_REASONS
       || (value.state == NoConflict && |value.refs| != 0) {
      return false;
    }
    var hasQueryCapReason := false;
    var seenRefs: set<ExperienceRef> := {};
    for k := 0 to |value.refs|
      invariant seenRefs == set i | 0 <= i < k :: value.refs[i]
      invariant Distinct(value.refs[..k]) && forall i :: 0 <= i < k ==> ValidRef(value.refs[i])
    {
      if !ValidRef(value.refs[k]) || value.refs[k] in seenRefs {
        return false;
      }
      seenRefs := seenRefs + {value.refs[k]};
    }
    assert value.refs[..|value.refs|] == value.refs;
    var seenReasons: set<Reason> := {};
    for k := 0 to |value.reasons|
      invariant seenReasons == set i | 0 <= i < k :: value.reasons[i]
      invariant Distinct(value.reasons[..k])
      invariant hasQueryCapReason <==> ActiveQueryCapReached in value.reasons[..k]
    {
      if value.reasons[k] in seenReasons {
        return false;
      }
      seenReasons := seenReasons + {value.reasons[k]};
      if value.reasons[k] == ActiveQueryCapReached {
        hasQueryCapReason := true;
      }
    }
    assert value.reasons[..|value.reasons|] == value.reasons;
    return !(value.state == NoConflict && hasQueryCapReason)
        && !(value.state == PossibleOverlap && |value.refs| == 0 && !hasQueryCapReason)
        && !(value.state == PossibleContradiction && |value.refs| == 0);
  }

  /** Pigeonhole: there are only eleven reason codes, so a list without repetition is within the limit. */
  lemma ReasonsFit(reasons: seq<Reason>)
    requires Distinct(reasons)
    ensures |reasons| <= 11 <= MAX_CONFLICT_REASONS
  {
    var all := {
      NoActiveExperiences, DifferentProject, DisjointSession, DisjointHarnesses, DisjointModels,
      DisjointTaskFamilies, OverlappingScope, FileVerifierOpposition, PatternVerifierOpposition,
      ExperienceRefsTruncated, ActiveQueryCapReached
    };
    forall reason | reason in reasons
      ensures reason in all
    {
      match reason {
        case NoActiveExperiences | DifferentProject | DisjointSession | DisjointHarnesses =>
        case DisjointModels | DisjointTaskFamilies | OverlappingScope | FileVerifierOpposition =>
        case PatternVerifierOpposition | ExperienceRefsTruncated | ActiveQueryCapReached =>
      }
    }
    DistinctFits(reasons, all);
  }

  // ---------- comparing two experiences ----------

  predicate SetsDisjoint(left: seq<string>, right: seq<string>) {
    left != [] && right != [] && forall k :: 0 <= k < |right| ==> right[k] !in left
  }

  /** `exactSetsDisjoint`. */
  method ExactSetsDisjoint(left: seq<string>, right: seq<string>) returns (disjoint: bool)
    ensures disjoint == SetsDisjoint(left, right)
  {
    if |left| == 0 || |right| == 0 {
      return false;
    }
    var values := set x | x in left;
    for k := 0 to |right|
      invariant forall i :: 0 <= i < k ==> right[i] !in left
    {
      if right[k] in values {
        return false;
      }
    }
    return true;
  }

  /** `scopesProvenDisjoint`: the reason, if there is one. */
  function ProvenDisjoint(left: Scope, right: Scope): Option<Reason> {
    if left.project != right.project then Some(DifferentProject)
    else if left.kind.SessionScope? && right.kind.SessionScope? && left.session != right.session then Some(DisjointSession)
    else if SetsDisjoint(left.harnesses, right.harnesses) then Some(DisjointHarnesses)
    else if SetsDisjoint(left.models, right.models) then Some(DisjointModels)
    else if SetsDisjoint(left.families, right.families) then Some(DisjointTaskFamilies)
    else None
  }

  /** `verifierOpposition`. */
  function Opposition(left: VerifierSpec, right: VerifierSpec): Option<Reason> {
    match (left, right)
    case (FileModified(p), FileNotModified(q)) => if p == q then Some(FileVerifierOpposition) else None
    case (FileNotModified(q), FileModified(p)) => if p == q then Some(FileVerifierOpposition) else None
    case (FileModified(p), PathPatternNotModified(patterns)) =>
      if MatchesAny(p, patterns) then Some(PatternVerifierOpposition) else None
    case (PathPatternNotModified(patterns), FileModified(p)) =>
      if MatchesAny(p, patterns) then Some(PatternVerifierOpposition) else None
    case _ => None
  }

  /** Whether a set of changed files satisfies a verifier about files. */
  ghost predicate Satisfies(changed: set<string>, spec: VerifierSpec) {
    match spec
    case FileModified(p) => p in changed
    case FileNotModified(p) => p !in changed
    case PathPatternNotModified(patterns) => forall f :: f in changed ==> !MatchesAny(f, patterns)
    case _ => true
  }

  predicate AboutFiles(spec: VerifierSpec) {
    spec.FileModified? || spec.FileNotModified? || spec.PathPatternNotModified?
  }

  /** Two verifiers about files are reported as opposed exactly when no change can satisfy both. */
  lemma OppositionIsExact(left: VerifierSpec, right: VerifierSpec)
    requires AboutFiles(left) && AboutFiles(right)
    ensures Opposition(left, right).Some? <==> forall changed :: !(Satisfies(changed, left) && Satisfies(changed, right))
  {
    var wanted := (if left.FileModified? then {left.path} else {}) + (if right.FileModified? then {right.path} else {});
    if Opposition(left, right).None? {
      assert Satisfies(wanted, left) && Satisfies(wanted, right);
    }
  }

  // ---------- the preflight ----------

  predicate Overlaps(proposal: Proposal, active: Experience) {
    ProvenDisjoint(proposal.scope, active.content.scope).None?
  }

  ghost function OverlappingRefs(proposal: Proposal, actives: set<Experience>): set<ExperienceRef> {
    set a | a in actives && Overlaps(proposal, a) :: a.ref
  }

  function ReasonFor(proposal: Proposal, active: Experience): Reason {
    var disjoint := ProvenDisjoint(proposal.scope, active.content.scope);
    if disjoint.Some? then disjoint.value else
    var opposed := Opposition(proposal.verifier.spec, active.content.verifier.spec);
    if opposed.Some? then opposed.value else OverlappingScope
  }

  predicate Contradicts(proposal: Proposal, active: Experience) {
    Overlaps(proposal, active) && Opposition(proposal.verifier.spec, active.content.verifier.spec).Some?
  }

  ghost predicate AnyContradicts(proposal: Proposal, actives: set<Experience>) {
    exists a :: a in actives && Contradicts(proposal, a)
  }

  /** The reasons of the experiences that overlap, or of all of them when none does. */
  ghost function ReasonsFrom(proposal: Proposal, actives: set<Experience>, overlapping: bool): set<Reason> {
    set a | a in actives && (Overlaps(proposal, a) <==> overlapping) :: ReasonFor(proposal, a)
  }

  /** What the preflight says about a set of active experiences. */
  ghost predicate IsPreflight(id: string, proposal: Proposal, actives: set<Experience>, r: Advisory) {
    && r.proposalId == id
    && (if actives == {} then r.state == NoConflict && r.refs == [] && r.reasons == [NoActiveExperiences]
        else if OverlappingRefs(proposal, actives) == {} then
          r.state == NoConflict && r.refs == [] && IsListing(r.reasons, ReasonsFrom(proposal, actives, false), ReasonBefore)
        else
          && (r.state == if AnyContradicts(proposal, actives) then PossibleContradiction else PossibleOverlap)
          && exists all ::
               IsListing(all, OverlappingRefs(proposal, actives), RefBefore) && BoundedBy(proposal, actives, all, r))
  }

  ghost predicate BoundedBy(proposal: Proposal, actives: set<Experience>, all: seq<ExperienceRef>, r: Advisory) {
    var over := |all| > MAX_CONFLICT_REFS;
    && r.refs == (if over then all[..MAX_CONFLICT_REFS] else all)
    && IsListing(
         r.reasons, ReasonsFrom(proposal, actives, true) + (if over then {ExperienceRefsTruncated} else {}), ReasonBefore)
  }

  /** The advisory is determined by the set of active experiences: their order and repetitions do not matter. */
  lemma PreflightIsDetermined(id: string, proposal: Proposal, actives: set<Experience>, r: Advisory, s: Advisory)
    requires IsPreflight(id, proposal, actives, r) && IsPreflight(id, proposal, actives, s)
    ensures r == s
  {
    OrdersAreTotal();
    hide StrictTotal, IsListing, OverlappingRefs, ReasonsFrom;
    if actives != {} {
      if OverlappingRefs(proposal, actives) == {} {
        ListingUnique(r.reasons, s.reasons, ReasonsFrom(proposal, actives, false), ReasonBefore);
      } else {
        var a :| IsListing(a, OverlappingRefs(proposal, actives), RefBefore) && BoundedBy(proposal, actives, a, r);
        var b :| IsListing(b, OverlappingRefs(proposal, actives), RefBefore) && BoundedBy(proposal, actives, b, s);
        ListingUnique(a, b, OverlappingRefs(proposal, actives), RefBefore);
        var over := |a| > MAX_CONFLICT_REFS;
        ListingUnique(r.reasons, s.reasons,
          ReasonsFrom(proposal, actives, true) + (if over then {ExperienceRefsTruncated} else {}), ReasonBefore);
      }
    }
  }

  lemma AddActive(proposal: Proposal, seen: set<Experience>, a: Experience)
    ensures OverlappingRefs(proposal, seen + {a}) ==
              OverlappingRefs(proposal, seen) + if Overlaps(proposal, a) then {a.ref} else {}
    ensures forall overlapping :: ReasonsFrom(proposal, seen + {a}, overlapping) ==
              ReasonsFrom(proposal, seen, overlapping)
              + if Overlaps(proposal, a) <==> overlapping then {ReasonFor(proposal, a)} else {}
    ensures AnyContradicts(proposal, seen + {a}) <==> AnyContradicts(proposal, seen) || Contradicts(proposal, a)
  {
    hide Overlaps, ReasonFor, Contradicts;
  }

  lemma NoActives(proposal: Proposal)
    ensures OverlappingRefs(proposal, {}) == {} && !AnyContradicts(proposal, {})
    ensures ReasonsFrom(proposal, {}, true) == {} && ReasonsFrom(proposal, {}, false) == {}
  {
  }

  /** How one comparison reads. */
  lemma Compared(proposal: Proposal, a: Experience)
    ensures var disjoint := ProvenDisjoint(proposal.scope, a.content.scope);
            var opposed := Opposition(proposal.verifier.spec, a.content.verifier.spec);
            && Overlaps(proposal, a) == disjoint.None? && Contradicts(proposal, a) == (disjoint.None? && opposed.Some?)
            && ReasonFor(proposal, a) ==
               if disjoint.Some? then disjoint.value else if opposed.Some? then opposed.value else OverlappingScope
  {
    hide ProvenDisjoint, Opposition;
  }

  method CompareWithActive(proposal: Proposal, active: seq<Experience>)
    returns (
      valid: bool, disjointReasons: set<Reason>, conflictReasons: set<Reason>, refs: set<ExperienceRef>, contradiction: bool)
    ensures valid <==> forall k :: 0 <= k < |active| ==> ValidExperience(active[k])
    ensures valid ==>
              var actives := set a | a in active;
              && refs == OverlappingRefs(proposal, actives)
              && disjointReasons == ReasonsFrom(proposal, actives, false)
              && conflictReasons == ReasonsFrom(proposal, actives, true)
              && (contradiction <==> AnyContradicts(proposal, actives))
  {
    valid, disjointReasons, conflictReasons, refs, contradiction := true, {}, {}, {}, false;
    ghost var seen: set<Experience> := {};
    NoActives(proposal);
    hide ValidExperience, ProvenDisjoint, Opposition, OverlappingRefs, ReasonsFrom;
    hide Overlaps, ReasonFor, Contradicts, AnyContradicts;
    for k := 0 to |active|
      invariant forall i :: 0 <= i < k ==> active[i] in seen && ValidExperience(active[i])
      invariant forall a :: a in seen ==> a in active
      invariant refs == OverlappingRefs(proposal, seen)
      invariant disjointReasons == ReasonsFrom(proposal, seen, false)
      invariant conflictReasons == ReasonsFrom(proposal, seen, true)
      invariant contradiction <==> AnyContradicts(proposal, seen)
      invariant valid
    {
      var a := active[k];
      AddActive(proposal, seen, a);
      Compared(proposal, a);
      if !ValidExperience(a) {
        valid := false;
        return;
      }
      seen := seen + {a};
      var disjoint := ProvenDisjoint(proposal.scope, a.content.scope);
      if disjoint.Some? {
        disjointReasons := disjointReasons + {disjoint.value};
        continue;
      }
      refs := refs + {a.ref};
      var opposed := Opposition(proposal.verifier.spec, a.content.verifier.spec);
      if opposed.Some? {
        contradiction := true;
        conflictReasons := conflictReasons + {opposed.value};
        continue;
      }
      conflictReasons := conflictReasons + {OverlappingScope};
    }
    assert forall k :: 0 <= k < |active| ==> active[k] in seen;
    assert seen == set a | a in active;
  }

  /** `PreflightSemanticProposalConflict`. */
  method Preflight(id: string, proposal: Proposal, active: seq<Experience>) returns (result: Result<Advisory>)
    ensures result.Ok? <==>
              && ValidIdentifier(id) && ValidProposal(proposal)
              && forall k :: 0 <= k < |active| ==> ValidExperience(active[k])
    ensures result.Ok? ==> IsPreflight(id, proposal, (set a | a in active), result.value) && ValidAdvisory(result.value)
  {
    hide ValidIdentifier, ValidProposal;
    if !ValidIdentifier(id) || !ValidProposal(proposal) {
      return Err;
    }
    if |active| == 0 {
      return Ok(Advisory(id, NoConflict, [], [NoActiveExperiences]));
    }
    ghost var actives := set a | a in active;
    assert active[0] in actives;
    var valid, disjointReasons, conflictReasons, refs, contradiction := CompareWithActive(proposal, active);
    if !valid {
      return Err;
    }
    hide ValidExperience;
    var advisory := Conclude(id, proposal, actives, disjointReasons, conflictReasons, refs, contradiction);
    PreflightIsValid(id, proposal, actives, advisory);
    return Ok(advisory);
  }

  method Conclude(
    id: string, proposal: Proposal, ghost actives: set<Experience>,
    disjointReasons: set<Reason>, conflictReasons: set<Reason>, refs: set<ExperienceRef>, contradiction: bool)
    returns (result: Advisory)
    requires actives != {} && refs == OverlappingRefs(proposal, actives)
    requires disjointReasons == ReasonsFrom(proposal, actives, false)
    requires conflictReasons == ReasonsFrom(proposal, actives, true)
    requires contradiction <==> AnyContradicts(proposal, actives)
    ensures IsPreflight(id, proposal, actives, result)
  {
    OrdersAreTotal();
    hide StrictTotal, IsListing, OverlappingRefs, ReasonsFrom;
    if |refs| == 0 {
      var reasons := SortedElements(disjointReasons, ReasonBefore);
      return Advisory(id, NoConflict, [], reasons);
    }
    var all := SortedElements(refs, RefBefore);
    var kept, codes := all, conflictReasons;
    if |all| > MAX_CONFLICT_REFS {
      kept := all[..MAX_CONFLICT_REFS];
      codes := codes + {ExperienceRefsTruncated};
    }
    assert codes == conflictReasons + if |all| > MAX_CONFLICT_REFS then {ExperienceRefsTruncated} else {};
    var reasons := SortedElements(codes, ReasonBefore);
    result := Advisory(id, if contradiction then PossibleContradiction else PossibleOverlap, kept, reasons);
    assert BoundedBy(proposal, actives, all, result);
  }

  lemma NeverCapped(proposal: Proposal, active: Experience)
    ensures ReasonFor(proposal, active) != ActiveQueryCapReached
  {
  }

  /** The preflight of valid experiences is an advisory that passes its own validation. */
  lemma PreflightIsValid(id: string, proposal: Proposal, actives: set<Experience>, r: Advisory)
    requires ValidIdentifier(id) && forall a :: a in actives ==> ValidExperience(a)
    requires IsPreflight(id, proposal, actives, r)
    ensures ValidAdvisory(r)
  {
    if actives == {} {
    } else if OverlappingRefs(proposal, actives) == {} {
      DisjointPreflightIsValid(id, proposal, actives, r);
    } else {
      OverlapPreflightIsValid(id, proposal, actives, r);
    }
  }

  lemma DisjointPreflightIsValid(id: string, proposal: Proposal, actives: set<Experience>, r: Advisory)
    requires ValidIdentifier(id) && actives != {} && OverlappingRefs(proposal, actives) == {}
    requires IsPreflight(id, proposal, actives, r)
    ensures ValidAdvisory(r)
  {
    OrdersAreTotal();
    hide ValidIdentifier, Overlaps, ReasonFor, StrictTotal;
    ListingDistinct(r.reasons, ReasonBefore);
    ReasonsFit(r.reasons);
    var some :| some in actives;
    assert Overlaps(proposal, some) ==> some.ref in OverlappingRefs(proposal, actives);
    assert ReasonFor(proposal, some) in ReasonsFrom(proposal, actives, false);
    assert ReasonFor(proposal, some) in r.reasons;
    NotCapped(proposal, actives, false);
  }

  lemma NotCapped(proposal: Proposal, actives: set<Experience>, overlapping: bool)
    ensures ActiveQueryCapReached !in ReasonsFrom(proposal, actives, overlapping)
  {
    forall a | a in actives
      ensures ReasonFor(proposal, a) != ActiveQueryCapReached
    {
      NeverCapped(proposal, a);
    }
  }

  lemma OverlapPreflightIsValid(id: string, proposal: Proposal, actives: set<Experience>, r: Advisory)
    requires ValidIdentifier(id) && forall a :: a in actives ==> ValidExperience(a)
    requires OverlappingRefs(proposal, actives) != {} && actives != {}
    requires IsPreflight(id, proposal, actives, r)
    ensures ValidAdvisory(r)
  {
    OrdersAreTotal();
    hide ValidIdentifier, Overlaps, ReasonFor, StrictTotal, Contradicts, ReasonBefore, RefBefore, ValidProposal;
    var all :| IsListing(all, OverlappingRefs(proposal, actives), RefBefore) && BoundedBy(proposal, actives, all, r);
    ListingDistinct(all, RefBefore);
    ListingDistinct(r.reasons, ReasonBefore);
    ReasonsFit(r.reasons);
    var hit :| hit in actives && Overlaps(proposal, hit);
    assert hit.ref in OverlappingRefs(proposal, actives);
    assert hit.ref in all;
    assert ReasonFor(proposal, hit) in ReasonsFrom(proposal, actives, true);
    assert ReasonFor(proposal, hit) in r.reasons;
    forall k | 0 <= k < |r.refs|
      ensures ValidRef(r.refs[k])
    {
      assert r.refs[k] == all[k] && all[k] in all;
    }
  }

  lemma ListingDistinct<T(!new)>(s: seq<T>, less: (T, T) -> bool)
    requires StrictTotal(less) && StrictlySorted(s, less)
    ensures Distinct(s)
  {
  }

  // ---------- an incomplete active set ----------

  /** `MarkConflictActiveQueryCapReached`. */
  function MarkQueryCap(value: Advisory): Result<Advisory> {
    if !ValidAdvisory(value) then Err else
    var state := if value.state.NoConflict? then PossibleOverlap else value.state;
    var reasons := if ActiveQueryCapReached in value.reasons then value.reasons
                   else Sort(value.reasons + [ActiveQueryCapReached], ReasonBefore);
    var marked := value.(state := state, reasons := reasons);
    if ValidAdvisory(marked) then Ok(marked) else Err
  }

  /** Marking a valid advisory always succeeds, claims uncertainty, keeps what was known, and is idempotent. */
  lemma MarkingIsSafe(value: Advisory)
    requires ValidAdvisory(value)
    ensures MarkQueryCap(value).Ok?
    ensures var marked := MarkQueryCap(value).value;
            && ValidAdvisory(marked) && !marked.state.NoConflict?
            && marked.refs == value.refs && (!value.state.NoConflict? ==> marked.state == value.state)
            && (forall reason :: reason in marked.reasons <==> reason in value.reasons || reason == ActiveQueryCapReached)
            && MarkQueryCap(marked) == Ok(marked)
  {
    OrdersAreTotal();
    if ActiveQueryCapReached !in value.reasons {
      var extended := value.reasons + [ActiveQueryCapReached];
      SortIsStrict(extended, ReasonBefore);
      SortElements(extended, ReasonBefore);
      var sorted := Sort(extended, ReasonBefore);
      ListingDistinct(sorted, ReasonBefore);
      ReasonsFit(sorted);
      assert ActiveQueryCapReached in extended;
      assert ActiveQueryCapReached in sorted;
    }
  }

  // ---------- the reasons, in the scopes' and verifiers' own terms ----------

  /** Two lists that both restrict and admit nothing in common. */
  ghost predicate Apart(x: seq<string>, y: seq<string>) {
    x != [] && y != [] && Elements(x) !! Elements(y)
  }

  /** The first reason that applies, in the order project, session, harnesses, models, task families. */
  lemma DisjointReasonMeans(left: Scope, right: Scope)
    ensures var r := ProvenDisjoint(left, right);
            var project := left.project != right.project;
            var session := left.kind == right.kind == SessionScope && left.session != right.session;
            var harnesses, models := Apart(left.harnesses, right.harnesses), Apart(left.models, right.models);
            var families := Apart(left.families, right.families);
            && (r == Some(DifferentProject) <==> project)
            && (r == Some(DisjointSession) <==> !project && session)
            && (r == Some(DisjointHarnesses) <==> !project && !session && harnesses)
            && (r == Some(DisjointModels) <==> !project && !session && !harnesses && models)
            && (r == Some(DisjointTaskFamilies) <==> !project && !session && !harnesses && !models && families)
            && (r == None <==> !project && !session && !harnesses && !models && !families)
  {
    ApartIff(left.harnesses, right.harnesses);
    ApartIff(left.models, right.models);
    ApartIff(left.families, right.families);
    hide SetsDisjoint, Apart;
  }

  lemma ApartIff(x: seq<string>, y: seq<string>)
    ensures SetsDisjoint(x, y) <==> Apart(x, y)
  {
    assert forall k :: 0 <= k < |y| ==> y[k] in Elements(y);
  }

  /** One verifier wants a file changed that the other, by its path or by a pattern, wants unchanged. */
  lemma OppositionMeans(left: VerifierSpec, right: VerifierSpec)
    ensures Opposition(left, right) == Some(FileVerifierOpposition) <==>
              || (left.FileModified? && right == FileNotModified(left.path))
              || (right.FileModified? && left == FileNotModified(right.path))
    ensures Opposition(left, right) == Some(PatternVerifierOpposition) <==>
              || (left.FileModified? && right.PathPatternNotModified? && MatchesAny(left.path, right.patterns))
              || (right.FileModified? && left.PathPatternNotModified? && MatchesAny(right.path, left.patterns))
    ensures Opposition(left, right) in {None, Some(FileVerifierOpposition), Some(PatternVerifierOpposition)}
  {
    hide MatchesAny;
  }

  // ---------- the order of an advisory ----------

  function CodeOf(reason: Reason): string {
    match reason
    case NoActiveExperiences => "no_active_experiences"
    case DifferentProject => "different_project"
    case DisjointSession => "disjoint_session"
    case DisjointHarnesses => "disjoint_harnesses"
    case DisjointModels => "disjoint_models"
    case DisjointTaskFamilies => "disjoint_task_families"
    case OverlappingScope => "overlapping_scope"
    case FileVerifierOpposition => "file_verifier_opposition"
    case PatternVerifierOpposition => "path_pattern_verifier_opposition"
    case ExperienceRefsTruncated => "experience_refs_truncated"
    case ActiveQueryCapReached => "active_experience_query_cap_reached"
  }

  lemma CodesInOrder()
    ensures Less(CodeOf(ActiveQueryCapReached), CodeOf(DifferentProject))
    ensures Less(CodeOf(DifferentProject), CodeOf(DisjointHarnesses))
    ensures Less(CodeOf(DisjointHarnesses), CodeOf(DisjointModels))
    ensures Less(CodeOf(DisjointModels), CodeOf(DisjointSession))
    ensures Less(CodeOf(DisjointSession), CodeOf(DisjointTaskFamilies))
    ensures Less(CodeOf(DisjointTaskFamilies), CodeOf(ExperienceRefsTruncated))
    ensures Less(CodeOf(ExperienceRefsTruncated), CodeOf(FileVerifierOpposition))
    ensures Less(CodeOf(FileVerifierOpposition), CodeOf(NoActiveExperiences))
    ensures Less(CodeOf(NoActiveExperiences), CodeOf(OverlappingScope))
    ensures Less(CodeOf(OverlappingScope), CodeOf(PatternVerifierOpposition))
  {
    hide Less;
    LessAt(CodeOf(ActiveQueryCapReached), CodeOf(DifferentProject), 0);
    LessAt(CodeOf(DifferentProject), CodeOf(DisjointHarnesses), 2);
    LessAt(CodeOf(DisjointHarnesses), CodeOf(DisjointModels), 9);
    LessAt(CodeOf(DisjointModels), CodeOf(DisjointSession), 9);
    LessAt(CodeOf(DisjointSession), CodeOf(DisjointTaskFamilies), 9);
    LessAt(CodeOf(DisjointTaskFamilies), CodeOf(ExperienceRefsTruncated), 0);
    LessAt(CodeOf(ExperienceRefsTruncated), CodeOf(FileVerifierOpposition), 0);
    LessAt(CodeOf(FileVerifierOpposition), CodeOf(NoActiveExperiences), 0);
    LessAt(CodeOf(NoActiveExperiences), CodeOf(OverlappingScope), 0);
    LessAt(CodeOf(OverlappingScope), CodeOf(PatternVerifierOpposition), 0);
  }

  lemma LessAt(a: string, b: string, k: nat)
    requires k < |a| && k < |b| && a[..k] == b[..k] && a[k] < b[k]
    ensures Less(a, b)
  {
    assert DiffersAt(a, b, k);
    LessIsLexicographic(a, b);
  }

  /** The rank of the reasons is the alphabetical order of their codes. */
  lemma ReasonsAreAlphabetical(a: Reason, b: Reason)
    ensures ReasonBefore(a, b) <==> Less(CodeOf(a), CodeOf(b))
  {
    LessTotal(CodeOf(a), CodeOf(b));
    LessTotal(CodeOf(a), CodeOf(a));
    if ReasonBefore(a, b) {
      RankedCodes(a, b);
    } else if ReasonBefore(b, a) {
      RankedCodes(b, a);
    }
    hide CodeOf, Less;
  }

  lemma {:induction false} RankedCodes(a: Reason, b: Reason)
    requires Rank(a) < Rank(b)
    ensures Less(CodeOf(a), CodeOf(b))
    decreases Rank(b) - Rank(a)
  {
    CodesInOrder();
    hide CodeOf, Less;
    if Rank(b) > Rank(a) + 1 {
      var next := NextReason(a);
      RankedCodes(a, next);
      RankedCodes(next, b);
      LessTransitive(CodeOf(a), CodeOf(next), CodeOf(b));
    }
  }

  lemma NextReason(a: Reason) returns (next: Reason)
    requires Rank(a) < 10
    ensures Rank(next) == Rank(a) + 1
  {
    next := match a
      case ActiveQueryCapReached => DifferentProject
      case DifferentProject => DisjointHarnesses
      case DisjointHarnesses => DisjointModels
      case DisjointModels => DisjointSession
      case DisjointSession => DisjointTaskFamilies
      case DisjointTaskFamilies => ExperienceRefsTruncated
      case ExperienceRefsTruncated => FileVerifierOpposition
      case FileVerifierOpposition => NoActiveExperiences
      case NoActiveExperiences => OverlappingScope
      case _ => PatternVerifierOpposition;
  }

  /** References stand by ID and version, reasons by their codes, at most 64 of the one. */
  lemma AdvisoryInOrder(id: string, proposal: Proposal, actives: set<Experience>, r: Advisory)
    requires IsPreflight(id, proposal, actives, r)
    ensures |r.refs| <= 64
    ensures forall i, j :: 0 <= i < j < |r.refs| ==>
              Less(r.refs[i].id, r.refs[j].id) || (r.refs[i].id == r.refs[j].id && r.refs[i].version < r.refs[j].version)
    ensures forall i, j :: 0 <= i < j < |r.reasons| ==> Less(CodeOf(r.reasons[i]), CodeOf(r.reasons[j]))
  {
    hide OverlappingRefs, ReasonsFrom, AnyContradicts, Less, CodeOf, ReasonBefore;
    forall i, j | 0 <= i < j < |r.reasons|
      ensures Less(CodeOf(r.reasons[i]), CodeOf(r.reasons[j]))
    {
      ReasonsAreAlphabetical(r.reasons[i], r.reasons[j]);
      assert ReasonBefore(r.reasons[i], r.reasons[j]);
    }
  }
}
