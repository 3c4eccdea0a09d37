/**
 * Coalescing of duplicated live and historical observations (`internal/detection/coalesce.go`).
 * Two observations are merged when each is the only opposite-source candidate of the other inside
 * their identity group. The identity key is a tuple rather than a NUL-joined string.
 */
module Coalesce {
  import opened Common
  import opened Ordering
  import opened Events

  const COALESCE_WINDOW := SECOND
  const MAX_COALESCE_GROUP := 256

  datatype Side = Live | Historical

  datatype Subject =
    | Command(signature: string)
    | CommandResultToolCall(toolCallId: string)
    | Permission(permissionClass: string)
    | File(kind: string, name: string)
    | ToolResult(tool: string)

  datatype Identity = Identity(
    sessionKey: string, kind: string, actor: string, outcome: string, exitCode: Option<int>, subject: Subject)

  datatype Candidate = Candidate(index: nat, side: Side, toolCallId: string, signature: string, at: int)

  // ---------- what an event is grouped by ----------

  function SideOf(item: PreparedEvent): Option<Side> {
    if item.event.sourceKind == "artifact" then Some(Historical)
    else if item.event.sourceKind == "hook" then Some(Live)
    else None
  }

  function SubjectOf(item: PreparedEvent): Option<Subject> {
    var observation := item.event.observation;
    var bySignature := if item.enrichment.signature == "" then None else Some(Command(item.enrichment.signature));
    if observation.kind == "command.exec" then bySignature
    else if observation.kind == "command.result" then
      if ToolCallId(item.event) != "" then Some(CommandResultToolCall(ToolCallId(item.event))) else bySignature
    else if observation.kind in {"permission.requested", "permission.approved", "permission.denied"} then
      if item.enrichment.permissionClass == "" then None else Some(Permission(item.enrichment.permissionClass))
    else if observation.kind in {"file.read", "file.write", "file.delete"} then
      if observation.resource.None? || observation.resource.value.kind == "" || observation.resource.value.name == ""
      then None else Some(File(observation.resource.value.kind, observation.resource.value.name))
    else if observation.kind == "tool.result" then
      if ToolIdentity(item.event) == "" then None else Some(ToolResult(ToolIdentity(item.event)))
    else None
  }

  function IdentityOf(item: PreparedEvent): Option<Identity> {
    var subject := SubjectOf(item);
    if subject.None? then None else
    var o := item.event.observation;
    Some(Identity(item.event.sessionKey, o.kind, o.actor, ToLower(TrimSpace(o.outcome)), o.exitCode, subject.value))
  }

  predicate Keyed(item: PreparedEvent, id: Identity) {
    IdentityOf(item) == Some(id) && SideOf(item).Some?
  }

  function CandidateOf(item: PreparedEvent, index: nat): Candidate
    requires SideOf(item).Some?
  {
    Candidate(index, SideOf(item).value, ToolCallId(item.event), item.enrichment.signature, item.event.occurredAt)
  }

  /** The members of an identity group among the first n events, in list order. */
  function Group(events: seq<PreparedEvent>, id: Identity, n: nat): seq<Candidate>
    requires n <= |events|
  {
    if n == 0 then []
    else Group(events, id, n - 1) + (if Keyed(events[n - 1], id) then [CandidateOf(events[n - 1], n - 1)] else [])
  }

  // ---------- the compatibility graph and its isolated edges ----------

  predicate Agree(a: string, b: string) {
    a == "" || b == "" || a == b
  }

  predicate Opposite(a: Candidate, b: Candidate) {
    && a.index != b.index && a.side != b.side
    && Within(b.at, a.at, COALESCE_WINDOW)
    && Agree(a.toolCallId, b.toolCallId)
    && Agree(a.signature, b.signature)
  }

  /** The test as the code computes it, with 64-bit saturation and negation. */
  predicate OppositeAsCoded(a: Candidate, b: Candidate) {
    && a.index != b.index && a.side != b.side
    && DurationAbsolute(SaturatingSub(b.at, a.at)) <= COALESCE_WINDOW
    && Agree(a.toolCallId, b.toolCallId)
    && Agree(a.signature, b.signature)
  }

  /** Candidates less than 2^63 ns apart are compared exactly, and the code's test is as symmetric as the exact one. */
  lemma CodedTestIsExact(a: Candidate, b: Candidate)
    ensures OppositeAsCoded(a, b) != Opposite(a, b) <==>
              && a.index != b.index && a.side != b.side && Agree(a.toolCallId, b.toolCallId) && Agree(a.signature, b.signature)
              && b.at - a.at <= MIN_INT64
    ensures a.at - b.at < -MIN_INT64 && b.at - a.at < -MIN_INT64 ==>
              OppositeAsCoded(a, b) == Opposite(a, b) == OppositeAsCoded(b, a)
  {
    WindowTestIsExact(b.at, a.at, COALESCE_WINDOW);
    WindowTestIsExact(a.at, b.at, COALESCE_WINDOW);
  }

  /** Both have a known source and the same identity, in a group small enough to be looked at. */
  predicate Mates(events: seq<PreparedEvent>, i: nat, j: nat) {
    && i < |events| && j < |events|
    && IdentityOf(events[i]).Some? && IdentityOf(events[i]) == IdentityOf(events[j])
    && SideOf(events[i]).Some? && SideOf(events[j]).Some?
    && |Group(events, IdentityOf(events[i]).value, |events|)| <= MAX_COALESCE_GROUP
  }

  predicate Edge(events: seq<PreparedEvent>, i: nat, j: nat) {
    Mates(events, i, j) && Opposite(CandidateOf(events[i], i), CandidateOf(events[j], j))
  }

  predicate EdgeAsCoded(events: seq<PreparedEvent>, i: nat, j: nat) {
    Mates(events, i, j) && OppositeAsCoded(CandidateOf(events[i], i), CandidateOf(events[j], j))
  }

  /** No two times are 2^63 ns or more apart. */
  predicate TimesClose(events: seq<PreparedEvent>) {
    forall i, j :: 0 <= i < |events| && 0 <= j < |events| ==>
      events[i].event.occurredAt - events[j].event.occurredAt < -MIN_INT64
  }

  /** Then the code's compatibility graph is the exact one, and what depends on the graph alone holds of the code. */
  lemma CodedGraphIsExact(events: seq<PreparedEvent>)
    requires TimesClose(events)
    ensures forall i: nat, j: nat :: EdgeAsCoded(events, i, j) == Edge(events, i, j)
  {
    hide Group, IdentityOf, OppositeAsCoded, Opposite;
    forall i: nat, j: nat | Mates(events, i, j)
      ensures EdgeAsCoded(events, i, j) == Edge(events, i, j)
    {
      CodedTestIsExact(CandidateOf(events[i], i), CandidateOf(events[j], j));
    }
  }

  /** An executed command, live or historical, at some time. */
  function ExecAt(live: bool, at: int): PreparedEvent {
    PreparedEvent(
      Event("", "", at, 0, if live then "hook" else "artifact", "",
            Observation("command.exec", "", "", None, None, None), "", "", !live),
      Enrichment("s", "", "", ""), [], !live, live)
  }

  /**
   * Beyond that the code's graph need not be symmetric. A live event far later than a historical one and a
   * live one close to each other has the historical one as its only candidate, whose only candidate is the
   * close live one. The code, asking of the other end only that it has one candidate, joins the far event
   * with the historical one and then the close one with it again.
   */
  lemma FarTimesPairOneWay() returns (events: seq<PreparedEvent>)
    ensures forall i: nat, j: nat :: EdgeAsCoded(events, i, j) <==> (i, j) in {(0, 1), (1, 2), (2, 1)}
  {
    events := [ExecAt(true, -MIN_INT64), ExecAt(false, 0), ExecAt(true, 0)];
    var id := IdentityOf(events[0]).value;
    assert forall i :: 0 <= i < 3 ==> IdentityOf(events[i]) == Some(id) && SideOf(events[i]).Some?;
    GroupFits(events, id, 3);
    hide Group, IdentityOf;
    forall i: nat, j: nat | i < 3 && j < 3
      ensures EdgeAsCoded(events, i, j) <==> (i, j) in {(0, 1), (1, 2), (2, 1)}
    {
      assert Mates(events, i, j);
    }
  }

  lemma {:induction false} GroupFits(events: seq<PreparedEvent>, id: Identity, n: nat)
    requires n <= |events|
    ensures |Group(events, id, n)| <= n
  {
    if n > 0 {
      GroupFits(events, id, n - 1);
    }
  }

  ghost predicate Isolated(events: seq<PreparedEvent>, i: nat, j: nat) {
    && Edge(events, i, j)
    && (forall k: nat :: Edge(events, i, k) ==> k == j)
    && (forall k: nat :: Edge(events, j, k) ==> k == i)
  }

  /** `paired` holds exactly the isolated edges, in both directions. */
  ghost predicate IsPairing(events: seq<PreparedEvent>, paired: map<nat, nat>) {
    forall i: nat, j: nat :: (i in paired && paired[i] == j) <==> Isolated(events, i, j)
  }

  lemma EdgeSymmetric(events: seq<PreparedEvent>, i: nat, j: nat)
    ensures Edge(events, i, j) == Edge(events, j, i)
  {
  }

  lemma IsolatedSymmetric(events: seq<PreparedEvent>, i: nat, j: nat)
    requires Isolated(events, i, j)
    ensures Isolated(events, j, i)
    ensures forall k: nat :: Isolated(events, j, k) ==> k == i
    ensures i < |events| && j < |events| && forall id :: Keyed(events[i], id) == Keyed(events[j], id)
  {
    EdgeSymmetric(events, i, j);
  }

  /** A pairing is a fixpoint-free involution that crosses sources, and the graph alone determines it. */
  lemma PairingInvolution(events: seq<PreparedEvent>, paired: map<nat, nat>)
    requires IsPairing(events, paired)
    ensures forall i :: i in paired ==>
              && i < |events| && paired[i] < |events| && paired[i] != i
              && paired[i] in paired && paired[paired[i]] == i
              && SideOf(events[i]).Some? && SideOf(events[paired[i]]).Some?
              && SideOf(events[i]) != SideOf(events[paired[i]])
  {
    forall i | i in paired
      ensures Isolated(events, i, paired[i]) && Isolated(events, paired[i], i)
    {
      IsolatedSymmetric(events, i, paired[i]);
    }
  }

  lemma PairingUnique(events: seq<PreparedEvent>, p: map<nat, nat>, q: map<nat, nat>)
    requires IsPairing(events, p) && IsPairing(events, q)
    ensures p == q
  {
    forall i | i in p
      ensures i in q && q[i] == p[i]
    {
      assert Isolated(events, i, p[i]);
    }
    forall i | i in q
      ensures i in p
    {
      assert Isolated(events, i, q[i]);
    }
  }

  // ---------- finding the pairs ----------

  lemma {:induction false} GroupSpec(events: seq<PreparedEvent>, id: Identity, n: nat)
    requires n <= |events|
    ensures forall c :: c in Group(events, id, n) <==>
              c.index < n && Keyed(events[c.index], id) && c == CandidateOf(events[c.index], c.index)
    ensures forall i, j :: 0 <= i < j < |Group(events, id, n)| ==>
              Group(events, id, n)[i].index < Group(events, id, n)[j].index
  {
    if n > 0 {
      GroupSpec(events, id, n - 1);
    }
  }

  method BuildGroups(events: seq<PreparedEvent>) returns (groups: map<Identity, seq<Candidate>>)
    ensures forall id :: id in groups ==> groups[id] == Group(events, id, |events|)
    ensures forall id :: id !in groups ==> Group(events, id, |events|) == []
  {
    groups := map[];
    for index := 0 to |events|
      invariant forall id :: id in groups ==> groups[id] == Group(events, id, index)
      invariant forall id :: id !in groups ==> Group(events, id, index) == []
    {
      var identity := IdentityOf(events[index]);
      var side := SideOf(events[index]);
      if identity.None? || side.None? {
        continue;
      }
      var candidate := CandidateOf(events[index], index);
      var before := if identity.value in groups then groups[identity.value] else [];
      groups := groups[identity.value := before + [candidate]];
    }
  }

  /** Up to two opposite-source candidates; the scan stops at the second. */
  method UniqueOppositeCandidates(candidate: Candidate, candidates: seq<Candidate>) returns (result: seq<Candidate>)
    requires forall i, j :: 0 <= i < j < |candidates| ==> candidates[i].index < candidates[j].index
    ensures |result| <= 2
    ensures forall c :: c in result ==> c in candidates && Opposite(candidate, c)
    ensures |result| == 2 ==> result[0] != result[1]
    ensures |result| < 2 ==> forall c :: c in candidates && Opposite(candidate, c) ==> c in result
  {
    result := [];
    for k := 0 to |candidates|
      invariant |result| <= 1
      invariant forall c :: c in result <==> c in candidates[..k] && Opposite(candidate, c)
    {
      var other := candidates[k];
      assert candidates[..k + 1] == candidates[..k] + [other];
      if !Opposite(candidate, other) {
        continue;
      }
      result := result + [other];
      if |result| > 1 {
        return;
      }
    }
    assert candidates[..|candidates|] == candidates;
  }

  /** An isolated edge of the group `id` in which `candidate` is the first end looked at. */
  lemma OneMatchEachWay(events: seq<PreparedEvent>, id: Identity, a: Candidate, b: Candidate)
    requires |Group(events, id, |events|)| <= MAX_COALESCE_GROUP
    requires a in Group(events, id, |events|) && b in Group(events, id, |events|)
    ensures Isolated(events, a.index, b.index) <==>
            && Opposite(a, b)
            && (forall c :: c in Group(events, id, |events|) && Opposite(a, c) ==> c == b)
            && (forall c :: c in Group(events, id, |events|) && Opposite(b, c) ==> c == a)
  {
    GroupSpec(events, id, |events|);
    if Isolated(events, a.index, b.index) {
      forall c | c in Group(events, id, |events|) && Opposite(a, c)
        ensures c == b
      {
        assert Edge(events, a.index, c.index);
      }
      forall c | c in Group(events, id, |events|) && Opposite(b, c)
        ensures c == a
      {
        assert Edge(events, b.index, c.index);
      }
    }
    if  && Opposite(a, b)
        && (forall c :: c in Group(events, id, |events|) && Opposite(a, c) ==> c == b)
        && (forall c :: c in Group(events, id, |events|) && Opposite(b, c) ==> c == a)
    {
      forall k: nat | Edge(events, a.index, k)
        ensures k == b.index
      {
        assert CandidateOf(events[k], k) in Group(events, id, |events|);
      }
      forall k: nat | Edge(events, b.index, k)
        ensures k == a.index
      {
        assert CandidateOf(events[k], k) in Group(events, id, |events|);
      }
    }
  }

  // A map seen as the set of its entries, and the sets of isolated edges the loops collect.

  ghost function Entries(m: map<nat, nat>): iset<(nat, nat)> {
    iset i | i in m :: (i, m[i])
  }

  /** The isolated edges of group `id` with an end among the members seen so far. */
  ghost function FoundPairs(events: seq<PreparedEvent>, id: Identity, seen: set<nat>): iset<(nat, nat)> {
    iset i: nat, j: nat | Isolated(events, i, j) && Keyed(events[i], id) && (i in seen || j in seen) :: (i, j)
  }

  ghost function GroupPairs(events: seq<PreparedEvent>, id: Identity): iset<(nat, nat)> {
    iset i: nat, j: nat | Isolated(events, i, j) && Keyed(events[i], id) :: (i, j)
  }

  ghost function PairsOfGroups(events: seq<PreparedEvent>, done: set<Identity>): iset<(nat, nat)> {
    iset i: nat, j: nat | Isolated(events, i, j) && IdentityOf(events[i]).value in done :: (i, j)
  }

  ghost function BothWays(a: nat, partner: Option<nat>): iset<(nat, nat)> {
    if partner.None? then iset{} else iset{(a, partner.value), (partner.value, a)}
  }

  ghost predicate PartnerIs(events: seq<PreparedEvent>, a: nat, partner: Option<nat>) {
    forall j: nat :: Isolated(events, a, j) <==> partner == Some(j)
  }

  lemma SeeMember(events: seq<PreparedEvent>, id: Identity, seen: set<nat>, a: nat, partner: Option<nat>)
    requires a < |events| && Keyed(events[a], id) && PartnerIs(events, a, partner)
    ensures FoundPairs(events, id, seen + {a}) == FoundPairs(events, id, seen) + BothWays(a, partner)
  {
    hide Isolated, Keyed;
    forall i: nat, j: nat
      ensures (i, j) in FoundPairs(events, id, seen + {a}) <==>
              (i, j) in FoundPairs(events, id, seen) + BothWays(a, partner)
    {
      if Isolated(events, i, j) { IsolatedSymmetric(events, i, j); }
      if partner.Some? { IsolatedSymmetric(events, a, partner.value); }
    }
  }

  lemma IsolatedIsOnly(events: seq<PreparedEvent>, id: Identity, a: Candidate, j: nat)
    requires |Group(events, id, |events|)| <= MAX_COALESCE_GROUP
    requires a in Group(events, id, |events|) && Isolated(events, a.index, j)
    ensures exists b :: b in Group(events, id, |events|) && b.index == j && Opposite(a, b)
              && forall c :: c in Group(events, id, |events|) && Opposite(a, c) ==> c == b
  {
    GroupSpec(events, id, |events|);
    var b := CandidateOf(events[j], j);
    assert b in Group(events, id, |events|);
    OneMatchEachWay(events, id, a, b);
  }

  lemma PartnerFromMatches(events: seq<PreparedEvent>, id: Identity, a: Candidate, matches: seq<Candidate>)
    requires |Group(events, id, |events|)| <= MAX_COALESCE_GROUP
    requires a in Group(events, id, |events|)
    requires |matches| == 2 ==> matches[0] != matches[1]
    requires |matches| <= 2
    requires forall c :: c in matches ==> c in Group(events, id, |events|) && Opposite(a, c)
    requires |matches| < 2 ==> forall c :: c in Group(events, id, |events|) && Opposite(a, c) ==> c in matches
    ensures |matches| != 1 ==> PartnerIs(events, a.index, None)
    ensures |matches| == 1 ==>
              var only := forall c :: c in Group(events, id, |events|) && Opposite(matches[0], c) ==> c == a;
              PartnerIs(events, a.index, if only then Some(matches[0].index) else None)
  {
    hide Isolated;
    assert |matches| > 0 ==> matches[0] in matches;
    assert |matches| == 2 ==> matches[1] in matches;
    forall j: nat | Isolated(events, a.index, j)
      ensures |matches| == 1 && j == matches[0].index
    {
      IsolatedIsOnly(events, id, a, j);
    }
    if |matches| == 1 {
      assert matches[0] in matches;
      assert forall c :: c in matches ==> c == matches[0];
      OneMatchEachWay(events, id, a, matches[0]);
    }
  }

  lemma EntriesOfPair(m: map<nat, nat>, a: nat, b: nat)
    requires a !in m && b !in m && a != b
    ensures Entries(m[a := b][b := a]) == Entries(m) + BothWays(a, Some(b))
  {
    var after := m[a := b][b := a];
    forall i: nat, j: nat
      ensures (i, j) in Entries(after) <==> (i, j) in Entries(m) + BothWays(a, Some(b))
    {
      assert (i, j) in Entries(after) <==> i in after && after[i] == j;
      assert (i, j) in Entries(m) <==> i in m && m[i] == j;
    }
  }

  /** Looking at a member that an earlier member was paired with adds nothing. */
  lemma SeePairedMember(
    events: seq<PreparedEvent>, id: Identity, before: iset<(nat, nat)>, seen: set<nat>, paired: map<nat, nat>, a: nat)
    requires Entries(paired) == before + FoundPairs(events, id, seen)
    requires a in paired && (a, paired[a]) !in before
    ensures Entries(paired) == before + FoundPairs(events, id, seen + {a})
  {
    hide Isolated, Keyed;
    var b := paired[a];
    assert (a, b) in Entries(paired);
    IsolatedSymmetric(events, a, b);
    IsolatedSymmetric(events, b, a);
    assert PartnerIs(events, a, Some(b));
    SeeMember(events, id, seen, a, Some(b));
    assert (b, a) in FoundPairs(events, id, seen);
  }

  /** Neither end of a newly found edge was in the map. */
  lemma NewPairUnpaired(
    events: seq<PreparedEvent>, id: Identity, before: iset<(nat, nat)>, seen: set<nat>, paired: map<nat, nat>, a: nat, b: nat)
    requires Entries(paired) == before + FoundPairs(events, id, seen)
    requires a !in paired && b in paired && (b, paired[b]) !in before
    requires a < |events| && Keyed(events[a], id)
    ensures !Isolated(events, a, b)
  {
    hide Isolated, Keyed;
    var c := paired[b];
    assert (b, c) in Entries(paired);
    IsolatedSymmetric(events, b, c);
    assert (c, b) in Entries(paired);
    if Isolated(events, a, b) {
      IsolatedSymmetric(events, a, b);
    }
  }

  lemma AllSeen(events: seq<PreparedEvent>, id: Identity, seen: set<nat>)
    requires forall i: nat :: i < |events| && Keyed(events[i], id) ==> i in seen
    ensures FoundPairs(events, id, seen) == GroupPairs(events, id)
  {
    hide Keyed;
    forall i: nat, j: nat | Isolated(events, i, j)
      ensures i < |events|
    {
      assert Edge(events, i, j);
    }
  }

  /** The second scan finds one candidate exactly when the first end is the only one. */
  lemma BackDecides(group: seq<Candidate>, a: Candidate, b: Candidate, back: seq<Candidate>)
    requires a in group && b in group && Opposite(a, b)
    requires |back| <= 2 && (|back| == 2 ==> back[0] != back[1])
    requires forall c :: c in back ==> c in group && Opposite(b, c)
    requires |back| < 2 ==> forall c :: c in group && Opposite(b, c) ==> c in back
    ensures |back| == 1 <==> forall c :: c in group && Opposite(b, c) ==> c == a
  {
    assert |back| > 0 ==> back[0] in back;
    assert |back| == 2 ==> back[1] in back;
    assert Opposite(b, a);
  }

  lemma GroupMember(events: seq<PreparedEvent>, id: Identity, c: Candidate)
    requires c in Group(events, id, |events|)
    ensures c.index < |events| && Keyed(events[c.index], id)
  {
    GroupSpec(events, id, |events|);
  }

  lemma MemberSeen(events: seq<PreparedEvent>, id: Identity, i: nat)
    requires i < |events| && Keyed(events[i], id)
    ensures exists n :: 0 <= n < |Group(events, id, |events|)| && Group(events, id, |events|)[n].index == i
  {
    GroupSpec(events, id, |events|);
    assert CandidateOf(events[i], i) in Group(events, id, |events|);
  }

  lemma GroupAscends(events: seq<PreparedEvent>, id: Identity)
    ensures forall i, j :: 0 <= i < j < |Group(events, id, |events|)| ==>
              Group(events, id, |events|)[i].index < Group(events, id, |events|)[j].index
  {
    GroupSpec(events, id, |events|);
  }

  method PairGroup(events: seq<PreparedEvent>, id: Identity, candidates: seq<Candidate>, paired0: map<nat, nat>)
    returns (paired: map<nat, nat>)
    requires candidates == Group(events, id, |events|) && |candidates| <= MAX_COALESCE_GROUP
    requires forall c :: c in candidates ==> c.index !in paired0
    ensures Entries(paired) == Entries(paired0) + GroupPairs(events, id)
  {
    hide Isolated, Keyed, PartnerIs, Group, CandidateOf, Opposite, FoundPairs, GroupPairs, Entries;
    GroupAscends(events, id);
    paired := paired0;
    ghost var before := Entries(paired0);
    ghost var seen: set<nat> := {};
    assert FoundPairs(events, id, {}) == iset{} by { NothingSeen(events, id); }
    for k := 0 to |candidates|
      invariant forall n :: 0 <= n < k ==> candidates[n].index in seen
      invariant Entries(paired) == before + FoundPairs(events, id, seen)
    {
      var candidate := candidates[k];
      assert candidate in candidates;
      GroupMember(events, id, candidate);
      ghost var seenBefore := seen;
      seen := seen + {candidate.index};
      if candidate.index in paired {
        NotAnEntry(paired0, candidate.index);
        SeePairedMember(events, id, before, seenBefore, paired, candidate.index);
        continue;
      }
      var matches := UniqueOppositeCandidates(candidate, candidates);
      PartnerFromMatches(events, id, candidate, matches);
      if |matches| != 1 {
        SeeMember(events, id, seenBefore, candidate.index, None);
        continue;
      }
      var opposite := matches[0];
      assert opposite in matches;
      var back := UniqueOppositeCandidates(opposite, candidates);
      BackDecides(candidates, candidate, opposite, back);
      if |back| != 1 {
        SeeMember(events, id, seenBefore, candidate.index, None);
        continue;
      }
      SeeMember(events, id, seenBefore, candidate.index, Some(opposite.index));
      NewPair(events, id, before, seenBefore, paired0, paired, candidate.index, opposite.index);
      paired := paired[candidate.index := opposite.index][opposite.index := candidate.index];
    }
    forall i: nat | i < |events| && Keyed(events[i], id)
      ensures i in seen
    {
      MemberSeen(events, id, i);
    }
    AllSeen(events, id, seen);
  }

  lemma NothingSeen(events: seq<PreparedEvent>, id: Identity)
    ensures FoundPairs(events, id, {}) == iset{}
  {
  }

  lemma NotAnEntry(m: map<nat, nat>, i: nat)
    requires i !in m
    ensures forall j: nat :: (i, j) !in Entries(m)
  {
  }

  lemma NewPair(
    events: seq<PreparedEvent>, id: Identity, before: iset<(nat, nat)>, seen: set<nat>,
    paired0: map<nat, nat>, paired: map<nat, nat>, a: nat, b: nat)
    requires Entries(paired) == before + FoundPairs(events, id, seen) && before == Entries(paired0)
    requires a !in paired && b !in paired0
    requires a < |events| && Keyed(events[a], id) && PartnerIs(events, a, Some(b))
    ensures Entries(paired[a := b][b := a]) == Entries(paired) + BothWays(a, Some(b))
  {
    assert Isolated(events, a, b);
    assert a != b;
    hide Isolated, Keyed;
    if b in paired {
      NewPairUnpaired(events, id, before, seen, paired, a, b);
    }
    EntriesOfPair(paired, a, b);
  }

  lemma GroupDone(events: seq<PreparedEvent>, done: set<Identity>, id: Identity)
    ensures PairsOfGroups(events, done + {id}) == PairsOfGroups(events, done) + GroupPairs(events, id)
  {
    forall i: nat, j: nat | Isolated(events, i, j)
      ensures IdentityOf(events[i]).value == id <==> Keyed(events[i], id)
    {
      assert Edge(events, i, j);
    }
  }

  /** A group over the limit, or without members, has no isolated edge. */
  lemma NoPairsInGroup(events: seq<PreparedEvent>, id: Identity)
    requires |Group(events, id, |events|)| > MAX_COALESCE_GROUP || Group(events, id, |events|) == []
    ensures GroupPairs(events, id) == iset{}
  {
    forall i: nat, j: nat | Isolated(events, i, j)
      ensures !Keyed(events[i], id)
    {
      assert Edge(events, i, j);
      if Keyed(events[i], id) {
        MemberSeen(events, id, i);
      }
    }
  }

  lemma PairedInGroups(events: seq<PreparedEvent>, done: set<Identity>, paired: map<nat, nat>)
    requires Entries(paired) == PairsOfGroups(events, done)
    ensures forall i: nat :: i in paired ==>
              i < |events| && IdentityOf(events[i]).Some? && IdentityOf(events[i]).value in done
  {
    forall i: nat | i in paired
      ensures Isolated(events, i, paired[i]) && IdentityOf(events[i]).value in done
    {
      assert (i, paired[i]) in Entries(paired);
    }
  }

  lemma EntriesArePairing(events: seq<PreparedEvent>, done: set<Identity>, paired: map<nat, nat>)
    requires Entries(paired) == PairsOfGroups(events, done)
    requires forall id :: id !in done ==> Group(events, id, |events|) == []
    ensures IsPairing(events, paired)
  {
    forall i: nat, j: nat
      ensures (i in paired && paired[i] == j) <==> (i, j) in Entries(paired)
      ensures Isolated(events, i, j) <==> (i, j) in Entries(paired)
    {
      if Isolated(events, i, j) {
        assert Edge(events, i, j);
        MemberSeen(events, IdentityOf(events[i]).value, i);
      }
    }
  }

  /** The pairing loop: groups in any order, members in list order, groups over 256 skipped. */
  method PairCandidates(events: seq<PreparedEvent>, groups: map<Identity, seq<Candidate>>) returns (paired: map<nat, nat>)
    requires forall id :: id in groups ==> groups[id] == Group(events, id, |events|)
    requires forall id :: id !in groups ==> Group(events, id, |events|) == []
    ensures IsPairing(events, paired)
  {
    paired := map[];
    var left := groups.Keys;
    ghost var done: set<Identity> := {};
    hide Isolated, Group, GroupPairs;
    while left != {}
      invariant left !! done && left + done == groups.Keys
      invariant Entries(paired) == PairsOfGroups(events, done)
      decreases left
    {
      var id :| id in left;
      var candidates := groups[id];
      GroupDone(events, done, id);
      if |candidates| > MAX_COALESCE_GROUP {
        NoPairsInGroup(events, id);
      } else {
        PairedInGroups(events, done, paired);
        forall c | c in candidates
          ensures c.index !in paired
        {
          GroupMember(events, id, c);
        }
        paired := PairGroup(events, id, candidates, paired);
      }
      left, done := left - {id}, done + {id};
    }
    EntriesArePairing(events, done, paired);
  }

  // ---------- merging ----------

  function CoverageRank(item: PreparedEvent): int {
    var depth := match item.event.depth
      case "full" => 50
      case "tool_call" => 40
      case "lifecycle" => 30
      case "otlp" => 20
      case "artifact" => 10
      case _ => 0;
    var confidence := match item.event.confidence
      case "high" => 3
      case "medium" => 2
      case "low" => 1
      case _ => 0;
    depth + confidence
  }

  function Fill(primary: string, secondary: string): string {
    if primary == "" then secondary else primary
  }

  function MergeEnrichment(primary: Enrichment, secondary: Enrichment): Enrichment {
    Enrichment(Fill(primary.signature, secondary.signature),
               Fill(primary.commandClass, secondary.commandClass),
               Fill(primary.permissionClass, secondary.permissionClass),
               Fill(primary.version, secondary.version))
  }

  function MergeCoalesced(left: PreparedEvent, right: PreparedEvent): PreparedEvent {
    var swap := CoverageRank(right) > CoverageRank(left);
    var retained := if swap then right else left;
    var other := if swap then left else right;
    PreparedEvent(
      retained.event,
      MergeEnrichment(retained.enrichment, other.enrichment),
      SortDistinct(retained.evidence + other.evidence, Less),
      retained.historical || other.historical,
      retained.live || other.live)
  }

  /** Whether the event at `i` heads an output item, rather than being the later end of a pair. */
  predicate Heads(paired: map<nat, nat>, i: nat) {
    i in paired ==> paired[i] > i
  }

  function Image(events: seq<PreparedEvent>, paired: map<nat, nat>, i: nat): PreparedEvent
    requires i < |events| && (i in paired ==> paired[i] < |events|)
  {
    if i in paired then MergeCoalesced(events[i], events[paired[i]]) else events[i]
  }

  /** The indices below n that head an output item, ascending. */
  function Kept(paired: map<nat, nat>, n: nat): seq<nat> {
    if n == 0 then [] else Kept(paired, n - 1) + (if Heads(paired, n - 1) then [n - 1] else [])
  }

  lemma {:induction false} KeptSpec(paired: map<nat, nat>, n: nat)
    ensures forall i: nat :: i in Kept(paired, n) <==> i < n && Heads(paired, i)
    ensures forall a, b :: 0 <= a < b < |Kept(paired, n)| ==> Kept(paired, n)[a] < Kept(paired, n)[b]
  {
    if n > 0 {
      KeptSpec(paired, n - 1);
      var before := Kept(paired, n - 1);
      assert forall a :: 0 <= a < |before| ==> before[a] in before;
    }
  }

  ghost predicate InRange(events: seq<PreparedEvent>, paired: map<nat, nat>) {
    forall i :: i in paired ==> i < |events| && paired[i] < |events| && paired[i] != i
                                && paired[i] in paired && paired[paired[i]] == i
  }

  function Merged(events: seq<PreparedEvent>, paired: map<nat, nat>, n: nat): (r: seq<PreparedEvent>)
    requires n <= |events| && InRange(events, paired)
    ensures |r| == |Kept(paired, n)|
  {
    if n == 0 then []
    else Merged(events, paired, n - 1) + (if Heads(paired, n - 1) then [Image(events, paired, n - 1)] else [])
  }

  lemma {:induction false} MergedAt(events: seq<PreparedEvent>, paired: map<nat, nat>, n: nat)
    requires n <= |events| && InRange(events, paired)
    ensures forall k :: 0 <= k < |Kept(paired, n)| ==>
              Kept(paired, n)[k] < |events| && Merged(events, paired, n)[k] == Image(events, paired, Kept(paired, n)[k])
  {
    if n > 0 {
      MergedAt(events, paired, n - 1);
    }
  }

  ghost predicate HasPartner(events: seq<PreparedEvent>, i: nat) {
    exists j: nat :: Isolated(events, i, j)
  }

  ghost function Partner(events: seq<PreparedEvent>, i: nat): (j: nat)
    requires HasPartner(events, i)
    ensures Isolated(events, i, j)
  {
    var j: nat :| Isolated(events, i, j); j
  }

  /** The pairing of a list: the isolated edges of its graph. */
  ghost function Pairing(events: seq<PreparedEvent>): (paired: map<nat, nat>)
    ensures IsPairing(events, paired) && InRange(events, paired)
  {
    var paired := map i: nat | i < |events| && HasPartner(events, i) :: Partner(events, i);
    assert IsPairing(events, paired) by {
      forall i: nat, j: nat
        ensures (i in paired && paired[i] == j) <==> Isolated(events, i, j)
      {
        if Isolated(events, i, j) {
          assert Edge(events, i, j) && HasPartner(events, i);
        }
      }
    }
    PairingInvolution(events, paired);
    paired
  }

  /** The list `coalesceEvents` returns. */
  ghost function Coalesced(events: seq<PreparedEvent>): seq<PreparedEvent> {
    Sort(Merged(events, Pairing(events), |events|), EventBefore)
  }

  method MergePairs(events: seq<PreparedEvent>, paired: map<nat, nat>) returns (result: seq<PreparedEvent>)
    requires InRange(events, paired)
    ensures result == Merged(events, paired, |events|)
  {
    hide MergeCoalesced;
    result := [];
    var consumed: set<nat> := {};
    for index := 0 to |events|
      invariant forall i: nat :: i in consumed <==> i in paired && (i < index || paired[i] < index)
      invariant result == Merged(events, paired, index)
    {
      if index in consumed {
        continue;
      }
      if index !in paired {
        result := result + [events[index]];
        continue;
      }
      var opposite := paired[index];
      consumed := consumed + {index, opposite};
      result := result + [MergeCoalesced(events[index], events[opposite])];
    }
  }

  method CoalesceEvents(events: seq<PreparedEvent>) returns (result: seq<PreparedEvent>)
    ensures result == Coalesced(events)
  {
    var groups := BuildGroups(events);
    var paired := PairCandidates(events, groups);
    PairingUnique(events, paired, Pairing(events));
    result := MergePairs(events, paired);
    result := Sort(result, EventBefore);
  }
}
