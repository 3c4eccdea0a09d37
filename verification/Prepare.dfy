/** Preparing a session: lifting, ordering and coalescing its events (`internal/detection/prepare.go`). */
module Prepare {
  import opened Common
  import opened Ordering
  import opened Events
  import opened Coalesce
  import opened CoalesceIdempotent
  import opened CoalesceTheorems


  datatype SessionInput = SessionInput(
    sessionId: string, projectScope: string, scopeQuality: string,
    events: seq<Event>, enrichments: map<string, Enrichment>)

  datatype PreparedSession = PreparedSession(
    sessionId: string, projectScope: string, scopeQuality: string, events: seq<PreparedEvent>)

  datatype Preparation = Session(session: PreparedSession) | InvalidSession | SessionLimit

  function Lift(event: Event, enrichments: map<string, Enrichment>): PreparedEvent {
    PreparedEvent(
      event,
      if event.id in enrichments then enrichments[event.id] else NO_ENRICHMENT,
      [event.id],
      event.historical || event.sourceKind == "artifact",
      !event.historical && event.sourceKind == "hook")
  }

  function LiftAll(events: seq<Event>, enrichments: map<string, Enrichment>): seq<PreparedEvent> {
    MapSeq(event => Lift(event, enrichments), events)
  }

  predicate ForeignEvent(event: Event, sessionId: string) {
    event.sessionKey != "" && event.sessionKey != sessionId
  }

  /** What `prepareSession` returns. */
  ghost function PrepareOf(input: SessionInput): Preparation {
    if TrimSpace(input.sessionId) == "" then InvalidSession
    else if |input.events| > MAX_SESSION_EVENTS then SessionLimit
    else if exists event :: event in input.events && ForeignEvent(event, input.sessionId) then InvalidSession
    else
      Session(PreparedSession(
        input.sessionId, TrimSpace(input.projectScope), ToLower(TrimSpace(input.scopeQuality)),
        Coalesced(Sort(LiftAll(input.events, input.enrichments), EventBefore))))
  }

  method PrepareSession(input: SessionInput) returns (result: Preparation)
    ensures result == PrepareOf(input)
  {
    if TrimSpace(input.sessionId) == "" {
      return InvalidSession;
    }
    if |input.events| > MAX_SESSION_EVENTS {
      return SessionLimit;
    }
    var events: seq<PreparedEvent> := [];
    for index := 0 to |input.events|
      invariant forall k :: 0 <= k < index ==> !ForeignEvent(input.events[k], input.sessionId)
      invariant |events| == index
      invariant forall k :: 0 <= k < index ==> events[k] == Lift(input.events[k], input.enrichments)
    {
      var event := input.events[index];
      if ForeignEvent(event, input.sessionId) {
        return InvalidSession;
      }
      events := events + [Lift(event, input.enrichments)];
    }
    assert events == LiftAll(input.events, input.enrichments);
    events := Sort(events, EventBefore);
    events := CoalesceEvents(events);
    return Session(PreparedSession(
      input.sessionId, TrimSpace(input.projectScope), ToLower(TrimSpace(input.scopeQuality)), events));
  }

  // ---------- order-independence ----------

  ghost predicate DistinctIds(events: seq<Event>) {
    forall i, j :: 0 <= i < j < |events| ==> events[i].id != events[j].id
  }

  /** Two orders of the same events, with distinct IDs, sort to the same list. */
  lemma SortedLiftsAgree(a: seq<Event>, b: seq<Event>, enrichments: map<string, Enrichment>)
    requires multiset(a) == multiset(b) && DistinctIds(a)
    ensures Sort(LiftAll(a, enrichments), EventBefore) == Sort(LiftAll(b, enrichments), EventBefore)
  {
    var x, y := LiftAll(a, enrichments), LiftAll(b, enrichments);
    MapPermuted(event => Lift(event, enrichments), a, b);
    EventBeforeIsStrictWeak();
    SortSorted(x, EventBefore);
    SortSorted(y, EventBefore);
    SortMultiset(x, EventBefore);
    SortMultiset(y, EventBefore);
    var sorted := Sort(x, EventBefore);
    forall p, q | p in sorted && q in sorted && p != q
      ensures EventBefore(p, q) || EventBefore(q, p)
    {
      assert p in multiset(sorted) && q in multiset(sorted);
      LiftedIdsDiffer(a, enrichments, p, q);
      EventBeforeOrdersDistinctIds(p, q);
    }
    SortedUnique(sorted, Sort(y, EventBefore), EventBefore);
  }

  lemma LiftedIdsDiffer(events: seq<Event>, enrichments: map<string, Enrichment>, p: PreparedEvent, q: PreparedEvent)
    requires DistinctIds(events) && p != q
    requires p in multiset(LiftAll(events, enrichments)) && q in multiset(LiftAll(events, enrichments))
    ensures p.event.id != q.event.id
  {
    var lifted := LiftAll(events, enrichments);
    var i :| 0 <= i < |lifted| && lifted[i] == p;
    var j :| 0 <= j < |lifted| && lifted[j] == q;
    assert events[i] == p.event && events[j] == q.event;
  }

  /** The order in which the events of a session arrive does not matter. */
  lemma PreparationIgnoresArrivalOrder(a: SessionInput, b: SessionInput)
    requires a.(events := []) == b.(events := [])
    requires multiset(a.events) == multiset(b.events) && DistinctIds(a.events)
    ensures PrepareOf(a) == PrepareOf(b)
  {
    SortedLiftsAgree(a.events, b.events, a.enrichments);
    assert |a.events| == |multiset(a.events)| == |b.events|;
    assert forall event :: event in a.events <==> event in multiset(a.events);
    assert forall event :: event in b.events <==> event in multiset(b.events);
  }

  // ---------- what a prepared session is ----------

  /** By sequence, then by time, then by event ID, each ascending. */
  lemma PreparedInOrder(input: SessionInput, i: nat, j: nat)
    requires PrepareOf(input).Session? && i < j < |PrepareOf(input).session.events|
    ensures var a, b := PrepareOf(input).session.events[i].event, PrepareOf(input).session.events[j].event;
            && a.sequence <= b.sequence
            && (a.sequence == b.sequence ==> a.occurredAt <= b.occurredAt)
            && (a.sequence == b.sequence && a.occurredAt == b.occurredAt ==> !Less(b.id, a.id))
  {
    CoalescedIsSorted(Sort(LiftAll(input.events, input.enrichments), EventBefore));
    hide Coalesced, Less;
  }

  /** Exactly which sessions are refused, and why. */
  lemma PreparationFailsIff(input: SessionInput)
    ensures PrepareOf(input).InvalidSession? <==>
              || AllWhite(input.sessionId)
              || (|input.events| <= 10_000 &&
                  exists event :: event in input.events && event.sessionKey != "" && event.sessionKey != input.sessionId)
    ensures PrepareOf(input).SessionLimit? <==> !AllWhite(input.sessionId) && |input.events| > 10_000
    ensures PrepareOf(input).Session? ==> PrepareOf(input).session.sessionId == input.sessionId
  {
    BlankIff(input.sessionId);
    hide TrimSpace, AllWhite, Coalesced;
  }

  /** Every prepared event is an input event; one that stands alone has the enrichment given for it. */
  lemma PreparedFromInput(input: SessionInput, k: nat)
    requires PrepareOf(input).Session? && k < |PrepareOf(input).session.events|
    ensures var item := PrepareOf(input).session.events[k];
            exists event :: event in input.events && item.event == event
              && (|item.evidence| == 1 && DistinctIds(input.events) ==>
                    item.enrichment == (if event.id in input.enrichments then input.enrichments[event.id]
                                        else Enrichment("", "", "", "")))
  {
    var lifted := LiftAll(input.events, input.enrichments);
    var sorted := Sort(lifted, EventBefore);
    SortMultiset(lifted, EventBefore);
    var paired, item := Pairing(sorted), PrepareOf(input).session.events[k];
    CoalescedIsSorted(sorted);
    var m := Merged(sorted, paired, |sorted|);
    var a := PermutedPosition(Coalesced(sorted), m, k);
    MergedAt(sorted, paired, |sorted|);
    var i := Kept(paired, |sorted|)[a];
    hide Sort, Coalesced, EventBefore, PrepareOf;
    RetainedIsInput(input, sorted, paired, i);
  }

  lemma MergedOfTwo(left: PreparedEvent, right: PreparedEvent)
    requires |left.evidence| == |right.evidence| == 1
    ensures var m := MergeCoalesced(left, right);
            && m.event in {left.event, right.event}
            && (left.evidence[0] != right.evidence[0] ==> |m.evidence| != 1)
  {
    MergeKeepsTheRicher(left, right);
    var m := MergeCoalesced(left, right);
    hide MergeCoalesced;
    assert left.evidence[0] in left.evidence && right.evidence[0] in right.evidence;
  }

  lemma RetainedIsInput(input: SessionInput, sorted: seq<PreparedEvent>, paired: map<nat, nat>, i: nat)
    requires multiset(sorted) == multiset(LiftAll(input.events, input.enrichments))
    requires InRange(sorted, paired) && i < |sorted|
    ensures var item := Image(sorted, paired, i);
            exists event :: event in input.events && item.event == event
              && (|item.evidence| == 1 && DistinctIds(input.events) ==>
                    item.enrichment == (if event.id in input.enrichments then input.enrichments[event.id]
                                        else Enrichment("", "", "", "")))
  {
    var lifted := LiftAll(input.events, input.enrichments);
    var p := PermutedPosition(sorted, lifted, i);
    assert sorted[i] == Lift(input.events[p], input.enrichments);
    assert input.events[p] in input.events;
    if i in paired {
      var j := paired[i];
      var q := PermutedPair(sorted, lifted, i, j, p);
      assert input.events[q] in input.events;
      assert sorted[j] == Lift(input.events[q], input.enrichments) by {
        assert lifted[q] == sorted[j];
      }
      MergedOfTwo(sorted[i], sorted[j]);
      hide MergeCoalesced, InRange;
    }
  }

  lemma BlankIff(s: string)
    ensures TrimSpace(s) == "" <==> AllWhite(s)
  {
    var front, back := TrimSpaceTrims(s);
    if TrimSpace(s) != "" {
      assert s[|front|] == TrimSpace(s)[0];
    }
  }

  /** Preparation neither adds nor loses historical or live evidence. */
  lemma PreparedFlags(input: SessionInput)
    requires PrepareOf(input).Session?
    ensures HasHistorical(PrepareOf(input).session.events) <==>
              exists event :: event in input.events && (event.historical || event.sourceKind == "artifact")
    ensures HasLive(PrepareOf(input).session.events) <==>
              exists event :: event in input.events && !event.historical && event.sourceKind == "hook"
  {
    var lifted := LiftAll(input.events, input.enrichments);
    SortElements(lifted, EventBefore);
    FlagsAreConserved(Sort(lifted, EventBefore));
    hide Sort, Coalesced;
    forall event | event in input.events
      ensures Lift(event, input.enrichments) in lifted
    {
      var i :| 0 <= i < |input.events| && input.events[i] == event;
      assert lifted[i] == Lift(event, input.enrichments);
    }
    forall item | item in lifted
      ensures exists event :: event in input.events && item == Lift(event, input.enrichments)
    {
      var i :| 0 <= i < |lifted| && lifted[i] == item;
      assert input.events[i] in input.events;
    }
  }

  // ---------- evidence ----------

  lemma LiftedHolder(input: SessionInput, i: nat)
    requires DistinctIds(input.events) && i < |input.events|
    ensures OneHolder(LiftAll(input.events, input.enrichments), input.events[i].id)
  {
    var lifted := LiftAll(input.events, input.enrichments);
    assert lifted[i].evidence == [input.events[i].id] && OnlyHolder(lifted, input.events[i].id, i);
  }

  /** Every input event is evidence of exactly one prepared event, and nothing else is evidence. */
  lemma EvidencePartitionsInput(input: SessionInput)
    requires PrepareOf(input).Session? && DistinctIds(input.events)
    ensures var events := PrepareOf(input).session.events;
            && (forall event :: event in input.events ==> OneHolder(events, event.id))
            && (forall k, id :: 0 <= k < |events| && id in events[k].evidence ==>
                  exists event :: event in input.events && event.id == id)
  {
    var lifted := LiftAll(input.events, input.enrichments);
    var sorted := Sort(lifted, EventBefore);
    var events := PrepareOf(input).session.events;
    assert events == Coalesced(sorted);
    SortMultiset(lifted, EventBefore);
    hide Coalesced, Sort, PrepareOf, OneHolder, EventBefore;
    forall event | event in input.events
      ensures OneHolder(events, event.id)
    {
      var i :| 0 <= i < |input.events| && input.events[i] == event;
      LiftedHolder(input, i);
      OneHolderPermuted(lifted, sorted, event.id);
      EvidenceIsConserved(sorted, event.id);
    }
    forall k, id | 0 <= k < |events| && id in events[k].evidence
      ensures exists event :: event in input.events && event.id == id
    {
      EvidenceIsConserved(sorted, id);
      var j :| 0 <= j < |sorted| && id in sorted[j].evidence;
      EvidenceIsInput(input, sorted, j, id);
    }
  }

  lemma EvidenceIsInput(input: SessionInput, sorted: seq<PreparedEvent>, j: nat, id: string)
    requires multiset(sorted) == multiset(LiftAll(input.events, input.enrichments))
    requires j < |sorted| && id in sorted[j].evidence
    ensures exists event :: event in input.events && event.id == id
  {
    var i := PermutedPosition(sorted, LiftAll(input.events, input.enrichments), j);
    assert input.events[i] in input.events && input.events[i].id == id;
  }

  // ---------- citations ----------

  ghost function NonEmptyIds(events: seq<PreparedEvent>): set<string> {
    set k, id | 0 <= k < |events| && id in events[k].evidence && id != "" :: id
  }

  /** `result` holds the IDs seen, up to the limit, and `complete` says that none was dropped. */
  ghost predicate Cited(seen: set<string>, result: seq<string>, complete: bool) {
    && Distinct(result) && |result| <= MAX_CITATIONS
    && (forall id :: id in result ==> id in seen)
    && (if complete then forall id :: id in seen ==> id in result else |result| == MAX_CITATIONS < |seen|)
  }

  lemma CitedCount(seen: set<string>, result: seq<string>, complete: bool)
    requires Cited(seen, result, complete)
    ensures complete == (|seen| <= MAX_CITATIONS)
    ensures complete ==> |seen| == |result|
  {
    DistinctCount(result);
    if complete {
      assert seen == set x | x in result;
    }
  }

  method CiteIds(ids: seq<string>, seen0: set<string>, result0: seq<string>, complete0: bool)
    returns (seen: set<string>, result: seq<string>, complete: bool)
    requires Cited(seen0, result0, complete0)
    ensures seen == seen0 + (set id | id in ids && id != "")
    ensures Cited(seen, result, complete)
  {
    seen, result, complete := seen0, result0, complete0;
    for n := 0 to |ids|
      invariant seen == seen0 + (set id | id in ids[..n] && id != "")
      invariant Cited(seen, result, complete)
    {
      var id := ids[n];
      assert ids[..n + 1] == ids[..n] + [id];
      if id == "" || id in seen {
        continue;
      }
      CitedCount(seen, result, complete);
      seen := seen + {id};
      if |result| == MAX_CITATIONS {
        complete := false;
        continue;
      }
      result := result + [id];
    }
    assert ids[..|ids|] == ids;
  }

  lemma NonEmptyIdsStep(events: seq<PreparedEvent>, k: nat)
    requires k < |events|
    ensures NonEmptyIds(events[..k + 1]) == NonEmptyIds(events[..k]) + (set id | id in events[k].evidence && id != "")
  {
    var after := events[..k + 1];
    forall id
      ensures id in NonEmptyIds(after) <==> id in NonEmptyIds(events[..k]) || (id in events[k].evidence && id != "")
    {
      if id in events[k].evidence && id != "" { assert after[k] == events[k]; }
      if id in NonEmptyIds(events[..k]) {
        var j :| 0 <= j < k && id in events[..k][j].evidence;
        assert after[j] == events[..k][j];
      }
      if id in NonEmptyIds(after) {
        var j :| 0 <= j < k + 1 && id in after[j].evidence;
        assert j < k ==> events[..k][j] == after[j];
      }
    }
  }

  /**
   * `citationIDs`: distinct non-empty evidence IDs, at most 50; the flag is false exactly when there
   * were more.
   */
  method CitationIds(events: seq<PreparedEvent>) returns (result: seq<string>, complete: bool)
    ensures Distinct(result) && (forall id :: id in result ==> id in NonEmptyIds(events))
    ensures complete == (|NonEmptyIds(events)| <= MAX_CITATIONS)
    ensures complete ==> forall id :: id in NonEmptyIds(events) ==> id in result
    ensures !complete ==> |result| == MAX_CITATIONS
  {
    var seen: set<string> := {};
    result, complete := [], true;
    for k := 0 to |events|
      invariant seen == NonEmptyIds(events[..k])
      invariant Cited(seen, result, complete)
    {
      SortElements(events[k].evidence, Less);
      NonEmptyIdsStep(events, k);
      seen, result, complete := CiteIds(Sort(events[k].evidence, Less), seen, result, complete);
    }
    assert events[..|events|] == events;
    CitedCount(seen, result, complete);
  }
}
