/** Which observations are compatible, and what becomes of the two that are merged, in the events' own terms. */
module CoalesceTheorems {
  import opened Common
  import opened Ordering
  import opened Events
  import opened Coalesce

  // ---------- compatibility ----------

  /** The same tool call, command, permission, file or tool, by the kind of the two events. */
  predicate SameSubject(a: PreparedEvent, b: PreparedEvent) {
    var kind := a.event.observation.kind;
    if kind == "command.exec" then a.enrichment.signature == b.enrichment.signature != ""
    else if kind == "command.result" then
      if ToolCallId(a.event) == "" then ToolCallId(b.event) == "" && a.enrichment.signature == b.enrichment.signature != ""
      else ToolCallId(a.event) == ToolCallId(b.event)
    else if kind in {"permission.requested", "permission.approved", "permission.denied"} then
      a.enrichment.permissionClass == b.enrichment.permissionClass != ""
    else if kind in {"file.read", "file.write", "file.delete"} then
      && a.event.observation.resource == b.event.observation.resource && a.event.observation.resource.Some?
      && a.event.observation.resource.value.kind != "" && a.event.observation.resource.value.name != ""
    else kind == "tool.result" && ToolIdentity(a.event) == ToolIdentity(b.event) != ""
  }

  /** The two events could be sightings of one occurrence. */
  predicate SameOccurrence(a: PreparedEvent, b: PreparedEvent) {
    var o, p := a.event.observation, b.event.observation;
    && a.event.sessionKey == b.event.sessionKey && o.kind == p.kind && o.actor == p.actor && o.exitCode == p.exitCode
    && ToLower(TrimSpace(o.outcome)) == ToLower(TrimSpace(p.outcome))
    && SameSubject(a, b)
  }

  lemma IdentityIff(a: PreparedEvent, b: PreparedEvent)
    ensures IdentityOf(a).Some? && IdentityOf(a) == IdentityOf(b) <==> SameOccurrence(a, b)
  {
    hide ToolIdentity, ToolCallId, ToLower, TrimSpace;
  }

  // ---------- tools ----------

  predicate StartsComponent(c: char) {
    97 <= c as int <= 122 || 48 <= c as int <= 57
  }

  /** At most 64 letters, digits, dots, dashes and underscores, the first of them a letter or a digit. */
  ghost predicate IsComponent(s: string) {
    && 0 < |s| <= 64 && StartsComponent(s[0])
    && forall k :: 0 <= k < |s| ==> StartsComponent(s[k]) || s[k] in {'_', '.', '-'}
  }

  function Lowered(s: string): string {
    ToLower(TrimSpace(s))
  }

  predicate Declares(event: Event, server: string, tool: string) {
    var details := event.observation.details;
    details.Some? && server == Lowered(details.value.mcpServer) && tool == Lowered(details.value.mcpTool)
  }

  ghost predicate IsDeclared(event: Event) {
    exists server, tool :: Declares(event, server, tool) && IsComponent(server) && IsComponent(tool)
  }

  ghost predicate PointsAt(event: Event, server: string, tool: string) {
    var resource := event.observation.resource;
    resource.Some? && Lowered(resource.value.kind) == "mcp"
    && exists s, t :: resource.value.name == s + "/" + t && '/' !in s && '/' !in t
                      && server == Lowered(s) && tool == Lowered(t)
  }

  /** The event names the tool of an MCP server, in its details or else in its resource. */
  ghost predicate NamesMcpTool(event: Event, server: string, tool: string) {
    && IsComponent(server) && IsComponent(tool)
    && (Declares(event, server, tool) || (!IsDeclared(event) && PointsAt(event, server, tool)))
  }

  /** The event names a tool of the harness itself. */
  ghost predicate NamesOwnTool(event: Event, name: string) {
    var resource := event.observation.resource;
    && !IsDeclared(event) && resource.Some? && Lowered(resource.value.kind) == "tool"
    && name == Lowered(resource.value.name) && IsComponent(name)
  }

  lemma SafeComponentMeans(s: string)
    ensures SafeComponent(s) <==> IsComponent(s)
  {
  }

  lemma DeclaredIdentity(event: Event)
    ensures IsDeclared(event) <==>
              && event.observation.details.Some?
              && IsComponent(Lowered(event.observation.details.value.mcpServer))
              && IsComponent(Lowered(event.observation.details.value.mcpTool))
  {
    if event.observation.details.Some? {
      var details := event.observation.details.value;
      assert Declares(event, Lowered(details.mcpServer), Lowered(details.mcpTool));
    }
  }

  lemma JoinsTwo(s: string, t: string)
    ensures Join([s, t], "/") == s + "/" + t
  {
  }

  lemma PointedParts(event: Event)
    requires event.observation.resource.Some? && Lowered(event.observation.resource.value.kind) == "mcp"
    ensures var parts := Split(event.observation.resource.value.name, '/');
            forall server, tool :: PointsAt(event, server, tool) <==>
              |parts| == 2 && server == Lowered(parts[0]) && tool == Lowered(parts[1])
  {
    var name := event.observation.resource.value.name;
    var parts := Split(name, '/');
    SplitJoins(name, '/');
    hide Lowered, Split;
    if |parts| == 2 {
      JoinsTwo(parts[0], parts[1]);
      assert parts == [parts[0], parts[1]];
    }
    forall s, t | name == s + "/" + t && '/' !in s && '/' !in t
      ensures parts == [s, t]
    {
      JoinsTwo(s, t);
      JoinUnique([s, t], parts);
    }
    hide Join;
  }

  /** The identity tells what tool is named. */
  lemma ToolIdentityIff(event: Event, id: string)
    ensures ToolIdentity(event) == id != "" <==>
              || (exists server, tool :: NamesMcpTool(event, server, tool) && id == "mcp:" + server + "/" + tool)
              || (exists name :: NamesOwnTool(event, name) && id == "tool:" + name)
  {
    forall s
      ensures SafeComponent(s) <==> IsComponent(s)
    {
      SafeComponentMeans(s);
    }
    DeclaredIdentity(event);
    var resource := event.observation.resource;
    if resource.Some? && Lowered(resource.value.kind) == "mcp" {
      PointedParts(event);
    }
    hide SafeComponent, IsComponent, IsDeclared, PointsAt, ToLower, TrimSpace, Split;
  }

  /** Two events have one tool identity exactly when they name the same tool. */
  lemma SameToolIff(a: Event, b: Event)
    ensures ToolIdentity(a) == ToolIdentity(b) != "" <==>
              || (exists server, tool :: NamesMcpTool(a, server, tool) && NamesMcpTool(b, server, tool))
              || (exists name :: NamesOwnTool(a, name) && NamesOwnTool(b, name))
  {
    hide ToolIdentity, NamesOwnTool, IsComponent, Declares, PointsAt, IsDeclared;
    var id := ToolIdentity(a);
    if id == ToolIdentity(b) != "" {
      ToolIdentityIff(a, id);
      ToolIdentityIff(b, id);
      if s, t :| NamesMcpTool(a, s, t) && id == "mcp:" + s + "/" + t {
        assert id[0] == 'm';
        var u, v :| NamesMcpTool(b, u, v) && id == "mcp:" + u + "/" + v;
        OneServerAndTool(s, t, u, v);
      } else {
        var name :| NamesOwnTool(a, name) && id == "tool:" + name;
        assert id[0] == 't';
        var other :| NamesOwnTool(b, other) && id == "tool:" + other;
        assert name == id[5..] == other;
      }
    }
    if server, tool :| NamesMcpTool(a, server, tool) && NamesMcpTool(b, server, tool) {
      ToolIdentityIff(a, "mcp:" + server + "/" + tool);
      ToolIdentityIff(b, "mcp:" + server + "/" + tool);
    }
    if name :| NamesOwnTool(a, name) && NamesOwnTool(b, name) {
      ToolIdentityIff(a, "tool:" + name);
      ToolIdentityIff(b, "tool:" + name);
    }
  }

  lemma OneServerAndTool(s: string, t: string, u: string, v: string)
    requires IsComponent(s) && IsComponent(t) && IsComponent(u) && IsComponent(v)
    requires "mcp:" + s + "/" + t == "mcp:" + u + "/" + v
    ensures s == u && t == v
  {
    assert s + "/" + t == ("mcp:" + s + "/" + t)[4..] == u + "/" + v;
    JoinsTwo(s, t);
    JoinsTwo(u, v);
    assert '/' !in s && '/' !in t && '/' !in u && '/' !in v;
    hide Join, IsComponent;
    JoinUnique([s, t], [u, v]);
  }

  // ---------- pairs ----------

  predicate Sourced(item: PreparedEvent) {
    item.event.sourceKind == "hook" || item.event.sourceKind == "artifact"
  }

  /** The events of one occurrence that come from a known source. */
  ghost function Sightings(events: seq<PreparedEvent>, i: nat, n: nat): set<nat>
    requires i < |events| && n <= |events|
  {
    set k: nat | k < n && SameOccurrence(events[i], events[k]) && Sourced(events[k])
  }

  lemma {:induction false} GroupIsSightings(events: seq<PreparedEvent>, i: nat, n: nat)
    requires i < |events| && n <= |events| && IdentityOf(events[i]).Some?
    ensures |Group(events, IdentityOf(events[i]).value, n)| == |Sightings(events, i, n)|
  {
    if n > 0 {
      GroupIsSightings(events, i, n - 1);
      IdentityIff(events[i], events[n - 1]);
      GroupGrows(events, IdentityOf(events[i]).value, n);
      SightingsGrow(events, i, n);
      hide *;
    }
  }

  lemma GroupGrows(events: seq<PreparedEvent>, id: Identity, n: nat)
    requires 0 < n <= |events|
    ensures |Group(events, id, n)| == |Group(events, id, n - 1)|
              + if IdentityOf(events[n - 1]) == Some(id) && Sourced(events[n - 1]) then 1 else 0
  {
    hide IdentityOf;
  }

  lemma SightingsGrow(events: seq<PreparedEvent>, i: nat, n: nat)
    requires i < |events| && 0 < n <= |events|
    ensures |Sightings(events, i, n)| == |Sightings(events, i, n - 1)|
              + if SameOccurrence(events[i], events[n - 1]) && Sourced(events[n - 1]) then 1 else 0
  {
    hide SameOccurrence, Sourced;
    var before := Sightings(events, i, n - 1);
    assert Sightings(events, i, n) ==
           before + if SameOccurrence(events[i], events[n - 1]) && Sourced(events[n - 1]) then {n - 1} else {};
    assert n - 1 !in before;
  }

  /**
   * Two events are compatible exactly when they may be sightings of one occurrence, one live and one
   * historical, at most a second apart, without conflicting tool calls or commands, and no more than 256
   * events of the session may be sightings of it.
   */
  lemma EdgeMeans(events: seq<PreparedEvent>, i: nat, j: nat)
    ensures Edge(events, i, j) <==>
              && i < |events| && j < |events|
              && SameOccurrence(events[i], events[j])
              && {events[i].event.sourceKind, events[j].event.sourceKind} == {"hook", "artifact"}
              && -1_000_000_000 <= events[i].event.occurredAt - events[j].event.occurredAt <= 1_000_000_000
              && (|| ToolCallId(events[i].event) == "" || ToolCallId(events[j].event) == ""
                  || ToolCallId(events[i].event) == ToolCallId(events[j].event))
              && (|| events[i].enrichment.signature == "" || events[j].enrichment.signature == ""
                  || events[i].enrichment.signature == events[j].enrichment.signature)
              && |Sightings(events, i, |events|)| <= 256
  {
    if i < |events| && j < |events| {
      IdentityIff(events[i], events[j]);
      TwoSources(events[i].event.sourceKind, events[j].event.sourceKind);
      if IdentityOf(events[i]).Some? {
        GroupIsSightings(events, i, |events|);
      }
      hide IdentityOf, SameOccurrence, Group, Sightings;
    }
  }

  lemma TwoSources(a: string, b: string)
    ensures {a, b} == {"hook", "artifact"} <==> (a == "hook" && b == "artifact") || (a == "artifact" && b == "hook")
  {
    if {a, b} == {"hook", "artifact"} {
      assert a in {"hook", "artifact"} && b in {"hook", "artifact"} && "hook" in {a, b} && "artifact" in {a, b};
    }
  }

  // ---------- merging ----------

  /** The place of an entry in a list, from one; zero if it is not listed. */
  function Place(listed: seq<string>, x: string): nat {
    if listed == [] then 0
    else if listed[|listed| - 1] == x then |listed|
    else Place(listed[..|listed| - 1], x)
  }

  const DEPTHS := ["artifact", "otlp", "lifecycle", "tool_call", "full"]
  const CONFIDENCES := ["low", "medium", "high"]

  /** Deeper coverage, or as deep and observed with more confidence. */
  predicate Richer(a: Event, b: Event) {
    || Place(DEPTHS, a.depth) > Place(DEPTHS, b.depth)
    || (Place(DEPTHS, a.depth) == Place(DEPTHS, b.depth) && Place(CONFIDENCES, a.confidence) > Place(CONFIDENCES, b.confidence))
  }

  lemma RankIsPlace(item: PreparedEvent)
    ensures CoverageRank(item) == 10 * Place(DEPTHS, item.event.depth) + Place(CONFIDENCES, item.event.confidence)
    ensures Place(CONFIDENCES, item.event.confidence) <= 3
  {
    DepthPlace(item.event.depth);
    ConfidencePlace(item.event.confidence);
  }

  lemma DepthPlace(depth: string)
    ensures Place(DEPTHS, depth) ==
            if depth == "full" then 5 else if depth == "tool_call" then 4 else if depth == "lifecycle" then 3
            else if depth == "otlp" then 2 else if depth == "artifact" then 1 else 0
  {
    PlaceLast(["artifact", "otlp", "lifecycle", "tool_call"], "full", depth);
    PlaceLast(["artifact", "otlp", "lifecycle"], "tool_call", depth);
    PlaceLast(["artifact", "otlp"], "lifecycle", depth);
    PlaceLast(["artifact"], "otlp", depth);
    PlaceLast([], "artifact", depth);
    hide Place;
    assert [] + ["artifact"] == ["artifact"] && ["artifact"] + ["otlp"] == ["artifact", "otlp"];
    assert ["artifact", "otlp"] + ["lifecycle"] == ["artifact", "otlp", "lifecycle"];
    assert ["artifact", "otlp", "lifecycle"] + ["tool_call"] == ["artifact", "otlp", "lifecycle", "tool_call"];
    assert ["artifact", "otlp", "lifecycle", "tool_call"] + ["full"] == DEPTHS;
  }

  lemma PlaceLast(front: seq<string>, last: string, x: string)
    ensures Place(front + [last], x) == if x == last then |front| + 1 else Place(front, x)
    ensures Place([], x) == 0
  {
    assert (front + [last])[..|front|] == front;
  }

  lemma ConfidencePlace(confidence: string)
    ensures Place(CONFIDENCES, confidence) ==
            if confidence == "high" then 3 else if confidence == "medium" then 2 else if confidence == "low" then 1 else 0
  {
    PlaceLast(["low", "medium"], "high", confidence);
    PlaceLast(["low"], "medium", confidence);
    PlaceLast([], "low", confidence);
    hide Place;
    assert [] + ["low"] == ["low"] && ["low"] + ["medium"] == ["low", "medium"];
    assert ["low", "medium"] + ["high"] == CONFIDENCES;
  }

  predicate FilledFrom(merged: string, kept: string, other: string) {
    merged == kept != "" || (kept == "" && merged == other)
  }

  /**
   * Merging keeps the richer event, the earlier one if neither is richer, fills in what its enrichment
   * lacks from the other, unites the evidence, and is historical or live if either was.
   */
  lemma MergeKeepsTheRicher(left: PreparedEvent, right: PreparedEvent)
    ensures var m := MergeCoalesced(left, right);
            var kept, other := if Richer(right.event, left.event) then right else left,
                               if Richer(right.event, left.event) then left else right;
            && m.event == kept.event
            && FilledFrom(m.enrichment.signature, kept.enrichment.signature, other.enrichment.signature)
            && FilledFrom(m.enrichment.commandClass, kept.enrichment.commandClass, other.enrichment.commandClass)
            && FilledFrom(m.enrichment.permissionClass, kept.enrichment.permissionClass, other.enrichment.permissionClass)
            && FilledFrom(m.enrichment.version, kept.enrichment.version, other.enrichment.version)
            && StrictlySorted(m.evidence, Less)
            && (forall id :: id in m.evidence <==> id in left.evidence || id in right.evidence)
            && m.historical == (left.historical || right.historical) && m.live == (left.live || right.live)
  {
    RankIsPlace(left);
    RankIsPlace(right);
    LessIsStrictTotal();
    SortDistinctSpec(left.evidence + right.evidence, Less);
    SortDistinctSpec(right.evidence + left.evidence, Less);
    hide CoverageRank, Place, SortDistinct, Less;
  }

  // ---------- what the whole pass keeps ----------

  /** The list has a historical item, or a live one. */
  ghost predicate HasHistorical(events: seq<PreparedEvent>) {
    exists item :: item in events && item.historical
  }

  ghost predicate HasLive(events: seq<PreparedEvent>) {
    exists item :: item in events && item.live
  }

  lemma ImageFlags(events: seq<PreparedEvent>, paired: map<nat, nat>, i: nat)
    requires InRange(events, paired) && i < |events|
    ensures Image(events, paired, i).historical == (events[i].historical || (i in paired && events[paired[i]].historical))
    ensures Image(events, paired, i).live == (events[i].live || (i in paired && events[paired[i]].live))
  {
  }

  lemma HeadOf(paired: map<nat, nat>, n: nat, i: nat) returns (h: nat)
    requires forall k :: k in paired ==>
               k < n && paired[k] < n && paired[k] in paired && paired[paired[k]] == k && paired[k] != k
    requires i < n
    ensures h in Kept(paired, n) && (h == i || (h in paired && paired[h] == i))
  {
    KeptSpec(paired, n);
    h := if Heads(paired, i) then i else paired[i];
  }

  /** Coalescing neither adds nor loses historical or live evidence. */
  lemma FlagsAreConserved(events: seq<PreparedEvent>)
    ensures HasHistorical(Coalesced(events)) == HasHistorical(events)
    ensures HasLive(Coalesced(events)) == HasLive(events)
  {
    var paired := Pairing(events);
    var m := Merged(events, paired, |events|);
    SortElements(m, EventBefore);
    MergedAt(events, paired, |events|);
    hide Image, Sort, Merged, Kept, EventBefore;
    var kept := Kept(paired, |events|);
    forall item | item in m
      ensures item.historical ==> HasHistorical(events)
      ensures item.live ==> HasLive(events)
    {
      var k :| 0 <= k < |m| && m[k] == item;
      ImageFlags(events, paired, kept[k]);
      assert events[kept[k]] in events && (kept[k] in paired ==> events[paired[kept[k]]] in events);
    }
    forall item | item in events
      ensures item.historical ==> HasHistorical(m)
      ensures item.live ==> HasLive(m)
    {
      var i :| 0 <= i < |events| && events[i] == item;
      var h := HeadOf(paired, |events|, i);
      var k :| 0 <= k < |kept| && kept[k] == h;
      ImageFlags(events, paired, h);
      assert m[k] in m;
    }
  }
}
