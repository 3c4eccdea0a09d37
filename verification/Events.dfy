/** Canonical events as the detection package sees them (`internal/detection/prepare.go`). */
module Events {
  import opened Common
  import opened Ordering

  datatype Resource = Resource(kind: string, name: string)

  datatype Details = Details(toolCallId: string, mcpServer: string, mcpTool: string)

  datatype Observation = Observation(
    kind: string, actor: string, outcome: string, exitCode: Option<int>,
    resource: Option<Resource>, details: Option<Details>)

  datatype Event = Event(
    id: string, sessionKey: string, occurredAt: int, sequence: int, sourceKind: string, agent: string,
    observation: Observation, depth: string, confidence: string, historical: bool)

  datatype Enrichment = Enrichment(signature: string, commandClass: string, permissionClass: string, version: string)

  const NO_ENRICHMENT := Enrichment("", "", "", "")

  datatype PreparedEvent = PreparedEvent(
    event: Event, enrichment: Enrichment, evidence: seq<string>, historical: bool, live: bool)

  function ToolCallId(event: Event): string {
    if event.observation.details.None? then "" else TrimSpace(event.observation.details.value.toolCallId)
  }

  // ---------- the order of a session: sequence, then time, then event ID ----------

  predicate EventBefore(a: PreparedEvent, b: PreparedEvent) {
    if a.event.sequence != b.event.sequence then a.event.sequence < b.event.sequence
    else if a.event.occurredAt != b.event.occurredAt then a.event.occurredAt < b.event.occurredAt
    else Less(a.event.id, b.event.id)
  }

  lemma EventBeforeIsStrictWeak()
    ensures StrictWeak(EventBefore)
  {
    LessIsStrictTotal();
  }

  lemma EventBeforeOrdersDistinctIds(a: PreparedEvent, b: PreparedEvent)
    requires a.event.id != b.event.id
    ensures EventBefore(a, b) || EventBefore(b, a)
  {
    LessTotal(a.event.id, b.event.id);
  }

  // ---------- the identity of a tool ----------

  /** `^[a-z0-9][a-z0-9_.-]{0,63}$` */
  predicate SafeComponent(s: string) {
    1 <= |s| <= 64
    && (forall i | 0 <= i < |s| :: 'a' <= s[i] <= 'z' || '0' <= s[i] <= '9' || (i > 0 && s[i] in "_.-"))
  }

  function McpIdentity(server: string, tool: string): Option<string> {
    var s, t := ToLower(TrimSpace(server)), ToLower(TrimSpace(tool));
    if SafeComponent(s) && SafeComponent(t) then Some("mcp:" + s + "/" + t) else None
  }

  /** `safeToolIdentity`; the empty string means the event names no usable tool. */
  function ToolIdentity(event: Event): string {
    var fromDetails := if event.observation.details.None? then None
                       else McpIdentity(event.observation.details.value.mcpServer, event.observation.details.value.mcpTool);
    if fromDetails.Some? then fromDetails.value
    else if event.observation.resource.None? then ""
    else
      var resource := event.observation.resource.value;
      var kind := ToLower(TrimSpace(resource.kind));
      if kind == "mcp" then
        var parts := Split(resource.name, '/');
        if |parts| != 2 then "" else
        var id := McpIdentity(parts[0], parts[1]);
        if id.Some? then id.value else ""
      else if kind == "tool" then
        var name := ToLower(TrimSpace(resource.name));
        if SafeComponent(name) then "tool:" + name else ""
      else ""
  }
}
