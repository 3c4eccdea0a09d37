/** One call of Belay's MCP configuration command over all harnesses, and its ownership manifest on disk. */
module McpManage {
  import opened Common
  import opened McpRegistry
  import opened McpConfig

  datatype Action = Install | Status | Uninstall

  /** The ownership manifest's file: missing, not a valid manifest, or a valid one. */
  datatype Stored = NoFile | Garbage | File(targets: map<string, Recorded>)

  class Disk {
    const reliable: bool
    var stored: Stored

    constructor (stored: Stored, reliable: bool)
      ensures this.stored == stored && this.reliable == reliable
    {
      this.stored := stored;
      this.reliable := reliable;
    }

    /** `writeMCPManifest`: refuses an invalid manifest, otherwise replaces the file whole or not at all. */
    method Write(targets: map<string, Recorded>, wellFormed: bool) returns (ok: bool)
      modifies this
      ensures stored == if ok then File(targets) else old(stored)
      ensures ok ==> wellFormed && ValidTargets(targets)
      ensures reliable && wellFormed && ValidTargets(targets) ==> ok
    {
      var possible: bool := *;
      if !(wellFormed && ValidTargets(targets) && (possible || reliable)) {
        return false;
      }
      stored := File(targets);
      return true;
    }
  }

  predicate KnownAgent(agent: string) {
    agent == "codex" || agent == "claude" || agent == "cursor" || agent == "antigravity"
  }

  predicate ValidIdentity(identity: Identity) {
    && "/" <= identity.command && !UnsafePathText(identity.command)
    && (identity.args == ["mcp"]
        || (&& |identity.args| == 3 && identity.args[0] == "mcp" && identity.args[1] == "--home"
            && "/" <= identity.args[2] && !UnsafePathText(identity.args[2])))
  }

  predicate ValidTargets(targets: map<string, Recorded>) {
    forall agent :: agent in targets ==>
      KnownAgent(agent) && targets[agent].scope == "user" && ValidIdentity(targets[agent].identity)
  }

  ghost predicate ValidStored(stored: Stored) {
    stored.File? ==> ValidTargets(stored.targets)
  }

  /** The identity recorded for an agent. */
  function IdentityFor(targets: map<string, Recorded>, agent: string): Option<Identity> {
    if agent in targets then Some(targets[agent].identity) else None
  }

  function StoredIdentity(stored: Stored, agent: string): Option<Identity> {
    if stored.File? then IdentityFor(stored.targets, agent) else None
  }

  function TargetsIn(stored: Stored): map<string, Recorded> {
    if stored.File? then stored.targets else map[]
  }

  function StateOf(stored: Stored): ManifestState {
    match stored
    case NoFile => ManifestMissing
    case Garbage => ManifestInvalid
    case File(_) => ManifestValid
  }

  /** What a call is asked to do. */
  datatype Request = Request(
    action: Action, current: Identity, targets: seq<Target>, allowCodexAdd: bool, installationKnown: bool)

  ghost predicate DistinctAgents(targets: seq<Target>) {
    forall i, j :: 0 <= i < j < |targets| ==> targets[i].agent != targets[j].agent
  }

  function CallFor(request: Request, stored: Stored, i: nat): Call
    requires i < |request.targets|
  {
    Call(request.targets[i], request.current, LookupIn(TargetsIn(stored), request.targets[i].agent), StateOf(stored),
         request.allowCodexAdd)
  }

  // ---------- what is done with one target ----------

  ghost predicate IsTargetTrace(action: Action, call: Call, trace: seq<Exchange>) {
    if !call.target.detected then trace == []
    else
      match action
      case Install => IsInstallTrace(call, trace)
      case Status => |trace| == 1 && trace[0].Looked?
      case Uninstall => IsUninstallTrace(call, trace)
  }

  function Undetected(action: Action, target: Target): TargetResult {
    if action.Install? then TargetResult(target.agent, SkippedNotDetected, NoEntry, false, None)
    else TargetResult(target.agent, EntryUnavailable, Unknown, false, Some(CliNotFound))
  }

  ghost function ResultOf(action: Action, call: Call, trace: seq<Exchange>): TargetResult
    requires IsTargetTrace(action, call, trace)
  {
    if !call.target.detected then Undetected(action, call.target)
    else
      match action
      case Install => InstallResult(call, trace)
      case Status => StatusOf(call, trace[0].seen)
      case Uninstall => UninstallResult(call, trace)
  }

  /** The identity recorded for a target after it was served. */
  function RecordedAfter(action: Action, current: Identity, before: Option<Identity>, changed: bool): Option<Identity> {
    if !changed then before else if action.Install? then Some(current) else None
  }

  method ServeTarget(host: Host, manifest: Manifest, action: Action, call: Call, wasChanged: bool)
    returns (result: TargetResult, changed: bool, ghost trace: seq<Exchange>)
    requires call.recorded == manifest.Lookup(call.target.agent)
    modifies host, manifest
    ensures IsTargetTrace(action, call, trace) && result == ResultOf(action, call, trace)
    ensures host.log == old(host.log) + trace
    ensures Chain(call.target, old(host.At(call.target.agent)), trace, host.At(call.target.agent))
    ensures Others(host.held, call.target.agent) == old(Others(host.held, call.target.agent))
    ensures manifest.targets - {call.target.agent} == old(manifest.targets) - {call.target.agent}
    ensures IdentityFor(manifest.targets, call.target.agent) ==
            RecordedAfter(action, call.current, old(IdentityFor(manifest.targets, call.target.agent)), result.changed)
    ensures result.changed ==> !action.Status? && (action.Install? ==> "user" == manifest.targets[call.target.agent].scope)
    ensures !result.changed ==> manifest.targets == old(manifest.targets)
    ensures changed == (wasChanged || result.changed)
    ensures host.reliable ==> AllWork(trace)
  {
    hide IsInstallTrace, InstallResult, IsUninstallTrace, UninstallResult;
    changed := wasChanged;
    if !call.target.detected {
      trace := [];
      if action == Install {
        result := TargetResult(call.target.agent, SkippedNotDetected, NoEntry, false, None);
      } else {
        result := TargetResult(call.target.agent, EntryUnavailable, Unknown, false, Some(CliNotFound));
      }
      return;
    }
    match action {
      case Status =>
        result, trace := StatusTarget(host, call);
      case Install =>
        var now: int := *;
        result, changed, trace := InstallTarget(host, manifest, call, now, changed);
      case Uninstall =>
        result, changed, trace := UninstallTarget(host, manifest, call, changed);
    }
  }

  // ---------- the whole call ----------

  ghost function Concat(traces: seq<seq<Exchange>>): seq<Exchange> {
    if traces == [] then [] else Concat(traces[..|traces| - 1]) + traces[|traces| - 1]
  }

  /** What a call did: exchanges and result per target, the records it ends with, whether it wrote them to disk. */
  datatype Report = Report(
    traces: seq<seq<Exchange>>, served: seq<TargetResult>, targets: map<string, Recorded>, written: bool)

  /** Target i was served by exchanges that lead from `held` to `after`, with its result and record to match. */
  ghost predicate Served(
    request: Request, stored: Stored, i: nat, trace: seq<Exchange>, result: TargetResult,
    held: map<string, Held>, after: map<string, Held>, targets: map<string, Recorded>)
    requires i < |request.targets|
  {
    var call := CallFor(request, stored, i);
    var agent := call.target.agent;
    && IsTargetTrace(request.action, call, trace) && result == ResultOf(request.action, call, trace)
    && Chain(call.target, HeldAt(held, agent), trace, HeldAt(after, agent))
    && IdentityFor(targets, agent) ==
       RecordedAfter(request.action, request.current, IdentityFor(TargetsIn(stored), agent), result.changed)
    && (if result.changed then agent in targets ==> targets[agent].scope == "user"
        else LookupIn(targets, agent) == LookupIn(TargetsIn(stored), agent))
  }

  ghost predicate EachServed(
    request: Request, stored: Stored, traces: seq<seq<Exchange>>, results: seq<TargetResult>,
    held: map<string, Held>, after: map<string, Held>, targets: map<string, Recorded>)
    requires |traces| == |results| <= |request.targets|
  {
    forall i :: 0 <= i < |traces| ==> Served(request, stored, i, traces[i], results[i], held, after, targets)
  }

  ghost predicate AllServed(
    request: Request, stored: Stored, n: nat, traces: seq<seq<Exchange>>, results: seq<TargetResult>,
    held: map<string, Held>, after: map<string, Held>, targets: map<string, Recorded>)
  {
    && n <= |request.targets| && |traces| == |results| == n
    && EachServed(request, stored, traces, results, held, after, targets)
    && OthersStay(AgentsOf(request.targets, n), TargetsIn(stored), held, after, targets)
  }

  ghost predicate OthersStay(
    agents: set<string>, recorded: map<string, Recorded>,
    held: map<string, Held>, after: map<string, Held>, targets: map<string, Recorded>)
  {
    forall agent :: agent !in agents ==>
      HeldAt(after, agent) == HeldAt(held, agent) && LookupIn(targets, agent) == LookupIn(recorded, agent)
  }

  ghost function AgentsOf(targets: seq<Target>, n: nat): set<string>
    requires n <= |targets|
  {
    set i | 0 <= i < n :: targets[i].agent
  }

  predicate AnyChanged(results: seq<TargetResult>) {
    exists i :: 0 <= i < |results| && results[i].changed
  }

  /** Only a missing manifest with no installation ID, or a broken one, has no valid header to be written under. */
  predicate WellFormed(request: Request, stored: Stored) {
    stored.File? || (stored.NoFile? && request.action.Install? && request.installationKnown)
  }

  function MarkChanged(results: seq<TargetResult>): seq<TargetResult> {
    seq(|results|, i requires 0 <= i < |results| =>
      if results[i].changed then results[i].(error := Some(OwnershipManifestInvalid)) else results[i])
  }

  predicate GoodStatus(action: Action, status: McpConfig.Status) {
    match action
    case Install => status in {Installed, AlreadyInstalled, Updated, SkippedNotDetected}
    case Status => status in {OwnedCurrent, OwnedRecognized, EntryAbsent, ForeignEntry}
    case Uninstall => status in {EntryRemoved, EntryAbsent}
  }

  predicate Complete(action: Action, results: seq<TargetResult>) {
    forall i :: 0 <= i < |results| ==> results[i].error.None? && GoodStatus(action, results[i].status)
  }

  lemma NotYetServed(
    request: Request, stored: Stored, n: nat, traces: seq<seq<Exchange>>, results: seq<TargetResult>,
    held: map<string, Held>, after: map<string, Held>, targets: map<string, Recorded>)
    requires DistinctAgents(request.targets) && n < |request.targets|
    requires AllServed(request, stored, n, traces, results, held, after, targets)
    ensures HeldAt(after, request.targets[n].agent) == HeldAt(held, request.targets[n].agent)
    ensures LookupIn(targets, request.targets[n].agent) == LookupIn(TargetsIn(stored), request.targets[n].agent)
  {
    assert request.targets[n].agent !in AgentsOf(request.targets, n);
  }

  lemma ServeOne(
    request: Request, stored: Stored, n: nat, traces: seq<seq<Exchange>>, results: seq<TargetResult>,
    held: map<string, Held>, before: map<string, Held>, after: map<string, Held>,
    targetsBefore: map<string, Recorded>, targets: map<string, Recorded>, trace: seq<Exchange>, result: TargetResult)
    requires DistinctAgents(request.targets) && n < |request.targets|
    requires AllServed(request, stored, n, traces, results, held, before, targetsBefore)
    requires before - {request.targets[n].agent} == after - {request.targets[n].agent}
    requires targetsBefore - {request.targets[n].agent} == targets - {request.targets[n].agent}
    requires Served(request, stored, n, trace, result, held, after, targets)
    ensures AllServed(request, stored, n + 1, traces + [trace], results + [result], held, after, targets)
  {
    var agent := request.targets[n].agent;
    var agents := AgentsOf(request.targets, n);
    assert AgentsOf(request.targets, n + 1) == agents + {agent};
    hide Served, AgentsOf, OthersStay;
    StillOthers(agents, agent, TargetsIn(stored), held, before, after, targetsBefore, targets);
    StillServed(request, stored, n, traces, results, held, before, after, targetsBefore, targets);
    OneMoreServed(request, stored, traces, results, held, after, targets, trace, result);
  }

  lemma StillServed(
    request: Request, stored: Stored, n: nat, traces: seq<seq<Exchange>>, results: seq<TargetResult>,
    held: map<string, Held>, before: map<string, Held>, after: map<string, Held>,
    targetsBefore: map<string, Recorded>, targets: map<string, Recorded>)
    requires DistinctAgents(request.targets) && |traces| == |results| == n < |request.targets|
    requires EachServed(request, stored, traces, results, held, before, targetsBefore)
    requires before - {request.targets[n].agent} == after - {request.targets[n].agent}
    requires targetsBefore - {request.targets[n].agent} == targets - {request.targets[n].agent}
    ensures EachServed(request, stored, traces, results, held, after, targets)
  {
    hide Served;
    forall i | 0 <= i < n
      ensures Served(request, stored, i, traces[i], results[i], held, after, targets)
    {
      SameElsewhere(before, after, request.targets[n].agent, request.targets[i].agent);
      SameElsewhere(targetsBefore, targets, request.targets[n].agent, request.targets[i].agent);
      ServedStays(request, stored, i, traces[i], results[i], held, before, after, targetsBefore, targets);
    }
  }

  lemma OneMoreServed(
    request: Request, stored: Stored, traces: seq<seq<Exchange>>, results: seq<TargetResult>,
    held: map<string, Held>, after: map<string, Held>, targets: map<string, Recorded>,
    trace: seq<Exchange>, result: TargetResult)
    requires |traces| == |results| < |request.targets|
    requires EachServed(request, stored, traces, results, held, after, targets)
    requires Served(request, stored, |traces|, trace, result, held, after, targets)
    ensures EachServed(request, stored, traces + [trace], results + [result], held, after, targets)
  {
    hide Served;
  }

  lemma StillOthers(
    agents: set<string>, agent: string, recorded: map<string, Recorded>, held: map<string, Held>,
    before: map<string, Held>, after: map<string, Held>, targetsBefore: map<string, Recorded>, targets: map<string, Recorded>)
    requires OthersStay(agents, recorded, held, before, targetsBefore)
    requires before - {agent} == after - {agent} && targetsBefore - {agent} == targets - {agent}
    ensures OthersStay(agents + {agent}, recorded, held, after, targets)
  {
    forall a | a !in agents + {agent}
      ensures HeldAt(after, a) == HeldAt(held, a) && LookupIn(targets, a) == LookupIn(recorded, a)
    {
      SameElsewhere(before, after, agent, a);
      SameElsewhere(targetsBefore, targets, agent, a);
    }
  }

  lemma ServedStays(
    request: Request, stored: Stored, i: nat, trace: seq<Exchange>, result: TargetResult, held: map<string, Held>,
    before: map<string, Held>, after: map<string, Held>, targetsBefore: map<string, Recorded>, targets: map<string, Recorded>)
    requires i < |request.targets| && Served(request, stored, i, trace, result, held, before, targetsBefore)
    requires HeldAt(after, request.targets[i].agent) == HeldAt(before, request.targets[i].agent)
    requires LookupIn(targets, request.targets[i].agent) == LookupIn(targetsBefore, request.targets[i].agent)
    ensures Served(request, stored, i, trace, result, held, after, targets)
  {
    hide IsTargetTrace, ResultOf, Chain, RecordedAfter;
  }

  lemma SameElsewhere<T>(before: map<string, T>, after: map<string, T>, agent: string, a: string)
    requires before - {agent} == after - {agent} && a != agent
    ensures (a in before <==> a in after) && (a in before ==> before[a] == after[a])
  {
    assert a in before <==> a in before - {agent};
    assert a in after <==> a in after - {agent};
  }

  /** A call between two states of the registries and the manifest file. */
  ghost predicate Called(
    request: Request, report: Report, held: map<string, Held>, stored: Stored, heldAfter: map<string, Held>,
    storedAfter: Stored)
  {
    && AllServed(request, stored, |request.targets|, report.traces, report.served, held, heldAfter, report.targets)
    && storedAfter == (if report.written then File(report.targets) else stored)
    && (report.written ==>
          && ShouldWrite(request, stored, report.served)
          && WellFormed(request, stored) && ValidTargets(report.targets))
  }

  predicate ShouldWrite(request: Request, stored: Stored, served: seq<TargetResult>) {
    AnyChanged(served) && (request.action.Install? || stored.File?)
  }

  /** A change that could not be recorded is reported as an error on every target that changed. */
  function ReportedResults(request: Request, stored: Stored, report: Report): seq<TargetResult> {
    if ShouldWrite(request, stored, report.served) && !report.written then MarkChanged(report.served) else report.served
  }

  ghost predicate EachWorks(traces: seq<seq<Exchange>>) {
    forall i :: 0 <= i < |traces| ==> AllWork(traces[i])
  }

  /** The loop over the targets, which share one manifest in memory. */
  method ServeAll(host: Host, manifest: Manifest, request: Request, stored: Stored)
    returns (results: seq<TargetResult>, changed: bool, ghost traces: seq<seq<Exchange>>)
    requires DistinctAgents(request.targets) && manifest.targets == TargetsIn(stored)
    modifies host, manifest
    ensures AllServed(request, stored, |request.targets|, traces, results, old(host.held), host.held, manifest.targets)
    ensures host.log == old(host.log) + Concat(traces)
    ensures changed == AnyChanged(results)
    ensures host.reliable ==> EachWorks(traces)
  {
    hide Chain, IsTargetTrace, ResultOf, AllWork, ValidTargets, StateOf;
    ghost var held := host.held;
    results, changed, traces := [], false, [];
    var i := 0;
    while i < |request.targets|
      invariant 0 <= i <= |request.targets|
      invariant host.log == old(host.log) + Concat(traces)
      invariant host.reliable ==> EachWorks(traces)
      invariant AllServed(request, stored, i, traces, results, held, host.held, manifest.targets)
      invariant changed == AnyChanged(results)
    {
      ghost var before, targetsBefore := host.held, manifest.targets;
      var target := request.targets[i];
      var call :=
        Call(target, request.current, manifest.Lookup(target.agent), StateOf(stored), request.allowCodexAdd);
      var result;
      ghost var trace;
      result, changed, trace := ServeTarget(host, manifest, request.action, call, changed);
      NotYetServed(request, stored, i, traces, results, held, before, targetsBefore);
      assert Served(request, stored, i, trace, result, held, host.held, manifest.targets);
      ServeOne(request, stored, i, traces, results, held, before, host.held, targetsBefore, manifest.targets, trace, result);
      assert Concat(traces + [trace]) == Concat(traces) + trace by {
        assert (traces + [trace])[..|traces|] == traces;
      }
      results, traces := results + [result], traces + [trace];
      i := i + 1;
    }
  }

  /** The locked part of `manageMCPConfig`, given a usable executable and the configuration lock. */
  method Manage(host: Host, disk: Disk, request: Request)
    returns (results: seq<TargetResult>, complete: bool, ghost report: Report)
    requires DistinctAgents(request.targets)
    modifies host, disk
    ensures Called(request, report, old(host.held), old(disk.stored), host.held, disk.stored)
    ensures host.log == old(host.log) + Concat(report.traces)
    ensures results == ReportedResults(request, old(disk.stored), report)
    ensures complete <==> Complete(request.action, results)
    ensures host.reliable ==> EachWorks(report.traces)
    ensures disk.reliable && WellFormed(request, old(disk.stored)) && ValidTargets(report.targets) ==>
              (report.written <==> ShouldWrite(request, old(disk.stored), report.served))
  {
    hide AllServed, EachWorks, WellFormed, ValidTargets, Complete;
    ghost var written := false;
    var state := StateOf(disk.stored);
    var manifest := new Manifest(TargetsIn(disk.stored));
    var wellFormed := WellFormed(request, disk.stored);
    var changed;
    ghost var traces;
    results, changed, traces := ServeAll(host, manifest, request, disk.stored);
    ghost var served := results;
    if changed && (request.action == Install || state == ManifestValid) {
      var ok := disk.Write(manifest.targets, wellFormed);
      if !ok {
        results := MarkChanged(results);
      }
      written := ok;
    }
    report := Report(traces, served, manifest.targets, written);
    complete := Complete(request.action, results);
  }
}
