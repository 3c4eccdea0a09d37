/**
 * Safety of MCP registration over whole runs: any number of calls, by changing executables, with anyone
 * editing the registries, and losing or damaging the manifest file, between the calls.
 */
module McpRuns {
  import opened Common
  import opened McpRegistry
  import opened McpConfig
  import opened McpTheorems
  import opened McpManage

  // ---------- one call ----------

  /** What a change leaves in the registry and in the records. */
  lemma ChangedMeansAgreement(
    request: Request, report: Report, held: map<string, Held>, stored: Stored,
    after: map<string, Held>, storedAfter: Stored, i: nat)
    requires Called(request, report, held, stored, after, storedAfter) && i < |request.targets|
    requires report.served[i].changed
    ensures var agent := request.targets[i].agent;
            var recorded := if request.action.Install? then Some(request.current) else None;
            && !request.action.Status?
            && HeldAt(after, agent) == (if request.action.Install? then Holds(User(request.current)) else Nothing)
            && IdentityFor(report.targets, agent) == recorded
            && (ReportedResults(request, stored, report)[i].error.None? ==> StoredIdentity(storedAfter, agent) == recorded)
  {
    var call := CallFor(request, stored, i);
    var trace := report.traces[i];
    assert Served(request, stored, i, trace, report.served[i], held, after, report.targets);
    hide Chain, IsInstallTrace, IsUninstallTrace, InstallResult, UninstallResult, MarkChanged;
    if request.action.Install? {
      InstalledMeansHeld(call, trace, HeldAt(held, call.target.agent), HeldAt(after, call.target.agent));
    } else if request.action.Uninstall? {
      RemovedMeansNothingHeld(call, trace, HeldAt(held, call.target.agent), HeldAt(after, call.target.agent));
    }
    MarkedError(report.served, i);
  }

  lemma MarkedError(results: seq<TargetResult>, i: nat)
    requires i < |results| && results[i].changed
    ensures MarkChanged(results)[i].error.Some?
  {
  }

  /** A complete install has the current identity in every detected registry; a complete uninstall leaves none. */
  lemma CompleteMeansDone(
    request: Request, report: Report, held: map<string, Held>, stored: Stored,
    after: map<string, Held>, storedAfter: Stored, i: nat)
    requires Called(request, report, held, stored, after, storedAfter) && i < |request.targets|
    requires Complete(request.action, ReportedResults(request, stored, report))
    ensures request.action.Install? && request.targets[i].detected ==>
              HeldAt(after, request.targets[i].agent) == Holds(User(request.current))
    ensures request.action.Uninstall? ==> request.targets[i].detected && HeldAt(after, request.targets[i].agent) == Nothing
  {
    var call := CallFor(request, stored, i);
    var trace := report.traces[i];
    var results := ReportedResults(request, stored, report);
    assert Served(request, stored, i, trace, report.served[i], held, after, report.targets);
    assert results[i].error.None? && GoodStatus(request.action, results[i].status);
    assert results[i].status == report.served[i].status;
    hide Chain, IsInstallTrace, IsUninstallTrace, MarkChanged, Complete;
    if call.target.detected {
      match request.action
      case Install =>
        InstalledMeansHeld(call, trace, HeldAt(held, call.target.agent), HeldAt(after, call.target.agent));
        InstallSkipsNone(call, trace);
      case Status =>
      case Uninstall =>
        RemovedMeansNothingHeld(call, trace, HeldAt(held, call.target.agent), HeldAt(after, call.target.agent));
    }
  }

  lemma InstallSkipsNone(call: Call, trace: seq<Exchange>)
    requires IsInstallTrace(call, trace)
    ensures !InstallResult(call, trace).status.SkippedNotDetected?
  {
  }

  /** The manifest file stays valid, and a damaged one is never written over. */
  lemma ManifestStaysValid(
    request: Request, report: Report, held: map<string, Held>, stored: Stored, after: map<string, Held>, storedAfter: Stored)
    requires Called(request, report, held, stored, after, storedAfter)
    ensures ValidStored(stored) ==> ValidStored(storedAfter)
    ensures stored.Garbage? ==> storedAfter.Garbage?
    ensures stored.NoFile? && !request.action.Install? ==> storedAfter.NoFile?
    ensures request.action.Status? ==> storedAfter == stored
  {
    if request.action.Status? && AnyChanged(report.served) {
      var i :| 0 <= i < |report.served| && report.served[i].changed;
      ChangedMeansAgreement(request, report, held, stored, after, storedAfter, i);
    }
  }

  /** Repeating a complete install looks once at each detected registry, and changes neither them nor the file. */
  lemma RepeatedInstallOnlyLooks(
    request: Request, first: Report, second: Report, held: map<string, Held>, stored: Stored,
    between: map<string, Held>, storedBetween: Stored, after: map<string, Held>, storedAfter: Stored)
    requires request.action.Install?
    requires Called(request, first, held, stored, between, storedBetween)
    requires Complete(Install, ReportedResults(request, stored, first))
    requires Called(request, second, between, storedBetween, after, storedAfter)
    ensures forall i :: 0 <= i < |second.traces| ==> OnlyLooks(second.traces[i]) && |second.traces[i]| <= 1
    ensures forall agent :: HeldAt(after, agent) == HeldAt(between, agent)
    ensures storedAfter == storedBetween
  {
    hide Complete, ReportedResults, IsInstallTrace, InstallResult;
    forall i | 0 <= i < |second.traces|
      ensures OnlyLooks(second.traces[i]) && |second.traces[i]| <= 1 && !second.served[i].changed
      ensures HeldAt(after, request.targets[i].agent) == HeldAt(between, request.targets[i].agent)
    {
      CompleteMeansDone(request, first, held, stored, between, storedBetween, i);
      var call := CallFor(request, storedBetween, i);
      assert Served(request, storedBetween, i, second.traces[i], second.served[i], between, after, second.targets);
      if call.target.detected {
        InstallingAgainOnlyLooks(call, second.traces[i], HeldAt(after, call.target.agent));
        UnchangedUnlessInstalled(call, second.traces[i]);
      }
    }
    forall agent
      ensures HeldAt(after, agent) == HeldAt(between, agent)
    {
      if agent in AgentsOf(request.targets, |request.targets|) {
        var i :| 0 <= i < |request.targets| && request.targets[i].agent == agent;
        assert |second.traces| == |request.targets|;
      }
    }
  }

  lemma UnchangedUnlessInstalled(call: Call, trace: seq<Exchange>)
    requires IsInstallTrace(call, trace)
    ensures InstallResult(call, trace).changed ==> InstallResult(call, trace).status in {Installed, Updated}
  {
  }

  // ---------- when a call is complete ----------

  /** The manifest is readable, nothing fails, every identity may be written, and a change was recorded. */
  ghost predicate Smooth(request: Request, report: Report, stored: Stored)
  {
    && !stored.Garbage? && SafeIdentity(request.current)
    && (forall agent :: StoredIdentity(stored, agent).Some? ==> SafeIdentity(StoredIdentity(stored, agent).value))
    && EachWorks(report.traces)
    && (ShouldWrite(request, stored, report.served) ==> report.written)
  }

  /** The slot is Belay's: it holds the calling executable's entry, or one the manifest records for the agent. */
  predicate HoldsOurs(request: Request, stored: Stored, agent: string, held: Held) {
    || held == Holds(User(request.current))
    || (&& stored.File? && agent in stored.targets && stored.targets[agent].scope == "user"
        && held == Holds(User(stored.targets[agent].identity)))
  }

  lemma HoldsOursIff(request: Request, stored: Stored, i: nat, held: Held)
    requires i < |request.targets|
    ensures HoldsOurs(request, stored, request.targets[i].agent, held) <==> IsOurs(CallFor(request, stored, i), held)
  {
  }

  lemma SmoothTarget(
    request: Request, report: Report, held: map<string, Held>, stored: Stored,
    after: map<string, Held>, storedAfter: Stored, i: nat)
    requires Called(request, report, held, stored, after, storedAfter) && Smooth(request, report, stored)
    requires i < |request.targets| && request.targets[i].detected
    ensures var call, trace := CallFor(request, stored, i), report.traces[i];
            var h := HeldAt(held, call.target.agent);
            var result := report.served[i];
            && IsTargetTrace(request.action, call, trace) && result == ResultOf(request.action, call, trace)
            && (request.action.Install? ==> result.status == SmoothInstall(call, h))
            && (request.action.Uninstall? ==>
                  result.status == if h == Nothing then EntryAbsent else if IsOurs(call, h) then EntryRemoved
                                   else if h.Holds? then ForeignPreserved else EntryUnverifiable)
            && (request.action.Status? ==> trace != [] && trace[0].Looked? && LookShows(trace[0].seen, h))
    ensures ReportedResults(request, stored, report)[i] == report.served[i]
  {
    var call, trace := CallFor(request, stored, i), report.traces[i];
    var h, last := HeldAt(held, call.target.agent), HeldAt(after, call.target.agent);
    assert Served(request, stored, i, trace, report.served[i], held, after, report.targets);
    assert AllWork(trace);
    assert PriorIdentity(call).Some? ==> StoredIdentity(stored, call.target.agent) == PriorIdentity(call);
    hide SafeIdentity, IsInstallTrace, IsUninstallTrace, InstallResult, UninstallResult, SmoothInstall, IsOurs;
    match request.action
    case Install => SmoothInstallResult(call, trace, h, last);
    case Uninstall => SmoothUninstallResult(call, trace, h, last);
    case Status =>
      ChainLinks(call.target, h, trace, last);
      assert Works(trace[0]);
  }

  predicate LookShows(seen: Inspection, held: Held) {
    match held
    case Nothing => seen == Absent
    case Holds(entry) => seen == Present(entry)
    case Unreadable => seen.Unverifiable?
  }

  lemma InstallErrors(call: Call, trace: seq<Exchange>)
    requires IsInstallTrace(call, trace) && !call.state.ManifestInvalid?
    ensures InstallResult(call, trace).status in {Installed, Updated, AlreadyInstalled} ==>
              InstallResult(call, trace).error == None
  {
  }

  lemma UninstallErrors(call: Call, trace: seq<Exchange>)
    requires IsUninstallTrace(call, trace) && !call.state.ManifestInvalid?
    ensures UninstallResult(call, trace).status in {EntryRemoved, EntryAbsent} ==> UninstallResult(call, trace).error == None
  {
  }

  /**
   * An install in which nothing fails is complete exactly when each detected registry holds the current
   * entry, or nothing where Belay may add one, or an earlier entry of Belay's where it may be replaced.
   */
  lemma InstallCompleteIff(
    request: Request, report: Report, held: map<string, Held>, stored: Stored, after: map<string, Held>, storedAfter: Stored)
    requires request.action.Install? && Smooth(request, report, stored)
    requires Called(request, report, held, stored, after, storedAfter)
    ensures Complete(Install, ReportedResults(request, stored, report)) <==>
              forall i :: 0 <= i < |request.targets| && request.targets[i].detected ==>
                var t := request.targets[i];
                var h := HeldAt(held, t.agent);
                || h == Holds(User(request.current))
                || (h == Nothing && (t.duplicateAddSafe || (t.agent == "codex" && request.allowCodexAdd)))
                || (HoldsOurs(request, stored, t.agent, h) && t.duplicateAddSafe)
  {
    var results := ReportedResults(request, stored, report);
    forall i | 0 <= i < |request.targets|
      ensures results[i].error.None? && GoodStatus(Install, results[i].status) <==>
                (request.targets[i].detected ==>
                   var t := request.targets[i];
                   var h := HeldAt(held, t.agent);
                   || h == Holds(User(request.current))
                   || (h == Nothing && (t.duplicateAddSafe || (t.agent == "codex" && request.allowCodexAdd)))
                   || (HoldsOurs(request, stored, t.agent, h) && t.duplicateAddSafe))
    {
      InstallTargetGood(request, report, held, stored, after, storedAfter, i);
    }
    hide Smooth, Called, GoodStatus, HoldsOurs;
  }

  lemma InstallTargetGood(
    request: Request, report: Report, held: map<string, Held>, stored: Stored,
    after: map<string, Held>, storedAfter: Stored, i: nat)
    requires request.action.Install? && Smooth(request, report, stored)
    requires Called(request, report, held, stored, after, storedAfter) && i < |request.targets|
    ensures var result := ReportedResults(request, stored, report)[i];
            result.error.None? && GoodStatus(Install, result.status) <==>
              (request.targets[i].detected ==>
                 var t := request.targets[i];
                 var h := HeldAt(held, t.agent);
                 || h == Holds(User(request.current))
                 || (h == Nothing && (t.duplicateAddSafe || (t.agent == "codex" && request.allowCodexAdd)))
                 || (HoldsOurs(request, stored, t.agent, h) && t.duplicateAddSafe))
  {
    var call, trace := CallFor(request, stored, i), report.traces[i];
    if call.target.detected {
      SmoothTarget(request, report, held, stored, after, storedAfter, i);
      InstallErrors(call, trace);
      HoldsOursIff(request, stored, i, HeldAt(held, call.target.agent));
      hide IsInstallTrace, InstallResult, Called, Smooth, HoldsOurs;
    } else {
      assert Served(request, stored, i, trace, report.served[i], held, after, report.targets);
    }
  }

  /** An uninstall in which nothing fails is complete exactly when each target is detected and empty or Belay's. */
  lemma UninstallCompleteIff(
    request: Request, report: Report, held: map<string, Held>, stored: Stored, after: map<string, Held>, storedAfter: Stored)
    requires request.action.Uninstall? && Smooth(request, report, stored)
    requires Called(request, report, held, stored, after, storedAfter)
    ensures Complete(Uninstall, ReportedResults(request, stored, report)) <==>
              forall i :: 0 <= i < |request.targets| ==>
                && request.targets[i].detected
                && (var h := HeldAt(held, request.targets[i].agent);
                    h == Nothing || HoldsOurs(request, stored, request.targets[i].agent, h))
  {
    var results := ReportedResults(request, stored, report);
    forall i | 0 <= i < |request.targets|
      ensures results[i].error.None? && GoodStatus(Uninstall, results[i].status) <==>
                && request.targets[i].detected
                && (var h := HeldAt(held, request.targets[i].agent);
                    h == Nothing || HoldsOurs(request, stored, request.targets[i].agent, h))
    {
      var call, trace := CallFor(request, stored, i), report.traces[i];
      if call.target.detected {
        SmoothTarget(request, report, held, stored, after, storedAfter, i);
        UninstallErrors(call, trace);
        HoldsOursIff(request, stored, i, HeldAt(held, call.target.agent));
        hide IsUninstallTrace, UninstallResult, HoldsOurs, IsOurs;
      } else {
        assert Served(request, stored, i, trace, report.served[i], held, after, report.targets);
      }
    }
    hide Smooth, Called, GoodStatus, HoldsOurs;
  }

  /** A status call in which nothing fails is complete exactly when each target is detected and readable. */
  lemma StatusCompleteIff(
    request: Request, report: Report, held: map<string, Held>, stored: Stored, after: map<string, Held>, storedAfter: Stored)
    requires request.action.Status? && Smooth(request, report, stored)
    requires Called(request, report, held, stored, after, storedAfter)
    ensures Complete(Status, ReportedResults(request, stored, report)) <==>
              forall i :: 0 <= i < |request.targets| ==>
                request.targets[i].detected && HeldAt(held, request.targets[i].agent) != Unreadable
  {
    var results := ReportedResults(request, stored, report);
    forall i | 0 <= i < |request.targets|
      ensures results[i].error.None? && GoodStatus(Status, results[i].status) <==>
                request.targets[i].detected && HeldAt(held, request.targets[i].agent) != Unreadable
    {
      var call, trace := CallFor(request, stored, i), report.traces[i];
      assert Served(request, stored, i, trace, report.served[i], held, after, report.targets);
      if call.target.detected {
        SmoothTarget(request, report, held, stored, after, storedAfter, i);
      }
    }
    hide Smooth, Called, GoodStatus;
  }

  // ---------- what may be recorded ----------

  /** What Belay may record it may also write and remove. */
  lemma RecordedIsSafe(identity: Identity)
    requires ValidIdentity(identity)
    ensures SafeIdentity(identity)
  {
    SafeTextMeans("mcp");
    SafeTextMeans("--home");
    assert "mcp"[0] as int == 109 && "--home"[0] as int == 45;
    hide UnsafePathText;
    assert identity.args == ["mcp"] || identity.args == ["mcp", "--home", identity.args[2]];
  }

  /** A valid manifest names four harnesses at most, each with a user entry that runs Belay as an MCP server. */
  lemma ValidTargetsMean(targets: map<string, Recorded>)
    ensures ValidTargets(targets) <==>
              forall agent :: agent in targets ==>
                && agent in {"codex", "claude", "cursor", "antigravity"} && targets[agent].scope == "user"
                && (var id := targets[agent].identity;
                    && !UnsafePathText(id.command) && "/" <= id.command
                    && |id.args| in {1, 3} && id.args[0] == "mcp"
                    && (|id.args| == 3 ==> id.args[1] == "--home" && !UnsafePathText(id.args[2]) && "/" <= id.args[2]))
  {
  }

  /** Installing keeps the records valid for the harnesses a manifest may name. */
  lemma RecordsStayValid(
    request: Request, report: Report, held: map<string, Held>, stored: Stored, after: map<string, Held>, storedAfter: Stored)
    requires Called(request, report, held, stored, after, storedAfter) && ValidStored(stored)
    requires ValidIdentity(request.current)
    requires forall t :: t in request.targets ==> t.agent in {"codex", "claude", "cursor", "antigravity"}
    ensures ValidTargets(report.targets)
  {
    hide Chain, IsTargetTrace, ResultOf, ValidIdentity;
    forall agent | agent in report.targets
      ensures KnownAgent(agent) && ValidIdentity(report.targets[agent].identity) && report.targets[agent].scope == "user"
    {
      if agent in AgentsOf(request.targets, |request.targets|) {
        var i :| 0 <= i < |request.targets| && request.targets[i].agent == agent;
        assert Served(request, stored, i, report.traces[i], report.served[i], held, after, report.targets);
        assert request.targets[i] in request.targets;
      } else {
        assert LookupIn(report.targets, agent) == LookupIn(TargetsIn(stored), agent);
      }
    }
  }

  /** When there is no header to write a manifest under. */
  lemma NoHeaderMeans(request: Request, stored: Stored)
    ensures !WellFormed(request, stored) <==>
              stored == Garbage || (stored == NoFile && !(request.action == Install && request.installationKnown))
  {
  }

  /** Marking adds the error to the targets that changed and leaves everything else. */
  lemma MarkingMeans(results: seq<TargetResult>, i: nat)
    requires i < |results|
    ensures |MarkChanged(results)| == |results|
    ensures MarkChanged(results)[i].error == if results[i].changed then Some(OwnershipManifestInvalid) else results[i].error
    ensures MarkChanged(results)[i].(error := results[i].error) == results[i]
  {
  }

  // ---------- entries Belay put there ----------

  /** At position k Belay added this identity for this agent and the next look showed it there. */
  ghost predicate AddedAt(log: seq<Exchange>, k: nat, agent: string, identity: Identity) {
    && k + 1 < |log| && log[k].Added? && log[k].agent == agent && log[k].identity == identity
    && log[k + 1].Looked? && log[k + 1].agent == agent && log[k + 1].seen == Present(User(identity))
  }

  ghost predicate AddedByBelay(log: seq<Exchange>, agent: string, identity: Identity) {
    exists k :: AddedAt(log, k, agent, identity)
  }

  lemma AddedWithin(before: seq<Exchange>, log: seq<Exchange>, after: seq<Exchange>, agent: string, identity: Identity)
    requires AddedByBelay(log, agent, identity)
    ensures AddedByBelay(before + log + after, agent, identity)
  {
    var k :| AddedAt(log, k, agent, identity);
    assert AddedAt(before + log + after, |before| + k, agent, identity);
  }

  lemma {:induction false} AddedInOneOf(traces: seq<seq<Exchange>>, i: nat, agent: string, identity: Identity)
    requires i < |traces| && AddedByBelay(traces[i], agent, identity)
    ensures AddedByBelay(Concat(traces), agent, identity)
  {
    var rest, last := traces[..|traces| - 1], traces[|traces| - 1];
    if i < |rest| {
      AddedInOneOf(rest, i, agent, identity);
      AddedWithin([], Concat(rest), last, agent, identity);
      assert [] + Concat(rest) + last == Concat(traces);
    } else {
      AddedWithin(Concat(rest), last, [], agent, identity);
      assert Concat(rest) + last + [] == Concat(traces);
    }
  }

  lemma ChangeWasAdded(call: Call, trace: seq<Exchange>, h: Held, last: Held)
    requires IsInstallTrace(call, trace) && Chain(call.target, h, trace, last)
    requires InstallResult(call, trace).changed
    ensures AddedByBelay(trace, call.target.agent, call.current)
  {
    ChainLinks(call.target, h, trace, last);
    hide Chain, FileEffect;
    assert AddedAt(trace, if |trace| == 3 then 1 else 4, call.target.agent, call.current);
  }

  // ---------- runs ----------

  datatype World = World(held: map<string, Held>, stored: Stored, log: seq<Exchange>)

  /** A call of Belay, or anything others do to the registries or, short of forging it, to the manifest file. */
  datatype Step = Outside | Invoke(request: Request, report: Report)

  ghost predicate Possible(before: World, step: Step, after: World) {
    match step
    case Outside => after.log == before.log && (after.stored == before.stored || !after.stored.File?)
    case Invoke(request, report) =>
      && DistinctAgents(request.targets)
      && Called(request, report, before.held, before.stored, after.held, after.stored)
      && after.log == before.log + Concat(report.traces)
  }

  ghost predicate IsRun(worlds: seq<World>, steps: seq<Step>) {
    && |worlds| == |steps| + 1
    && worlds[0].log == [] && !worlds[0].stored.File?
    && forall i :: 0 <= i < |steps| ==> Possible(worlds[i], steps[i], worlds[i + 1])
  }

  /** Every identity in the manifest file is one Belay added itself and then saw there. */
  ghost predicate Honest(w: World) {
    forall agent, identity :: StoredIdentity(w.stored, agent) == Some(identity) ==> AddedByBelay(w.log, agent, identity)
  }

  lemma CallKeepsHonest(before: World, request: Request, report: Report, after: World)
    requires Honest(before) && Possible(before, Invoke(request, report), after)
    ensures Honest(after)
  {
    var more := Concat(report.traces);
    hide Chain, IsInstallTrace, InstallResult, IsUninstallTrace, UninstallResult, AddedByBelay, Concat;
    forall agent, identity | StoredIdentity(after.stored, agent) == Some(identity)
      ensures AddedByBelay(after.log, agent, identity)
    {
      if StoredIdentity(before.stored, agent) == Some(identity) {
        AddedWithin([], before.log, more, agent, identity);
        assert [] + before.log + more == after.log;
      } else {
        var i := ChangedTarget(before, request, report, after, agent);
        AddedInOneOf(report.traces, i, agent, identity);
        AddedWithin(before.log, more, [], agent, identity);
        assert before.log + more + [] == after.log;
      }
    }
  }

  /** A record the file did not have before is that of a target just installed. */
  lemma ChangedTarget(before: World, request: Request, report: Report, after: World, agent: string) returns (i: nat)
    requires Possible(before, Invoke(request, report), after)
    requires StoredIdentity(after.stored, agent).Some?
    requires StoredIdentity(after.stored, agent) != StoredIdentity(before.stored, agent)
    ensures i < |report.traces| && AddedByBelay(report.traces[i], agent, StoredIdentity(after.stored, agent).value)
  {
    hide Chain, IsInstallTrace, InstallResult, IsUninstallTrace, UninstallResult, AddedByBelay, Concat;
    assert report.written && IdentityFor(report.targets, agent) == StoredIdentity(after.stored, agent);
    assert StoredIdentity(before.stored, agent) == IdentityFor(TargetsIn(before.stored), agent);
    assert agent !in AgentsOf(request.targets, |request.targets|) ==>
             LookupIn(report.targets, agent) == LookupIn(TargetsIn(before.stored), agent);
    i :| 0 <= i < |request.targets| && request.targets[i].agent == agent;
    var call := CallFor(request, before.stored, i);
    assert Served(request, before.stored, i, report.traces[i], report.served[i], before.held, after.held, report.targets);
    ChangeWasAdded(call, report.traces[i], HeldAt(before.held, agent), HeldAt(after.held, agent));
  }

  lemma {:induction false} RunsStayHonest(worlds: seq<World>, steps: seq<Step>, i: nat)
    requires IsRun(worlds, steps) && i < |worlds|
    ensures Honest(worlds[i])
  {
    if i > 0 {
      RunsStayHonest(worlds, steps, i - 1);
      assert Possible(worlds[i - 1], steps[i - 1], worlds[i]);
      if steps[i - 1].Invoke? {
        CallKeepsHonest(worlds[i - 1], steps[i - 1].request, steps[i - 1].report, worlds[i]);
      }
    }
  }

  /** Belay's to touch: the entry of the calling executable, or one an earlier call added. */
  ghost predicate IsBelays(w: World, agent: string, current: Identity, held: Held) {
    && held.Holds? && held.entry.scope == "user"
    && (held.entry.identity == current || AddedByBelay(w.log, agent, held.entry.identity))
  }

  lemma OursIsBelays(w: World, request: Request, i: nat, held: Held)
    requires Honest(w) && i < |request.targets| && IsOurs(CallFor(request, w.stored, i), held)
    ensures IsBelays(w, request.targets[i].agent, request.current, held)
  {
    var call := CallFor(request, w.stored, i);
    if held != Holds(User(request.current)) {
      assert StoredIdentity(w.stored, call.target.agent) == PriorIdentity(call);
    }
  }

  lemma TargetTraceIsCareful(action: Action, call: Call, trace: seq<Exchange>, h: Held, last: Held)
    requires IsTargetTrace(action, call, trace) && Chain(call.target, h, trace, last)
    ensures forall k :: 0 <= k < |trace| ==> Careful(call, trace, k)
    ensures forall k :: 0 <= k < |trace| ==> trace[k].agent == call.target.agent
    ensures last != h ==> h == Nothing || IsOurs(call, h)
  {
    ChainLinks(call.target, h, trace, last);
    hide Chain, FileEffect, IsInstallTrace, IsUninstallTrace, IsOurs;
    if call.target.detected {
      if action.Install? {
        InstallIsCareful(call, trace, h, last);
      } else if action.Uninstall? {
        UninstallIsCareful(call, trace, h, last);
      }
      if !action.Status? && h != Nothing && !IsOurs(call, h) {
        ForeignEntryIsLeftAlone(call, trace, h, last);
      }
    }
  }

  /**
   * In every run, whatever the commands do: an entry is added only where nothing is registered, and
   * removed only when it is the caller's own or one Belay added in an earlier call.
   */
  lemma RunsAreSafe(worlds: seq<World>, steps: seq<Step>, i: nat, t: nat, k: nat)
    requires IsRun(worlds, steps) && i < |steps| && steps[i].Invoke?
    requires t < |steps[i].report.traces| && k < |steps[i].report.traces[t]|
    ensures var x := steps[i].report.traces[t][k];
            && (x.Added? ==> x.before == Nothing)
            && (x.Removed? ==> IsBelays(worlds[i], x.agent, steps[i].request.current, x.before))
  {
    RunsStayHonest(worlds, steps, i);
    var w, request, report := worlds[i], steps[i].request, steps[i].report;
    assert Possible(w, steps[i], worlds[i + 1]);
    hide IsTargetTrace, Chain, IsBelays, Honest, IsOurs, AddedByBelay;
    var call := CallFor(request, w.stored, t);
    assert Served(request, w.stored, t, report.traces[t], report.served[t], w.held, worlds[i + 1].held, report.targets);
    TargetTraceIsCareful(request.action, call, report.traces[t],
                         HeldAt(w.held, call.target.agent), HeldAt(worlds[i + 1].held, call.target.agent));
    assert Careful(call, report.traces[t], k);
    if report.traces[t][k].Removed? {
      OursIsBelays(w, request, t, report.traces[t][k].before);
    }
  }

  /** In every run a call leaves each registry as it was, unless it held nothing or an entry of Belay's. */
  lemma RunsKeepForeignEntries(worlds: seq<World>, steps: seq<Step>, i: nat, agent: string)
    requires IsRun(worlds, steps) && i < |steps| && steps[i].Invoke?
    requires HeldAt(worlds[i + 1].held, agent) != HeldAt(worlds[i].held, agent)
    ensures var held := HeldAt(worlds[i].held, agent);
            held == Nothing || IsBelays(worlds[i], agent, steps[i].request.current, held)
  {
    RunsStayHonest(worlds, steps, i);
    var w, request, report := worlds[i], steps[i].request, steps[i].report;
    assert Possible(w, steps[i], worlds[i + 1]);
    hide IsTargetTrace, Chain, IsBelays, Honest, IsOurs, AddedByBelay, Careful;
    var t :| 0 <= t < |request.targets| && request.targets[t].agent == agent;
    var call := CallFor(request, w.stored, t);
    assert Served(request, w.stored, t, report.traces[t], report.served[t], w.held, worlds[i + 1].held, report.targets);
    TargetTraceIsCareful(request.action, call, report.traces[t], HeldAt(w.held, agent), HeldAt(worlds[i + 1].held, agent));
    if HeldAt(w.held, agent) != Nothing {
      OursIsBelays(w, request, t, HeldAt(w.held, agent));
    }
  }
}
