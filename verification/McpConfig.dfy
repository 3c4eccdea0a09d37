/**
 * Registering Belay with one harness (`internal/localapp/mcp_config.go`): status, install, update with
 * rollback, and uninstall, each following a protocol of exchanges whose trace decides the reported result.
 */
module McpConfig {
  import opened Common
  import opened McpRegistry

  datatype Ownership = NoEntry | Unknown | Foreign | Current | Recognized

  datatype Status =
    | EntryAbsent | EntryUnverifiable | EntryUnavailable | OwnedCurrent | OwnedRecognized | ForeignEntry
    | AlreadyInstalled | ForeignPreserved | Installed | Updated | EntryRemoved
    | Failed | RollbackRestored | RollbackFailed | SkippedNotDetected

  datatype ErrorCode =
    | Reported(code: string) | ConflictingEntry | InstallNotDone | NotVerified | RemoveNotDone | NotRolledBack
    | OutputTooLarge | OwnershipManifestInvalid | CliNotFound

  datatype TargetResult = TargetResult(
    agent: string, status: Status, ownership: Ownership, changed: bool, error: Option<ErrorCode>)

  datatype ManifestState = ManifestMissing | ManifestValid | ManifestInvalid

  /** An identity Belay verified in a registry it wrote. */
  datatype Recorded = Recorded(scope: string, identity: Identity, verifiedAt: int)

  /** What a call knows before it starts on one target. */
  datatype Call = Call(
    target: Target, current: Identity, recorded: Option<Recorded>, state: ManifestState, allowCodexAdd: bool)

  /** The manifest in memory, shared by all targets of a call. */
  class Manifest {
    var targets: map<string, Recorded>

    constructor (targets: map<string, Recorded>)
      ensures this.targets == targets
    {
      this.targets := targets;
    }

    function Lookup(agent: string): Option<Recorded>
      reads this
    {
      LookupIn(targets, agent)
    }

    method Record(agent: string, identity: Identity, now: int)
      modifies this
      ensures targets == old(targets)[agent := Recorded("user", identity, now)]
    {
      targets := targets[agent := Recorded("user", identity, now)];
    }

    method Forget(agent: string)
      modifies this
      ensures targets == old(targets) - {agent}
    {
      targets := targets - {agent};
    }
  }

  function LookupIn(targets: map<string, Recorded>, agent: string): Option<Recorded> {
    if agent in targets then Some(targets[agent]) else None
  }

  // ---------- ownership ----------

  function Classify(seen: Inspection, call: Call): Ownership {
    match seen
    case Absent => NoEntry
    case Unverifiable(_) => Unknown
    case Unavailable(_) => Unknown
    case Present(entry) =>
      if entry.scope != "user" then Foreign
      else if entry.identity == call.current then Current
      else if && call.state.ManifestValid? && call.recorded.Some? && call.recorded.value.scope == "user"
              && entry.identity == call.recorded.value.identity then Recognized
      else Foreign
  }

  function OwnershipOf(seen: Inspection): Ownership {
    match seen
    case Absent => NoEntry
    case Present(_) => Foreign
    case _ => Unknown
  }

  function PriorIdentity(call: Call): Option<Identity> {
    if call.state.ManifestValid? && call.recorded.Some? && call.recorded.value.scope == "user"
    then Some(call.recorded.value.identity)
    else None
  }

  function CommandFailure(result: CommandResult, commandCode: ErrorCode, verificationCode: ErrorCode): ErrorCode {
    if result.overflow then OutputTooLarge else if result.exitCode != 0 then commandCode else verificationCode
  }

  // ---------- results, read off the trace of exchanges ----------

  function Shown(seen: Inspection, ownership: Ownership): (Status, Option<ErrorCode>) {
    match seen
    case Absent => (EntryAbsent, None)
    case Unverifiable(code) => (EntryUnverifiable, Some(Reported(code)))
    case Unavailable(code) => (EntryUnavailable, Some(Reported(code)))
    case Present(_) =>
      (if ownership.Current? then OwnedCurrent else if ownership.Recognized? then OwnedRecognized else ForeignEntry, None)
  }

  function StatusOf(call: Call, seen: Inspection): TargetResult {
    var ownership := Classify(seen, call);
    var (status, error) := Shown(seen, ownership);
    TargetResult(
      call.target.agent, status, ownership, false,
      if call.state.ManifestInvalid? && error.None? then Some(OwnershipManifestInvalid) else error)
  }

  predicate MayAdd(call: Call) {
    call.target.duplicateAddSafe || (call.target.agent == "codex" && call.allowCodexAdd)
  }

  predicate IsAdd(x: Exchange, identity: Identity) {
    x.Added? && x.identity == identity
  }

  predicate IsRemove(x: Exchange, allowed: seq<Identity>) {
    x.Removed? && x.allowed == allowed
  }

  /** Look; look again; remove the old entry; look; add the new one; look; put the old one back; look. */
  predicate IsUpdateTrace(call: Call, trace: seq<Exchange>)
    requires call.recorded.Some?
  {
    var prior := call.recorded.value.identity;
    && |trace| in {2, 4, 6, 8}
    && trace[0].Looked? && trace[1].Looked?
    && (|trace| > 2 <==> Classify(trace[1].seen, call).Recognized?)
    && (|trace| > 2 ==> IsRemove(trace[2], [prior]) && trace[3].Looked? && (|trace| > 4 <==> trace[3].seen.Absent?))
    && (|trace| > 4 ==> IsAdd(trace[4], call.current) && trace[5].Looked? && (|trace| > 6 <==> trace[5].seen.Absent?))
    && (|trace| > 6 ==> IsAdd(trace[6], prior) && trace[7].Looked?)
  }

  /** The first half of an update, up to the look that finds the recognized entry gone. */
  predicate IsRemoval(call: Call, trace: seq<Exchange>)
    requires call.recorded.Some?
  {
    && |trace| == 4 && trace[0].Looked? && trace[1].Looked? && trace[3].Looked?
    && Classify(trace[1].seen, call).Recognized?
    && IsRemove(trace[2], [call.recorded.value.identity]) && trace[3].seen.Absent?
  }

  function UpdateResult(call: Call, trace: seq<Exchange>): TargetResult
    requires call.recorded.Some? && IsUpdateTrace(call, trace)
  {
    var start := StatusOf(call, trace[0].seen);
    if |trace| == 2 then start.(status := Failed, ownership := OwnershipOf(trace[1].seen), error := Some(NotVerified))
    else if |trace| == 4 then
      start.(status := Failed, error := Some(if trace[2].result.exitCode != 0 then RemoveNotDone else NotVerified))
    else if |trace| == 6 then
      if Classify(trace[5].seen, call).Current? then
        start.(status := Updated, ownership := Current, changed := true, error := None)
      else start.(status := RollbackFailed, ownership := OwnershipOf(trace[5].seen), error := Some(NotRolledBack))
    else if trace[6].result.exitCode == 0 && Classify(trace[7].seen, call).Recognized? then
      start.(status := RollbackRestored, ownership := Recognized,
             error := Some(CommandFailure(trace[4].result, InstallNotDone, NotVerified)))
    else start.(status := RollbackFailed, ownership := OwnershipOf(trace[7].seen), error := Some(NotRolledBack))
  }

  predicate IsInstallTrace(call: Call, trace: seq<Exchange>) {
    && trace != [] && trace[0].Looked?
    && var status := StatusOf(call, trace[0].seen).status;
       if status.EntryAbsent? && MayAdd(call) then |trace| == 3 && IsAdd(trace[1], call.current) && trace[2].Looked?
       else if status.OwnedRecognized? && call.target.duplicateAddSafe then call.recorded.Some? && IsUpdateTrace(call, trace)
       else |trace| == 1
  }

  function InstallResult(call: Call, trace: seq<Exchange>): TargetResult
    requires IsInstallTrace(call, trace)
  {
    var start := StatusOf(call, trace[0].seen);
    match start.status
    case OwnedCurrent => start.(status := AlreadyInstalled)
    case EntryAbsent =>
      if |trace| == 1 then start.(status := EntryUnavailable, ownership := Unknown, error := Some(InstallNotDone))
      else if Classify(trace[2].seen, call).Current? then
        start.(status := Installed, ownership := Current, changed := true, error := None)
      else
        start.(status := Failed, ownership := OwnershipOf(trace[2].seen),
               error := Some(CommandFailure(trace[1].result, InstallNotDone, NotVerified)))
    case OwnedRecognized =>
      if |trace| == 1 then start.(status := EntryUnavailable, error := Some(InstallNotDone)) else UpdateResult(call, trace)
    case ForeignEntry => start.(status := ForeignPreserved, error := Some(ConflictingEntry))
    case _ => start
  }

  predicate Owned(ownership: Ownership) {
    ownership.Current? || ownership.Recognized?
  }

  function Allowed(call: Call): seq<Identity> {
    [call.current] + (if PriorIdentity(call).Some? then [PriorIdentity(call).value] else [])
  }

  /** Look; if the entry is Belay's look again; if it still is remove it; look. */
  predicate IsUninstallTrace(call: Call, trace: seq<Exchange>) {
    && |trace| in {1, 2, 4}
    && trace[0].Looked? && (|trace| > 1 <==> Owned(Classify(trace[0].seen, call)))
    && (|trace| > 1 ==> trace[1].Looked? && (|trace| > 2 <==> Owned(Classify(trace[1].seen, call))))
    && (|trace| > 2 ==> IsRemove(trace[2], Allowed(call)) && trace[3].Looked?)
  }

  function UninstallResult(call: Call, trace: seq<Exchange>): TargetResult
    requires IsUninstallTrace(call, trace)
  {
    var start := StatusOf(call, trace[0].seen);
    if |trace| == 1 then
      if start.status.ForeignEntry? then start.(status := ForeignPreserved, error := Some(ConflictingEntry)) else start
    else if |trace| == 2 then start.(status := Failed, ownership := OwnershipOf(trace[1].seen), error := Some(NotVerified))
    else if !trace[3].seen.Absent? then
      start.(status := Failed, ownership := OwnershipOf(trace[3].seen),
             error := Some(if trace[2].result.exitCode != 0 then RemoveNotDone else NotVerified))
    else start.(status := EntryRemoved, ownership := NoEntry, changed := true, error := None)
  }

  // ---------- the operations ----------

  method StatusTarget(host: Host, call: Call) returns (result: TargetResult, ghost trace: seq<Exchange>)
    modifies host`log
    ensures |trace| == 1 && trace[0].Looked? && result == StatusOf(call, trace[0].seen)
    ensures host.log == old(host.log) + trace
    ensures Chain(call.target, host.At(call.target.agent), trace, host.At(call.target.agent))
    ensures host.reliable ==> AllWork(trace)
  {
    var seen;
    seen, trace := host.Inspect(call.target, host.At(call.target.agent), []);
    var ownership := Classify(seen, call);
    result := TargetResult(call.target.agent, EntryAbsent, ownership, false, None);
    match seen {
      case Absent =>
      case Unverifiable(code) =>
        result := result.(status := EntryUnverifiable, error := Some(Reported(code)));
      case Unavailable(code) =>
        result := result.(status := EntryUnavailable, error := Some(Reported(code)));
      case Present(_) =>
        match ownership {
          case Current => result := result.(status := OwnedCurrent);
          case Recognized => result := result.(status := OwnedRecognized);
          case _ => result := result.(status := ForeignEntry);
        }
    }
    if call.state == ManifestInvalid && result.error == None {
      result := result.(error := Some(OwnershipManifestInvalid));
    }
  }

  method InstallTarget(host: Host, manifest: Manifest, call: Call, now: int, wasChanged: bool)
    returns (result: TargetResult, changed: bool, ghost trace: seq<Exchange>)
    requires call.recorded == manifest.Lookup(call.target.agent)
    modifies host, manifest
    ensures IsInstallTrace(call, trace) && result == InstallResult(call, trace)
    ensures host.log == old(host.log) + trace
    ensures Chain(call.target, old(host.At(call.target.agent)), trace, host.At(call.target.agent))
    ensures host.reliable ==> AllWork(trace)
    ensures Others(host.held, call.target.agent) == old(Others(host.held, call.target.agent))
    ensures manifest.targets ==
            if result.changed then old(manifest.targets)[call.target.agent := Recorded("user", call.current, now)]
            else old(manifest.targets)
    ensures changed == (wasChanged || result.changed)
  {
    result, trace := StatusTarget(host, call);
    changed := wasChanged;
    match result.status {
      case OwnedCurrent =>
        result := result.(status := AlreadyInstalled);
      case ForeignEntry =>
        result := result.(status := ForeignPreserved, error := Some(ConflictingEntry));
      case EntryAbsent =>
        if !call.target.duplicateAddSafe && !(call.target.agent == "codex" && call.allowCodexAdd) {
          result := result.(status := EntryUnavailable, ownership := Unknown, error := Some(InstallNotDone));
        } else {
          result, changed, trace := InstallAbsent(
            host, manifest, call, result, now, wasChanged, host.At(call.target.agent), trace);
        }
      case OwnedRecognized =>
        if !call.target.duplicateAddSafe {
          result := result.(status := EntryUnavailable, error := Some(InstallNotDone));
        } else {
          result, changed, trace := UpdateRecognized(
            host, manifest, call, result, now, wasChanged, host.At(call.target.agent), trace);
        }
      case _ =>
    }
  }

  method InstallAbsent(
    host: Host, manifest: Manifest, call: Call, status: TargetResult, now: int, wasChanged: bool,
    ghost start: Held, ghost before: seq<Exchange>)
    returns (result: TargetResult, changed: bool, ghost trace: seq<Exchange>)
    requires |before| == 1 && before[0].Looked? && before[0].seen.Absent? && MayAdd(call)
    requires status == StatusOf(call, before[0].seen)
    requires Chain(call.target, start, before, host.At(call.target.agent)) && (host.reliable ==> AllWork(before))
    modifies host, manifest
    ensures IsInstallTrace(call, trace) && result == InstallResult(call, trace)
    ensures before <= trace && host.log == old(host.log) + trace[|before|..]
    ensures Chain(call.target, start, trace, host.At(call.target.agent))
    ensures host.reliable ==> AllWork(trace)
    ensures Others(host.held, call.target.agent) == old(Others(host.held, call.target.agent))
    ensures manifest.targets ==
            if result.changed then old(manifest.targets)[call.target.agent := Recorded("user", call.current, now)]
            else old(manifest.targets)
    ensures changed == (wasChanged || result.changed)
  {
    hide Chain, AllWork;
    var addResult, seen;
    addResult, seen, trace := host.AddAndLook(call.target, call.current, start, before);
    result := status;
    if seen.Present? && Classify(seen, call.(state := ManifestMissing)) == Current {
      result := result.(status := Installed, ownership := Current, changed := true, error := None);
      manifest.Record(call.target.agent, call.current, now);
      return result, true, trace;
    }
    result := result.(
      status := Failed, ownership := OwnershipOf(seen),
      error := Some(CommandFailure(addResult, InstallNotDone, NotVerified)));
    return result, wasChanged, trace;
  }

  /** Whether an entry is current does not depend on the manifest. */
  lemma CurrentWhateverTheManifest(seen: Inspection, call: Call)
    ensures Classify(seen, call.(state := ManifestMissing)).Current? <==>
              seen.Present? && seen.entry == User(call.current)
    ensures Classify(seen, call).Current? <==> seen.Present? && seen.entry == User(call.current)
  {
  }

  lemma StopsAtRecheck(call: Call, trace: seq<Exchange>)
    requires call.recorded.Some? && |trace| == 2 && trace[0].Looked? && trace[1].Looked?
    requires !Classify(trace[1].seen, call).Recognized?
    ensures IsUpdateTrace(call, trace)
    ensures UpdateResult(call, trace) ==
            StatusOf(call, trace[0].seen).(
              status := Failed, ownership := OwnershipOf(trace[1].seen), error := Some(NotVerified))
  {
  }

  lemma StopsAtRemoval(call: Call, trace: seq<Exchange>)
    requires call.recorded.Some? && |trace| == 4 && trace[0].Looked? && trace[1].Looked? && trace[3].Looked?
    requires Classify(trace[1].seen, call).Recognized? && IsRemove(trace[2], [call.recorded.value.identity])
    ensures trace[3].seen.Absent? ==> IsRemoval(call, trace)
    ensures !trace[3].seen.Absent? ==>
              && IsUpdateTrace(call, trace)
              && UpdateResult(call, trace) == StatusOf(call, trace[0].seen).(
                   status := Failed, error := Some(if trace[2].result.exitCode != 0 then RemoveNotDone else NotVerified))
  {
  }

  method UpdateRecognized(
    host: Host, manifest: Manifest, call: Call, status: TargetResult, now: int, wasChanged: bool,
    ghost start: Held, ghost before: seq<Exchange>)
    returns (result: TargetResult, changed: bool, ghost trace: seq<Exchange>)
    requires call.recorded == manifest.Lookup(call.target.agent)
    requires |before| == 1 && before[0].Looked? && status == StatusOf(call, before[0].seen)
    requires call.recorded.Some? ==> call.state.ManifestValid?
    requires Chain(call.target, start, before, host.At(call.target.agent)) && (host.reliable ==> AllWork(before))
    modifies host, manifest
    ensures call.recorded.Some? ==> IsUpdateTrace(call, trace) && result == UpdateResult(call, trace)
    ensures call.recorded.None? ==>
              && trace == before
              && result == status.(status := ForeignPreserved, ownership := Foreign, error := Some(ConflictingEntry))
    ensures before <= trace && host.log == old(host.log) + trace[|before|..]
    ensures Chain(call.target, start, trace, host.At(call.target.agent))
    ensures host.reliable ==> AllWork(trace)
    ensures Others(host.held, call.target.agent) == old(Others(host.held, call.target.agent))
    ensures manifest.targets ==
            if result.changed then old(manifest.targets)[call.target.agent := Recorded("user", call.current, now)]
            else old(manifest.targets)
    ensures changed == (wasChanged || result.changed)
  {
    assert !status.changed;
    hide Chain, AllWork, StatusOf, Classify, OwnershipOf, CommandFailure, HeldAt, Others;
    hide IsUpdateTrace, UpdateResult, IsRemoval;
    result, changed, trace := status, wasChanged, before;
    if call.target.agent !in manifest.targets {
      result := result.(status := ForeignPreserved, ownership := Foreign, error := Some(ConflictingEntry));
      return;
    }
    var prior := manifest.targets[call.target.agent].identity;
    var recheck;
    recheck, trace := host.Inspect(call.target, start, trace);
    if Classify(recheck, call.(state := ManifestValid)) != Recognized {
      result := result.(status := Failed, ownership := OwnershipOf(recheck), error := Some(NotVerified));
      StopsAtRecheck(call, trace);
      return;
    }
    var removeResult, removed;
    removeResult, removed, trace := host.RemoveAndLook(call.target, [prior], start, trace);
    StopsAtRemoval(call, trace);
    if !removed.Absent? {
      result := result.(status := Failed, error := Some(if removeResult.exitCode != 0 then RemoveNotDone else NotVerified));
      return;
    }
    result, changed, trace := ReplaceRemoved(host, manifest, call, prior, result, now, wasChanged, start, trace);
  }

  /** The second half of an update: the recognized entry is gone, the current one goes in or the old one back. */
  method ReplaceRemoved(
    host: Host, manifest: Manifest, call: Call, prior: Identity, status: TargetResult, now: int, wasChanged: bool,
    ghost start: Held, ghost before: seq<Exchange>)
    returns (result: TargetResult, changed: bool, ghost trace: seq<Exchange>)
    requires call.recorded.Some? && prior == call.recorded.value.identity && call.state.ManifestValid?
    requires IsRemoval(call, before)
    requires status == StatusOf(call, before[0].seen)
    requires Chain(call.target, start, before, host.At(call.target.agent)) && (host.reliable ==> AllWork(before))
    modifies host, manifest
    ensures IsUpdateTrace(call, trace) && result == UpdateResult(call, trace)
    ensures before <= trace && host.log == old(host.log) + trace[|before|..]
    ensures Chain(call.target, start, trace, host.At(call.target.agent))
    ensures host.reliable ==> AllWork(trace)
    ensures Others(host.held, call.target.agent) == old(Others(host.held, call.target.agent))
    ensures manifest.targets ==
            if result.changed then old(manifest.targets)[call.target.agent := Recorded("user", call.current, now)]
            else old(manifest.targets)
    ensures changed == (wasChanged || result.changed)
  {
    assert !status.changed;
    hide Chain, AllWork, StatusOf, Classify, OwnershipOf, CommandFailure, HeldAt, Others;
    result, changed, trace := status, wasChanged, before;
    var addResult, post;
    addResult, post, trace := host.AddAndLook(call.target, call.current, start, trace);
    CurrentWhateverTheManifest(post, call);
    if post.Present? && Classify(post, call.(state := ManifestMissing)) == Current {
      result := result.(status := Updated, ownership := Current, changed := true, error := None);
      manifest.Record(call.target.agent, call.current, now);
      return result, true, trace;
    }
    if !post.Absent? {
      result := result.(status := RollbackFailed, ownership := OwnershipOf(post), error := Some(NotRolledBack));
      return;
    }
    var rollbackResult, rolledBack;
    rollbackResult, rolledBack, trace := host.AddAndLook(call.target, prior, start, trace);
    if rollbackResult.exitCode == 0 && Classify(rolledBack, call.(state := ManifestValid)) == Recognized {
      result := result.(
        status := RollbackRestored, ownership := Recognized, changed := false,
        error := Some(CommandFailure(addResult, InstallNotDone, NotVerified)));
      return;
    }
    result := result.(status := RollbackFailed, ownership := OwnershipOf(rolledBack), error := Some(NotRolledBack));
  }

  /** The status of a first look says whether the entry is owned. */
  lemma OwnedShows(call: Call, seen: Inspection)
    ensures StatusOf(call, seen).status in {OwnedCurrent, OwnedRecognized} <==> Owned(Classify(seen, call))
    ensures StatusOf(call, seen).status in
              {EntryAbsent, EntryUnverifiable, EntryUnavailable, OwnedCurrent, OwnedRecognized, ForeignEntry}
    ensures !StatusOf(call, seen).changed
  {
  }

  method UninstallTarget(host: Host, manifest: Manifest, call: Call, wasChanged: bool)
    returns (result: TargetResult, changed: bool, ghost trace: seq<Exchange>)
    requires call.recorded == manifest.Lookup(call.target.agent)
    modifies host, manifest
    ensures IsUninstallTrace(call, trace) && result == UninstallResult(call, trace)
    ensures host.log == old(host.log) + trace
    ensures Chain(call.target, old(host.At(call.target.agent)), trace, host.At(call.target.agent))
    ensures host.reliable ==> AllWork(trace)
    ensures Others(host.held, call.target.agent) == old(Others(host.held, call.target.agent))
    ensures manifest.targets ==
            if result.changed then old(manifest.targets) - {call.target.agent} else old(manifest.targets)
    ensures changed == (wasChanged || result.changed)
  {
    hide Chain, AllWork, StatusOf, Classify, OwnershipOf, HeldAt, Others;
    ghost var start := host.At(call.target.agent);
    result, trace := StatusTarget(host, call);
    OwnedShows(call, trace[0].seen);
    changed := wasChanged;
    match result.status {
      case EntryAbsent => return;
      case ForeignEntry =>
        result := result.(status := ForeignPreserved, error := Some(ConflictingEntry));
        return;
      case EntryUnverifiable => return;
      case EntryUnavailable => return;
      case _ =>
    }
    var recheck;
    recheck, trace := host.Inspect(call.target, start, trace);
    var rechecked := Classify(recheck, call);
    if rechecked != Current && rechecked != Recognized {
      result := result.(status := Failed, ownership := OwnershipOf(recheck), error := Some(NotVerified));
      return;
    }
    var allowed := [call.current];
    var prior := PriorIdentity(call);
    if prior.Some? {
      allowed := allowed + [prior.value];
    }
    var remove, post;
    remove, post, trace := host.RemoveAndLook(call.target, allowed, start, trace);
    if !post.Absent? {
      result := result.(
        status := Failed, ownership := OwnershipOf(post),
        error := Some(if remove.exitCode != 0 then RemoveNotDone else NotVerified));
      return;
    }
    result := result.(status := EntryRemoved, ownership := NoEntry, changed := true, error := None);
    manifest.Forget(call.target.agent);
    return result, true, trace;
  }
}
