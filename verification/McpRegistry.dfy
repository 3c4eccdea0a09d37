/**
 * A harness's registry as the commands behind `internal/localapp/mcp_config.go` see it: one entry per
 * agent, commands that may fail or do nothing, and a record of what was asked and what happened.
 */
module McpRegistry {
  import opened Common

  datatype Identity = Identity(command: string, args: seq<string>)

  datatype Entry = Entry(identity: Identity, scope: string)

  /** What is registered under Belay's name: nothing, an entry a status reading can show, or one it cannot. */
  datatype Held = Nothing | Holds(entry: Entry) | Unreadable

  datatype Inspection = Absent | Present(entry: Entry) | Unverifiable(code: string) | Unavailable(code: string)

  datatype CommandResult = CommandResult(exitCode: int, overflow: bool)

  datatype Target = Target(agent: string, file: bool, duplicateAddSafe: bool, detected: bool)

  /** One exchange with a registry, with what it held before and after. */
  datatype Exchange =
    | Looked(agent: string, seen: Inspection, before: Held, after: Held)
    | Added(agent: string, identity: Identity, before: Held, after: Held, result: CommandResult)
    | Removed(agent: string, allowed: seq<Identity>, before: Held, after: Held, result: CommandResult)

  function User(identity: Identity): Entry {
    Entry(identity, "user")
  }

  function HeldAt(held: map<string, Held>, agent: string): Held {
    if agent in held then held[agent] else Nothing
  }

  /** What is registered with the other agents. */
  ghost function Others(held: map<string, Held>, agent: string): map<string, Held> {
    held - {agent}
  }

  // ---------- text that may be written to a registry file ----------

  predicate IsControl(c: char) {
    c as int < 32 || 127 <= c as int < 160
  }

  predicate UnsafePathText(s: string) {
    TrimSpace(s) == "" || exists k :: 0 <= k < |s| && IsControl(s[k])
  }

  predicate SafeIdentity(identity: Identity) {
    && identity.args != []
    && !UnsafePathText(identity.command) && "/" <= identity.command
    && forall k :: 0 <= k < |identity.args| ==> !UnsafePathText(identity.args[k])
  }

  // ---------- what each exchange may do ----------

  /** An inspection answers truly, or not at all; it changes nothing. */
  predicate LookIsTrue(seen: Inspection, held: Held) {
    match seen
    case Absent => held == Nothing
    case Present(entry) => held == Holds(entry)
    case _ => true
  }

  /** A registry file is rewritten whole or not at all, and never over an entry Belay was not told to touch. */
  predicate FileEffect(x: Exchange) {
    match x
    case Looked(_, _, before, after) => after == before
    case Added(_, identity, before, after, result) =>
      || (before == Nothing && SafeIdentity(identity) && after == Holds(User(identity)) && result.exitCode == 0)
      || (after == before && (result.exitCode == 0 ==> before == Holds(User(identity))))
    case Removed(_, allowed, before, after, result) =>
      || (before.Holds? && before.entry.identity in allowed && SafeIdentity(before.entry.identity)
          && after == Nothing && result.exitCode == 0)
      || (after == before && (result.exitCode == 0 ==> before == Nothing))
  }

  /** Nothing fails: an inspection shows what there is, a command that may act does. */
  predicate Works(x: Exchange) {
    match x
    case Looked(_, seen, before, _) =>
      && (before == Nothing ==> seen == Absent) && (before.Holds? ==> seen == Present(before.entry))
      && (before == Unreadable ==> seen.Unverifiable?)
    case Added(_, identity, before, after, _) =>
      before == Nothing && SafeIdentity(identity) ==> after == Holds(User(identity))
    case Removed(_, allowed, before, after, _) =>
      before.Holds? && before.entry.identity in allowed && SafeIdentity(before.entry.identity) ==> after == Nothing
  }

  /** Exchanges with one agent's registry that lead from holding h to holding last. */
  ghost predicate Chain(target: Target, h: Held, trace: seq<Exchange>, last: Held)
    decreases |trace|
  {
    if trace == [] then last == h
    else
      && Fits(target, trace[0]) && trace[0].before == h
      && Chain(target, trace[0].after, trace[1..], last)
  }

  ghost predicate Fits(target: Target, x: Exchange) {
    && x.agent == target.agent
    && (x.Looked? ==> x.after == x.before && LookIsTrue(x.seen, x.before))
    && (target.file ==> FileEffect(x))
  }

  ghost predicate AllWork(trace: seq<Exchange>) {
    forall k :: 0 <= k < |trace| ==> Works(trace[k])
  }

  lemma {:induction false} ChainExtends(target: Target, h: Held, trace: seq<Exchange>, last: Held, x: Exchange)
    requires Chain(target, h, trace, last) && Fits(target, x) && x.before == last
    ensures Chain(target, h, trace + [x], x.after)
    decreases |trace|
  {
    if trace == [] {
      assert (trace + [x])[1..] == [];
    } else {
      ChainExtends(target, trace[0].after, trace[1..], last, x);
      assert (trace + [x])[1..] == trace[1..] + [x];
    }
  }

  // ---------- the registries ----------

  /**
   * The registries of all agents. Each operation extends the ghost `trace` of exchanges with its target
   * since it held `start`.
   */
  class Host {
    const reliable: bool
    var held: map<string, Held>
    ghost var log: seq<Exchange>

    constructor (held: map<string, Held>, reliable: bool)
      ensures this.held == held && this.reliable == reliable && log == []
    {
      this.held := held;
      this.reliable := reliable;
      log := [];
    }

    function At(agent: string): Held
      reads this
    {
      HeldAt(held, agent)
    }

    /** The status command, or a reading of the registry file. */
    method Inspect(target: Target, ghost start: Held, ghost before: seq<Exchange>)
      returns (seen: Inspection, ghost trace: seq<Exchange>)
      requires Chain(target, start, before, At(target.agent))
      modifies this`log
      ensures trace == before + [Looked(target.agent, seen, At(target.agent), At(target.agent))]
      ensures log == old(log) + trace[|before|..]
      ensures Chain(target, start, trace, At(target.agent)) && (reliable && AllWork(before) ==> AllWork(trace))
    {
      var answered: bool := *;
      var code: string := *;
      if answered || reliable {
        match At(target.agent)
        case Nothing => seen := Absent;
        case Holds(entry) => seen := Present(entry);
        case Unreadable => seen := Unverifiable("status_unparseable");
      } else {
        var overflow: bool := *;
        seen := if overflow then Unverifiable("status_output_too_large") else Unavailable(code);
      }
      ghost var x := Looked(target.agent, seen, At(target.agent), At(target.agent));
      trace := before + [x];
      log := log + [x];
      ChainExtends(target, start, before, At(target.agent), x);
    }

    /** `addMCPTargetEntry`: a host command with any effect and any exit code, or a rewrite of the registry file. */
    method Add(target: Target, identity: Identity, ghost start: Held, ghost before: seq<Exchange>)
      returns (result: CommandResult, ghost trace: seq<Exchange>)
      requires Chain(target, start, before, At(target.agent))
      modifies this
      ensures trace == before + [Added(target.agent, identity, old(At(target.agent)), At(target.agent), result)]
      ensures log == old(log) + trace[|before|..]
      ensures Chain(target, start, trace, At(target.agent)) && (reliable && AllWork(before) ==> AllWork(trace))
      ensures Others(held, target.agent) == old(Others(held, target.agent))
    {
      if target.file {
        result := AddToFile(target.agent, identity);
      } else {
        result := RunAdd(target.agent, identity);
      }
      ghost var x := Added(target.agent, identity, old(At(target.agent)), At(target.agent), result);
      trace := before + [x];
      log := log + [x];
      ChainExtends(target, start, before, old(At(target.agent)), x);
    }

    method RunAdd(agent: string, identity: Identity) returns (result: CommandResult)
      modifies this`held
      ensures Others(held, agent) == old(Others(held, agent))
      ensures reliable ==> At(agent) == Holds(User(identity))
    {
      var effect: Held := *;
      if reliable {
        effect := Holds(User(identity));
      }
      held := held[agent := effect];
      var exitCode: int := *;
      var overflow: bool := *;
      result := CommandResult(exitCode, overflow);
    }

    /** `mcpJSONRegistry.add`. */
    method AddToFile(agent: string, identity: Identity) returns (result: CommandResult)
      modifies this`held
      ensures Others(held, agent) == old(Others(held, agent))
      ensures FileEffect(Added(agent, identity, old(At(agent)), At(agent), result))
      ensures reliable ==> Works(Added(agent, identity, old(At(agent)), At(agent), result))
    {
      if !SafeIdentity(identity) {
        return CommandResult(1, false);
      }
      var loads: bool := *;
      if !(loads || reliable) || At(agent).Unreadable? {
        return CommandResult(1, false);
      }
      if At(agent).Holds? {
        return CommandResult(if At(agent) == Holds(User(identity)) then 0 else 1, false);
      }
      var written: bool := *;
      if !(written || reliable) {
        return CommandResult(1, false);
      }
      held := held[agent := Holds(User(identity))];
      return CommandResult(0, false);
    }

    /** `removeMCPTargetEntry`. */
    method Remove(target: Target, allowed: seq<Identity>, ghost start: Held, ghost before: seq<Exchange>)
      returns (result: CommandResult, ghost trace: seq<Exchange>)
      requires Chain(target, start, before, At(target.agent))
      modifies this
      ensures trace == before + [Removed(target.agent, allowed, old(At(target.agent)), At(target.agent), result)]
      ensures log == old(log) + trace[|before|..]
      ensures Chain(target, start, trace, At(target.agent)) && (reliable && AllWork(before) ==> AllWork(trace))
      ensures Others(held, target.agent) == old(Others(held, target.agent))
    {
      if target.file {
        result := RemoveFromFile(target.agent, allowed);
      } else {
        result := RunRemove(target.agent);
      }
      ghost var x := Removed(target.agent, allowed, old(At(target.agent)), At(target.agent), result);
      trace := before + [x];
      log := log + [x];
      ChainExtends(target, start, before, old(At(target.agent)), x);
    }

    method RunRemove(agent: string) returns (result: CommandResult)
      modifies this`held
      ensures Others(held, agent) == old(Others(held, agent))
      ensures reliable ==> At(agent) == Nothing
    {
      var effect: Held := *;
      if reliable {
        effect := Nothing;
      }
      held := held[agent := effect];
      var exitCode: int := *;
      var overflow: bool := *;
      result := CommandResult(exitCode, overflow);
    }

    /** `mcpJSONRegistry.remove`: only an allowed entry is deleted. */
    method RemoveFromFile(agent: string, allowed: seq<Identity>) returns (result: CommandResult)
      modifies this`held
      ensures Others(held, agent) == old(Others(held, agent))
      ensures FileEffect(Removed(agent, allowed, old(At(agent)), At(agent), result))
      ensures reliable ==> Works(Removed(agent, allowed, old(At(agent)), At(agent), result))
    {
      var loads: bool := *;
      if !(loads || reliable) || At(agent).Unreadable? {
        return CommandResult(1, false);
      }
      if At(agent) == Nothing {
        return CommandResult(0, false);
      }
      var identity := At(agent).entry.identity;
      if !(identity in allowed && SafeIdentity(identity)) {
        return CommandResult(1, false);
      }
      var written: bool := *;
      if !(written || reliable) {
        return CommandResult(1, false);
      }
      held := held[agent := Nothing];
      return CommandResult(0, false);
    }

    /** An add and the look that follows every add. */
    method AddAndLook(target: Target, identity: Identity, ghost start: Held, ghost before: seq<Exchange>)
      returns (result: CommandResult, seen: Inspection, ghost trace: seq<Exchange>)
      requires Chain(target, start, before, At(target.agent))
      modifies this
      ensures |trace| == |before| + 2 && before <= trace && log == old(log) + trace[|before|..]
      ensures var x, y := trace[|before|], trace[|before| + 1];
              x.Added? && x.identity == identity && x.result == result && y.Looked? && y.seen == seen
      ensures Chain(target, start, trace, At(target.agent)) && (reliable && AllWork(before) ==> AllWork(trace))
      ensures Others(held, target.agent) == old(Others(held, target.agent))
    {
      hide Chain, AllWork, Others;
      result, trace := Add(target, identity, start, before);
      seen, trace := Inspect(target, start, trace);
    }

    /** A remove and the look that follows every remove. */
    method RemoveAndLook(target: Target, allowed: seq<Identity>, ghost start: Held, ghost before: seq<Exchange>)
      returns (result: CommandResult, seen: Inspection, ghost trace: seq<Exchange>)
      requires Chain(target, start, before, At(target.agent))
      modifies this
      ensures |trace| == |before| + 2 && before <= trace && log == old(log) + trace[|before|..]
      ensures var x, y := trace[|before|], trace[|before| + 1];
              x.Removed? && x.allowed == allowed && x.result == result && y.Looked? && y.seen == seen
      ensures Chain(target, start, trace, At(target.agent)) && (reliable && AllWork(before) ==> AllWork(trace))
      ensures Others(held, target.agent) == old(Others(held, target.agent))
    {
      hide Chain, AllWork, Others;
      result, trace := Remove(target, allowed, start, before);
      seen, trace := Inspect(target, start, trace);
    }
  }
}
