/**
 * One detector shared by concurrent catalog runs (`runDetector`, `tryStart` and `finish` in
 * `internal/detection/catalog.go`): every interleaving of callers, workers, timeouts and panics.
 */
module DetectorSlot {

  /** The mutex-guarded flag; each method is one critical section, and one step of the state machine below. */
  class Slot {
    var running: bool

    constructor ()
      ensures !running
    {
      running := false;
    }

    method TryStart() returns (ok: bool)
      modifies this
      ensures ok == !old(running) && running
      ensures forall s: State, id: nat :: s.running == old(running) && Enabled(s, Start(id)) ==>
                Do(s, Start(id)).running == running && (Do(s, Start(id)).calls[id].Busy? <==> !ok)
    {
      if running {
        return false;
      }
      running := true;
      return true;
    }

    method Finish()
      modifies this
      ensures !running
      ensures forall s: State, id: nat :: Enabled(s, Step.Finish(id)) ==> Do(s, Step.Finish(id)).running == running
    {
      running := false;
    }
  }

  /** What an evaluation leaves behind; a panic is recovered into a response. */
  datatype Response = Value(result: int) | Error | Panic

  /** Where the goroutine of a run stands: spawned, evaluating, evaluated, slot released, response sent. */
  datatype Worker =
    Spawned | Evaluating | Evaluated(response: Response) | Released(response: Response) | Sent(response: Response)

  datatype Caller = Waiting | Answered(response: Response) | TimedOut

  /** A call of `runDetector`: turned away, or with a goroutine, its one-slot channel and a waiting caller. */
  datatype Call = Busy | Call(worker: Worker, channel: seq<Response>, caller: Caller)

  datatype State = State(running: bool, calls: map<nat, Call>)

  datatype Step =
    | Start(id: nat)
    | Begin(id: nat)
    | Evaluate(id: nat, response: Response)
    | Finish(id: nat)
    | Send(id: nat)
    | Receive(id: nat)
    | Timeout(id: nat)

  const INITIAL := State(false, map[])

  predicate HasWorker(s: State, id: nat) {
    id in s.calls && s.calls[id].Call?
  }

  /** A buffered send blocks while the buffer is full; a select takes whichever case is ready. */
  predicate Enabled(s: State, step: Step) {
    match step
    case Start(id) => id !in s.calls
    case Begin(id) => HasWorker(s, id) && s.calls[id].worker.Spawned?
    case Evaluate(id, _) => HasWorker(s, id) && s.calls[id].worker.Evaluating?
    case Finish(id) => HasWorker(s, id) && s.calls[id].worker.Evaluated?
    case Send(id) => HasWorker(s, id) && s.calls[id].worker.Released? && |s.calls[id].channel| < 1
    case Receive(id) => HasWorker(s, id) && s.calls[id].caller.Waiting? && s.calls[id].channel != []
    case Timeout(id) => HasWorker(s, id) && s.calls[id].caller.Waiting?
  }

  function Update(s: State, id: nat, call: Call): State {
    s.(calls := s.calls[id := call])
  }

  function Do(s: State, step: Step): State
    requires Enabled(s, step)
  {
    match step
    case Start(id) =>
      if s.running then Update(s, id, Busy)
      else Update(s, id, Call(Spawned, [], Waiting)).(running := true)
    case Begin(id) => Update(s, id, s.calls[id].(worker := Evaluating))
    case Evaluate(id, response) => Update(s, id, s.calls[id].(worker := Evaluated(response)))
    case Finish(id) =>
      Update(s, id, s.calls[id].(worker := Released(s.calls[id].worker.response))).(running := false)
    case Send(id) =>
      var response := s.calls[id].worker.response;
      Update(s, id, s.calls[id].(worker := Sent(response), channel := s.calls[id].channel + [response]))
    case Receive(id) =>
      Update(s, id, s.calls[id].(caller := Answered(s.calls[id].channel[0]), channel := s.calls[id].channel[1..]))
    case Timeout(id) => Update(s, id, s.calls[id].(caller := TimedOut))
  }

  ghost predicate Possible(steps: seq<Step>)
    decreases |steps|, 0
  {
    steps == [] ||
    (Possible(steps[..|steps| - 1])
     && Enabled(After(steps[..|steps| - 1]), steps[|steps| - 1]))
  }

  ghost function After(steps: seq<Step>): State
    requires Possible(steps)
    decreases |steps|, 1
  {
    if steps == [] then INITIAL else Do(After(steps[..|steps| - 1]), steps[|steps| - 1])
  }

  // ---------- what every interleaving keeps ----------

  /** A goroutine that holds the slot: from `tryStart` to `finish`. */
  predicate Live(s: State, id: nat) {
    HasWorker(s, id) && (s.calls[id].worker.Spawned? || s.calls[id].worker.Evaluating? || s.calls[id].worker.Evaluated?)
  }

  ghost predicate CallInvariant(call: Call) {
    call.Call? ==>
      && (!call.worker.Sent? ==> call.channel == [] && !call.caller.Answered?)
      && (call.worker.Sent? ==>
            && call.channel == (if call.caller.Answered? then [] else [call.worker.response])
            && (call.caller.Answered? ==> call.caller.response == call.worker.response))
  }

  ghost predicate Invariant(s: State) {
    && (s.running <==> exists id :: Live(s, id))
    && (forall id, other :: Live(s, id) && Live(s, other) ==> id == other)
    && (forall id :: id in s.calls ==> CallInvariant(s.calls[id]))
  }

  lemma StepKeepsInvariant(s: State, step: Step)
    requires Invariant(s) && Enabled(s, step)
    ensures Invariant(Do(s, step))
  {
    var t := Do(s, step);
    forall id
      ensures Live(t, id) <==>
                (Live(s, id) && !(step.Finish? && id == step.id)) || (step.Start? && !s.running && id == step.id)
    {
    }
    forall id | id in t.calls
      ensures CallInvariant(t.calls[id])
    {
      if id != step.id { assert t.calls[id] == s.calls[id]; }
    }
    if step.Finish? {
      assert Live(s, step.id);
      assert forall id :: !Live(t, id);
    } else if step.Start? && !s.running {
      assert Live(t, step.id);
    } else if s.running {
      var id :| Live(s, id);
      assert Live(t, id);
    }
  }

  lemma {:induction false} RunsKeepInvariant(steps: seq<Step>)
    requires Possible(steps)
    ensures Invariant(After(steps))
    decreases |steps|
  {
    if steps != [] {
      RunsKeepInvariant(steps[..|steps| - 1]);
      StepKeepsInvariant(After(steps[..|steps| - 1]), steps[|steps| - 1]);
    }
  }

  /**
   * After any interleaving: at most one goroutine evaluates, `running` holds exactly while one is live,
   * a goroutine's only send finds its channel empty, so every goroutine can always take its next step,
   * and an answered caller has the response of its own goroutine.
   */
  lemma DetectorIsExclusive(steps: seq<Step>)
    requires Possible(steps)
    ensures var s := After(steps);
            && (forall id, other :: Live(s, id) && Live(s, other) ==> id == other)
            && (s.running <==> exists id :: Live(s, id))
            && (forall id :: HasWorker(s, id) && s.calls[id].worker.Released? ==> Enabled(s, Send(id)))
            && (forall id :: HasWorker(s, id) && !s.calls[id].worker.Sent? ==>
                  Enabled(s, Begin(id)) || Enabled(s, Evaluate(id, Panic)) || Enabled(s, Finish(id)) || Enabled(s, Send(id)))
            && (forall id :: HasWorker(s, id) && s.calls[id].caller.Answered? ==>
                  s.calls[id].worker == Sent(s.calls[id].caller.response))
  {
    RunsKeepInvariant(steps);
  }

  /** A call is turned away exactly when some goroutine, possibly of a caller that timed out, is still live. */
  lemma BusyOnlyWhileLive(steps: seq<Step>, id: nat)
    requires Possible(steps) && Enabled(After(steps), Start(id))
    ensures Do(After(steps), Start(id)).calls[id] == Busy <==> exists other :: Live(After(steps), other)
  {
    RunsKeepInvariant(steps);
  }

  function StepsLeft(worker: Worker): nat {
    match worker
    case Spawned => 4
    case Evaluating => 3
    case Evaluated(_) => 2
    case Released(_) => 1
    case Sent(_) => 0
  }

  /** A goroutine moves only by its own steps, each of which brings it closer to `Sent`. */
  lemma OnlyOwnStepsMoveAWorker(s: State, step: Step, id: nat)
    requires Enabled(s, step) && HasWorker(s, id)
    ensures HasWorker(Do(s, step), id)
    ensures var before, after := StepsLeft(s.calls[id].worker), StepsLeft(Do(s, step).calls[id].worker);
            if step.id == id && !step.Receive? && !step.Timeout? then after == before - 1 else after == before
  {
  }
}
