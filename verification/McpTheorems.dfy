/** What the exchanges of one install or uninstall can do to a registry, whatever its commands do. */
module McpTheorems {
  import opened Common
  import opened McpRegistry
  import opened McpConfig

  // ---------- following a trace ----------

  /** Each exchange starts from what the one before it left. */
  lemma {:induction false} ChainLinks(target: Target, h: Held, trace: seq<Exchange>, last: Held)
    requires Chain(target, h, trace, last)
    ensures forall k :: 0 <= k < |trace| ==> Fits(target, trace[k])
    ensures trace != [] ==> trace[0].before == h && trace[|trace| - 1].after == last
    ensures trace == [] ==> last == h
    ensures forall k :: 0 < k < |trace| ==> trace[k].before == trace[k - 1].after
    decreases |trace|
  {
    if trace != [] {
      ChainLinks(target, trace[0].after, trace[1..], last);
      forall k | 0 < k < |trace|
        ensures trace[k].before == trace[k - 1].after && Fits(target, trace[k])
      {
        assert trace[1..][k - 1] == trace[k];
        if k > 1 {
          assert trace[1..][k - 2] == trace[k - 1];
        }
      }
      if |trace| > 1 {
        assert trace[1..][|trace| - 2] == trace[|trace| - 1];
      }
    }
  }

  ghost predicate OnlyLooks(trace: seq<Exchange>) {
    forall k :: 0 <= k < |trace| ==> trace[k].Looked?
  }

  /** Belay's own entry: the current one, or the one its manifest records. */
  predicate IsOurs(call: Call, held: Held) {
    held == Holds(User(call.current)) || (PriorIdentity(call).Some? && held == Holds(User(PriorIdentity(call).value)))
  }

  /**
   * The rule for every exchange: an entry is added only into an empty slot that the look before it showed
   * empty, and removed only when it is Belay's and two looks in a row showed it so; a look follows either.
   */
  ghost predicate Careful(call: Call, trace: seq<Exchange>, k: nat)
    requires k < |trace|
  {
    match trace[k]
    case Looked(_, _, _, _) => true
    case Added(_, identity, before, _, _) =>
      && before == Nothing && (identity == call.current || PriorIdentity(call) == Some(identity))
      && k > 0 && trace[k - 1].Looked? && trace[k - 1].seen == Absent
      && k + 1 < |trace| && trace[k + 1].Looked?
    case Removed(_, allowed, before, _, _) =>
      && IsOurs(call, before)
      && (forall id :: id in allowed ==> id == call.current || PriorIdentity(call) == Some(id))
      && k > 1 && (forall j :: k - 2 <= j < k ==>
                     trace[j].Looked? && trace[j].seen.Present? && IsOurs(call, Holds(trace[j].seen.entry)))
      && k + 1 < |trace| && trace[k + 1].Looked?
  }

  lemma OwnedIsOurs(call: Call, seen: Inspection)
    ensures Owned(Classify(seen, call)) <==> seen.Present? && IsOurs(call, Holds(seen.entry))
    ensures Classify(seen, call).Recognized? ==>
              call.recorded.Some? && PriorIdentity(call) == Some(call.recorded.value.identity)
    ensures Classify(seen, call).Recognized? <==>
              && PriorIdentity(call).Some? && PriorIdentity(call).value != call.current
              && seen == Present(User(PriorIdentity(call).value))
  {
  }

  lemma InstallIsCareful(call: Call, trace: seq<Exchange>, h: Held, last: Held)
    requires IsInstallTrace(call, trace) && Chain(call.target, h, trace, last)
    ensures forall k :: 0 <= k < |trace| ==> Careful(call, trace, k)
  {
    ChainLinks(call.target, h, trace, last);
    OwnedIsOurs(call, trace[0].seen);
    if |trace| > 3 {
      OwnedIsOurs(call, trace[1].seen);
    }
    hide Chain, FileEffect;
  }

  lemma UninstallIsCareful(call: Call, trace: seq<Exchange>, h: Held, last: Held)
    requires IsUninstallTrace(call, trace) && Chain(call.target, h, trace, last)
    ensures forall k :: 0 <= k < |trace| ==> Careful(call, trace, k)
  {
    ChainLinks(call.target, h, trace, last);
    hide Chain, FileEffect;
    OwnedIsOurs(call, trace[0].seen);
    if |trace| > 1 {
      OwnedIsOurs(call, trace[1].seen);
    }
  }

  // ---------- entries that are not Belay's ----------

  /** A foreign or unverifiable entry gets no add and no remove and stays as it is. */
  lemma ForeignEntryIsLeftAlone(call: Call, trace: seq<Exchange>, h: Held, last: Held)
    requires IsInstallTrace(call, trace) || IsUninstallTrace(call, trace)
    requires Chain(call.target, h, trace, last)
    requires h != Nothing && !IsOurs(call, h)
    ensures OnlyLooks(trace) && |trace| == 1 && last == h
  {
    ChainLinks(call.target, h, trace, last);
    hide Chain, FileEffect;
    OwnedIsOurs(call, trace[0].seen);
  }

  /** So does any entry while the look itself fails. */
  lemma UnseenEntryIsLeftAlone(call: Call, trace: seq<Exchange>, h: Held, last: Held)
    requires IsInstallTrace(call, trace) || IsUninstallTrace(call, trace)
    requires Chain(call.target, h, trace, last)
    requires trace[0].Looked? && (trace[0].seen.Unverifiable? || trace[0].seen.Unavailable?)
    ensures OnlyLooks(trace) && last == h
  {
    ChainLinks(call.target, h, trace, last);
    hide Chain, FileEffect;
  }

  // ---------- installing ----------

  /** A reported change means the registry holds the current identity; `Installed` that it held nothing before. */
  lemma InstalledMeansHeld(call: Call, trace: seq<Exchange>, h: Held, last: Held)
    requires IsInstallTrace(call, trace) && Chain(call.target, h, trace, last)
    ensures var result := InstallResult(call, trace);
            && (result.changed <==> result.status in {Installed, Updated})
            && (result.changed || result.status.AlreadyInstalled? ==> last == Holds(User(call.current)))
            && (result.status.AlreadyInstalled? ==> h == last)
            && (result.status.Installed? ==> h == Nothing)
            && (result.status.Updated? ==> PriorIdentity(call).Some? && h == Holds(User(PriorIdentity(call).value)) != last)
  {
    ChainLinks(call.target, h, trace, last);
    hide Chain, FileEffect;
    OwnedIsOurs(call, trace[0].seen);
  }

  /** A restored rollback leaves the registry as it was: holding the identity the manifest records. */
  lemma RestoredMeansUnchanged(call: Call, trace: seq<Exchange>, h: Held, last: Held)
    requires IsInstallTrace(call, trace) && Chain(call.target, h, trace, last)
    requires InstallResult(call, trace).status.RollbackRestored?
    ensures PriorIdentity(call).Some? && h == last == Holds(User(PriorIdentity(call).value))
  {
    ChainLinks(call.target, h, trace, last);
    hide Chain, FileEffect;
    OwnedIsOurs(call, trace[0].seen);
    OwnedIsOurs(call, trace[7].seen);
  }

  /** Once installed, installing again issues nothing but a look. */
  lemma InstallingAgainOnlyLooks(call: Call, trace: seq<Exchange>, last: Held)
    requires IsInstallTrace(call, trace) && Chain(call.target, Holds(User(call.current)), trace, last)
    ensures |trace| == 1 && OnlyLooks(trace) && last == Holds(User(call.current))
    ensures InstallResult(call, trace).status in {AlreadyInstalled, EntryUnavailable, EntryUnverifiable}
  {
    ChainLinks(call.target, Holds(User(call.current)), trace, last);
    hide Chain, FileEffect;
    OwnedIsOurs(call, trace[0].seen);
  }

  /** In a registry file an install leaves what was there, the current entry, or (a failed update) nothing. */
  lemma FileInstallLosesNothingElse(call: Call, trace: seq<Exchange>, h: Held, last: Held)
    requires call.target.file && IsInstallTrace(call, trace) && Chain(call.target, h, trace, last)
    ensures last in {h, Holds(User(call.current)), Nothing}
    ensures last == Nothing != h ==> InstallResult(call, trace).status in {RollbackFailed, Failed} && IsOurs(call, h)
  {
    ChainLinks(call.target, h, trace, last);
    hide Chain;
    OwnedIsOurs(call, trace[0].seen);
    forall k | 0 <= k < |trace|
      ensures Fits(call.target, trace[k]) && FileEffect(trace[k])
    {
    }
  }

  /** When nothing fails, the result depends only on what the registry holds. */
  function SmoothInstall(call: Call, h: Held): Status {
    if h == Nothing then if MayAdd(call) then Installed else EntryUnavailable
    else if h == Holds(User(call.current)) then AlreadyInstalled
    else if IsOurs(call, h) then if call.target.duplicateAddSafe then Updated else EntryUnavailable
    else if h.Holds? then ForeignPreserved
    else EntryUnverifiable
  }

  lemma SmoothInstallResult(call: Call, trace: seq<Exchange>, h: Held, last: Held)
    requires IsInstallTrace(call, trace) && Chain(call.target, h, trace, last)
    requires AllWork(trace) && SafeIdentity(call.current)
    requires PriorIdentity(call).Some? ==> SafeIdentity(PriorIdentity(call).value)
    ensures InstallResult(call, trace).status == SmoothInstall(call, h)
  {
    ChainLinks(call.target, h, trace, last);
    assert forall k :: 0 <= k < |trace| ==> Works(trace[k]);
    hide Chain, FileEffect, SafeIdentity, AllWork;
    OwnedIsOurs(call, trace[0].seen);
  }

  // ---------- uninstalling ----------

  lemma RemovedMeansNothingHeld(call: Call, trace: seq<Exchange>, h: Held, last: Held)
    requires IsUninstallTrace(call, trace) && Chain(call.target, h, trace, last)
    ensures var result := UninstallResult(call, trace);
            && (result.changed <==> result.status.EntryRemoved?)
            && (result.changed ==> last == Nothing && IsOurs(call, h))
            && (result.status.EntryAbsent? ==> h == last == Nothing)
  {
    ChainLinks(call.target, h, trace, last);
    hide Chain, FileEffect;
    OwnedIsOurs(call, trace[0].seen);
  }

  lemma FileUninstallLosesNothingElse(call: Call, trace: seq<Exchange>, h: Held, last: Held)
    requires call.target.file && IsUninstallTrace(call, trace) && Chain(call.target, h, trace, last)
    ensures last == h || (last == Nothing && IsOurs(call, h))
  {
    ChainLinks(call.target, h, trace, last);
    hide Chain;
    OwnedIsOurs(call, trace[0].seen);
  }

  lemma SmoothUninstallResult(call: Call, trace: seq<Exchange>, h: Held, last: Held)
    requires IsUninstallTrace(call, trace) && Chain(call.target, h, trace, last)
    requires AllWork(trace) && SafeIdentity(call.current)
    requires PriorIdentity(call).Some? ==> SafeIdentity(PriorIdentity(call).value)
    ensures UninstallResult(call, trace).status ==
            if h == Nothing then EntryAbsent else if IsOurs(call, h) then EntryRemoved
            else if h.Holds? then ForeignPreserved else EntryUnverifiable
  {
    ChainLinks(call.target, h, trace, last);
    assert forall k :: 0 <= k < |trace| ==> Works(trace[k]);
    hide Chain, FileEffect, SafeIdentity, AllWork;
    OwnedIsOurs(call, trace[0].seen);
  }

  // ---------- ownership and errors ----------

  /** What a look says about ownership, with and without knowledge of Belay's own identities. */
  lemma OwnershipMeans(call: Call, seen: Inspection)
    ensures Classify(seen, call).NoEntry? <==> seen.Absent?
    ensures Classify(seen, call).Unknown? <==> seen.Unverifiable? || seen.Unavailable?
    ensures Classify(seen, call).Foreign? <==> seen.Present? && !IsOurs(call, Holds(seen.entry))
    ensures OwnershipOf(seen).NoEntry? <==> seen.Absent?
    ensures OwnershipOf(seen).Unknown? <==> seen.Unverifiable? || seen.Unavailable?
    ensures OwnershipOf(seen).Foreign? <==> seen.Present?
  {
  }

  /** A failed add is blamed on its output if that was too long, else on its exit code if that was not zero. */
  lemma FailureMeans(result: CommandResult)
    ensures var code := CommandFailure(result, InstallNotDone, NotVerified);
            && (code == OutputTooLarge <==> result.overflow)
            && (code == InstallNotDone <==> !result.overflow && result.exitCode != 0)
            && (code == NotVerified <==> !result.overflow && result.exitCode == 0)
  {
  }

  /** Text is safe in a registry if it is not blank and holds no control character. */
  lemma SafeTextMeans(s: string)
    ensures !UnsafePathText(s) <==>
              !AllWhite(s) && forall k :: 0 <= k < |s| ==> 32 <= s[k] as int < 127 || 160 <= s[k] as int
  {
    var front, back := TrimSpaceTrims(s);
    if TrimSpace(s) != "" {
      assert s[|front|] == TrimSpace(s)[0];
    }
    hide TrimSpace;
  }

  /** What may stand in a registry: an absolute command with arguments, all of safe text. */
  lemma SafeIdentityMeans(identity: Identity)
    ensures SafeIdentity(identity) <==>
              && |identity.args| > 0 && |identity.command| > 0 && identity.command[0] == '/'
              && (forall text :: text == identity.command || text in identity.args ==>
                    !AllWhite(text) && forall k :: 0 <= k < |text| ==> 32 <= text[k] as int < 127 || 160 <= text[k] as int)
  {
    hide UnsafePathText, AllWhite;
    assert SafeIdentity(identity) ==> identity.command != "" && identity.command[0] == '/';
    forall text
      ensures !UnsafePathText(text) <==>
                !AllWhite(text) && forall k :: 0 <= k < |text| ==> 32 <= text[k] as int < 127 || 160 <= text[k] as int
    {
      SafeTextMeans(text);
    }
  }
}
