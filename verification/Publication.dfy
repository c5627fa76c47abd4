/** What one materialization call may do to a file system it shares with others.

    A history holds every state the file system went through during the call and
    who caused it; its states are also those a crash can leave behind. */
module Publication {
  import opened Content
  import opened Keys
  import opened Text
  import opened Wrappers

  type Location = seq<string>

  datatype Entry = File(content: seq<Byte>) | Directory | Other

  type Entries = map<Location, Entry>

  function At(entries: Entries, location: Location): Option<Entry> {
    if location in entries then Some(entries[location]) else None
  }

  datatype EntryKind = KindMissing | KindRegularFile | KindDirectory | KindOther

  function KindAt(entries: Entries, location: Location): EntryKind {
    if location == [] then KindDirectory
    else match At(entries, location)
      case None => KindMissing
      case Some(File(_)) => KindRegularFile
      case Some(Directory) => KindDirectory
      case Some(Other) => KindOther
  }

  datatype ExistingFilePolicy = Reject | ReplaceRegularFile

  /** One call: which content goes where, and through which staging name. */
  datatype Job = Job(
    primitives: Primitives, entry: TreeEntry, digest: Digest, policy: ExistingFilePolicy,
    destination: Location, staging: Location)
  {
    /** What bytes read from the destination, and its size, say about it. */
    predicate IsExact(seen: seq<Byte>, size: nat) {
      size == entry.size && IsTarget(seen)
    }

    /** The complete bytes the call is to publish. */
    predicate IsTarget(bytes: seq<Byte>) {
      IsContent(primitives, entry, bytes) && primitives.sha256(bytes) == digest
    }
  }

  datatype Verdict = Missing | Exact | DifferentRegular | Conflict

  /** What opening the destination gave: the size its file had, and all the bytes that
      came out of it. */
  datatype Opened = OpenFile(seen: seq<Byte>, size: nat) | OpenMissing | OpenOther

  /** What an opened destination says about the job. */
  function VerdictOf(job: Job, found: Opened): Verdict {
    match found
    case OpenMissing => Missing
    case OpenOther => Conflict
    case OpenFile(seen, size) => if job.IsExact(seen, size) then Exact else DifferentRegular
  }

  datatype RemoveOutcome = Removed | WasMissing | FailedBefore | FailedAfter

  datatype InstallOutcome = Installed | FoundExisting | FailedUntouched | FailedInstalled

  predicate TookEffect(outcome: InstallOutcome) {
    outcome in {Installed, FailedInstalled}
  }

  /** What a file system notes down about itself.  A `torn` look is one at a file that
      others wrote to in place while it was read; an install says what it found at the
      destination, and a `cleared` one had a look at the token since the act before, and
      none that ever found cancellation.  `Check` is the look at the kind of the
      destination that a replacement begins with. */
  datatype Act =
    | Interference
    | CreateStaging(ok: bool, took: bool)
    | WriteStaging
    | SyncStaging
    | Check(kind: EntryKind)
    | Install(replace: bool, over: Option<Entry>, effect: InstallOutcome, cleared: bool)
    | RemoveStaging(outcome: RemoveOutcome)
    | Look(found: Opened, torn: bool)
    | SyncParent

  // ----- what the call itself may do to its destination

  /** A complete target appears at once: where nothing stood or, if it replaces, over
      anything but a directory. */
  predicate Installs(job: Job, act: Act, before: Entries, after: Entries) {
    && act.Install? && TookEffect(act.effect)
    && (job.policy == Reject ==> !act.replace)
    && IsCompleteTarget(job, At(after, job.destination))
    && (At(before, job.destination) == None || (act.replace && At(before, job.destination) != Some(Directory)))
  }

  predicate IsCompleteTarget(job: Job, entry: Option<Entry>) {
    entry.Some? && entry.value.File? && job.IsTarget(entry.value.content)
  }

  /** A look finds what stands there; only the bytes of a torn one may be others. */
  predicate Finds(found: Opened, torn: bool, entry: Option<Entry>) {
    match found
    case OpenMissing => entry == None
    case OpenOther => entry.Some? && !entry.value.File?
    case OpenFile(seen, size) =>
      && entry.Some? && entry.value.File?
      && |entry.value.content| == size && (torn || entry.value.content == seen)
  }

  /** The call itself changed the destination. */
  predicate Touches(job: Job, act: Act, before: Entries, after: Entries) {
    !act.Interference? && At(after, job.destination) != At(before, job.destination)
  }

  predicate StepOk(job: Job, act: Act, before: Entries, after: Entries) {
    match act
    case Interference => At(after, job.staging) == At(before, job.staging)
    case Look(found, torn) => after == before && Finds(found, torn, At(before, job.destination))
    case Check(kind) => after == before && kind == KindAt(before, job.destination)
    case Install(_, over, effect, _) =>
      && over == At(before, job.destination)
      && (if TookEffect(effect) then Installs(job, act, before, after) else !Touches(job, act, before, after))
    case _ => !Touches(job, act, before, after)
  }

  // ----- histories

  /** All the states a call went through, with what led to each. */
  datatype History = Start(initial: Entries) | Then(earlier: History, act: Act, after: Entries)

  function First(history: History): Entries {
    if history.Start? then history.initial else First(history.earlier)
  }

  function Now(history: History): Entries {
    if history.Start? then history.initial else history.after
  }

  /** What the last step but others' found, if it was a check of the destination's kind. */
  function LastCheck(history: History): Option<EntryKind> {
    if history.Start? then None
    else match history.act
      case Interference => LastCheck(history.earlier)
      case Check(kind) => Some(kind)
      case _ => None
  }

  /** A replacement takes effect only after a check that found nothing or a regular file. */
  predicate InTurn(act: Act, earlier: History) {
    act.Install? && act.replace && TookEffect(act.effect) ==>
      LastCheck(earlier) in {Some(KindMissing), Some(KindRegularFile)}
  }

  /** Every step is one that others, or the call, may take. */
  predicate Traced(job: Job, history: History) {
    history.Then? ==>
      && StepOk(job, history.act, Now(history.earlier), history.after)
      && InTurn(history.act, history.earlier) && Traced(job, history.earlier)
  }

  /** `moment` is a point in time of `history`, and so a state a crash could leave. */
  predicate Passed(moment: History, history: History) {
    moment == history || (history.Then? && Passed(moment, history.earlier))
  }

  /** What stood at the destination when others last acted, or at first. */
  function LastLeft(job: Job, history: History): Option<Entry> {
    if history.Start? then At(history.initial, job.destination)
    else if history.act.Interference? then At(history.after, job.destination)
    else LastLeft(job, history.earlier)
  }

  /** At every moment of a call the destination holds what others last left there, or
      the complete target; never part of a file. */
  lemma {:induction false} DestinationIsNeverPartial(job: Job, history: History, moment: History)
    requires Traced(job, history) && Passed(moment, history)
    ensures var now := At(Now(moment), job.destination);
            now == LastLeft(job, moment) || IsCompleteTarget(job, now)
    decreases history
  {
    if moment != history {
      DestinationIsNeverPartial(job, history.earlier, moment);
    } else if history.Then? {
      DestinationIsNeverPartial(job, history.earlier, history.earlier);
    }
  }

  /** Under the rejecting policy the call changes the destination only where nothing
      stood at that moment, so it overwrites no one. */
  lemma {:induction false} RejectNeverOverwrites(job: Job, history: History, moment: History)
    requires Traced(job, history) && Passed(moment, history) && job.policy == Reject
    requires moment.Then? && Touches(job, moment.act, Now(moment.earlier), moment.after)
    ensures At(Now(moment.earlier), job.destination) == None
    decreases history
  {
    if moment != history {
      RejectNeverOverwrites(job, history.earlier, moment);
    }
  }

  /** Nothing but others' steps lies between. */
  predicate OnlyOthers(from: History, to: History) {
    from == to || (to.Then? && to.act.Interference? && OnlyOthers(from, to.earlier))
  }

  lemma {:induction false} CheckBefore(job: Job, history: History) returns (check: History)
    requires Traced(job, history) && LastCheck(history).Some?
    ensures Passed(check, history) && OnlyOthers(check, history)
    ensures check.Then? && check.act == Check(KindAt(Now(check), job.destination))
    ensures KindAt(Now(check), job.destination) == LastCheck(history).value
  {
    check := history;
    if history.act.Interference? {
      check := CheckBefore(job, history.earlier);
    }
  }

  /** A replacement that takes effect finds nothing or a regular file, or what others put
      there after the check of its kind had found one of these. */
  lemma {:induction false} OverwritesOnlyIntruders(job: Job, history: History, moment: History)
    returns (check: History)
    requires Traced(job, history) && Passed(moment, history) && job.destination != []
    requires moment.Then? && moment.act.Install? && moment.act.replace && TookEffect(moment.act.effect)
    ensures Passed(check, moment.earlier) && OnlyOthers(check, moment.earlier) && check.Then? && check.act.Check?
    ensures At(Now(check), job.destination).Some? ==> At(Now(check), job.destination).value.File?
    ensures moment.act.over == At(Now(moment.earlier), job.destination)
    ensures IsNonFile(moment.act.over) ==> check != moment.earlier
    decreases history
  {
    if moment == history {
      check := CheckBefore(job, moment.earlier);
    } else {
      check := OverwritesOnlyIntruders(job, history.earlier, moment);
    }
  }

  predicate IsNonFile(entry: Option<Entry>) {
    entry.Some? && !entry.value.File?
  }

  /** The call put its file in the place of what is not one. */
  predicate Overwrites(act: Act) {
    act.Install? && TookEffect(act.effect) && IsNonFile(act.over)
  }

  // ----- running totals

  /** A staging file stays behind only when its creation reported a failure it had
      survived, or when its removal failed. */
  predicate IsLeak(act: Act) {
    act == CreateStaging(false, true) || act == RemoveStaging(FailedBefore)
  }

  predicate SawTarget(job: Job, act: Act) {
    act.Look? && VerdictOf(job, act.found) == Exact
  }

  /** What a call has to show so far: an install was attempted; the last look
      saw exactly the target and nothing was installed since; the directory was
      synced since that look. */
  datatype Evidence = Evidence(installed: bool, exact: bool, synced: bool)

  function Weigh(job: Job, evidence: Evidence, act: Act): Evidence {
    match act
    case Install(_, _, _, _) => Evidence(true, false, false)
    case Look(_, _) => Evidence(evidence.installed, SawTarget(job, act), false)
    case SyncParent => evidence.(synced := evidence.exact)
    case _ => evidence
  }

  /** The call's own acts in order, its install attempts, how often it changed the
      destination, whether it has left its staging file behind, whether it overwrote
      what is not a file, its evidence, whether the staged bytes are synced, and whether
      every install was called for. */
  datatype Totals = Totals(
    acts: seq<Act>, attempts: nat, touches: nat, leaked: bool, overwritten: bool,
    evidence: Evidence, durable: bool, guided: bool)

  const NOTHING_YET := Totals([], 0, 0, false, false, Evidence(false, false, false), false, true)

  /** A look that calls for one of the two ways to install. */
  predicate CallsFor(job: Job, act: Act, replace: bool) {
    act.Look? && VerdictOf(job, act.found) == if replace then DifferentRegular else Missing
  }

  /** The last own act was such a look, and the staged bytes are synced. */
  predicate Prompted(job: Job, totals: Totals, replace: bool) {
    totals.durable && totals.acts != [] && CallsFor(job, totals.acts[|totals.acts| - 1], replace)
  }

  predicate DurableAfter(durable: bool, act: Act) {
    act.SyncStaging? || (durable && !act.WriteStaging?)
  }

  function Count(job: Job, totals: Totals, act: Act, before: Entries, after: Entries): Totals {
    if act.Interference? || act.Check? then totals
    else Totals(
      totals.acts + [act],
      totals.attempts + (if act.Install? then 1 else 0),
      totals.touches + (if Touches(job, act, before, after) then 1 else 0),
      totals.leaked || IsLeak(act),
      totals.overwritten || Overwrites(act),
      Weigh(job, totals.evidence, act),
      DurableAfter(totals.durable, act),
      totals.guided && (act.Install? ==> Prompted(job, totals, act.replace) && act.cleared))
  }

  function TotalsOf(job: Job, history: History): Totals {
    if history.Start? then NOTHING_YET
    else Count(job, TotalsOf(job, history.earlier), history.act, Now(history.earlier), history.after)
  }

  /** Without an install attempt the call never changed the destination. */
  lemma {:induction false} NoAttemptNoTouch(job: Job, history: History)
    requires Traced(job, history)
    ensures TotalsOf(job, history).touches <= TotalsOf(job, history).attempts
  {
    if history.Then? {
      NoAttemptNoTouch(job, history.earlier);
    }
  }

  /** The attempts are the install acts, and leaking and overwriting are what acts do. */
  lemma {:induction false} TotalsAgree(job: Job, history: History)
    ensures var totals := TotalsOf(job, history);
            && (totals.attempts > 0 <==> exists k :: 0 <= k < |totals.acts| && totals.acts[k].Install?)
            && (totals.leaked <==> exists k :: 0 <= k < |totals.acts| && IsLeak(totals.acts[k]))
            && (totals.overwritten <==> exists k :: 0 <= k < |totals.acts| && Overwrites(totals.acts[k]))
  {
    if history.Then? && !history.act.Interference? && !history.act.Check? {
      TotalsAgree(job, history.earlier);
      var before, totals := TotalsOf(job, history.earlier), TotalsOf(job, history);
      assert totals.acts[|before.acts|] == history.act;
      assert forall k :: 0 <= k < |before.acts| ==> totals.acts[k] == before.acts[k];
    } else if history.Then? {
      TotalsAgree(job, history.earlier);
    }
  }

  /** Act `s` synced the staged bytes, and none were written before `k`. */
  predicate SyncedAt(acts: seq<Act>, s: nat, k: nat) {
    s < k <= |acts| && acts[s].SyncStaging? && forall j :: s < j < k ==> !acts[j].WriteStaging?
  }

  /** Every install follows at once on a look that calls for it, is cleared by the token,
      and installs bytes that were synced when last written. */
  ghost predicate InstallsAreGuided(job: Job, acts: seq<Act>) {
    forall k :: 0 <= k < |acts| && acts[k].Install? ==>
      k > 0 && CallsFor(job, acts[k - 1], acts[k].replace) && acts[k].cleared && exists s :: SyncedAt(acts, s, k)
  }

  lemma {:induction false} SyncedLast(job: Job, history: History) returns (s: nat)
    requires TotalsOf(job, history).durable
    ensures SyncedAt(TotalsOf(job, history).acts, s, |TotalsOf(job, history).acts|)
  {
    var before := TotalsOf(job, history.earlier);
    if history.act.SyncStaging? {
      s := |before.acts|;
    } else {
      s := SyncedLast(job, history.earlier);
    }
  }

  lemma {:induction false} GuidedMeans(job: Job, history: History)
    requires TotalsOf(job, history).guided
    ensures InstallsAreGuided(job, TotalsOf(job, history).acts)
  {
    if history.Then? {
      GuidedMeans(job, history.earlier);
      var before, acts := TotalsOf(job, history.earlier), TotalsOf(job, history).acts;
      forall k | 0 <= k < |acts| && acts[k].Install?
        ensures k > 0 && CallsFor(job, acts[k - 1], acts[k].replace) && acts[k].cleared
        ensures exists s :: SyncedAt(acts, s, k)
      {
        if k < |before.acts| {
          assert acts[k] == before.acts[k];
          var s :| SyncedAt(before.acts, s, k);
          assert SyncedAt(acts, s, k);
        } else {
          var s := SyncedLast(job, history.earlier);
          assert SyncedAt(acts, s, k);
        }
      }
    }
  }

  /** The last look of a call saw exactly the target and nothing was installed after it;
      a copy was installed before that look and its directory synced after it. */
  ghost predicate Confirmed(job: Job, acts: seq<Act>, copied: bool, inspection: nat) {
    && inspection < |acts| && SawTarget(job, acts[inspection])
    && (forall j :: inspection < j < |acts| ==> !acts[j].Look? && !acts[j].Install?)
    && (copied ==>
          && (exists i :: 0 <= i < inspection && acts[i].Install?)
          && (exists s :: inspection < s < |acts| && acts[s].SyncParent?))
  }

  /** Evidence stands for that order of acts. */
  lemma {:induction false} EvidenceOrder(job: Job, history: History) returns (inspection: nat)
    requires TotalsOf(job, history).evidence.exact
    ensures var totals := TotalsOf(job, history);
            && Confirmed(job, totals.acts, false, inspection)
            && (totals.evidence == Evidence(true, true, true) ==> Confirmed(job, totals.acts, true, inspection))
  {
    var totals, before := TotalsOf(job, history), TotalsOf(job, history.earlier);
    if history.act.Interference? || history.act.Check? {
      inspection := EvidenceOrder(job, history.earlier);
    } else {
      assert forall k :: 0 <= k < |before.acts| ==> totals.acts[k] == before.acts[k];
      assert totals.acts[|before.acts|] == history.act;
      if history.act.Look? {
        inspection := |before.acts|;
      } else {
        inspection := EvidenceOrder(job, history.earlier);
        if before.evidence.installed {
          InstalledBefore(job, history.earlier, inspection);
        }
      }
    }
  }

  lemma {:induction false} InstalledBefore(job: Job, history: History, inspection: nat)
    requires TotalsOf(job, history).evidence.installed
    requires Confirmed(job, TotalsOf(job, history).acts, false, inspection)
    ensures exists i :: 0 <= i < inspection && TotalsOf(job, history).acts[i].Install?
  {
    var acts := TotalsOf(job, history).acts;
    var i := SomeInstall(job, history);
    assert i != inspection;
  }

  lemma {:induction false} SomeInstall(job: Job, history: History) returns (i: nat)
    requires TotalsOf(job, history).evidence.installed
    ensures i < |TotalsOf(job, history).acts| && TotalsOf(job, history).acts[i].Install?
  {
    var before := TotalsOf(job, history.earlier);
    if history.act.Install? {
      i := |before.acts|;
    } else {
      i := SomeInstall(job, history.earlier);
    }
  }

  /** Each own act has its moment in the history. */
  lemma {:induction false} MomentOf(job: Job, history: History, k: nat) returns (moment: History)
    requires Traced(job, history) && k < |TotalsOf(job, history).acts|
    ensures Passed(moment, history) && moment.Then? && moment.act == TotalsOf(job, history).acts[k]
    ensures StepOk(job, moment.act, Now(moment.earlier), moment.after)
    ensures TotalsOf(job, moment).acts == TotalsOf(job, history).acts[..k + 1]
  {
    var before, acts := TotalsOf(job, history.earlier), TotalsOf(job, history).acts;
    if !history.act.Interference? && !history.act.Check? && k == |before.acts| {
      moment := history;
    } else {
      moment := MomentOf(job, history.earlier, k);
      assert before.acts[..k + 1] == acts[..k + 1];
    }
  }

  /** Unless others wrote to the very file that was being read, the complete target stood
      at the destination when it was looked at. */
  lemma ConfirmedMoment(job: Job, history: History, copied: bool, inspection: nat) returns (moment: History)
    requires Traced(job, history) && Confirmed(job, TotalsOf(job, history).acts, copied, inspection)
    ensures Passed(moment, history) && |TotalsOf(job, moment).acts| == inspection + 1
    ensures !TotalsOf(job, history).acts[inspection].torn ==> IsCompleteTarget(job, At(Now(moment), job.destination))
  {
    moment := MomentOf(job, history, inspection);
  }
}
