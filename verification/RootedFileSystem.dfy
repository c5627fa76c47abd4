/** The rooted file system one materialization call works on.

    Others may change anything between two of the call's steps, except the entry
    under the call's own staging name.  Every operation may fail, and one that
    changes an entry may fail before or after the change took effect. */
module RootedFileSystem {
  import opened Environment
  import opened Publication
  import opened Text
  import opened Wrappers

  datatype CreateOnceOutcome = Created | Existing

  /** What happens on an otherwise quiet file system: nothing; a fault once a file has
      been created; or someone's entry at the destination, just before the attempt to
      create it, or between the check of its kind and the rename. */
  datatype Scenario =
    | Peace
    | FaultAfterCreation(fault: IoError)
    | IntruderBeforeCreate(intruder: Entry)
    | IntruderBeforeRename(intruder: Entry)

  function OpenedAt(entries: Entries, location: Location): Opened {
    match At(entries, location)
    case None => OpenMissing
    case Some(File(content)) => OpenFile(content, |content|)
    case _ => OpenOther
  }

  class FileSystem {
    var entries: Entries
    ghost var history: History
    ghost const initial: Entries
    ghost var totals: Totals
    const quiet: bool
    const scenario: Scenario
    const job: Job
    const token: CancellationToken
    /** How long the token's journal was at the call's last act. */
    ghost var stamp: nat

    constructor (
      entries: Entries, quiet: bool, scenario: Scenario, job: Job, token: CancellationToken)
      ensures Valid() && this.entries == initial == entries && this.quiet == quiet && this.job == job
      ensures this.scenario == scenario && this.token == token && totals == NOTHING_YET
    {
      this.entries, initial, this.quiet, this.job := entries, entries, quiet, job;
      this.scenario, this.token, stamp := scenario, token, |token.journal|;
      history, totals := Start(entries), NOTHING_YET;
    }

    /** The token was looked at since the last act, and never said yes. */
    ghost predicate Cleared()
      reads this, token
    {
      stamp < |token.journal| && !token.Observed()
    }

    /** The history accounts for the present state and the totals. */
    ghost predicate Valid()
      reads this
    {
      && Traced(job, history) && Now(history) == entries && First(history) == initial
      && totals == TotalsOf(job, history)
    }

    /** The staging name is not the destination's. */
    predicate Distinct()
    {
      job.destination != job.staging
    }

    /** `act` is the next own act, perhaps after interference. */
    twostate predicate Did(act: Act)
      reads this
    {
      && Valid()
      && totals.acts == old(totals.acts) + [act]
      && totals.attempts == old(totals.attempts) + (if act.Install? then 1 else 0)
      && old(totals.touches) <= totals.touches <= old(totals.touches) + (if act.Install? then 1 else 0)
      && totals.leaked == (old(totals.leaked) || IsLeak(act))
      && totals.overwritten == (old(totals.overwritten) || Overwrites(act))
      && totals.evidence == Weigh(job, old(totals.evidence), act)
      && totals.durable == DurableAfter(old(totals.durable), act)
      && totals.guided ==
           (old(totals.guided) && (act.Install? ==> Prompted(job, old(totals), act.replace) && act.cleared))
    }

    twostate predicate DidNothing()
      reads this
    {
      && Valid() && totals == old(totals) && stamp == old(stamp)
      && At(entries, job.staging) == old(At(entries, job.staging)) && (quiet ==> entries == old(entries))
    }

    /** One step.  Only the operations below take steps: what they note down is what they
        did, and no caller has a say in it. */
    method Apply(ghost act: Act, after: Entries)
      requires Valid() && StepOk(job, act, entries, after) && InTurn(act, history)
      modifies this
      ensures Valid() && entries == after && history == Then(old(history), act, after)
      ensures totals == Count(job, old(totals), act, old(entries), after)
      ensures stamp == if act.Interference? || act.Check? then old(stamp) else |token.journal|
    {
      history, totals := Then(history, act, after), Count(job, totals, act, entries, after);
      entries := after;
      if !act.Interference? && !act.Check? {
        stamp := |token.journal|;
      }
    }

    function With(entries: Entries, intruder: Option<Entry>): Entries {
      if intruder.Some? && Distinct() then entries[job.destination := intruder.value] else entries
    }

    /** Whatever others do before the call's next step; if all is quiet, the intruder comes. */
    method Others(intruder: Option<Entry>)
      requires Valid()
      modifies this
      ensures Valid() && totals == old(totals) && stamp == old(stamp)
      ensures LastCheck(history) == old(LastCheck(history))
      ensures At(entries, job.staging) == old(At(entries, job.staging))
      ensures quiet ==> entries == With(old(entries), intruder)
    {
      var after: Entries := *;
      if quiet {
        after := With(entries, intruder);
      } else if job.staging in entries {
        after := after[job.staging := entries[job.staging]];
      } else {
        after := after - {job.staging};
      }
      Apply(Interference, after);
    }

    method Interfere()
      requires Valid()
      modifies this
      ensures DidNothing()
    {
      Others(None);
    }

    function BeforeCreate(): Option<Entry> {
      if scenario.IntruderBeforeCreate? then Some(scenario.intruder) else None
    }

    function BeforeRename(): Option<Entry> {
      if scenario.IntruderBeforeRename? then Some(scenario.intruder) else None
    }

    /** A failure the file system chooses, or none when it is quiet. */
    method Fault() returns (fault: Option<IoError>)
      ensures quiet ==> fault.None?
    {
      var kind: IoError, fails: bool := *, *;
      fault := if fails && !quiet then Some(kind) else None;
    }

    method Kind(location: Location) returns (r: Result<EntryKind, IoError>)
      requires Valid()
      modifies this
      ensures DidNothing()
      ensures quiet ==> r == Success(KindAt(entries, location))
    {
      Interfere();
      var fault := Fault();
      r := if fault.Some? then Failure(fault.value) else Success(KindAt(entries, location));
    }

    /** Looks at the destination.  What comes out of a file is what stands there, unless
        others write to it meanwhile. */
    method OpenDestination() returns (r: Result<Opened, IoError>, ghost torn: bool)
      requires Valid()
      modifies this
      ensures r.Success? ==> Did(Look(r.value, torn)) && stamp == |token.journal|
      ensures r.Failure? ==> DidNothing()
      ensures At(entries, job.staging) == old(At(entries, job.staging)) && (quiet ==> entries == old(entries))
      ensures quiet ==> r == Success(OpenedAt(entries, job.destination))
    {
      torn := false;
      Interfere();
      var fault := Fault();
      if fault.Some? {
        return Failure(fault.value), torn;
      }
      var found := OpenedAt(entries, job.destination);
      var others: bool, seen: seq<Byte> := *, *;
      if others && !quiet && found.OpenFile? {
        torn, found := true, OpenFile(seen, found.size);
      }
      Apply(Look(found, torn), entries);
      r := Success(found);
    }

    /** Never touches an existing entry; may fail after having created the file. */
    method CreateNew() returns (r: Result<(), IoError>, ghost took: bool)
      requires Valid() && Distinct()
      modifies this
      ensures Did(CreateStaging(r.Success?, took)) && (r.Success? ==> took)
      ensures took <==> old(job.staging !in entries) && job.staging in entries
      ensures took ==> entries[job.staging] == File([])
      ensures !took ==> At(entries, job.staging) == old(At(entries, job.staging))
      ensures quiet ==> entries == if took then old(entries)[job.staging := File([])] else old(entries)
      ensures quiet ==> (took <==> old(job.staging !in entries))
      ensures quiet ==> (r.Success? <==> took && !scenario.FaultAfterCreation?)
      ensures quiet && took && r.Failure? ==> r.error == scenario.fault
    {
      Interfere();
      var early := Fault();
      var late := Fault();
      late := if quiet && scenario.FaultAfterCreation? then Some(scenario.fault) else late;
      var exists_ := job.staging in entries;
      took := !exists_ && early.None?;
      Apply(CreateStaging(!exists_ && early.None? && late.None?, took),
            if !exists_ && early.None? then entries[job.staging := File([])] else entries);
      r := if exists_ then Failure(AlreadyExists)
           else if early.Some? then Failure(early.value)
           else if late.Some? then Failure(late.value)
           else Success(());
    }

    method WriteAll(bytes: seq<Byte>)
      requires Valid() && Distinct() && job.staging in entries
      modifies this
      ensures Did(WriteStaging) && At(entries, job.staging) == Some(File(bytes))
      ensures quiet ==> entries == old(entries)[job.staging := File(bytes)]
    {
      Interfere();
      Apply(WriteStaging, entries[job.staging := File(bytes)]);
    }

    method SyncStaging() returns (r: Result<(), IoError>)
      requires Valid()
      modifies this
      ensures r.Success? ==> Did(Act.SyncStaging)
      ensures r.Failure? ==> DidNothing()
      ensures At(entries, job.staging) == old(At(entries, job.staging)) && (quiet ==> entries == old(entries))
      ensures quiet ==> r.Success?
    {
      Interfere();
      var fault := Fault();
      if fault.Some? {
        return Failure(fault.value);
      }
      Apply(Act.SyncStaging, entries);
      r := Success(());
    }

    /** The staged file is complete and no one else can change it. */
    predicate Staged(bytes: seq<Byte>)
      reads this
    {
      At(entries, job.staging) == Some(File(bytes)) && job.IsTarget(bytes)
    }

    /** Links the staged file to the destination unless something stands there. */
    method InstallStagedCreateOnce(ghost bytes: seq<Byte>)
      returns (r: Result<CreateOnceOutcome, IoError>, ghost act: Act)
      requires Valid() && Staged(bytes)
      modifies this
      ensures act.Install? && !act.replace && act.cleared == old(Cleared()) && Did(act) && Staged(bytes)
      ensures r == Success(Existing) <==> act.effect == FoundExisting
      ensures r == Success(Created) <==> act.effect == Installed
      ensures act.over.None? <== TookEffect(act.effect)
      ensures if TookEffect(act.effect) then At(entries, job.destination) == Some(File(bytes))
              else totals.touches == old(totals.touches)
      ensures quiet ==>
                var before := With(old(entries), BeforeCreate());
                if job.destination in before then r == Success(Existing) && entries == before
                else r == Success(Created) && entries == before[job.destination := File(bytes)]
    {
      ghost var cleared := Cleared();
      Others(BeforeCreate());
      r, act := Link(bytes, cleared);
    }

    method Link(ghost bytes: seq<Byte>, ghost cleared: bool)
      returns (r: Result<CreateOnceOutcome, IoError>, ghost act: Act)
      requires Valid() && Staged(bytes)
      modifies this
      ensures act.Install? && !act.replace && act.cleared == cleared && Did(act) && Staged(bytes)
      ensures r == Success(Existing) <==> act.effect == FoundExisting
      ensures r == Success(Created) <==> act.effect == Installed
      ensures act.over == old(At(entries, job.destination)) && (TookEffect(act.effect) ==> act.over.None?)
      ensures if TookEffect(act.effect) then entries == old(entries)[job.destination := File(bytes)]
              else entries == old(entries) && totals.touches == old(totals.touches)
      ensures quiet ==> r == Success(if act.over.Some? then Existing else Created)
    {
      var early := Fault();
      var late := Fault();
      var exists_ := job.destination in entries;
      var after := if early.Some? || exists_ then entries else entries[job.destination := entries[job.staging]];
      act := Install(
        false, At(entries, job.destination),
        if early.Some? then FailedUntouched else if exists_ then FoundExisting
        else if late.Some? then FailedInstalled else Installed, cleared);
      Apply(act, after);
      r := if early.Some? then Failure(early.value)
           else if exists_ then Success(Existing)
           else if late.Some? then Failure(late.value)
           else Success(Created);
    }

    /** Moves the staged file over the destination, atomically.  What others put there
        after its kind was checked goes, unless it is a directory. */
    method InstallStagedReplace(ghost bytes: seq<Byte>) returns (r: Result<(), IoError>, ghost act: Act)
      requires Valid() && Distinct() && Staged(bytes) && job.policy == ReplaceRegularFile
      modifies this
      ensures act.Install? && act.replace && act.cleared == old(Cleared()) && Did(act)
      ensures Staged(bytes) || job.staging !in entries
      ensures (r.Success? <==> act.effect == Installed) && act.effect != FoundExisting
      ensures if TookEffect(act.effect) then
                At(entries, job.destination) == Some(File(bytes)) && job.staging !in entries
              else totals.touches == old(totals.touches) && Staged(bytes)
      ensures quiet ==> act.effect != FailedInstalled
      ensures quiet && job.destination != [] ==>
                if KindAt(old(entries), job.destination) !in {KindMissing, KindRegularFile} then
                  r.Failure? && entries == old(entries)
                else
                  && Renamed(With(old(entries), BeforeRename()), bytes, act)
                  && (r.Failure? ==> r.error == OtherIo)
    {
      ghost var cleared := Cleared();
      Interfere();
      var kind := KindAt(entries, job.destination);
      Apply(Check(kind), entries);
      if kind != KindMissing && kind != KindRegularFile {
        act := Install(true, At(entries, job.destination), FailedUntouched, cleared);
        Apply(act, entries);
        return Failure(InvalidData), act;
      }
      r, act := Rename(bytes, cleared);
    }

    /** What renaming makes of `before` when nothing else goes wrong. */
    ghost predicate Renamed(before: Entries, bytes: seq<Byte>, act: Act)
      requires act.Install?
      reads this
    {
      && act.over == At(before, job.destination)
      && if act.over == Some(Directory) then act.effect == FailedUntouched && entries == before
         else act.effect == Installed && entries == before[job.destination := File(bytes)] - {job.staging}
    }

    method Rename(ghost bytes: seq<Byte>, ghost cleared: bool) returns (r: Result<(), IoError>, ghost act: Act)
      requires Valid() && Distinct() && Staged(bytes) && job.policy == ReplaceRegularFile
      requires LastCheck(history) in {Some(KindMissing), Some(KindRegularFile)}
      modifies this
      ensures act.Install? && act.replace && act.cleared == cleared && Did(act)
      ensures Staged(bytes) || job.staging !in entries
      ensures (r.Success? <==> act.effect == Installed) && act.effect != FoundExisting
      ensures if TookEffect(act.effect) then
                At(entries, job.destination) == Some(File(bytes)) && job.staging !in entries
              else totals.touches == old(totals.touches) && Staged(bytes)
      ensures quiet ==> Renamed(With(old(entries), BeforeRename()), bytes, act)
      ensures quiet && r.Failure? ==> r.error == OtherIo
    {
      Others(BeforeRename());
      r, act := Move(bytes, cleared);
    }

    method Move(ghost bytes: seq<Byte>, ghost cleared: bool) returns (r: Result<(), IoError>, ghost act: Act)
      requires Valid() && Distinct() && Staged(bytes) && job.policy == ReplaceRegularFile
      requires LastCheck(history) in {Some(KindMissing), Some(KindRegularFile)}
      modifies this
      ensures act.Install? && act.replace && act.cleared == cleared && Did(act)
      ensures (r.Success? <==> act.effect == Installed) && act.effect != FoundExisting
      ensures if TookEffect(act.effect) then entries == old(entries)[job.destination := File(bytes)] - {job.staging}
              else entries == old(entries) && totals.touches == old(totals.touches)
      ensures quiet ==> Renamed(old(entries), bytes, act)
      ensures quiet && r.Failure? ==> r.error == OtherIo
    {
      var early := Fault();
      var late := Fault();
      var fails := early.Some? || At(entries, job.destination) == Some(Directory);
      var after := if fails then entries else entries[job.destination := entries[job.staging]] - {job.staging};
      act := Install(
        true, At(entries, job.destination),
        if fails then FailedUntouched else if late.Some? then FailedInstalled else Installed, cleared);
      Apply(act, after);
      r := if fails then Failure(if early.Some? then early.value else OtherIo)
           else if late.Some? then Failure(late.value)
           else Success(());
    }

    method RemoveFile() returns (r: Result<(), IoError>, ghost outcome: RemoveOutcome)
      requires Valid() && Distinct()
      modifies this
      ensures Did(RemoveStaging(outcome))
      ensures r.Success? <==> outcome == Removed
      ensures r.Failure? ==> (r.error == NotFound <==> outcome == WasMissing)
      ensures old(job.staging in entries) && job.staging in entries <==> outcome == FailedBefore
      ensures outcome == WasMissing <==> old(job.staging !in entries)
      ensures old(job.staging !in entries) ==> job.staging !in entries
      ensures quiet ==> entries == old(entries) - {job.staging} && (r.Success? || r.error == NotFound)
    {
      Interfere();
      var early := Fault();
      var late := Fault();
      if job.staging !in entries {
        outcome := WasMissing;
        Apply(RemoveStaging(outcome), entries);
        return Failure(NotFound), outcome;
      }
      if early.Some? {
        outcome := FailedBefore;
        Apply(RemoveStaging(outcome), entries);
        return Failure(OtherIo), outcome;
      }
      outcome := if late.Some? then FailedAfter else Removed;
      Apply(RemoveStaging(outcome), entries - {job.staging});
      r := if late.Some? then Failure(OtherIo) else Success(());
    }

    method SyncDirectory() returns (r: Result<(), IoError>)
      requires Valid()
      modifies this
      ensures r.Success? ==> Did(SyncParent)
      ensures r.Failure? ==> DidNothing()
      ensures At(entries, job.staging) == old(At(entries, job.staging)) && (quiet ==> entries == old(entries))
      ensures quiet ==> r.Success?
    {
      Interfere();
      var fault := Fault();
      if fault.Some? {
        return Failure(fault.value);
      }
      Apply(SyncParent, entries);
      r := Success(());
    }
  }
}
