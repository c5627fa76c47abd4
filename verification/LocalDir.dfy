/** Materializing one validated file into a user's directory. */
module LocalDir {
  import opened Content
  import opened Environment
  import opened Keys
  import opened Publication
  import opened RootedFileSystem
  import opened Text
  import opened Wrappers

  datatype ErrorKind =
    | Io(io: IoError)
    | UnsafeFileSystem
    | InvalidPath
    | ContentFailure(content: ContentError)
    | DigestMismatch
    | ConflictKind
    | FinalValidation
    | CancelledKind

  datatype MaterializationError = MaterializationError(kind: ErrorKind, mayHavePublished: bool)

  datatype Disposition = Reused | Copied

  datatype Materialization = Materialization(path: Location, size: nat, digest: Digest, disposition: Disposition)

  function IoFailure(source: IoError, mayHavePublished: bool): MaterializationError {
    MaterializationError(if source == UnsafePath then UnsafeFileSystem else Io(source), mayHavePublished)
  }

  function WithMayHavePublished(error: MaterializationError): MaterializationError {
    error.(mayHavePublished := true)
  }

  // ----- destinations

  function ParentOf(location: Location): Location
    requires location != []
  {
    location[..|location| - 1]
  }

  /** What an undisturbed inspection makes of an entry. */
  function VerdictOn(job: Job, entry: Option<Entry>): Verdict {
    match entry
    case None => Missing
    case Some(File(content)) => if job.IsTarget(content) then Exact else DifferentRegular
    case _ => Conflict
  }

  function View(job: Job, entries: Entries): Verdict {
    VerdictOn(job, At(entries, job.destination))
  }

  /** A destination whose parent is not a directory cannot be used at all. */
  predicate ParentBlocks(job: Job, entries: Entries)
    requires job.destination != []
  {
    KindAt(entries, ParentOf(job.destination)) in {KindRegularFile, KindOther}
  }

  /** Nothing outside the call can disturb it, but for what the scenario holds. */
  predicate Calm(fs: FileSystem, token: CancellationToken)
    reads token
  {
    fs.quiet && !token.shared && !token.cancelled
  }

  /** A step that starts without knowing of any cancellation reports one exactly when a
      look at the token finds it. */
  twostate predicate Told<T>(token: CancellationToken?, new r: Result<T, MaterializationError>)
    reads token
  {
    token != null && !old(token.Observed()) ==> (token.Observed() <==> r.Failure? && r.error.kind == CancelledKind)
  }

  method CheckCancellation(token: CancellationToken, mayHavePublished: bool)
    returns (r: Result<(), MaterializationError>)
    modifies token
    ensures Elapsed(token) && Told(token, r) && |token.journal| == |old(token.journal)| + 1
    ensures token.Observed() <==> old(token.Observed()) || token.cancelled
    ensures r == if token.cancelled then Failure(MaterializationError(CancelledKind, mayHavePublished)) else Success(())
  {
    var cancelled := token.IsCancelled();
    r := if cancelled then Failure(MaterializationError(CancelledKind, mayHavePublished)) else Success(());
  }

  /** The injected faults around publication. */
  method CheckFault(fs: FileSystem, mayHavePublished: bool) returns (r: Result<(), MaterializationError>)
    ensures fs.quiet ==> r.Success?
    ensures r.Failure? ==> r.error.mayHavePublished == mayHavePublished && r.error.kind != CancelledKind
  {
    var fault := fs.Fault();
    r := if fault.Some? then Failure(IoFailure(fault.value, mayHavePublished)) else Success(());
  }

  /** A fault point, then a look at the token. */
  method PassPoint(fs: FileSystem, token: CancellationToken, mayHavePublished: bool)
    returns (r: Result<(), MaterializationError>)
    modifies token
    ensures Elapsed(token) && Told(token, r)
    ensures r.Failure? ==> r.error.mayHavePublished == mayHavePublished
    ensures r.Success? ==> !token.cancelled && |token.journal| > |old(token.journal)|
    ensures old(Calm(fs, token)) ==> r.Success?
  {
    r := CheckFault(fs, mayHavePublished);
    if r.Success? {
      r := CheckCancellation(token, mayHavePublished);
    }
  }

  /** An error that reading content can end with. */
  predicate FromReading(error: MaterializationError) {
    error.kind == CancelledKind || error.kind.ContentFailure?
  }

  method CopyWithCancellation(
    primitives: Primitives, reader: Reader, writer: Sink, entry: TreeEntry, mayHavePublished: bool)
    returns (r: Result<(nat, Digest), MaterializationError>)
    requires reader.position == 0 && !reader.observedCancellation
    modifies reader, writer, reader.token
    ensures Elapsed(reader.token) && Told(reader.token, r)
    ensures r.Success? ==>
              && !reader.observedCancellation
              && IsContent(primitives, entry, reader.data)
              && r.value == (|reader.data|, primitives.sha256(reader.data))
              && writer.bytes == old(writer.bytes) + reader.data
    ensures r.Failure? ==> r.error.mayHavePublished == mayHavePublished && FromReading(r.error)
    ensures r.Failure? && r.error.kind == ContentFailure(Corrupt) ==> !IsContent(primitives, entry, reader.data)
    ensures r.Failure? && reader.quiet && writer.quiet ==>
              || r.error == MaterializationError(ContentFailure(Corrupt), mayHavePublished)
              || (r.error.kind == CancelledKind && reader.token != null && reader.token.cancelled)
  {
    var result := CopyAndValidateContent(primitives, reader, writer, entry);
    if reader.observedCancellation {
      return Failure(MaterializationError(CancelledKind, mayHavePublished));
    }
    r := if result.Success? then Success(result.value)
         else Failure(MaterializationError(ContentFailure(result.error), mayHavePublished));
  }

  /** A parent that is missing or a directory will do; its failures never carry the
      publication flag. */
  method ValidateParent(fs: FileSystem) returns (r: Result<(), MaterializationError>)
    requires fs.Valid() && fs.job.destination != []
    modifies fs
    ensures fs.DidNothing()
    ensures r.Failure? ==> !r.error.mayHavePublished && r.error.kind != CancelledKind
    ensures fs.quiet ==>
              r == if ParentBlocks(fs.job, fs.entries) then Failure(MaterializationError(ConflictKind, false))
                   else Success(())
  {
    var kind := fs.Kind(ParentOf(fs.job.destination));
    match kind
    case Success(k) =>
      if k == KindMissing || k == KindDirectory {
        r := Success(());
      } else {
        r := Failure(MaterializationError(ConflictKind, false));
      }
    case Failure(source) =>
      if source == InvalidData {
        r := Failure(MaterializationError(ConflictKind, false));
      } else {
        r := Failure(IoFailure(source, false));
      }
  }

  /** Whether the bytes read from an open destination are the target. */
  method CompareContent(fs: FileSystem, token: CancellationToken, bytes: seq<Byte>, mayHavePublished: bool)
    returns (r: Result<Verdict, MaterializationError>)
    modifies token
    ensures Elapsed(token) && Told(token, r)
    ensures r.Success? ==> r.value == if fs.job.IsTarget(bytes) then Exact else DifferentRegular
    ensures r.Failure? ==> r.error.mayHavePublished == mayHavePublished && FromReading(r.error)
    ensures old(Calm(fs, token)) ==> r.Success?
  {
    var reader := new Reader(bytes, fs.quiet, token);
    var sink := new Sink([], true);
    var copied := CopyWithCancellation(fs.job.primitives, reader, sink, fs.job.entry, mayHavePublished);
    if copied.Success? {
      r := Success(if copied.value.1 == fs.job.digest then Exact else DifferentRegular);
    } else if copied.error.kind == ContentFailure(Corrupt) {
      r := Success(DifferentRegular);
    } else {
      r := Failure(copied.error);
    }
  }

  /** A stretch of looking only: nothing installed, created or removed by the call. */
  twostate predicate Looked(fs: FileSystem)
    reads fs
  {
    && fs.Valid()
    && fs.totals == old(fs.totals).(acts := fs.totals.acts, evidence := fs.totals.evidence)
    && old(fs.totals.acts) <= fs.totals.acts
    && fs.totals.evidence.installed == old(fs.totals.evidence.installed)
    && At(fs.entries, fs.job.staging) == old(At(fs.entries, fs.job.staging))
    && (fs.quiet ==> fs.entries == old(fs.entries))
  }

  /** Everything before the destination is opened. */
  method Approach(fs: FileSystem, token: CancellationToken, mayHavePublished: bool)
    returns (r: Result<(), MaterializationError>)
    requires fs.Valid() && fs.job.destination != []
    modifies fs, token
    ensures fs.DidNothing() && Elapsed(token) && Told(token, r)
    ensures r.Failure? && r.error.mayHavePublished ==> mayHavePublished
    ensures old(Calm(fs, token)) ==>
              if ParentBlocks(fs.job, fs.entries) then r == Failure(MaterializationError(ConflictKind, false))
              else r.Success? && Calm(fs, token)
  {
    r := CheckCancellation(token, mayHavePublished);
    if r.Success? {
      r := ValidateParent(fs);
      if r.Success? {
        r := CheckCancellation(token, mayHavePublished);
      }
    }
  }

  /** The look itself, and what may be learned after it. */
  method LookOnce(fs: FileSystem, token: CancellationToken, mayHavePublished: bool)
    returns (r: Result<Opened, MaterializationError>, ghost torn: bool)
    requires fs.Valid() && fs.token == token
    modifies fs, token
    ensures Looked(fs) && Elapsed(token) && Told(token, r)
    ensures r.Success? ==>
              && fs.totals.acts == old(fs.totals.acts) + [Look(r.value, torn)] && fs.stamp <= |token.journal|
              && fs.totals.evidence.exact == (VerdictOf(fs.job, r.value) == Exact)
    ensures r.Failure? && r.error.mayHavePublished ==> mayHavePublished
    ensures r.Failure? && r.error.kind != CancelledKind ==> fs.totals == old(fs.totals)
    ensures old(Calm(fs, token)) ==> r == Success(OpenedAt(fs.entries, fs.job.destination))
  {
    var found;
    found, torn := fs.OpenDestination();
    if found.Failure? {
      r := Failure(if found.error == UnsafePath then MaterializationError(ConflictKind, mayHavePublished)
                   else IoFailure(found.error, mayHavePublished));
    } else {
      var checked := CheckCancellation(token, mayHavePublished);
      r := if checked.Failure? then Failure(checked.error) else Success(found.value);
    }
  }

  /** The way to an open destination, with cancellation checked around every step. */
  method OpenDestination(fs: FileSystem, token: CancellationToken, mayHavePublished: bool)
    returns (r: Result<Opened, MaterializationError>, ghost torn: bool)
    requires fs.Valid() && fs.token == token && fs.job.destination != []
    modifies fs, token
    ensures Looked(fs) && Elapsed(token) && Told(token, r)
    ensures r.Success? ==>
              && fs.totals.acts == old(fs.totals.acts) + [Look(r.value, torn)] && fs.stamp <= |token.journal|
              && fs.totals.evidence.exact == (VerdictOf(fs.job, r.value) == Exact)
    ensures r.Failure? && r.error.mayHavePublished ==> mayHavePublished
    ensures r.Failure? && r.error.kind != CancelledKind ==> fs.totals == old(fs.totals)
    ensures old(Calm(fs, token)) ==>
              if ParentBlocks(fs.job, fs.entries) then r == Failure(MaterializationError(ConflictKind, false))
              else r == Success(OpenedAt(fs.entries, fs.job.destination))
  {
    torn := false;
    var checked := Approach(fs, token, mayHavePublished);
    if checked.Failure? {
      r := Failure(checked.error);
    } else {
      r, torn := LookOnce(fs, token, mayHavePublished);
    }
  }

  /** One inspection: a verdict on what one look found, or a failure. */
  method InspectDestination(fs: FileSystem, token: CancellationToken, mayHavePublished: bool)
    returns (r: Result<Verdict, MaterializationError>, ghost look: Act)
    requires fs.Valid() && fs.token == token && fs.job.destination != []
    modifies fs, token
    ensures Looked(fs) && Elapsed(token) && Told(token, r)
    ensures r.Success? ==>
              && fs.totals.acts == old(fs.totals.acts) + [look] && fs.stamp <= |token.journal|
              && look.Look? && VerdictOf(fs.job, look.found) == r.value
              && fs.totals.evidence.exact == (r.value == Exact)
    ensures r.Failure? && r.error.mayHavePublished ==> mayHavePublished
    ensures r.Failure? && !FromReading(r.error) ==> fs.totals == old(fs.totals)
    ensures old(Calm(fs, token)) ==>
              if ParentBlocks(fs.job, fs.entries) then r == Failure(MaterializationError(ConflictKind, false))
              else r == Success(View(fs.job, fs.entries))
  {
    look := Interference;
    var found;
    ghost var torn;
    found, torn := OpenDestination(fs, token, mayHavePublished);
    if found.Failure? {
      return Failure(found.error), look;
    }
    look := Look(found.value, torn);
    if found.value.OpenMissing? {
      r := Success(Missing);
    } else if found.value.OpenOther? {
      r := Success(Conflict);
    } else if found.value.size != fs.job.entry.size {
      r := Success(DifferentRegular);
    } else {
      r := CompareContent(fs, token, found.value.seen, mayHavePublished);
    }
  }

  // ----- staging and installing

  function Done(job: Job, disposition: Disposition): Materialization {
    Materialization(job.destination, job.entry.size, job.digest, disposition)
  }

  /** Act `k` is a look that found something else than the target. */
  ghost predicate FoundOther(fs: FileSystem, k: nat)
    reads fs
  {
    k < |fs.totals.acts| && fs.totals.acts[k].Look? && VerdictOf(fs.job, fs.totals.acts[k].found) != Exact
  }

  method FinishInstall(fs: FileSystem, token: CancellationToken)
    returns (r: Result<Materialization, MaterializationError>)
    requires fs.Valid() && fs.token == token && fs.job.destination != [] && fs.totals.evidence.installed
    modifies fs, token
    ensures Looked(fs) && Elapsed(token) && Told(token, r)
    ensures r.Failure? ==> r.error.mayHavePublished
    ensures FoundOther(fs, |old(fs.totals.acts)|) && (r.Failure? ==> !FromReading(r.error)) ==>
              r == Failure(MaterializationError(FinalValidation, true))
    ensures r.Success? ==> r.value == Done(fs.job, Copied) && fs.totals.evidence == Evidence(true, true, true)
    ensures old(Calm(fs, token)) && !ParentBlocks(fs.job, fs.entries) && View(fs.job, fs.entries) == Exact ==>
              r.Success?
  {
    var checked := PassPoint(fs, token, true);
    if checked.Failure? {
      return Failure(checked.error);
    }
    var verdict, look := InspectDestination(fs, token, true);
    if verdict.Failure? {
      return Failure(WithMayHavePublished(verdict.error));
    }
    if verdict.value != Exact {
      return Failure(MaterializationError(FinalValidation, true));
    }
    var synced := fs.SyncDirectory();
    if synced.Failure? {
      return Failure(IoFailure(synced.error, true));
    }
    r := Success(Done(fs.job, Copied));
  }

  /** Removes the staging file when a call ends, and makes its error tell whether an
      install was attempted. */
  class StagingCleanup {
    const root: FileSystem
    var active: bool
    var publicationAttempted: bool

    constructor (root: FileSystem)
      ensures this.root == root && !active && !publicationAttempted
    {
      this.root, active, publicationAttempted := root, false, false;
    }

    /** The flags agree with what the call has done; `foreign` is an entry that had
        the staging name before the call. */
    ghost predicate Agrees(foreign: Option<Entry>)
      reads this, root
    {
      && root.Valid()
      && (publicationAttempted <==> root.totals.attempts > 0)
      && (active ==> !root.totals.leaked && foreign.None?)
      && (root.job.staging in root.entries ==> active || root.totals.leaked || foreign.Some?)
      && (root.totals.leaked ==> root.job.staging in root.entries && foreign.None?)
      && (foreign.Some? ==> At(root.entries, root.job.staging) == foreign)
    }

    method Activate()
      modifies this`active
      ensures active
    {
      active := true;
    }

    method Deactivate()
      modifies this`active
      ensures !active
    {
      active := false;
    }

    method MarkPublicationAttempted()
      modifies this`publicationAttempted
      ensures publicationAttempted
    {
      publicationAttempted := true;
    }

    method Finish(result: Result<Materialization, MaterializationError>, ghost foreign: Option<Entry>)
      returns (r: Result<Materialization, MaterializationError>)
      requires Agrees(foreign) && root.Distinct()
      requires result.Failure? && result.error.mayHavePublished ==> publicationAttempted
      modifies this, root
      ensures root.Valid()
      ensures root.totals.attempts == old(root.totals.attempts)
      ensures root.totals.touches == old(root.totals.touches)
      ensures r.Failure? ==> (r.error.mayHavePublished <==> root.totals.attempts > 0)
      ensures r.Success? ==> r == result
      ensures result.Failure? ==> r == Failure(result.error.(mayHavePublished := r.error.mayHavePublished))
      ensures r.Failure? && r.error.kind == CancelledKind <==> result.Failure? && result.error.kind == CancelledKind
      ensures !old(active) ==>
                root.totals == old(root.totals) && root.entries == old(root.entries) && r.Success? == result.Success?
      ensures root.totals.evidence == old(root.totals.evidence)
      ensures root.totals.guided == old(root.totals.guided) && root.totals.overwritten == old(root.totals.overwritten)
      ensures foreign.None? ==> (root.job.staging in root.entries <==> root.totals.leaked)
      ensures foreign.Some? ==> At(root.entries, root.job.staging) == foreign
      ensures root.quiet && foreign.None? && !old(root.totals.leaked) ==>
                root.entries == old(root.entries) - {root.job.staging} && r.Success? == result.Success?
    {
      var cleanup: Result<(), IoError> := Success(());
      if active {
        ghost var outcome;
        cleanup, outcome := root.RemoveFile();
      }
      active := false;
      if result.Failure? {
        return Failure(if publicationAttempted then WithMayHavePublished(result.error) else result.error);
      }
      r := if cleanup.Success? || cleanup.error == NotFound then result
           else Failure(IoFailure(cleanup.error, publicationAttempted));
    }
  }

  // ----- what an undisturbed call does

  /** No content could be brought to the destination. */
  predicate GivesUp(job: Job, entries: Entries)
    requires job.destination != []
  {
    ParentBlocks(job, entries) || View(job, entries) == Conflict
    || (View(job, entries) == DifferentRegular && job.policy == Reject)
  }

  /** Who gets to put an entry at the destination during the call. */
  function Intruder(job: Job, scenario: Scenario, entries: Entries, content: seq<Byte>): Option<Entry>
    requires job.destination != []
  {
    if ParentBlocks(job, entries) || !job.IsTarget(content) then None
    else match scenario
      case IntruderBeforeCreate(entry) => if View(job, entries) == Missing then Some(entry) else None
      case IntruderBeforeRename(entry) =>
        if View(job, entries) == DifferentRegular && job.policy == ReplaceRegularFile then Some(entry) else None
      case _ => None
  }

  /** What is done about an entry that got there first: the target is reused, a different
      file replaced if the policy allows, all else left alone. */
  function Against(job: Job, entry: Entry): Result<Disposition, MaterializationError> {
    match VerdictOn(job, Some(entry))
    case Exact => Success(Reused)
    case DifferentRegular =>
      if job.policy == ReplaceRegularFile then Success(Copied) else Failure(MaterializationError(ConflictKind, true))
    case _ => Failure(MaterializationError(ConflictKind, true))
  }

  /** Why content cannot be staged: it is not the tree entry's, or not the expected file. */
  function Rejection(job: Job, content: seq<Byte>): Option<MaterializationError> {
    if !IsContent(job.primitives, job.entry, content) then
      Some(MaterializationError(ContentFailure(Corrupt), false))
    else if job.primitives.sha256(content) != job.digest then Some(MaterializationError(DigestMismatch, false))
    else None
  }

  /** Staging undisturbed comes to that. */
  predicate StagedOr(job: Job, content: seq<Byte>, r: Result<(), MaterializationError>) {
    match Rejection(job, content)
    case None => r.Success?
    case Some(error) => r == Failure(error)
  }

  /** What is answered: the disposition, or the very failure.  A destination that cannot be
      used is a conflict before anything is staged; content that is not the target is told
      apart from it; and a lost race or a refused rename says that something was tried. */
  function Decide(job: Job, scenario: Scenario, entries: Entries, content: seq<Byte>)
    : Result<Disposition, MaterializationError>
    requires job.destination != []
  {
    var intruder, rejection := Intruder(job, scenario, entries, content), Rejection(job, content);
    if GivesUp(job, entries) then Failure(MaterializationError(ConflictKind, false))
    else if View(job, entries) == Exact then Success(Reused)
    else if rejection.Some? then Failure(rejection.value)
    else if intruder.None? then Success(Copied)
    else if View(job, entries) == Missing then Against(job, intruder.value)
    else if intruder.value == Directory then Failure(MaterializationError(Io(OtherIo), true))
    else Success(Copied)
  }

  function After(job: Job, scenario: Scenario, entries: Entries, content: seq<Byte>): Entries
    requires job.destination != []
  {
    var intruder := Intruder(job, scenario, entries, content);
    if Decide(job, scenario, entries, content) == Success(Copied) then entries[job.destination := File(content)]
    else if intruder.Some? then entries[job.destination := intruder.value]
    else entries
  }

  /** What is not a file is overwritten exactly if someone puts it there between the check
      of the destination's kind and the rename, and it is no directory. */
  predicate Oversteps(job: Job, scenario: Scenario, entries: Entries, content: seq<Byte>)
    requires job.destination != []
  {
    scenario.IntruderBeforeRename? && Intruder(job, scenario, entries, content) == Some(Other)
  }

  /** Two states that differ at most in the staging entry. */
  ghost predicate SameButStaging(job: Job, a: Entries, b: Entries) {
    forall location :: location != job.staging ==> At(a, location) == At(b, location)
  }

  /** The staging entry is a sibling of the destination. */
  predicate Siblings(job: Job) {
    && job.destination != [] && job.staging != [] && job.destination != job.staging
    && ParentOf(job.destination) == ParentOf(job.staging)
  }

  lemma SameView(job: Job, a: Entries, b: Entries)
    requires Siblings(job) && SameButStaging(job, a, b)
    ensures View(job, a) == View(job, b) && ParentBlocks(job, a) == ParentBlocks(job, b)
  {
    assert At(a, job.destination) == At(b, job.destination);
    assert At(a, ParentOf(job.destination)) == At(b, ParentOf(job.destination));
  }

  lemma SameUpdated(job: Job, a: Entries, b: Entries, entry: Entry)
    requires SameButStaging(job, a, b)
    ensures SameButStaging(job, a[job.destination := entry], b[job.destination := entry])
  {
    var a', b' := a[job.destination := entry], b[job.destination := entry];
    forall location | location != job.staging ensures At(a', location) == At(b', location) {
      assert At(a, location) == At(b, location);
    }
  }

  lemma SameThrough(job: Job, a: Entries, b: Entries, c: Entries)
    requires SameButStaging(job, a, b) && SameButStaging(job, b, c)
    ensures SameButStaging(job, a, c)
  {
    forall location | location != job.staging ensures At(a, location) == At(c, location) {
      assert At(a, location) == At(b, location) && At(b, location) == At(c, location);
    }
  }

  /** The staging entry has no say in what is decided. */
  lemma SameDecision(job: Job, scenario: Scenario, a: Entries, b: Entries, content: seq<Byte>)
    requires Siblings(job) && SameButStaging(job, a, b)
    ensures Decide(job, scenario, a, content) == Decide(job, scenario, b, content)
    ensures Oversteps(job, scenario, a, content) == Oversteps(job, scenario, b, content)
    ensures SameButStaging(job, After(job, scenario, a, content), After(job, scenario, b, content))
  {
    SameView(job, a, b);
    SameUpdated(job, a, b, File(content));
    var intruder := Intruder(job, scenario, a, content);
    if intruder.Some? {
      SameUpdated(job, a, b, intruder.value);
    }
  }

  lemma SameEverywhere(job: Job, a: Entries, b: Entries)
    requires SameButStaging(job, a, b) && job.staging !in a && job.staging !in b
    ensures a == b
  {
    forall location ensures location in a <==> location in b
      ensures location in a ==> a[location] == b[location]
    {
      assert location != job.staging ==> At(a, location) == At(b, location);
    }
  }

  lemma ViewInstalled(job: Job, before: Entries, after: Entries, bytes: seq<Byte>)
    requires Siblings(job) && job.IsTarget(bytes)
    requires SameButStaging(job, after, before[job.destination := File(bytes)])
    ensures View(job, after) == Exact && ParentBlocks(job, after) == ParentBlocks(job, before)
  {
    SameView(job, after, before[job.destination := File(bytes)]);
  }

  /** The result an undisturbed call has to have. */
  predicate Settled(
    job: Job, scenario: Scenario, entries: Entries, content: seq<Byte>,
    r: Result<Materialization, MaterializationError>)
    requires job.destination != []
  {
    match Decide(job, scenario, entries, content)
    case Failure(error) => r == Failure(error)
    case Success(disposition) => r == Success(Done(job, disposition))
  }

  /** Result, entries and what was overwritten are as `before` and the scenario ask. */
  ghost predicate Fulfilled(
    fs: FileSystem, before: Entries, content: seq<Byte>, overwritten: bool,
    r: Result<Materialization, MaterializationError>)
    requires fs.job.destination != []
    reads fs
  {
    && Settled(fs.job, fs.scenario, before, content, r)
    && SameButStaging(fs.job, fs.entries, After(fs.job, fs.scenario, before, content))
    && fs.totals.overwritten == (overwritten || Oversteps(fs.job, fs.scenario, before, content))
    && (r.Failure? && !r.error.mayHavePublished ==> fs.totals.attempts == 0)
  }

  /** Result and entries are as the entry that stood there first asks. */
  ghost predicate SettledAgainst(
    fs: FileSystem, standing: Entries, content: seq<Byte>, overwritten: bool,
    r: Result<Materialization, MaterializationError>)
    requires fs.job.destination in standing
    reads fs
  {
    var answer := Against(fs.job, standing[fs.job.destination]);
    && r == (if answer.Success? then Success(Done(fs.job, answer.value)) else Failure(answer.error))
    && SameButStaging(
         fs.job, fs.entries,
         if answer == Success(Copied) then standing[fs.job.destination := File(content)] else standing)
    && fs.totals.overwritten == overwritten
  }

  lemma FulfilledSame(
    fs: FileSystem, ready: Entries, before: Entries, content: seq<Byte>, overwritten: bool,
    r: Result<Materialization, MaterializationError>)
    requires Siblings(fs.job) && SameButStaging(fs.job, ready, before) && Fulfilled(fs, ready, content, overwritten, r)
    ensures Fulfilled(fs, before, content, overwritten, r)
  {
    SameDecision(fs.job, fs.scenario, ready, before, content);
    SameThrough(
      fs.job, fs.entries, After(fs.job, fs.scenario, ready, content), After(fs.job, fs.scenario, before, content));
  }

  /** An undisturbed call, on a file system that reports nothing after creating a file. */
  predicate Untroubled(fs: FileSystem, token: CancellationToken)
    reads token
  {
    Calm(fs, token) && !fs.scenario.FaultAfterCreation?
  }

  /** An undisturbed call, on one that does. */
  predicate Afflicted(fs: FileSystem, token: CancellationToken)
    reads token
  {
    Calm(fs, token) && fs.scenario.FaultAfterCreation?
  }

  // ----- the call

  /** What every piece of the call promises, whatever it returns. */
  twostate predicate Underway<T>(
    fs: FileSystem, token: CancellationToken, cleanup: StagingCleanup, foreign: Option<Entry>,
    new r: Result<T, MaterializationError>)
    reads fs, token, cleanup
  {
    && cleanup.root == fs && cleanup.Agrees(foreign) && Elapsed(token) && Told(token, r)
    && (r.Failure? && r.error.mayHavePublished ==> cleanup.publicationAttempted)
    && fs.totals.touches <= old(fs.totals.touches) + 1
    && (!old(token.Observed()) ==> fs.totals.guided == old(fs.totals.guided))
    && old(fs.totals.acts) <= fs.totals.acts
  }

  /** And about a result. */
  twostate predicate Outcome(
    fs: FileSystem, token: CancellationToken, cleanup: StagingCleanup, foreign: Option<Entry>,
    new r: Result<Materialization, MaterializationError>)
    reads fs, token, cleanup
  {
    && Underway(fs, token, cleanup, foreign, r)
    && (r.Success? ==>
          && r.value == Done(fs.job, r.value.disposition)
          && fs.totals.evidence.exact
          && (r.value.disposition == Copied ==> fs.totals.evidence == Evidence(true, true, true))
          && (r.value.disposition == Reused ==> fs.totals.touches == old(fs.totals.touches)))
  }

  /** That is what an inspection would find now. */
  predicate Stands(fs: FileSystem, verdict: Verdict)
    requires fs.job.destination != []
    reads fs
  {
    !ParentBlocks(fs.job, fs.entries) && View(fs.job, fs.entries) == verdict
  }

  /** The one attempt to replace a different file that was seen. */
  method ReplaceOnce(
    fs: FileSystem, token: CancellationToken, cleanup: StagingCleanup, ghost bytes: seq<Byte>)
    returns (r: Result<(), MaterializationError>, ghost act: Act)
    requires cleanup.root == fs && cleanup.Agrees(None) && cleanup.active
    requires fs.Staged(bytes) && Siblings(fs.job) && fs.job.policy == ReplaceRegularFile
    requires Prompted(fs.job, fs.totals, true) && fs.token == token && fs.stamp <= |token.journal|
    modifies fs, token, cleanup
    ensures Underway(fs, token, cleanup, None, r) && !fs.totals.leaked
    ensures old(fs.totals.attempts) <= fs.totals.attempts <= old(fs.totals.attempts) + 1
    ensures r.Success? ==>
              && fs.totals.attempts == old(fs.totals.attempts) + 1 && fs.totals.evidence.installed
              && cleanup.publicationAttempted
    ensures old(Calm(fs, token)) && old(Stands(fs, DifferentRegular)) ==>
              && act.Install? && fs.Renamed(fs.With(old(fs.entries), fs.BeforeRename()), bytes, act)
              && r == (if act.effect == Installed then Success(())
                       else Failure(MaterializationError(Io(OtherIo), true)))
              && Calm(fs, token)
              && fs.totals.overwritten == (old(fs.totals.overwritten) || Overwrites(act))
  {
    act := Interference;
    r := PassPoint(fs, token, cleanup.publicationAttempted);
    if r.Success? {
      cleanup.MarkPublicationAttempted();
      var installed;
      installed, act := fs.InstallStagedReplace(bytes);
      if installed.Failure? {
        r := Failure(IoFailure(installed.error, true));
      } else {
        cleanup.Deactivate();
        r := CheckCancellation(token, true);
      }
    }
  }

  method InstallReplacement(
    fs: FileSystem, token: CancellationToken, cleanup: StagingCleanup, ghost bytes: seq<Byte>)
    returns (r: Result<Materialization, MaterializationError>)
    requires cleanup.root == fs && cleanup.Agrees(None) && cleanup.active
    requires fs.Staged(bytes) && Siblings(fs.job) && fs.job.policy == ReplaceRegularFile
    requires Prompted(fs.job, fs.totals, true) && fs.token == token && fs.stamp <= |token.journal|
    modifies fs, token, cleanup
    ensures Outcome(fs, token, cleanup, None, r) && !fs.totals.leaked
    ensures old(fs.totals.attempts) <= fs.totals.attempts <= old(fs.totals.attempts) + 1
    ensures r.Success? ==> r.value.disposition == Copied && fs.totals.attempts == old(fs.totals.attempts) + 1
    ensures old(Untroubled(fs, token)) && old(Stands(fs, DifferentRegular)) ==>
              Fulfilled(fs, old(fs.entries), bytes, old(fs.totals.overwritten), r)
  {
    ghost var before := fs.entries;
    var replaced;
    ghost var act;
    replaced, act := ReplaceOnce(fs, token, cleanup, bytes);
    if old(Untroubled(fs, token)) && old(Stands(fs, DifferentRegular)) {
      RenamedFulfils(fs, before, bytes, act);
    }
    if replaced.Failure? {
      r := Failure(replaced.error);
    } else {
      r := FinishInstall(fs, token);
    }
  }

  lemma RenamedFulfils(fs: FileSystem, before: Entries, bytes: seq<Byte>, act: Act)
    requires Siblings(fs.job) && fs.job.IsTarget(bytes) && fs.job.policy == ReplaceRegularFile
    requires !ParentBlocks(fs.job, before) && View(fs.job, before) == DifferentRegular
    requires act.Install? && fs.Renamed(fs.With(before, fs.BeforeRename()), bytes, act)
    ensures Decide(fs.job, fs.scenario, before, bytes) ==
            if act.effect == Installed then Success(Copied) else Failure(MaterializationError(Io(OtherIo), true))
    ensures SameButStaging(fs.job, fs.entries, After(fs.job, fs.scenario, before, bytes))
    ensures Overwrites(act) == Oversteps(fs.job, fs.scenario, before, bytes)
    ensures act.effect == Installed ==>
              View(fs.job, fs.entries) == Exact && !ParentBlocks(fs.job, fs.entries)
  {
    if act.effect == Installed {
      ViewInstalled(fs.job, before, fs.entries, bytes);
    }
  }

  /** What has to follow from a look at someone else's file: if it is the target it is
      reused, a different one is replaced if the policy allows, all else is a conflict. */
  predicate Follows(job: Job, verdict: Verdict, attempts: nat, r: Result<Materialization, MaterializationError>) {
    if verdict == Exact then attempts == 0 && r == Success(Done(job, Reused))
    else if verdict == DifferentRegular && job.policy == ReplaceRegularFile then
      attempts <= 1 && (r.Success? ==> attempts == 1 && r.value.disposition == Copied)
    else attempts == 0 && r == Failure(MaterializationError(ConflictKind, true))
  }

  /** Someone else's file got there first. */
  method SettleExisting(
    fs: FileSystem, token: CancellationToken, cleanup: StagingCleanup, ghost bytes: seq<Byte>)
    returns (r: Result<Materialization, MaterializationError>, ghost verdict: Option<Verdict>)
    requires cleanup.root == fs && cleanup.Agrees(None) && cleanup.active && cleanup.publicationAttempted
    requires fs.Staged(bytes) && Siblings(fs.job) && fs.totals.durable && fs.token == token
    modifies fs, token, cleanup
    ensures Outcome(fs, token, cleanup, None, r) && !fs.totals.leaked
    ensures old(fs.totals.attempts) <= fs.totals.attempts <= old(fs.totals.attempts) + 1
    ensures verdict.None? ==> r.Failure? && fs.totals.attempts == old(fs.totals.attempts)
    ensures verdict.None? && !FromReading(r.error) ==> fs.totals == old(fs.totals)
    ensures verdict.Some? ==>
              && SawAt(fs.job, fs.totals.acts, |old(fs.totals.acts)|, verdict.value)
              && Follows(fs.job, verdict.value, fs.totals.attempts - old(fs.totals.attempts), r)
    ensures old(Untroubled(fs, token)) && fs.scenario.IntruderBeforeCreate?
              && old(!ParentBlocks(fs.job, fs.entries) && !Stands(fs, Missing)) ==>
              SettledAgainst(fs, old(fs.entries), bytes, old(fs.totals.overwritten), r)
  {
    var found, look := InspectDestination(fs, token, true);
    if found.Failure? {
      return Failure(found.error), None;
    }
    verdict := Some(found.value);
    assert SawAt(fs.job, fs.totals.acts, |old(fs.totals.acts)|, found.value);
    if found.value == Exact {
      r := Success(Done(fs.job, Reused));
    } else if found.value == DifferentRegular && fs.job.policy == ReplaceRegularFile {
      r := InstallReplacement(fs, token, cleanup, bytes);
    } else {
      r := Failure(MaterializationError(ConflictKind, true));
    }
  }

  /** Act `k` is a look with that verdict. */
  predicate SawAt(job: Job, acts: seq<Act>, k: nat, verdict: Verdict) {
    k < |acts| && acts[k].Look? && VerdictOf(job, acts[k].found) == verdict
  }

  datatype Race = Failed | Won | Lost

  /** How an attempt to create the destination went, if act `k` is one. */
  function RaceAt(acts: seq<Act>, k: nat): Race {
    if k < |acts| && acts[k].Install? && !acts[k].replace then
      match acts[k].effect
      case Installed => Won
      case FoundExisting => Lost
      case _ => Failed
    else Failed
  }

  lemma RaceStays(acts: seq<Act>, longer: seq<Act>, k: nat)
    requires acts <= longer && k < |acts|
    ensures RaceAt(longer, k) == RaceAt(acts, k)
  {
  }

  /** The result is what the race, and the look after a lost one, call for. */
  predicate Raced(
    job: Job, acts: seq<Act>, k: nat, attempts: nat, verdict: Option<Verdict>,
    r: Result<Materialization, MaterializationError>)
  {
    match RaceAt(acts, k)
    case Failed => r.Failure? && attempts <= 1
    case Won => attempts == 1 && (r.Success? ==> r.value.disposition == Copied)
    case Lost =>
      if verdict.None? then attempts == 1 && r.Failure?
      else attempts > 0 && SawAt(job, acts, k + 1, verdict.value) && Follows(job, verdict.value, attempts - 1, r)
  }

  /** The one attempt to create the destination where nothing was seen to stand. */
  method CreateOnce(
    fs: FileSystem, token: CancellationToken, cleanup: StagingCleanup, ghost bytes: seq<Byte>)
    returns (r: Result<CreateOnceOutcome, MaterializationError>)
    requires cleanup.root == fs && cleanup.Agrees(None) && cleanup.active
    requires fs.Staged(bytes) && Siblings(fs.job)
    requires Prompted(fs.job, fs.totals, false) && fs.token == token && fs.stamp <= |token.journal|
    modifies fs, token, cleanup
    ensures Underway(fs, token, cleanup, None, r) && !fs.totals.leaked
    ensures old(fs.totals.attempts) <= fs.totals.attempts
    ensures r.Failure? ==> fs.totals.attempts <= old(fs.totals.attempts) + 1
    ensures r.Failure? && RaceAt(fs.totals.acts, |old(fs.totals.acts)|) != Failed ==>
              fs.totals.attempts == old(fs.totals.attempts) + 1
    ensures r.Success? ==>
              && fs.totals.attempts == old(fs.totals.attempts) + 1 && |fs.totals.acts| == |old(fs.totals.acts)| + 1
              && RaceAt(fs.totals.acts, |old(fs.totals.acts)|) == (if r.value == Created then Won else Lost)
              && fs.Staged(bytes) && cleanup.active && cleanup.publicationAttempted
              && fs.totals.durable && fs.totals.evidence.installed
              && (r.value == Existing ==> fs.totals.touches == old(fs.totals.touches))
    ensures old(Calm(fs, token)) && old(View(fs.job, fs.entries)) == Missing ==>
              && r == Success(if fs.scenario.IntruderBeforeCreate? then Existing else Created)
              && fs.totals.overwritten == old(fs.totals.overwritten)
              && CreatedIn(fs, old(fs.entries), bytes) && Calm(fs, token)
  {
    var checked := PassPoint(fs, token, false);
    if checked.Failure? {
      r := Failure(checked.error);
    } else {
      cleanup.MarkPublicationAttempted();
      var outcome, act := fs.InstallStagedCreateOnce(bytes);
      if outcome.Failure? {
        r := Failure(IoFailure(outcome.error, true));
      } else {
        checked := CheckCancellation(token, true);
        r := if checked.Failure? then Failure(checked.error) else Success(outcome.value);
      }
    }
  }

  /** A created file is confirmed, someone else's is settled with. */
  method FollowUp(
    fs: FileSystem, token: CancellationToken, cleanup: StagingCleanup, ghost bytes: seq<Byte>,
    created: CreateOnceOutcome, ghost before: Entries)
    returns (r: Result<Materialization, MaterializationError>, ghost verdict: Option<Verdict>)
    requires cleanup.root == fs && cleanup.Agrees(None) && cleanup.active && cleanup.publicationAttempted
    requires fs.Staged(bytes) && Siblings(fs.job) && fs.totals.durable && fs.token == token
    requires fs.totals.evidence.installed
    modifies fs, token, cleanup
    ensures Outcome(fs, token, cleanup, None, r) && !fs.totals.leaked
    ensures old(fs.totals.attempts) <= fs.totals.attempts <= old(fs.totals.attempts) + 1
    ensures created == Created ==>
              && fs.totals.attempts == old(fs.totals.attempts) && fs.totals.touches == old(fs.totals.touches)
              && (r.Success? ==> r.value.disposition == Copied)
    ensures created == Existing && verdict.None? ==> r.Failure? && fs.totals.attempts == old(fs.totals.attempts)
    ensures created == Existing && verdict.Some? ==>
              && SawAt(fs.job, fs.totals.acts, |old(fs.totals.acts)|, verdict.value)
              && Follows(fs.job, verdict.value, fs.totals.attempts - old(fs.totals.attempts), r)
    ensures old(Untroubled(fs, token)) && old(CreatedIn(fs, before, bytes))
              && !ParentBlocks(fs.job, before) && View(fs.job, before) == Missing
              && created == (if fs.scenario.IntruderBeforeCreate? then Existing else Created) ==>
              Fulfilled(fs, before, bytes, old(fs.totals.overwritten), r)
  {
    ghost var calm :=
      && Untroubled(fs, token) && CreatedIn(fs, before, bytes)
      && !ParentBlocks(fs.job, before) && View(fs.job, before) == Missing
      && created == (if fs.scenario.IntruderBeforeCreate? then Existing else Created);
    if calm {
      CreatedStands(fs, before, bytes);
    }
    if created == Created {
      verdict := None;
      r := FinishInstall(fs, token);
    } else {
      r, verdict := SettleExisting(fs, token, cleanup, bytes);
      if calm {
        FulfilledLater(fs, before, bytes, old(fs.totals.overwritten), r);
      }
    }
  }

  method InstallMissing(
    fs: FileSystem, token: CancellationToken, cleanup: StagingCleanup, ghost bytes: seq<Byte>)
    returns (r: Result<Materialization, MaterializationError>, ghost verdict: Option<Verdict>)
    requires cleanup.root == fs && cleanup.Agrees(None) && cleanup.active
    requires fs.Staged(bytes) && Siblings(fs.job)
    requires Prompted(fs.job, fs.totals, false) && fs.token == token && fs.stamp <= |token.journal|
    modifies fs, token, cleanup
    ensures Outcome(fs, token, cleanup, None, r) && !fs.totals.leaked
    ensures old(fs.totals.attempts) <= fs.totals.attempts <= old(fs.totals.attempts) + 2
    ensures Raced(
              fs.job, fs.totals.acts, |old(fs.totals.acts)|, fs.totals.attempts - old(fs.totals.attempts), verdict, r)
    ensures old(Untroubled(fs, token)) && old(Stands(fs, Missing)) ==>
              Fulfilled(fs, old(fs.entries), bytes, old(fs.totals.overwritten), r)
  {
    ghost var before := fs.entries;
    verdict := None;
    var created := CreateOnce(fs, token, cleanup, bytes);
    if created.Failure? {
      r := Failure(created.error);
    } else {
      ghost var acts := fs.totals.acts;
      r, verdict := FollowUp(fs, token, cleanup, bytes, created.value, before);
      RaceStays(acts, fs.totals.acts, |old(fs.totals.acts)|);
    }
  }

  /** What stands at the destination after an undisturbed attempt to create it. */
  ghost predicate CreatedIn(fs: FileSystem, before: Entries, bytes: seq<Byte>)
    reads fs
  {
    fs.entries ==
      before[fs.job.destination :=
        if fs.scenario.IntruderBeforeCreate? then fs.scenario.intruder else File(bytes)]
  }

  lemma CreatedStands(fs: FileSystem, before: Entries, bytes: seq<Byte>)
    requires Siblings(fs.job) && fs.job.IsTarget(bytes) && CreatedIn(fs, before, bytes)
    requires View(fs.job, before) == Missing && !ParentBlocks(fs.job, before)
    ensures !ParentBlocks(fs.job, fs.entries) && View(fs.job, fs.entries) != Missing
    ensures !fs.scenario.IntruderBeforeCreate? ==>
              && View(fs.job, fs.entries) == Exact
              && Decide(fs.job, fs.scenario, before, bytes) == Success(Copied)
              && fs.entries == After(fs.job, fs.scenario, before, bytes)
    ensures !Oversteps(fs.job, fs.scenario, before, bytes)
  {
    assert |ParentOf(fs.job.destination)| < |fs.job.destination|;
    assert At(fs.entries, ParentOf(fs.job.destination)) == At(before, ParentOf(fs.job.destination));
  }

  lemma FulfilledLater(
    fs: FileSystem, before: Entries, content: seq<Byte>, overwritten: bool,
    r: Result<Materialization, MaterializationError>)
    requires Siblings(fs.job) && fs.job.IsTarget(content) && fs.scenario.IntruderBeforeCreate?
    requires View(fs.job, before) == Missing && !ParentBlocks(fs.job, before)
    requires SettledAgainst(fs, before[fs.job.destination := fs.scenario.intruder], content, overwritten, r)
    ensures Fulfilled(fs, before, content, overwritten, r)
  {
    assert before[fs.job.destination := fs.scenario.intruder][fs.job.destination := File(content)]
        == before[fs.job.destination := File(content)];
  }

  /** Copies the source into the staging file and makes sure it is the target. */
  method StageContent(
    fs: FileSystem, token: CancellationToken, source: Reader, cleanup: StagingCleanup, ghost foreign: Option<Entry>)
    returns (r: Result<(), MaterializationError>)
    requires cleanup.root == fs && cleanup.Agrees(foreign) && !cleanup.active && !cleanup.publicationAttempted
    requires fs.token == token && Siblings(fs.job) && At(fs.entries, fs.job.staging) == foreign && !fs.totals.leaked
    requires source.token == token && source.position == 0 && !source.observedCancellation
    modifies fs, token, cleanup, source
    ensures cleanup.root == fs && cleanup.Agrees(foreign) && Elapsed(token) && Told(token, r)
    ensures !cleanup.publicationAttempted && fs.totals.attempts == 0 && fs.totals.touches == old(fs.totals.touches)
    ensures r.Failure? ==> !r.error.mayHavePublished
    ensures fs.totals.guided == old(fs.totals.guided) && fs.totals.overwritten == old(fs.totals.overwritten)
    ensures old(fs.totals.acts) <= fs.totals.acts
    ensures r.Success? ==>
              cleanup.active && foreign.None? && !fs.totals.leaked && fs.Staged(source.data) && fs.totals.durable
    ensures old(Afflicted(fs, token)) && foreign.None? ==> LeftBehind(fs, r) && !cleanup.active
    ensures old(Untroubled(fs, token)) && source.quiet && foreign.None? ==>
              && !fs.totals.leaked && SameButStaging(fs.job, fs.entries, old(fs.entries))
              && StagedOr(fs.job, source.data, r)
  {
    var checked := CheckCancellation(token, false);
    if checked.Failure? {
      return Failure(checked.error);
    }
    var created, took := fs.CreateNew();
    if created.Failure? {
      return Failure(IoFailure(created.error, false));
    }
    cleanup.Activate();
    checked := PassPoint(fs, token, false);
    if checked.Failure? {
      return Failure(checked.error);
    }
    r := FillStaging(fs, token, source);
  }

  /** An unsafe path is told apart from all other faults. */
  function AfterFault(fault: IoError): MaterializationError {
    match fault
    case UnsafePath => MaterializationError(UnsafeFileSystem, false)
    case other => MaterializationError(Io(other), false)
  }

  /** The call has failed, with nothing done but a staging file created and left. */
  twostate predicate LeftBehind<T>(fs: FileSystem, new r: Result<T, MaterializationError>)
    reads fs
  {
    && fs.scenario.FaultAfterCreation? && r == Failure(AfterFault(fs.scenario.fault))
    && fs.job.staging in fs.entries && fs.totals.attempts == old(fs.totals.attempts)
    && fs.totals.acts == old(fs.totals.acts) + [CreateStaging(false, true)]
  }

  /** Nothing done but to the staging file. */
  twostate predicate OnlyStaged(fs: FileSystem)
    reads fs
  {
    && fs.Valid() && fs.job.staging in fs.entries
    && fs.totals == old(fs.totals).(acts := fs.totals.acts, durable := fs.totals.durable)
    && old(fs.totals.acts) <= fs.totals.acts
    && (fs.quiet ==> SameButStaging(fs.job, fs.entries, old(fs.entries)))
  }

  /** Writes the source's bytes to the staging file, complete and synced or not at all. */
  method FillStaging(fs: FileSystem, token: CancellationToken, source: Reader)
    returns (r: Result<(), MaterializationError>)
    requires fs.Valid() && fs.Distinct() && fs.job.staging in fs.entries
    requires source.token == token && source.position == 0 && !source.observedCancellation
    modifies fs, token, source
    ensures Elapsed(token) && Told(token, r) && OnlyStaged(fs)
    ensures r.Failure? ==> !r.error.mayHavePublished
    ensures r.Success? ==> fs.Staged(source.data) && fs.totals.durable
    ensures old(Calm(fs, token)) && source.quiet ==> StagedOr(fs.job, source.data, r)
  {
    var writer := new Sink([], fs.quiet);
    var copied := CopyWithCancellation(fs.job.primitives, source, writer, fs.job.entry, false);
    fs.WriteAll(writer.bytes);
    assert copied.Success? ==> writer.bytes == source.data;
    if copied.Failure? {
      return Failure(copied.error);
    }
    if copied.value.1 != fs.job.digest {
      return Failure(MaterializationError(DigestMismatch, false));
    }
    r := SyncStaged(fs, token);
  }

  /** Flushes and syncs what was staged. */
  method SyncStaged(fs: FileSystem, token: CancellationToken) returns (r: Result<(), MaterializationError>)
    requires fs.Valid() && fs.job.staging in fs.entries
    modifies fs, token
    ensures Elapsed(token) && Told(token, r) && OnlyStaged(fs)
    ensures At(fs.entries, fs.job.staging) == old(At(fs.entries, fs.job.staging))
    ensures r.Failure? ==> !r.error.mayHavePublished
    ensures r.Success? ==> fs.totals.durable
    ensures old(Calm(fs, token)) ==> r.Success?
  {
    r := CheckCancellation(token, false);
    if r.Failure? {
      return;
    }
    var flushed := fs.Fault();
    if flushed.Some? {
      return Failure(IoFailure(flushed.value, false));
    }
    var synced := fs.SyncStaging();
    if synced.Failure? {
      return Failure(IoFailure(synced.error, false));
    }
    r := PassPoint(fs, token, false);
  }

  method StageAndInstall(
    fs: FileSystem, token: CancellationToken, source: Reader, cleanup: StagingCleanup, ghost foreign: Option<Entry>)
    returns (r: Result<Materialization, MaterializationError>)
    requires cleanup.root == fs && cleanup.Agrees(foreign) && !cleanup.active && !cleanup.publicationAttempted
    requires fs.token == token && Siblings(fs.job) && At(fs.entries, fs.job.staging) == foreign && !fs.totals.leaked
    requires source.token == token && source.position == 0 && !source.observedCancellation
    modifies fs, token, cleanup, source
    ensures Outcome(fs, token, cleanup, foreign, r) && fs.totals.attempts <= 2
    ensures old(Afflicted(fs, token)) && foreign.None? ==> LeftBehind(fs, r) && !cleanup.active
    ensures old(Untroubled(fs, token)) && source.quiet && foreign.None?
              && old(View(fs.job, fs.entries)) != Exact && old(!GivesUp(fs.job, fs.entries)) ==>
              !fs.totals.leaked && Fulfilled(fs, old(fs.entries), source.data, old(fs.totals.overwritten), r)
  {
    ghost var before := fs.entries;
    var staged := StageContent(fs, token, source, cleanup, foreign);
    if staged.Failure? {
      return Failure(staged.error);
    }
    ghost var ready := fs.entries;
    r := LookAndInstall(fs, token, cleanup, source.data);
    if old(Untroubled(fs, token)) && source.quiet && foreign.None? {
      FulfilledSame(fs, ready, before, source.data, old(fs.totals.overwritten), r);
    }
  }

  /** The second look, and what it calls for. */
  method LookAndInstall(
    fs: FileSystem, token: CancellationToken, cleanup: StagingCleanup, ghost bytes: seq<Byte>)
    returns (r: Result<Materialization, MaterializationError>)
    requires cleanup.root == fs && cleanup.Agrees(None) && cleanup.active && fs.token == token
    requires fs.Staged(bytes) && Siblings(fs.job) && fs.totals.attempts == 0 && fs.totals.durable
    modifies fs, token, cleanup
    ensures Outcome(fs, token, cleanup, None, r) && !fs.totals.leaked && fs.totals.attempts <= 2
    ensures old(Untroubled(fs, token)) ==> Fulfilled(fs, old(fs.entries), bytes, old(fs.totals.overwritten), r)
  {
    var verdict, look := InspectDestination(fs, token, false);
    if verdict.Failure? {
      r := Failure(verdict.error);
    } else {
      r := InstallAs(fs, token, cleanup, verdict.value, bytes);
    }
  }

  /** Installs the staged file according to what the second look found. */
  method InstallAs(
    fs: FileSystem, token: CancellationToken, cleanup: StagingCleanup, verdict: Verdict, ghost bytes: seq<Byte>)
    returns (r: Result<Materialization, MaterializationError>)
    requires cleanup.root == fs && cleanup.Agrees(None) && cleanup.active
    requires fs.Staged(bytes) && Siblings(fs.job) && fs.totals.attempts == 0 && fs.totals.durable
    requires fs.token == token && fs.stamp <= |token.journal|
    requires fs.totals.acts != [] && SawAt(fs.job, fs.totals.acts, |fs.totals.acts| - 1, verdict)
    requires verdict == Exact ==> fs.totals.evidence.exact
    modifies fs, token, cleanup
    ensures Outcome(fs, token, cleanup, None, r) && !fs.totals.leaked && fs.totals.attempts <= 2
    ensures old(Untroubled(fs, token)) && old(Stands(fs, verdict)) ==>
              Fulfilled(fs, old(fs.entries), bytes, old(fs.totals.overwritten), r)
  {
    if verdict == Exact {
      r := Success(Done(fs.job, Reused));
    } else if verdict == Missing {
      ghost var after;
      r, after := InstallMissing(fs, token, cleanup, bytes);
    } else if verdict == DifferentRegular && fs.job.policy != Reject {
      r := InstallReplacement(fs, token, cleanup, bytes);
    } else {
      r := Failure(MaterializationError(ConflictKind, false));
    }
  }

  function StagingFileName(name: string): string {
    ".hf-store-" + name + ".tmp"
  }

  /** A staging file is hidden, says whose it is, and is no one else's. */
  lemma StagingFileNames(name: string, other: string)
    ensures ".hf-store-" <= StagingFileName(name)
    ensures |StagingFileName(name)| == |".hf-store-"| + |name| + |".tmp"|
    ensures StagingFileName(name)[|".hf-store-"| + |name|..] == ".tmp"
    ensures StagingFileName(name) == StagingFileName(other) <==> name == other
  {
    assert StagingFileName(name)[|".hf-store-"|..|StagingFileName(name)| - |".tmp"|] == name;
    assert StagingFileName(other)[|".hf-store-"|..|StagingFileName(other)| - |".tmp"|] == other;
  }

  /** The look before anything is staged: reuse what is there, go on, or give up. */
  method FirstLook(fs: FileSystem, token: CancellationToken, layoutAccepts: bool)
    returns (reuse: Result<bool, MaterializationError>)
    requires fs.Valid() && fs.token == token && token.Valid() && fs.job.destination != []
    modifies fs, token
    ensures Looked(fs) && Elapsed(token) && Told(token, reuse)
    ensures old(token.Observed()) ==>
              reuse == Failure(MaterializationError(CancelledKind, false)) && fs.totals == old(fs.totals)
    ensures reuse.Success? ==>
              && !token.Observed() && |fs.totals.acts| == |old(fs.totals.acts)| + 1
              && fs.totals.acts[|old(fs.totals.acts)|].Look?
    ensures reuse.Failure? ==> !reuse.error.mayHavePublished
    ensures !layoutAccepts && !token.Observed() ==>
              reuse == Failure(MaterializationError(InvalidPath, false)) && fs.totals == old(fs.totals)
    ensures reuse == Success(true) ==> fs.totals.evidence.exact
    ensures old(Calm(fs, token)) && layoutAccepts ==>
              if GivesUp(fs.job, fs.entries) then reuse == Failure(MaterializationError(ConflictKind, false))
              else reuse == Success(View(fs.job, fs.entries) == Exact)
  {
    var checked := CheckCancellation(token, false);
    if checked.Failure? {
      return Failure(checked.error);
    }
    if !layoutAccepts {
      return Failure(MaterializationError(InvalidPath, false));
    }
    var initial, look := InspectDestination(fs, token, false);
    if initial.Failure? {
      return Failure(initial.error);
    }
    if initial.value == Exact {
      return Success(true);
    }
    if initial.value == Conflict || (initial.value == DifferentRegular && fs.job.policy == Reject) {
      return Failure(MaterializationError(ConflictKind, false));
    }
    checked := CheckCancellation(token, false);
    if checked.Failure? {
      return Failure(checked.error);
    }
    reuse := Success(false);
  }

  /** Everything from the creation of the staging file to its removal. */
  method StageInstallAndClean(fs: FileSystem, token: CancellationToken, source: Reader)
    returns (r: Result<Materialization, MaterializationError>)
    requires fs.Valid() && Siblings(fs.job) && fs.token == token && !token.Observed()
    requires fs.totals.attempts == 0 && fs.totals.touches == 0 && !fs.totals.leaked
    requires source.token == token && source.position == 0 && !source.observedCancellation
    modifies fs, token, source
    ensures fs.Valid() && Elapsed(token) && Told(token, r)
    ensures r.Failure? ==> (r.error.mayHavePublished <==> fs.totals.attempts > 0)
    ensures fs.totals.attempts <= 2 && fs.totals.touches <= 1 && fs.totals.guided == old(fs.totals.guided)
    ensures r.Success? ==>
              && r.value == Done(fs.job, r.value.disposition) && fs.totals.evidence.exact
              && (r.value.disposition == Copied ==> fs.totals.evidence == Evidence(true, true, true))
              && (r.value.disposition == Reused ==> fs.totals.touches == 0)
    ensures old(fs.job.staging in fs.entries) ==> At(fs.entries, fs.job.staging) == old(At(fs.entries, fs.job.staging))
    ensures old(fs.job.staging !in fs.entries) ==> (fs.job.staging in fs.entries <==> fs.totals.leaked)
    ensures old(Afflicted(fs, token)) && old(fs.job.staging !in fs.entries) ==> LeftBehind(fs, r)
    ensures old(Untroubled(fs, token)) && source.quiet && old(fs.job.staging !in fs.entries)
              && old(View(fs.job, fs.entries)) != Exact && old(!GivesUp(fs.job, fs.entries)) ==>
              && Settled(fs.job, fs.scenario, old(fs.entries), source.data, r)
              && fs.entries == After(fs.job, fs.scenario, old(fs.entries), source.data)
              && fs.totals.overwritten ==
                   (old(fs.totals.overwritten) || Oversteps(fs.job, fs.scenario, old(fs.entries), source.data))
  {
    var cleanup := new StagingCleanup(fs);
    ghost var foreign, before := At(fs.entries, fs.job.staging), fs.entries;
    var result := StageAndInstall(fs, token, source, cleanup, foreign);
    ghost var goal := After(fs.job, fs.scenario, before, source.data);
    ghost var done := fs.entries;
    r := cleanup.Finish(result, foreign);
    if foreign.None? && fs.entries == done - {fs.job.staging} && SameButStaging(fs.job, done, goal) {
      SameEverywhere(fs.job, fs.entries, goal);
    }
  }

  /** One call, from a fresh look at the destination to the removal of its staging file. */
  method MaterializeWithCancellation(
    fs: FileSystem, token: CancellationToken, source: Reader, layoutAccepts: bool, stagingName: Result<string, IoError>)
    returns (r: Result<Materialization, MaterializationError>, ghost inspection: nat)
    requires fs.Valid() && fs.totals == NOTHING_YET && fs.initial == fs.entries && fs.job.destination != []
    requires fs.token == token && token.Valid()
    requires stagingName.Success? ==>
               fs.job.staging == ParentOf(fs.job.destination) + [StagingFileName(stagingName.value)]
    requires source.token == token && source.position == 0 && !source.observedCancellation
    modifies fs, token, source
    ensures fs.Valid() && Elapsed(token)
    // The flag is exact, and without it the destination is as others left it.
    ensures r.Failure? ==> (r.error.mayHavePublished <==> fs.totals.attempts > 0)
    ensures fs.totals.attempts <= 2 && fs.totals.touches <= 1 && fs.totals.touches <= fs.totals.attempts
    // Each install was called for by a look just before, cleared by the token, and of synced bytes.
    ensures InstallsAreGuided(fs.job, fs.totals.acts)
    // Cancellation is reported exactly when a look at the token found it.
    ensures old(token.Observed()) ==>
              r == Failure(MaterializationError(CancelledKind, false)) && fs.totals == NOTHING_YET
    ensures token.Observed() <==> r.Failure? && r.error.kind == CancelledKind
    // Success was confirmed by looking.
    ensures r.Success? ==>
              && r.value.path == fs.job.destination && r.value.size == fs.job.entry.size
              && r.value.digest == fs.job.digest
              && Confirmed(fs.job, fs.totals.acts, r.value.disposition == Copied, inspection)
              && (r.value.disposition == Reused ==> fs.totals.touches == 0)
    // Nothing of the call's own stays at the staging name unless an act leaked it.
    ensures fs.job.staging in fs.initial ==> At(fs.entries, fs.job.staging) == At(fs.initial, fs.job.staging)
    ensures fs.job.staging !in fs.initial ==> (fs.job.staging in fs.entries <==> fs.totals.leaked)
    // Undisturbed, the call does exactly what the state, the source and the scenario ask for,
    ensures old(Untroubled(fs, token)) && source.quiet && Admitted(fs, layoutAccepts, stagingName) ==>
              && Settled(fs.job, fs.scenario, fs.initial, source.data, r)
              && fs.entries == After(fs.job, fs.scenario, fs.initial, source.data)
              && (fs.totals.overwritten <==> Oversteps(fs.job, fs.scenario, fs.initial, source.data))
    // refuses a layout or a staging name it cannot use,
    ensures !layoutAccepts && !token.Observed() ==>
              r == Failure(MaterializationError(InvalidPath, false)) && fs.totals == NOTHING_YET
    ensures old(Calm(fs, token)) && layoutAccepts
              && !GivesUp(fs.job, fs.initial) && View(fs.job, fs.initial) != Exact ==>
              && (stagingName.Failure? ==> r == Failure(AfterFault(stagingName.error)) && fs.entries == fs.initial)
              && (stagingName.Success? && SamePortably(fs.job, stagingName.value) ==>
                    r == Failure(MaterializationError(ConflictKind, false)) && fs.entries == fs.initial)
    // and leaves its staging file behind if creating that reports a failure afterwards.
    ensures old(Afflicted(fs, token)) && Admitted(fs, layoutAccepts, stagingName)
              && View(fs.job, fs.initial) != Exact && !GivesUp(fs.job, fs.initial) ==>
              && r == Failure(AfterFault(fs.scenario.fault)) && fs.job.staging in fs.entries
              && |fs.totals.acts| == 2 && fs.totals.acts[0].Look? && fs.totals.acts[1] == CreateStaging(false, true)
  {
    inspection := 0;
    var reuse := FirstLook(fs, token, layoutAccepts);
    GuidedMeans(fs.job, fs.history);
    if reuse.Failure? {
      return Failure(reuse.error), inspection;
    }
    if reuse.value {
      inspection := EvidenceOrder(fs.job, fs.history);
      return Success(Done(fs.job, Reused)), inspection;
    }
    if stagingName.Failure? {
      return Failure(IoFailure(stagingName.error, false)), inspection;
    }
    var destinationName := fs.job.destination[|fs.job.destination| - 1];
    var stagingFile := StagingFileName(stagingName.value);
    if fs.job.primitives.portableKey(destinationName) == fs.job.primitives.portableKey(stagingFile) {
      return Failure(MaterializationError(ConflictKind, false)), inspection;
    }
    r := StageInstallAndClean(fs, token, source);
    if r.Success? {
      inspection := EvidenceOrder(fs.job, fs.history);
    }
    NoAttemptNoTouch(fs.job, fs.history);
    GuidedMeans(fs.job, fs.history);
  }

  /** Nothing about its names keeps the call from staging. */
  ghost predicate Admitted(fs: FileSystem, layoutAccepts: bool, stagingName: Result<string, IoError>)
    requires fs.job.destination != []
  {
    layoutAccepts && stagingName.Success? && fs.job.staging !in fs.initial && !SamePortably(fs.job, stagingName.value)
  }

  /** The staging file would have the destination's name on some host. */
  predicate SamePortably(job: Job, name: string)
    requires job.destination != []
  {
    job.primitives.portableKey(job.destination[|job.destination| - 1])
    == job.primitives.portableKey(StagingFileName(name))
  }

  /** A staging file that outlives its call although nothing was to be removed: the whole
      call, alone in an empty directory, with one fault after the file was created. */
  method StagingOutlivesCall(job: Job, name: string, content: seq<Byte>, fault: IoError)
    returns (fs: FileSystem, r: Result<Materialization, MaterializationError>)
    requires job.destination != [] && job.staging == ParentOf(job.destination) + [StagingFileName(name)]
    requires job.primitives.portableKey(job.destination[|job.destination| - 1])
             != job.primitives.portableKey(StagingFileName(name))
    ensures r == Failure(AfterFault(fault)) && fs.Valid() && fs.job == job
    ensures fs.initial == map[] && job.staging in fs.entries
    ensures forall k :: 0 <= k < |fs.totals.acts| ==> !fs.totals.acts[k].RemoveStaging?
  {
    var token := new CancellationToken(false);
    fs := new FileSystem(map[], true, FaultAfterCreation(fault), job, token);
    var source := new Reader(content, true, token);
    ghost var inspection;
    r, inspection := MaterializeWithCancellation(fs, token, source, true, Success(name));
  }

  lemma OneDifferentFile(job: Job, different: seq<Byte>, content: seq<Byte>)
    requires job.destination != []
    requires job.policy == ReplaceRegularFile && job.IsTarget(content) && !job.IsTarget(different)
    ensures var entries, scenario := map[job.destination := File(different)], IntruderBeforeRename(Other);
            && Decide(job, scenario, entries, content) == Success(Copied)
            && After(job, scenario, entries, content) == map[job.destination := File(content)]
            && Oversteps(job, scenario, entries, content)
  {
    assert |ParentOf(job.destination)| < |job.destination|;
  }

  /** A replacement that overwrites what is not a file: the whole call, with someone's
      entry put at the destination between the check of its kind and the rename. */
  method ReplacementOverwrites(job: Job, name: string, different: seq<Byte>, content: seq<Byte>)
    returns (fs: FileSystem, r: Result<Materialization, MaterializationError>)
    requires job.destination != [] && job.staging == ParentOf(job.destination) + [StagingFileName(name)]
    requires job.primitives.portableKey(job.destination[|job.destination| - 1])
             != job.primitives.portableKey(StagingFileName(name))
    requires job.policy == ReplaceRegularFile && job.IsTarget(content) && !job.IsTarget(different)
    ensures r == Success(Done(job, Copied)) && fs.Valid() && fs.job == job
    ensures fs.initial == map[job.destination := File(different)] && fs.entries == map[job.destination := File(content)]
    ensures exists k :: 0 <= k < |fs.totals.acts| && Overwrites(fs.totals.acts[k])
  {
    OneDifferentFile(job, different, content);
    var token := new CancellationToken(false);
    var entries := map[job.destination := File(different)];
    fs := new FileSystem(entries, true, IntruderBeforeRename(Other), job, token);
    var source := new Reader(content, true, token);
    assert job.staging != job.destination;
    ghost var inspection;
    r, inspection := MaterializeWithCancellation(fs, token, source, true, Success(name));
    TotalsAgree(job, fs.history);
  }
}
