/** Importing a snapshot of the shared cache into the sidecar, and opening it again. */
module CompatibleCache {
  import opened Environment
  import opened HubCache
  import opened Keys
  import opened Sidecar
  import opened Sorting
  import opened Text
  import opened Wrappers

  datatype SnapshotFileView = SnapshotFileView(path: string, file: HubFile)

  datatype Snapshot = Snapshot(commit: string, selection: Digest, files: seq<SnapshotFileView>)

  datatype CompatibleErrorKind =
    | HubKind(hub: HubError)
    | SidecarKind(cache: CacheErrorKind)
    | ValidationKind(key: KeyError)
    | IncompleteKind
    | CorruptKind

  datatype CompatibleError = CompatibleError(kind: CompatibleErrorKind, mayHavePublished: bool)

  /** A missing record becomes an incomplete snapshot, and loses the flag on the way. */
  function FromCache(source: CacheError): (r: CompatibleError)
    ensures r.mayHavePublished <==> source.mayHavePublished && source.kind != CacheIo(NotFound)
  {
    if source.kind == CacheIo(NotFound) then CompatibleError(IncompleteKind, false)
    else CompatibleError(SidecarKind(source.kind), source.mayHavePublished)
  }

  function WithMayHavePublished(error: CompatibleError): CompatibleError {
    error.(mayHavePublished := true)
  }

  // ----- when a snapshot opens

  /** Manifest record, binding and current content are about the same bytes. */
  ghost predicate RecordAgrees(
    primitives: Primitives, files: Files, index: Index, bindings: Bindings, path: string, record: FileRecord)
  {
    && record.path == path && record.key.Some? && IsBlobKey(primitives, record.key.value)
    && ParsedDigest(record.sha256).Success?
    && record.key.value in bindings
    && ParsedDigest(bindings[record.key.value].sha256) == ParsedDigest(record.sha256)
    && bindings[record.key.value].size == record.size
    && var file := FileOf(primitives, files, index, path);
       && file.Success? && file.value.key == record.key.value
       && file.value.digest == ParsedDigest(record.sha256).value && file.value.size == record.size
  }

  ghost predicate Unchanged(seen: seq<Files>, files: Files) {
    forall i :: 0 <= i < |seen| ==> seen[i] == files
  }

  /** The first records agree, each with the state its file was `seen` in. */
  ghost predicate Checked(
    primitives: Primitives, index: Index, bindings: Bindings, selection: seq<string>, records: seq<FileRecord>,
    seen: seq<Files>, files: seq<SnapshotFileView>)
  {
    && |files| == |seen| <= |selection| == |records|
    && forall i :: 0 <= i < |files| ==>
         && RecordAgrees(primitives, seen[i], index, bindings, selection[i], records[i])
         && files[i] == ViewOf(primitives, seen[i], index, selection[i])
  }

  /** The snapshot `bindings` and `manifests` stand for, each file as `seen` when read. */
  ghost predicate OpensAs(
    primitives: Primitives, bindings: Bindings, manifests: Manifests, index: Index, seen: seq<Files>,
    paths: seq<string>, snapshot: Snapshot)
  {
    var selection := Canonical(paths);
    && DeriveSelection(primitives, paths) == Success(snapshot.selection)
    && snapshot.commit == index.commit && (index.commit, snapshot.selection) in manifests
    && var manifest := manifests[(index.commit, snapshot.selection)];
       && |snapshot.files| == |selection|
       && Checked(primitives, index, bindings, selection, manifest.files, seen, snapshot.files)
  }

  function ViewOf(primitives: Primitives, files: Files, index: Index, path: string): SnapshotFileView
    requires FileOf(primitives, files, index, path).Success?
  {
    SnapshotFileView(path, FileOf(primitives, files, index, path).value)
  }

  ghost predicate AllAgree(
    primitives: Primitives, files: Files, index: Index, bindings: Bindings, selection: seq<string>, manifest: Manifest)
  {
    && |manifest.files| == |selection|
    && forall i :: 0 <= i < |selection| ==>
         RecordAgrees(primitives, files, index, bindings, selection[i], manifest.files[i])
  }

  /** The same, in one state of the shared cache. */
  ghost predicate Opens(
    primitives: Primitives, hub: Hub, bindings: Bindings, manifests: Manifests, revision: string, paths: seq<string>)
  {
    && DeriveSelection(primitives, paths).Success? && IndexOf(hub, revision).Success?
    && var index, id := IndexOf(hub, revision).value, DeriveSelection(primitives, paths).value;
       && (index.commit, id) in manifests
       && AllAgree(primitives, hub.files, index, bindings, Canonical(paths), manifests[(index.commit, id)])
  }

  ghost function SnapshotOf(
    primitives: Primitives, hub: Hub, bindings: Bindings, manifests: Manifests, revision: string, paths: seq<string>)
    : Snapshot
    requires Opens(primitives, hub, bindings, manifests, revision, paths)
  {
    var index, selection := IndexOf(hub, revision).value, Canonical(paths);
    Snapshot(index.commit, DeriveSelection(primitives, paths).value,
             seq(|selection|, i requires 0 <= i < |selection| => ViewOf(primitives, hub.files, index, selection[i])))
  }

  /** In an unchanged shared cache, what opens keeps opening as the sidecar grows, for
      any order and repetition of the paths and any revision of the same commit. */
  lemma OpenIsStable(
    primitives: Primitives, hub: Hub, bindings: Bindings, manifests: Manifests, revision: string, paths: seq<string>,
    bindings': Bindings, manifests': Manifests, revision': string, paths': seq<string>)
    requires Opens(primitives, hub, bindings, manifests, revision, paths)
    requires Kept(bindings, bindings') && Kept(manifests, manifests')
    requires IndexOf(hub, revision') == IndexOf(hub, revision)
    requires forall path :: path in paths <==> path in paths'
    ensures Opens(primitives, hub, bindings', manifests', revision', paths')
    ensures SnapshotOf(primitives, hub, bindings', manifests', revision', paths')
         == SnapshotOf(primitives, hub, bindings, manifests, revision, paths)
  {
    SelectionIdentity(primitives, paths, paths');
    CanonicalDependsOnSet(paths, paths');
  }

  /** The reads behind the first files of a selection, and behind a whole snapshot. */
  ghost function FileReads(seen: seq<Files>, index: Index, selection: seq<string>): seq<HubRead>
    requires |seen| <= |selection|
  {
    seq(|seen|, i requires 0 <= i < |seen| => FileRead(seen[i], index, selection[i]))
  }

  lemma FileReadsOneMore(
    before: seq<HubRead>, seen: seq<Files>, now: Files, index: Index, selection: seq<string>)
    requires |seen| < |selection|
    ensures before + FileReads(seen, index, selection) + [FileRead(now, index, selection[|seen|])]
         == before + FileReads(seen + [now], index, selection)
  {
    assert FileReads(seen + [now], index, selection)
        == FileReads(seen, index, selection) + [FileRead(now, index, selection[|seen|])];
  }

  lemma JoinReads(before: seq<HubRead>, first: HubRead, rest: seq<HubRead>)
    ensures before + [first] + rest == before + ([first] + rest)
  {
  }

  ghost function SnapshotReads(
    hub: Hub, revision: string, index: Index, seen: seq<Files>, selection: seq<string>): seq<HubRead>
    requires |seen| <= |selection|
  {
    [IndexRead(hub, revision)] + FileReads(seen, index, selection)
  }

  /** What a record does not open for, by the kind of error. */
  ghost predicate WhyRecord(
    primitives: Primitives, files: Files, index: Index, bindings: Bindings, path: string, record: FileRecord,
    kind: CompatibleErrorKind)
  {
    match kind
    case ValidationKind(_) =>
      || ParsedDigest(record.sha256).Failure?
      || (record.key.Some? && !IsBlobKey(primitives, record.key.value))
      || (record.key.Some? && record.key.value in bindings
          && ParsedDigest(bindings[record.key.value].sha256).Failure?)
    case IncompleteKind => record.key.Some? && record.key.value !in bindings
    case HubKind(error) => FileOf(primitives, files, index, path) == Failure(error)
    case CorruptKind =>
      record.path != path || record.key.None? || Differs(primitives, files, index, bindings, path, record)
    case SidecarKind(_) => false
  }

  /** The binding or the present content is about other bytes than the record. */
  ghost predicate Differs(
    primitives: Primitives, files: Files, index: Index, bindings: Bindings, path: string, record: FileRecord)
    requires record.key.Some?
  {
    var key, file := record.key.value, FileOf(primitives, files, index, path);
    || (key in bindings
        && (ParsedDigest(bindings[key].sha256) != ParsedDigest(record.sha256) || bindings[key].size != record.size))
    || (file.Success?
        && (file.value.key != key || Success(file.value.digest) != ParsedDigest(record.sha256)
            || file.value.size != record.size))
  }

  /** What a snapshot does not open for. */
  ghost predicate WhyNotOpen(
    primitives: Primitives, hub: Hub, bindings: Bindings, manifests: Manifests, revision: string, paths: seq<string>,
    kind: CompatibleErrorKind)
  {
    var id, index := DeriveSelection(primitives, paths), IndexOf(hub, revision);
    if id.Failure? then kind == ValidationKind(id.error)
    else if index.Failure? then kind == HubKind(index.error)
    else if (index.value.commit, id.value) !in manifests then kind == IncompleteKind
    else WhyRecords(
      primitives, hub.files, index.value, bindings, Canonical(paths), manifests[(index.value.commit, id.value)], kind)
  }

  ghost predicate WhyRecords(
    primitives: Primitives, files: Files, index: Index, bindings: Bindings, selection: seq<string>,
    manifest: Manifest, kind: CompatibleErrorKind)
  {
    if |manifest.files| != |selection| then kind == CorruptKind
    else exists i :: 0 <= i < |selection|
           && WhyRecord(primitives, files, index, bindings, selection[i], manifest.files[i], kind)
  }

  method CheckRecord(reader: HubCacheReader, kernel: CacheKernel, index: Index, path: string, record: FileRecord)
    returns (r: Result<HubFile, CompatibleError>)
    requires kernel.Valid() && reader.primitives == kernel.primitives
    modifies reader, kernel
    ensures kernel.Watched() && old(reader.journal) <= reader.journal
    ensures r.Success? ==>
              && reader.journal == old(reader.journal) + [FileRead(reader.hub.files, index, path)]
              && RecordAgrees(kernel.primitives, reader.hub.files, index, kernel.bindings, path, record)
              && r.value == FileOf(kernel.primitives, reader.hub.files, index, path).value
    ensures r.Failure? ==> !r.error.mayHavePublished
    ensures reader.quiet ==> reader.hub == old(reader.hub)
    ensures reader.quiet && kernel.quiet ==>
              && (r.Success? <==>
                    RecordAgrees(kernel.primitives, reader.hub.files, index, kernel.bindings, path, record))
              && (r.Failure? ==>
                    WhyRecord(
                      kernel.primitives, reader.hub.files, index, kernel.bindings, path, record, r.error.kind))
  {
    if record.path != path {
      return Failure(CompatibleError(CorruptKind, false));
    }
    if record.key.None? {
      return Failure(CompatibleError(CorruptKind, false));
    }
    var key := record.key.value;
    if !IsBlobKey(kernel.primitives, key) {
      return Failure(CompatibleError(ValidationKind(Malformed), false));
    }
    var digest := ParseDigest(record.sha256);
    if digest.Failure? {
      return Failure(CompatibleError(ValidationKind(digest.error), false));
    }
    var binding := kernel.ReadHubBlobBinding(key);
    if binding.Failure? {
      return Failure(FromCache(binding.error));
    }
    var bound := ParseDigest(binding.value.sha256);
    if bound.Failure? {
      return Failure(CompatibleError(ValidationKind(bound.error), false));
    }
    if bound.value != digest.value || binding.value.size != record.size {
      return Failure(CompatibleError(CorruptKind, false));
    }
    var current := reader.ReadSnapshotFile(index, path);
    if current.Failure? {
      return Failure(CompatibleError(HubKind(current.error), false));
    }
    if current.value.key != key || current.value.digest != digest.value || current.value.size != record.size {
      return Failure(CompatibleError(CorruptKind, false));
    }
    r := Success(current.value);
  }

  lemma CheckedOneMore(
    primitives: Primitives, index: Index, bindings: Bindings, bindings': Bindings, selection: seq<string>,
    records: seq<FileRecord>, seen: seq<Files>, files: seq<SnapshotFileView>, now: Files)
    requires Checked(primitives, index, bindings, selection, records, seen, files) && Kept(bindings, bindings')
    requires |files| < |selection|
    requires RecordAgrees(primitives, now, index, bindings', selection[|files|], records[|files|])
    ensures Checked(
              primitives, index, bindings', selection, records, seen + [now],
              files + [ViewOf(primitives, now, index, selection[|files|])])
  {
  }

  /** Checks the next record after those already checked. */
  method CheckNext(
    reader: HubCacheReader, kernel: CacheKernel, index: Index, selection: seq<string>, manifest: Manifest,
    files: seq<SnapshotFileView>, ghost seen: seq<Files>)
    returns (r: Result<seq<SnapshotFileView>, CompatibleError>)
    requires kernel.Valid() && reader.primitives == kernel.primitives && |files| < |selection|
    requires Checked(kernel.primitives, index, kernel.bindings, selection, manifest.files, seen, files)
    modifies reader, kernel
    ensures kernel.Watched() && old(reader.journal) <= reader.journal
    ensures r.Success? ==>
              && reader.journal == old(reader.journal) + [FileRead(reader.hub.files, index, selection[|files|])]
              && |r.value| == |files| + 1
              && Checked(
                   kernel.primitives, index, kernel.bindings, selection, manifest.files,
                   seen + [reader.hub.files], r.value)
    ensures r.Failure? ==> !r.error.mayHavePublished
    ensures reader.quiet ==> reader.hub == old(reader.hub)
    ensures reader.quiet && kernel.quiet && r.Failure? ==>
              && !AllAgree(kernel.primitives, reader.hub.files, index, kernel.bindings, selection, manifest)
              && WhyRecords(
                   kernel.primitives, reader.hub.files, index, kernel.bindings, selection, manifest, r.error.kind)
  {
    ghost var bindings := kernel.bindings;
    var current := CheckRecord(reader, kernel, index, selection[|files|], manifest.files[|files|]);
    if current.Failure? {
      return Failure(current.error);
    }
    CheckedOneMore(
      kernel.primitives, index, bindings, kernel.bindings, selection, manifest.files, seen, files, reader.hub.files);
    r := Success(files + [SnapshotFileView(selection[|files|], current.value)]);
  }

  method CheckRecords(
    reader: HubCacheReader, kernel: CacheKernel, index: Index, selection: seq<string>, manifest: Manifest)
    returns (r: Result<seq<SnapshotFileView>, CompatibleError>, ghost seen: seq<Files>)
    requires kernel.Valid() && reader.primitives == kernel.primitives && |manifest.files| == |selection|
    modifies reader, kernel
    ensures kernel.Watched() && old(reader.journal) <= reader.journal
    ensures r.Success? ==>
              && |r.value| == |selection| == |seen|
              && reader.journal == old(reader.journal) + FileReads(seen, index, selection)
              && Checked(kernel.primitives, index, kernel.bindings, selection, manifest.files, seen, r.value)
    ensures r.Failure? ==> !r.error.mayHavePublished
    ensures reader.quiet ==> reader.hub == old(reader.hub) && Unchanged(seen, reader.hub.files)
    ensures reader.quiet && kernel.quiet ==>
              && (r.Success? <==>
                    AllAgree(kernel.primitives, reader.hub.files, index, kernel.bindings, selection, manifest))
              && (r.Failure? ==>
                    WhyRecords(
                      kernel.primitives, reader.hub.files, index, kernel.bindings, selection, manifest,
                      r.error.kind))
  {
    var files := [];
    seen := [];
    for k := 0 to |selection|
      invariant kernel.Watched() && |files| == k == |seen|
      invariant reader.journal == old(reader.journal) + FileReads(seen, index, selection)
      invariant Checked(kernel.primitives, index, kernel.bindings, selection, manifest.files, seen, files)
      invariant reader.quiet ==> reader.hub == old(reader.hub) && Unchanged(seen, reader.hub.files)
    {
      r := CheckNext(reader, kernel, index, selection, manifest, files, seen);
      if r.Failure? {
        return;
      }
      FileReadsOneMore(old(reader.journal), seen, reader.hub.files, index, selection);
      files := r.value;
      seen := seen + [reader.hub.files];
    }
    r := Success(files);
  }

  /** The manifest of a selection, if it stays the same once it is leased and has as many
      records as there are paths. */
  method FindRecords(kernel: CacheKernel, commit: string, id: Digest, count: nat)
    returns (r: Result<Manifest, CompatibleError>)
    requires kernel.Valid()
    modifies kernel
    ensures kernel.Watched()
    ensures r.Success? ==>
              && (commit, id) in kernel.manifests && r.value == kernel.manifests[(commit, id)]
              && |r.value.files| == count
    ensures r.Failure? ==> !r.error.mayHavePublished
    ensures kernel.quiet ==>
              && (r.Success? <==>
                    (commit, id) in kernel.manifests && |kernel.manifests[(commit, id)].files| == count)
              && (r.Failure? ==>
                    r.error.kind == if (commit, id) in kernel.manifests then CorruptKind else IncompleteKind)
  {
    var manifest := kernel.ReadSnapshotManifest(commit, id);
    if manifest.Failure? {
      return Failure(FromCache(manifest.error));
    }
    var lease := kernel.AcquireSnapshotLease();
    if lease.Failure? {
      return Failure(FromCache(lease.error));
    }
    var leased := kernel.ReadSnapshotManifest(commit, id);
    if leased.Failure? {
      return Failure(FromCache(leased.error));
    }
    if leased.value != manifest.value {
      return Failure(CompatibleError(CorruptKind, false));
    }
    if |manifest.value.files| != count {
      return Failure(CompatibleError(CorruptKind, false));
    }
    r := Success(manifest.value);
  }

  /** Opens a snapshot exactly when manifest, bindings and content agree on every
      selected path. */
  method Open(reader: HubCacheReader, kernel: CacheKernel, revision: string, paths: seq<string>)
    returns (r: Result<Snapshot, CompatibleError>, ghost hub: Hub, ghost index: Index, ghost seen: seq<Files>)
    requires kernel.Valid() && reader.primitives == kernel.primitives
    modifies reader, kernel
    ensures kernel.Watched() && old(reader.journal) <= reader.journal
    ensures r.Success? ==>
              && IndexOf(hub, revision) == Success(index) && |seen| == |Canonical(paths)|
              && reader.journal == old(reader.journal) + SnapshotReads(hub, revision, index, seen, Canonical(paths))
              && OpensAs(kernel.primitives, kernel.bindings, kernel.manifests, index, seen, paths, r.value)
    ensures r.Failure? ==> !r.error.mayHavePublished
    ensures reader.quiet ==> reader.hub == old(reader.hub)
    ensures reader.quiet && r.Success? ==>
              && Opens(kernel.primitives, reader.hub, kernel.bindings, kernel.manifests, revision, paths)
              && r.value ==
                   SnapshotOf(kernel.primitives, reader.hub, kernel.bindings, kernel.manifests, revision, paths)
    ensures reader.quiet && kernel.quiet ==>
              && (r.Success? <==>
                    Opens(kernel.primitives, reader.hub, kernel.bindings, kernel.manifests, revision, paths))
              && (r.Failure? ==>
                    WhyNotOpen(
                      kernel.primitives, reader.hub, kernel.bindings, kernel.manifests, revision, paths,
                      r.error.kind))
  {
    hub, index, seen := reader.hub, Index("", map[]), [];
    var selection := Canonical(paths);
    var id := DeriveSelectionId(kernel.primitives, paths);
    if id.Failure? {
      return Failure(CompatibleError(ValidationKind(id.error), false)), hub, index, seen;
    }
    var found := reader.ReadIndex(revision);
    if found.Failure? {
      return Failure(CompatibleError(HubKind(found.error), false)), hub, index, seen;
    }
    hub, index := reader.hub, found.value;
    ghost var journal := old(reader.journal);
    var manifest := FindRecords(kernel, found.value.commit, id.value, |selection|);
    if manifest.Failure? {
      return Failure(manifest.error), hub, index, seen;
    }
    var files;
    files, seen := CheckRecords(reader, kernel, found.value, selection, manifest.value);
    if files.Failure? {
      return Failure(files.error), hub, index, seen;
    }
    JoinReads(journal, IndexRead(hub, revision), FileReads(seen, index, selection));
    r := Success(Snapshot(found.value.commit, id.value, files.value));
    if reader.quiet {
      OpenedIsSnapshot(
        kernel.primitives, reader.hub, kernel.bindings, kernel.manifests, revision, seen, paths, r.value);
    }
  }

  lemma OpenedIsSnapshot(
    primitives: Primitives, hub: Hub, bindings: Bindings, manifests: Manifests, revision: string, seen: seq<Files>,
    paths: seq<string>, snapshot: Snapshot)
    requires IndexOf(hub, revision).Success? && Unchanged(seen, hub.files)
    requires OpensAs(primitives, bindings, manifests, IndexOf(hub, revision).value, seen, paths, snapshot)
    ensures Opens(primitives, hub, bindings, manifests, revision, paths)
    ensures snapshot == SnapshotOf(primitives, hub, bindings, manifests, revision, paths)
  {
  }

  // ----- importing

  type Contents = map<string, (Digest, nat)>

  /** What a list of read files binds: each blob key to one digest and size. */
  ghost predicate Binds(contents: Contents, files: seq<HubFile>) {
    && (forall i :: 0 <= i < |files| ==>
          files[i].key in contents && contents[files[i].key] == (files[i].digest, files[i].size))
    && (forall key :: key in contents ==> exists i :: 0 <= i < |files| && files[i].key == key)
  }

  ghost predicate ReadAs(
    primitives: Primitives, index: Index, seen: seq<Files>, selection: seq<string>, files: seq<HubFile>)
  {
    && |seen| == |files| <= |selection|
    && forall i :: 0 <= i < |files| ==> FileOf(primitives, seen[i], index, selection[i]) == Success(files[i])
  }

  predicate OneContent(a: HubFile, b: HubFile) {
    a.key == b.key ==> a.digest == b.digest && a.size == b.size
  }

  /** Every file can be read, and no blob key names two contents. */
  ghost predicate Readable(primitives: Primitives, files: Files, index: Index, selection: seq<string>) {
    && (forall i :: 0 <= i < |selection| ==> FileOf(primitives, files, index, selection[i]).Success?)
    && forall i, j :: 0 <= i < |selection| && 0 <= j < |selection| ==>
         OneContent(
           FileOf(primitives, files, index, selection[i]).value, FileOf(primitives, files, index, selection[j]).value)
  }

  /** What a selection cannot be read for. */
  ghost predicate WhyUnread(
    primitives: Primitives, files: Files, index: Index, selection: seq<string>, kind: CompatibleErrorKind)
  {
    match kind
    case HubKind(error) =>
      exists i :: 0 <= i < |selection| && FileOf(primitives, files, index, selection[i]) == Failure(error)
    case CorruptKind =>
      exists i, j :: 0 <= i < |selection| && 0 <= j < |selection|
        && TwoContents(
             FileOf(primitives, files, index, selection[i]), FileOf(primitives, files, index, selection[j]))
    case _ => false
  }

  predicate TwoContents(a: Result<HubFile, HubError>, b: Result<HubFile, HubError>) {
    a.Success? && b.Success? && !OneContent(a.value, b.value)
  }

  lemma BindsOneMore(contents: Contents, files: seq<HubFile>, file: HubFile)
    requires Binds(contents, files)
    requires file.key in contents ==> contents[file.key] == (file.digest, file.size)
    ensures Binds(contents[file.key := (file.digest, file.size)], files + [file])
  {
    var more, longer := contents[file.key := (file.digest, file.size)], files + [file];
    forall key | key in more
      ensures exists i :: 0 <= i < |longer| && longer[i].key == key
    {
      if key == file.key {
        assert longer[|files|].key == key;
      } else {
        var i :| 0 <= i < |files| && files[i].key == key;
        assert longer[i].key == key;
      }
    }
  }

  lemma ReadOneMore(
    primitives: Primitives, index: Index, seen: seq<Files>, selection: seq<string>, read: seq<HubFile>, now: Files,
    file: HubFile)
    requires ReadAs(primitives, index, seen, selection, read) && |read| < |selection|
    requires FileOf(primitives, now, index, selection[|read|]) == Success(file)
    ensures ReadAs(primitives, index, seen + [now], selection, read + [file])
  {
    var longer, files := seen + [now], read + [file];
    forall i | 0 <= i < |files| ensures FileOf(primitives, longer[i], index, selection[i]) == Success(files[i]) {
      if i < |read| {
        assert longer[i] == seen[i] && files[i] == read[i];
      }
    }
  }

  lemma FailureAt(
    primitives: Primitives, files: Files, index: Index, selection: seq<string>, i: nat, error: HubError)
    requires i < |selection|
    ensures FileOf(primitives, files, index, selection[i]) == Failure(error) ==>
              && !Readable(primitives, files, index, selection)
              && WhyUnread(primitives, files, index, selection, HubKind(error))
  {
  }

  lemma ClashAt(
    primitives: Primitives, files: Files, index: Index, selection: seq<string>, i: nat, j: nat, a: HubFile, b: HubFile)
    requires i < |selection| && j < |selection| && !OneContent(a, b)
    ensures FileOf(primitives, files, index, selection[i]) == Success(a)
              && FileOf(primitives, files, index, selection[j]) == Success(b) ==>
              && !Readable(primitives, files, index, selection)
              && WhyUnread(primitives, files, index, selection, CorruptKind)
  {
    var first, second := FileOf(primitives, files, index, selection[i]), FileOf(primitives, files, index, selection[j]);
    assert first == Success(a) && second == Success(b) ==> TwoContents(first, second);
  }

  lemma ClashIsUnreadable(
    primitives: Primitives, files: Files, index: Index, seen: seq<Files>, selection: seq<string>,
    read: seq<HubFile>, contents: Contents, file: HubFile)
    requires |read| < |selection| && file.key in contents && contents[file.key] != (file.digest, file.size)
    ensures ReadAs(primitives, index, seen, selection, read) && Unchanged(seen, files) && Binds(contents, read)
              && FileOf(primitives, files, index, selection[|read|]) == Success(file) ==>
              && !Readable(primitives, files, index, selection)
              && WhyUnread(primitives, files, index, selection, CorruptKind)
  {
    if ReadAs(primitives, index, seen, selection, read) && Unchanged(seen, files) && Binds(contents, read) {
      var i :| 0 <= i < |read| && read[i].key == file.key;
      assert FileOf(primitives, seen[i], index, selection[i]) == Success(read[i]) && seen[i] == files;
      ClashAt(primitives, files, index, selection, i, |read|, read[i], file);
    }
  }

  lemma AllReadIsReadable(
    primitives: Primitives, files: Files, index: Index, seen: seq<Files>, selection: seq<string>,
    read: seq<HubFile>, contents: Contents)
    requires ReadAs(primitives, index, seen, selection, read) && Unchanged(seen, files) && Binds(contents, read)
    requires |read| == |selection|
    ensures Readable(primitives, files, index, selection)
  {
    forall i | 0 <= i < |selection| ensures FileOf(primitives, files, index, selection[i]) == Success(read[i]) {
      assert seen[i] == files;
    }
  }

  /** Reads the next file; its blob key must not have named another content. */
  method PrepareNext(
    reader: HubCacheReader, index: Index, selection: seq<string>, files: seq<HubFile>, contents: Contents,
    ghost seen: seq<Files>)
    returns (r: Result<(seq<HubFile>, Contents), CompatibleError>, ghost seen': seq<Files>)
    requires ReadAs(reader.primitives, index, seen, selection, files) && Binds(contents, files)
    requires |files| < |selection|
    modifies reader
    ensures r.Success? ==>
              && |r.value.0| == |files| + 1 && ReadAs(reader.primitives, index, seen', selection, r.value.0)
              && Binds(r.value.1, r.value.0) && seen' == seen + [reader.hub.files]
              && reader.journal == old(reader.journal) + [FileRead(reader.hub.files, index, selection[|files|])]
    ensures r.Failure? ==> !r.error.mayHavePublished
    ensures reader.quiet && Unchanged(seen, old(reader.hub.files)) ==>
              && reader.hub == old(reader.hub) && Unchanged(seen', reader.hub.files)
              && (r.Failure? ==>
                    && !Readable(reader.primitives, reader.hub.files, index, selection)
                    && WhyUnread(reader.primitives, reader.hub.files, index, selection, r.error.kind))
  {
    seen' := seen;
    var read := reader.ReadSnapshotFile(index, selection[|files|]);
    if read.Failure? {
      FailureAt(reader.primitives, reader.hub.files, index, selection, |files|, read.error);
      return Failure(CompatibleError(HubKind(read.error), false)), seen';
    }
    var file := read.value;
    if file.key in contents && contents[file.key] != (file.digest, file.size) {
      ClashIsUnreadable(reader.primitives, reader.hub.files, index, seen, selection, files, contents, file);
      return Failure(CompatibleError(CorruptKind, false)), seen';
    }
    BindsOneMore(contents, files, file);
    ReadOneMore(reader.primitives, index, seen, selection, files, reader.hub.files, file);
    seen' := seen + [reader.hub.files];
    r := Success((files + [file], contents[file.key := (file.digest, file.size)]));
  }

  /** Reads every selected file before anything is written. */
  method PrepareSnapshot(reader: HubCacheReader, index: Index, selection: seq<string>)
    returns (r: Result<(seq<HubFile>, Contents), CompatibleError>, ghost seen: seq<Files>)
    modifies reader
    ensures r.Success? ==>
              && |r.value.0| == |selection| && ReadAs(reader.primitives, index, seen, selection, r.value.0)
              && Binds(r.value.1, r.value.0)
              && reader.journal == old(reader.journal) + FileReads(seen, index, selection)
    ensures r.Failure? ==> !r.error.mayHavePublished
    ensures reader.quiet ==>
              && reader.hub == old(reader.hub) && Unchanged(seen, reader.hub.files)
              && (r.Success? <==> Readable(reader.primitives, reader.hub.files, index, selection))
              && (r.Failure? ==> WhyUnread(reader.primitives, reader.hub.files, index, selection, r.error.kind))
  {
    var files: seq<HubFile>, contents: Contents := [], map[];
    seen := [];
    for k := 0 to |selection|
      invariant |files| == k && ReadAs(reader.primitives, index, seen, selection, files) && Binds(contents, files)
      invariant reader.journal == old(reader.journal) + FileReads(seen, index, selection)
      invariant reader.quiet ==> reader.hub == old(reader.hub) && Unchanged(seen, reader.hub.files)
    {
      ghost var longer;
      r, longer := PrepareNext(reader, index, selection, files, contents, seen);
      if r.Failure? {
        return;
      }
      FileReadsOneMore(old(reader.journal), seen, reader.hub.files, index, selection);
      seen := longer;
      files, contents := r.value.0, r.value.1;
    }
    if reader.quiet {
      AllReadIsReadable(reader.primitives, reader.hub.files, index, seen, selection, files, contents);
    }
    r := Success((files, contents));
  }

  ghost predicate Published(bindings: Bindings, contents: Contents, keys: set<string>) {
    forall key :: key in keys && key in contents ==>
      key in bindings && bindings[key] == BindingRecord(Hex(contents[key].0), contents[key].1)
  }

  /** No binding that is already there says otherwise. */
  ghost predicate NoClash(bindings: Bindings, contents: Contents) {
    forall key :: key in contents && key in bindings ==>
      bindings[key] == BindingRecord(Hex(contents[key].0), contents[key].1)
  }

  ghost predicate OnlyBindings(attempts: seq<Attempt>) {
    forall k :: 0 <= k < |attempts| ==> attempts[k].PublishBinding?
  }

  method PublishBindings(kernel: CacheKernel, contents: Contents)
    returns (r: Result<(), CompatibleError>, ghost tried: seq<Attempt>)
    requires kernel.Valid()
    modifies kernel
    ensures kernel.Grew() && kernel.attempts == old(kernel.attempts) + tried && OnlyBindings(tried)
    ensures r.Success? ==> Published(kernel.bindings, contents, contents.Keys)
    ensures r.Failure? ==> r.error.mayHavePublished
    ensures kernel.quiet ==>
              && kernel.manifests == old(kernel.manifests)
              && (r.Success? <==> NoClash(old(kernel.bindings), contents))
              && (r.Failure? ==> r.error.kind == SidecarKind(ConflictingRecord))
  {
    var left := contents.Keys;
    tried := [];
    while left != {}
      invariant left <= contents.Keys && kernel.Grew()
      invariant kernel.attempts == old(kernel.attempts) + tried && OnlyBindings(tried)
      invariant Published(kernel.bindings, contents, contents.Keys - left)
      invariant kernel.quiet ==>
                  && kernel.manifests == old(kernel.manifests)
                  && (forall key :: key in left ==>
                        (key in kernel.bindings <==> key in old(kernel.bindings)))
      decreases left
    {
      var key :| key in left;
      var published := kernel.PublishHubBlobBinding(key, contents[key].0, contents[key].1);
      tried := tried + [PublishBinding(key)];
      if published.Failure? {
        return Failure(WithMayHavePublished(FromCache(published.error))), tried;
      }
      left := left - {key};
    }
    r := Success(());
  }

  /** What a publication comes to, by what the kernel answered: it stands if the kernel
      says so or, when that is open, if reading gives the very manifest back; the flag of
      a failure is the kernel's, lost exactly if its error was that something is missing. */
  ghost predicate Reported(
    manifest: Manifest, published: Option<CacheError>, read: Option<Result<Manifest, CacheError>>,
    r: Result<(), CompatibleError>)
  {
    && (read.Some? <==> published.Some? && published.value.mayHavePublished)
    && (r.Success? <==> published.None? || read == Some(Success(manifest)))
    && (r.Failure? ==>
          (r.error.mayHavePublished <==>
             published.value.mayHavePublished && published.value.kind != CacheIo(NotFound)))
    && (r.Failure? ==>
          r.error.kind ==
            if published.value.kind == CacheIo(NotFound) then IncompleteKind else SidecarKind(published.value.kind))
  }

  /** The answers a kernel gave to one publication and perhaps one reading after it. */
  function AnswersOf(published: Option<CacheError>, read: Option<Result<Manifest, CacheError>>): seq<Answer> {
    [ManifestPublished(published)] + if read.Some? then [ManifestRead(read.value)] else []
  }

  /** Publishes a manifest; when it cannot tell whether it did, it looks. */
  method PublishManifest(
    kernel: CacheKernel, commit: string, selection: Digest, files: seq<FileRecord>)
    returns (
      r: Result<(), CompatibleError>,
      ghost published: Option<CacheError>, ghost read: Option<Result<Manifest, CacheError>>)
    requires kernel.Valid()
    modifies kernel
    ensures var manifest := NewManifest(kernel.primitives, commit, selection, files);
            && kernel.Grew()
            && kernel.attempts ==
                 old(kernel.attempts) + (if manifest.Success? then [Attempt.PublishManifest] else [])
            && (manifest.Success? ==>
                  && kernel.answers == old(kernel.answers) + AnswersOf(published, read)
                  && Reported(manifest.value, published, read, r))
            && (manifest.Failure? ==>
                  r.Failure? && !r.error.mayHavePublished && kernel.answers == old(kernel.answers))
            && (r.Success? ==>
                  && (commit, selection) in kernel.manifests
                  && kernel.manifests[(commit, selection)] == manifest.value)
    ensures kernel.quiet ==> kernel.bindings == old(kernel.bindings)
    ensures kernel.Scripted() && NewManifest(kernel.primitives, commit, selection, files).Success?
            && old((commit, selection) !in kernel.manifests) ==>
              var manifest := NewManifest(kernel.primitives, commit, selection, files).value;
              (forall k :: 0 <= k < |manifest.files| ==> Bound(old(kernel.bindings), manifest.files[k])) ==>
              && r.Failure? && published == Some(CacheError(CacheIo(kernel.script.value.published), true))
              && kernel.manifests == old(kernel.manifests)[(commit, selection) := manifest]
    ensures kernel.quiet && NewManifest(kernel.primitives, commit, selection, files).Success? ==>
              var manifest := NewManifest(kernel.primitives, commit, selection, files).value;
              (forall k :: 0 <= k < |manifest.files| ==> Bound(old(kernel.bindings), manifest.files[k])) ==>
              && (r.Success? <==> (old((commit, selection) in kernel.manifests) ==>
                                     old(kernel.manifests)[(commit, selection)] == manifest))
              && (r.Failure? ==> r.error.kind == SidecarKind(ConflictingRecord))
  {
    published, read := None, None;
    var expected := CreateManifest(kernel.primitives, commit, selection, files);
    if expected.Failure? {
      return Failure(CompatibleError(ValidationKind(Malformed), false)), published, read;
    }
    var answer := kernel.PublishCompatibleManifest(commit, selection, files);
    published := if answer.Success? then None else Some(answer.error);
    if answer.Success? {
      return Success(()), published, read;
    }
    if answer.error.mayHavePublished {
      var actual := kernel.ReadSnapshotManifest(commit, selection);
      read := Some(actual);
      if actual.Success? && actual.value == expected.value {
        return Success(()), published, read;
      }
    }
    r := Failure(FromCache(answer.error));
  }

  /** A manifest that is stored although the error says nothing may have been: the empty
      selection, on a kernel that loses sight of the manifest once it is in place. */
  method ManifestWithoutFlag(primitives: Primitives, commit: string, read: IoError)
    returns (kernel: CacheKernel, id: Digest, r: Result<(), CompatibleError>)
    ensures r == Failure(CompatibleError(IncompleteKind, false))
    ensures kernel.Valid() && (commit, id) in kernel.manifests
    ensures kernel.manifests[(commit, id)] == Manifest(commit, id, [])
  {
    kernel := new CacheKernel(primitives, map[], map[], false, Some(Mishap(NotFound, read)));
    id := primitives.sha256(SelectionPreimage([]));
    EmptySelection(primitives, commit);
    ghost var published, again;
    r, published, again := PublishManifest(kernel, commit, id, []);
  }

  lemma EmptySelection(primitives: Primitives, commit: string)
    ensures var id := primitives.sha256(SelectionPreimage([]));
            NewManifest(primitives, commit, id, []) == Success(Manifest(commit, id, []))
  {
    assert Canonical([]) == [];
    assert Sort(PathLeq, []) == [] && Paths([]) == [];
    assert Utf8All([]) == [];
  }

  // ----- import as a whole

  function RecordsOf(selection: seq<string>, files: seq<HubFile>): (r: seq<FileRecord>)
    requires |files| == |selection|
    ensures |r| == |selection|
  {
    seq(|selection|, i requires 0 <= i < |selection| =>
      FileRecord(selection[i], Hex(files[i].digest), files[i].size, Some(files[i].key)))
  }

  /** The records of a selection make a valid manifest as they are. */
  lemma RecordsMakeManifest(
    primitives: Primitives, commit: string, paths: seq<string>, id: Digest, files: seq<HubFile>)
    requires DeriveSelection(primitives, paths) == Success(id) && |files| == |Canonical(paths)|
    requires forall path :: path in paths ==> primitives.isRepoPath(path)
    requires forall file :: file in files ==> IsBlobKey(primitives, file.key)
    ensures var records := RecordsOf(Canonical(paths), files);
            NewManifest(primitives, commit, id, records) == Success(Manifest(commit, id, records))
  {
    var selection := Canonical(paths);
    var records := RecordsOf(selection, files);
    CanonicalIsStrict(paths);
    PathLeqIsOrder();
    SortKeepsSorted(PathLeq, records);
    assert Paths(records) == selection;
    CanonicalIsStrict(selection);
    SelectionIdentity(primitives, selection, paths);
    forall record | record in records ensures ValidRecord(primitives, record) {
      var i :| 0 <= i < |records| && records[i] == record;
      HexIsLower(files[i].digest);
      assert selection[i] in selection && files[i] in files;
    }
  }

  ghost predicate BindingsThenManifest(tried: seq<Attempt>) {
    || OnlyBindings(tried)
    || (tried != [] && tried[|tried| - 1] == Attempt.PublishManifest && OnlyBindings(tried[..|tried| - 1]))
  }

  ghost predicate InOrder(tried: seq<Attempt>) {
    tried != [] && tried[0] == Attempt.Initialize && BindingsThenManifest(tried[1..])
  }

  /** Neither a binding nor a manifest that is already there says otherwise. */
  ghost predicate Fits(bindings: Bindings, manifests: Manifests, manifest: Manifest) {
    && (forall k :: 0 <= k < |manifest.files| ==>
          && manifest.files[k].key.Some?
          && (manifest.files[k].key.value in bindings ==> Bound(bindings, manifest.files[k])))
    && var id := (manifest.commit, manifest.selection);
       (id in manifests ==> manifests[id] == manifest)
  }

  lemma RecordsAreBound(bindings: Bindings, contents: Contents, selection: seq<string>, files: seq<HubFile>)
    requires |files| == |selection| && Binds(contents, files) && Published(bindings, contents, contents.Keys)
    ensures forall k :: 0 <= k < |files| ==> Bound(bindings, RecordsOf(selection, files)[k])
  {
  }

  lemma FitsWithoutClash(
    bindings: Bindings, manifests: Manifests, commit: string, id: Digest, contents: Contents,
    selection: seq<string>, files: seq<HubFile>)
    requires |files| == |selection| && Binds(contents, files)
    ensures var manifest := Manifest(commit, id, RecordsOf(selection, files));
            Fits(bindings, manifests, manifest) <==>
              NoClash(bindings, contents) && ((commit, id) in manifests ==> manifests[(commit, id)] == manifest)
  {
    var records := RecordsOf(selection, files);
    if Fits(bindings, manifests, Manifest(commit, id, records)) {
      forall key | key in contents && key in bindings
        ensures bindings[key] == BindingRecord(Hex(contents[key].0), contents[key].1)
      {
        var i :| 0 <= i < |files| && files[i].key == key;
        assert records[i].key == Some(key);
      }
    }
  }

  /** The bindings, and after all of them the manifest. */
  method PublishRecords(
    kernel: CacheKernel, commit: string, id: Digest, selection: seq<string>, files: seq<HubFile>, contents: Contents)
    returns (r: Result<(), CompatibleError>, ghost tried: seq<Attempt>)
    requires kernel.Valid() && |files| == |selection| && Binds(contents, files)
    requires var records := RecordsOf(selection, files);
             NewManifest(kernel.primitives, commit, id, records) == Success(Manifest(commit, id, records))
    modifies kernel
    ensures kernel.Grew() && kernel.attempts == old(kernel.attempts) + tried && BindingsThenManifest(tried)
    ensures Attempt.PublishManifest in tried ==> Published(kernel.bindings, contents, contents.Keys)
    ensures r.Success? ==>
              && Attempt.PublishManifest in tried && (commit, id) in kernel.manifests
              && kernel.manifests[(commit, id)] == Manifest(commit, id, RecordsOf(selection, files))
    ensures r.Failure? ==> r.error.mayHavePublished
    ensures kernel.quiet ==>
              && (r.Success? <==>
                    Fits(
                      old(kernel.bindings), old(kernel.manifests), Manifest(commit, id, RecordsOf(selection, files))))
              && (r.Failure? ==> r.error.kind == SidecarKind(ConflictingRecord))
  {
    FitsWithoutClash(kernel.bindings, kernel.manifests, commit, id, contents, selection, files);
    r, tried := PublishBindings(kernel, contents);
    if r.Failure? {
      return;
    }
    RecordsAreBound(kernel.bindings, contents, selection, files);
    ghost var published, read;
    r, published, read := PublishManifest(kernel, commit, id, RecordsOf(selection, files));
    tried := tried + [Attempt.PublishManifest];
    assert tried[|tried| - 1] == Attempt.PublishManifest;
    if r.Failure? {
      r := Failure(WithMayHavePublished(r.error));
    }
  }

  /** Everything `import` writes: the format first, then the records. */
  method PublishPrepared(
    kernel: CacheKernel, commit: string, id: Digest, selection: seq<string>, files: seq<HubFile>, contents: Contents)
    returns (r: Result<(), CompatibleError>, ghost tried: seq<Attempt>)
    requires kernel.Valid() && |files| == |selection| && Binds(contents, files)
    requires var records := RecordsOf(selection, files);
             NewManifest(kernel.primitives, commit, id, records) == Success(Manifest(commit, id, records))
    modifies kernel
    ensures kernel.Grew() && kernel.attempts == old(kernel.attempts) + tried && InOrder(tried)
    ensures Attempt.PublishManifest in tried ==> Published(kernel.bindings, contents, contents.Keys)
    ensures r.Success? ==>
              && Attempt.PublishManifest in tried && (commit, id) in kernel.manifests
              && kernel.manifests[(commit, id)] == Manifest(commit, id, RecordsOf(selection, files))
    ensures r.Failure? ==> r.error.mayHavePublished
    ensures kernel.quiet ==>
              && (r.Success? <==>
                    Fits(
                      old(kernel.bindings), old(kernel.manifests), Manifest(commit, id, RecordsOf(selection, files))))
              && (r.Failure? ==> r.error.kind == SidecarKind(ConflictingRecord))
  {
    ghost var before := kernel.attempts;
    tried := [Attempt.Initialize];
    InitializeFirst(before, []);
    var initialized := kernel.Initialize();
    if initialized.Failure? {
      r := Failure(WithMayHavePublished(FromCache(initialized.error)));
    } else {
      ghost var more;
      r, more := PublishRecords(kernel, commit, id, selection, files, contents);
      InitializeFirst(before, more);
      tried := [Attempt.Initialize] + more;
    }
  }

  lemma InitializeFirst(before: seq<Attempt>, more: seq<Attempt>)
    requires BindingsThenManifest(more)
    ensures before + [Attempt.Initialize] + more == before + ([Attempt.Initialize] + more)
    ensures InOrder([Attempt.Initialize] + more)
    ensures Attempt.PublishManifest in [Attempt.Initialize] + more <==> Attempt.PublishManifest in more
  {
    assert ([Attempt.Initialize] + more)[1..] == more;
  }

  /** What importing would record now. */
  ghost function ManifestNow(primitives: Primitives, hub: Hub, index: Index, id: Digest, paths: seq<string>): Manifest
    requires Readable(primitives, hub.files, index, Canonical(paths))
  {
    var selection := Canonical(paths);
    var files := seq(|selection|, i requires 0 <= i < |selection| =>
                   FileOf(primitives, hub.files, index, selection[i]).value);
    Manifest(index.commit, id, RecordsOf(selection, files))
  }

  ghost predicate AllReadable(primitives: Primitives, hub: Hub, revision: string, paths: seq<string>) {
    && DeriveSelection(primitives, paths).Success? && IndexOf(hub, revision).Success?
    && Readable(primitives, hub.files, IndexOf(hub, revision).value, Canonical(paths))
  }

  ghost predicate WhyNotRead(
    primitives: Primitives, hub: Hub, revision: string, paths: seq<string>, kind: CompatibleErrorKind)
  {
    var id, index := DeriveSelection(primitives, paths), IndexOf(hub, revision);
    if id.Failure? then kind == ValidationKind(id.error)
    else if index.Failure? then kind == HubKind(index.error)
    else WhyUnread(primitives, hub.files, index.value, Canonical(paths), kind)
  }

  /** Importing can succeed: all is readable, and what is recorded already agrees. */
  ghost predicate Importable(
    primitives: Primitives, hub: Hub, bindings: Bindings, manifests: Manifests, revision: string, paths: seq<string>)
  {
    && AllReadable(primitives, hub, revision, paths)
    && var index, id := IndexOf(hub, revision).value, DeriveSelection(primitives, paths).value;
       Fits(bindings, manifests, ManifestNow(primitives, hub, index, id, paths))
  }

  lemma ReadIsNow(
    primitives: Primitives, hub: Hub, index: Index, id: Digest, paths: seq<string>, seen: seq<Files>,
    files: seq<HubFile>)
    requires Readable(primitives, hub.files, index, Canonical(paths)) && |files| == |Canonical(paths)|
    requires ReadAs(primitives, index, seen, Canonical(paths), files) && Unchanged(seen, hub.files)
    ensures ManifestNow(primitives, hub, index, id, paths)
         == Manifest(index.commit, id, RecordsOf(Canonical(paths), files))
  {
    assert RecordsOf(Canonical(paths), files) == ManifestNow(primitives, hub, index, id, paths).files;
  }

  lemma KeysAreBlobKeys(
    primitives: Primitives, index: Index, seen: seq<Files>, selection: seq<string>, files: seq<HubFile>)
    requires ReadAs(primitives, index, seen, selection, files)
    ensures forall file :: file in files ==> IsBlobKey(primitives, file.key)
  {
    forall file | file in files ensures IsBlobKey(primitives, file.key) {
      var i :| 0 <= i < |files| && files[i] == file;
      var _ := FileIsContent(primitives, seen[i], index, selection[i]);
    }
  }

  /** What has just been imported opens, as long as the files stay. */
  lemma ImportedOpens(
    primitives: Primitives, hub: Hub, bindings: Bindings, manifests: Manifests, revision: string, paths: seq<string>)
    requires AllReadable(primitives, hub, revision, paths) && Sound(bindings, manifests)
    requires var index, id := IndexOf(hub, revision).value, DeriveSelection(primitives, paths).value;
             && (index.commit, id) in manifests
             && manifests[(index.commit, id)] == ManifestNow(primitives, hub, index, id, paths)
    ensures Opens(primitives, hub, bindings, manifests, IndexOf(hub, revision).value.commit, Canonical(paths))
  {
    var index, id := IndexOf(hub, revision).value, DeriveSelection(primitives, paths).value;
    var manifest, selection := manifests[(index.commit, id)], Canonical(paths);
    CanonicalIsStrict(paths);
    CanonicalDependsOnSet(paths, selection);
    SelectionIdentity(primitives, paths, selection);
    forall i | 0 <= i < |selection|
      ensures RecordAgrees(primitives, hub.files, index, bindings, selection[i], manifest.files[i])
    {
      var file := FileOf(primitives, hub.files, index, selection[i]).value;
      assert Bound(bindings, manifest.files[i]);
      ParsedIsInverse(file.digest);
      var _ := FileIsContent(primitives, hub.files, index, selection[i]);
    }
  }

  /** What an import has read: the index, and each file with the state it was read in. */
  datatype Reading = Reading(
    hub: Hub, index: Index, id: Digest, seen: seq<Files>, files: seq<HubFile>, contents: Contents)

  datatype Reopened = Reopened(hub: Hub, index: Index, seen: seq<Files>)

  /** All that was asked for was read, and no blob key had two contents. */
  ghost predicate Complete(primitives: Primitives, paths: seq<string>, reading: Reading) {
    && DeriveSelection(primitives, paths) == Success(reading.id) && |reading.files| == |Canonical(paths)|
    && IsCommit(reading.index.commit)
    && ReadAs(primitives, reading.index, reading.seen, Canonical(paths), reading.files)
    && Binds(reading.contents, reading.files)
  }

  /** The reads an import is made of. */
  ghost function ReadsOf(revision: string, paths: seq<string>, reading: Reading): seq<HubRead>
    requires |reading.seen| <= |Canonical(paths)|
  {
    SnapshotReads(reading.hub, revision, reading.index, reading.seen, Canonical(paths))
  }

  ghost function ManifestOf(paths: seq<string>, reading: Reading): Manifest
    requires |reading.files| == |Canonical(paths)|
  {
    Manifest(reading.index.commit, reading.id, RecordsOf(Canonical(paths), reading.files))
  }

  /** The half of `import` that only reads. */
  method ReadAll(reader: HubCacheReader, revision: string, paths: seq<string>)
    returns (
      r: Result<(Index, Digest, seq<HubFile>, Contents), CompatibleError>, ghost hub: Hub, ghost seen: seq<Files>)
    modifies reader
    ensures r.Success? ==>
              var reading := Reading(hub, r.value.0, r.value.1, seen, r.value.2, r.value.3);
              && Complete(reader.primitives, paths, reading)
              && IndexOf(reading.hub, revision) == Success(reading.index)
              && reader.journal == old(reader.journal) + ReadsOf(revision, paths, reading)
    ensures r.Failure? ==> !r.error.mayHavePublished
    ensures reader.quiet ==>
              && reader.hub == old(reader.hub) && Unchanged(seen, reader.hub.files)
              && (r.Success? ==> IndexOf(reader.hub, revision) == Success(r.value.0))
              && (r.Success? <==> AllReadable(reader.primitives, reader.hub, revision, paths))
              && (r.Failure? ==> WhyNotRead(reader.primitives, reader.hub, revision, paths, r.error.kind))
  {
    hub, seen := reader.hub, [];
    var id := DeriveSelectionId(reader.primitives, paths);
    if id.Failure? {
      return Failure(CompatibleError(ValidationKind(id.error), false)), hub, seen;
    }
    var index := reader.ReadIndex(revision);
    if index.Failure? {
      return Failure(CompatibleError(HubKind(index.error), false)), hub, seen;
    }
    hub := reader.hub;
    var prepared;
    prepared, seen := PrepareSnapshot(reader, index.value, Canonical(paths));
    if prepared.Failure? {
      return Failure(prepared.error), hub, seen;
    }
    JoinReads(old(reader.journal), IndexRead(hub, revision), FileReads(seen, index.value, Canonical(paths)));
    ReadCompletely(
      reader.primitives, paths, Reading(hub, index.value, id.value, seen, prepared.value.0, prepared.value.1),
      revision);
    r := Success((index.value, id.value, prepared.value.0, prepared.value.1));
  }

  lemma ReadCompletely(primitives: Primitives, paths: seq<string>, reading: Reading, revision: string)
    requires DeriveSelection(primitives, paths) == Success(reading.id) && |reading.files| == |Canonical(paths)|
    requires IndexOf(reading.hub, revision) == Success(reading.index)
    requires ReadAs(primitives, reading.index, reading.seen, Canonical(paths), reading.files)
    requires Binds(reading.contents, reading.files)
    ensures Complete(primitives, paths, reading)
  {
  }

  lemma OpensAsCanonical(
    primitives: Primitives, bindings: Bindings, manifests: Manifests, index: Index, seen: seq<Files>,
    paths: seq<string>, snapshot: Snapshot)
    requires OpensAs(primitives, bindings, manifests, index, seen, Canonical(paths), snapshot)
    ensures OpensAs(primitives, bindings, manifests, index, seen, paths, snapshot)
  {
    CanonicalIsStrict(paths);
    CanonicalDependsOnSet(paths, Canonical(paths));
    SelectionIdentity(primitives, paths, Canonical(paths));
  }

  lemma OpensByCommit(
    primitives: Primitives, hub: Hub, bindings: Bindings, manifests: Manifests, revision: string, paths: seq<string>)
    requires IndexOf(hub, revision).Success?
    requires Opens(primitives, hub, bindings, manifests, IndexOf(hub, revision).value.commit, Canonical(paths))
    ensures Opens(primitives, hub, bindings, manifests, revision, paths)
    ensures SnapshotOf(primitives, hub, bindings, manifests, revision, paths)
         == SnapshotOf(primitives, hub, bindings, manifests, IndexOf(hub, revision).value.commit, Canonical(paths))
  {
    CanonicalIsStrict(paths);
    OpenIsStable(
      primitives, hub, bindings, manifests, IndexOf(hub, revision).value.commit, Canonical(paths),
      bindings, manifests, revision, paths);
  }

  /** Opening what has just been imported, by its commit. */
  method Reopen(reader: HubCacheReader, kernel: CacheKernel, commit: string, paths: seq<string>,
    ghost revision: string, ghost reading: Reading)
    returns (r: Result<Snapshot, CompatibleError>, ghost hub: Hub, ghost index: Index, ghost seen: seq<Files>)
    requires kernel.Valid() && reader.primitives == kernel.primitives
    requires Complete(kernel.primitives, paths, reading) && reading.index.commit == commit
    requires (reading.index.commit, reading.id) in kernel.manifests
    requires kernel.manifests[(reading.index.commit, reading.id)] == ManifestOf(paths, reading)
    requires reader.quiet ==>
               && Unchanged(reading.seen, reader.hub.files)
               && IndexOf(reader.hub, revision) == Success(reading.index)
               && AllReadable(reader.primitives, reader.hub, revision, paths)
    modifies reader, kernel
    ensures kernel.Watched() && old(reader.journal) <= reader.journal
    ensures r.Success? ==>
              && IndexOf(hub, commit) == Success(index) && |seen| == |Canonical(paths)|
              && reader.journal == old(reader.journal) + SnapshotReads(hub, commit, index, seen, Canonical(paths))
              && OpensAs(kernel.primitives, kernel.bindings, kernel.manifests, index, seen, paths, r.value)
              && kernel.manifests[(r.value.commit, r.value.selection)] == ManifestOf(paths, reading)
    ensures reader.quiet ==> reader.hub == old(reader.hub)
    ensures reader.quiet && r.Success? ==>
              && Opens(kernel.primitives, reader.hub, kernel.bindings, kernel.manifests, revision, paths)
              && r.value ==
                   SnapshotOf(kernel.primitives, reader.hub, kernel.bindings, kernel.manifests, revision, paths)
    ensures reader.quiet && kernel.quiet ==> r.Success?
  {
    var selection := Canonical(paths);
    if reader.quiet {
      ReadIsNow(kernel.primitives, reader.hub, reading.index, reading.id, paths, reading.seen, reading.files);
      ImportedOpens(kernel.primitives, reader.hub, kernel.bindings, kernel.manifests, revision, paths);
    }
    r, hub, index, seen := Open(reader, kernel, commit, selection);
    if r.Success? {
      CanonicalIsStrict(paths);
      CanonicalDependsOnSet(paths, selection);
      OpensAsCanonical(kernel.primitives, kernel.bindings, kernel.manifests, index, seen, paths, r.value);
      if reader.quiet {
        OpensByCommit(kernel.primitives, reader.hub, kernel.bindings, kernel.manifests, revision, paths);
      }
    }
  }

  /** Imports the selected files of a revision and opens the result.  A failure says it
      may have published exactly when something was tried, and nothing is tried before
      everything has been read. */
  method Import(reader: HubCacheReader, kernel: CacheKernel, revision: string, paths: seq<string>)
    returns (
      r: Result<Snapshot, CompatibleError>, ghost tried: seq<Attempt>, ghost reading: Reading,
      ghost reopened: Reopened)
    requires kernel.Valid() && reader.primitives == kernel.primitives
    requires forall path :: path in paths ==> kernel.primitives.isRepoPath(path)
    modifies reader, kernel
    ensures kernel.Grew() && kernel.attempts == old(kernel.attempts) + tried
    ensures r.Failure? ==> (r.error.mayHavePublished <==> tried != [])
    ensures tried != [] ==>
              && InOrder(tried) && Complete(kernel.primitives, paths, reading)
              && IndexOf(reading.hub, revision) == Success(reading.index)
              && old(reader.journal) + ReadsOf(revision, paths, reading) <= reader.journal
    ensures Attempt.PublishManifest in tried ==>
              Published(kernel.bindings, reading.contents, reading.contents.Keys)
    ensures r.Success? ==>
              && Attempt.PublishManifest in tried
              && OpensAs(
                   kernel.primitives, kernel.bindings, kernel.manifests, reopened.index, reopened.seen, paths, r.value)
              && IndexOf(reopened.hub, reading.index.commit) == Success(reopened.index)
              && reader.journal ==
                   old(reader.journal) + ReadsOf(revision, paths, reading)
                   + SnapshotReads(
                       reopened.hub, reading.index.commit, reopened.index, reopened.seen, Canonical(paths))
              && kernel.manifests[(r.value.commit, r.value.selection)] == ManifestOf(paths, reading)
    ensures reader.quiet ==> reader.hub == old(reader.hub)
    ensures reader.quiet && r.Success? ==>
              && Opens(kernel.primitives, reader.hub, kernel.bindings, kernel.manifests, revision, paths)
              && r.value ==
                   SnapshotOf(kernel.primitives, reader.hub, kernel.bindings, kernel.manifests, revision, paths)
    ensures reader.quiet && kernel.quiet ==>
              && (r.Success? <==>
                    Importable(
                      kernel.primitives, reader.hub, old(kernel.bindings), old(kernel.manifests), revision, paths))
              && (r.Failure? ==>
                    if tried == [] then WhyNotRead(kernel.primitives, reader.hub, revision, paths, r.error.kind)
                    else r.error.kind == SidecarKind(ConflictingRecord))
  {
    tried, reopened := [], Reopened(reader.hub, Index("", map[]), []);
    reading := Reading(reader.hub, Index("", map[]), seq(32, _ => 0), [], [], map[]);
    var read;
    ghost var hub, seen;
    read, hub, seen := ReadAll(reader, revision, paths);
    if read.Failure? {
      return Failure(read.error), tried, reading, reopened;
    }
    var (index, id, files, contents) := read.value;
    reading := Reading(hub, index, id, seen, files, contents);
    KeysAreBlobKeys(kernel.primitives, index, reading.seen, Canonical(paths), files);
    RecordsMakeManifest(kernel.primitives, index.commit, paths, id, files);
    if reader.quiet {
      ReadIsNow(kernel.primitives, reader.hub, index, id, paths, reading.seen, files);
    }
    var published;
    published, tried := PublishPrepared(kernel, index.commit, id, Canonical(paths), files, contents);
    if published.Failure? {
      return Failure(published.error), tried, reading, reopened;
    }
    ghost var now;
    r, hub, now, seen := Reopen(reader, kernel, index.commit, paths, revision, reading);
    reopened := Reopened(hub, now, seen);
    if r.Failure? {
      r := Failure(WithMayHavePublished(r.error));
    }
  }

  /** In an unchanged shared cache, opening gives back what was imported: for any order
      and repetition of the paths, and any revision of the commit. */
  method ImportThenOpen(
    reader: HubCacheReader, kernel: CacheKernel, revision: string, paths: seq<string>,
    revision': string, paths': seq<string>)
    returns (imported: Result<Snapshot, CompatibleError>, opened_: Result<Snapshot, CompatibleError>)
    requires kernel.Valid() && reader.primitives == kernel.primitives && reader.quiet
    requires forall path :: path in paths ==> kernel.primitives.isRepoPath(path)
    requires forall path :: path in paths <==> path in paths'
    requires IndexOf(reader.hub, revision') == IndexOf(reader.hub, revision)
    modifies reader, kernel
    ensures imported.Success? && opened_.Success? ==> opened_ == imported
    ensures imported.Success? && kernel.quiet ==> opened_ == imported
  {
    ghost var tried, reading, seen;
    imported, tried, reading, seen := Import(reader, kernel, revision, paths);
    ghost var bindings, manifests := kernel.bindings, kernel.manifests;
    ghost var hub, index, now;
    opened_, hub, index, now := Open(reader, kernel, revision', paths');
    if imported.Success? {
      OpenIsStable(
        kernel.primitives, reader.hub, bindings, manifests, revision, paths,
        kernel.bindings, kernel.manifests, revision', paths');
    }
  }
}
