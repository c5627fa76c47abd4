/** The sidecar of immutable records kept beside a shared cache: bindings from blob
    keys to content, and manifests of imported snapshots. */
module Sidecar {
  import opened Environment
  import opened HubCache
  import opened Keys
  import opened Sorting
  import opened Text
  import opened Wrappers

  datatype BindingRecord = BindingRecord(sha256: string, size: nat)

  datatype FileRecord = FileRecord(path: string, sha256: string, size: nat, key: Option<string>)

  datatype Manifest = Manifest(commit: string, selection: Digest, files: seq<FileRecord>)

  type Bindings = map<string, BindingRecord>

  type Manifests = map<(string, Digest), Manifest>

  datatype CacheErrorKind = CacheIo(io: IoError) | ConflictingRecord | InvalidRecord

  datatype CacheError = CacheError(kind: CacheErrorKind, mayHavePublished: bool)

  // ----- manifests

  predicate PathLeq(a: FileRecord, b: FileRecord) {
    Leq(a.path, b.path)
  }

  function Paths(files: seq<FileRecord>): (r: seq<string>)
    ensures |r| == |files|
  {
    seq(|files|, i requires 0 <= i < |files| => files[i].path)
  }

  ghost predicate ValidRecord(primitives: Primitives, record: FileRecord) {
    && primitives.isRepoPath(record.path) && IsLowerHex(record.sha256, 64)
    && (record.key.Some? ==> IsBlobKey(primitives, record.key.value))
  }

  /** Sorted by path, valid, without repetition, and for the very selection named. */
  ghost function NewManifest(primitives: Primitives, commit: string, selection: Digest, files: seq<FileRecord>)
    : Result<Manifest, CacheError>
  {
    var sorted := Sort(PathLeq, files);
    if (forall record :: record in sorted ==> ValidRecord(primitives, record))
       && StrictlySorted(Paths(sorted))
       && DeriveSelection(primitives, Paths(sorted)) == Success(selection)
    then Success(Manifest(commit, selection, sorted))
    else Failure(CacheError(InvalidRecord, false))
  }

  // ----- what is published

  /** A record's content is bound to its key. */
  predicate Bound(bindings: Bindings, record: FileRecord) {
    && record.key.Some? && record.key.value in bindings
    && bindings[record.key.value] == BindingRecord(record.sha256, record.size)
  }

  /** Every manifest that is there finds all its bindings there too. */
  predicate Sound(bindings: Bindings, manifests: Manifests) {
    forall id, k :: id in manifests && 0 <= k < |manifests[id].files| ==> Bound(bindings, manifests[id].files[k])
  }

  predicate Kept<K(!new), V(==)>(old_: map<K, V>, new_: map<K, V>) {
    forall k :: k in old_ ==> k in new_ && new_[k] == old_[k]
  }

  datatype Attempt = Initialize | PublishBinding(key: string) | PublishManifest

  /** What a kernel notes down about manifests: how it answered a publication, and what a
      reading of one gave. */
  datatype Answer =
    | ManifestPublished(error: Option<CacheError>)
    | ManifestRead(result: Result<Manifest, CacheError>)

  /** What goes wrong on a kernel with a script: a manifest that was put in place is
      reported with the one error, and no manifest can be read but with the other. */
  datatype Mishap = Mishap(published: IoError, read: IoError)

  /** Other writers only add records, and add a manifest only after its bindings. */
  class CacheKernel {
    var bindings: Bindings
    var manifests: Manifests
    ghost var attempts: seq<Attempt>
    ghost var answers: seq<Answer>
    const quiet: bool
    const script: Option<Mishap>
    const primitives: Primitives

    constructor (
      primitives: Primitives, bindings: Bindings, manifests: Manifests, quiet: bool, script: Option<Mishap>)
      requires Sound(bindings, manifests)
      ensures Valid() && this.bindings == bindings && this.manifests == manifests && attempts == [] && answers == []
      ensures this.quiet == quiet && this.script == script && this.primitives == primitives
    {
      this.primitives, this.bindings, this.manifests := primitives, bindings, manifests;
      this.quiet, this.script, attempts, answers := quiet, script, [], [];
    }

    /** Left alone by others, and with no faults but those of the script, if there is one. */
    predicate Still() {
      quiet || script.Some?
    }

    /** The script is in force. */
    predicate Scripted() {
      !quiet && script.Some?
    }

    predicate Valid()
      reads this
    {
      Sound(bindings, manifests)
    }

    twostate predicate Grew()
      reads this
    {
      Valid() && Kept(old(bindings), bindings) && Kept(old(manifests), manifests)
    }

    twostate predicate Watched()
      reads this
    {
      && Grew() && attempts == old(attempts)
      && (Still() ==> bindings == old(bindings) && manifests == old(manifests))
    }

    method Interfere()
      requires Valid()
      modifies this`bindings, this`manifests
      ensures Watched()
    {
      var b: Bindings, m: Manifests := *, *;
      if !Still() && Kept(bindings, b) && Kept(manifests, m) && Sound(b, m) {
        bindings, manifests := b, m;
      }
    }

    method Fault() returns (fault: Option<IoError>)
      ensures Still() ==> fault.None?
    {
      var fails: bool, kind: IoError := *, *;
      fault := if fails && !Still() then Some(kind) else None;
    }

    method Initialize() returns (r: Result<(), CacheError>)
      requires Valid()
      modifies this
      ensures Grew() && attempts == old(attempts) + [Attempt.Initialize]
      ensures Still() ==> r.Success? && bindings == old(bindings) && manifests == old(manifests)
    {
      Interfere();
      attempts := attempts + [Attempt.Initialize];
      var fault := Fault();
      var flag: bool := *;
      r := if fault.Some? then Failure(CacheError(CacheIo(fault.value), flag)) else Success(());
    }

    /** Publishes once: an equal record is fine, a different one is a conflict.  A
        failure says whether the record may be there all the same. */
    method PublishHubBlobBinding(key: string, digest: Digest, size: nat) returns (r: Result<(), CacheError>)
      requires Valid()
      modifies this
      ensures Grew() && attempts == old(attempts) + [PublishBinding(key)]
      ensures r.Success? ==> key in bindings && bindings[key] == BindingRecord(Hex(digest), size)
      ensures Still() && r.Failure? ==> r.error == CacheError(ConflictingRecord, false)
      ensures Still() ==>
                && manifests == old(manifests)
                && if old(key in bindings) then
                     bindings == old(bindings) && (r.Success? <==> bindings[key] == BindingRecord(Hex(digest), size))
                   else r.Success? && bindings == old(bindings)[key := BindingRecord(Hex(digest), size)]
    {
      var record := BindingRecord(Hex(digest), size);
      attempts := attempts + [PublishBinding(key)];
      Interfere();
      var early := Fault();
      if early.Some? {
        var flag: bool := *;
        return Failure(CacheError(CacheIo(early.value), flag));
      }
      if key in bindings {
        return if bindings[key] == record then Success(()) else Failure(CacheError(ConflictingRecord, false));
      }
      bindings := bindings[key := record];
      var late := Fault();
      r := if late.Some? then Failure(CacheError(CacheIo(late.value), true)) else Success(());
    }

    method ReadHubBlobBinding(key: string) returns (r: Result<BindingRecord, CacheError>)
      requires Valid()
      modifies this`bindings, this`manifests
      ensures Watched()
      ensures r.Success? ==> key in bindings && r.value == bindings[key]
      ensures r.Failure? ==> !r.error.mayHavePublished
      ensures Still() ==>
                r == if key in bindings then Success(bindings[key]) else Failure(CacheError(CacheIo(NotFound), false))
    {
      Interfere();
      var fault := Fault();
      r := if fault.Some? then Failure(CacheError(CacheIo(fault.value), false))
           else if key in bindings then Success(bindings[key])
           else Failure(CacheError(CacheIo(NotFound), false));
    }

    method ReadSnapshotManifest(commit: string, selection: Digest) returns (r: Result<Manifest, CacheError>)
      requires Valid()
      modifies this`bindings, this`manifests, this`answers
      ensures Watched() && answers == old(answers) + [ManifestRead(r)]
      ensures r.Success? ==> (commit, selection) in manifests && r.value == manifests[(commit, selection)]
      ensures r.Failure? ==> !r.error.mayHavePublished
      ensures quiet ==>
                r == if (commit, selection) in manifests then Success(manifests[(commit, selection)])
                     else Failure(CacheError(CacheIo(NotFound), false))
      ensures Scripted() ==> r == Failure(CacheError(CacheIo(script.value.read), false))
    {
      Interfere();
      var fault := Fault();
      fault := if Scripted() then Some(script.value.read) else fault;
      r := if fault.Some? then Failure(CacheError(CacheIo(fault.value), false))
           else if (commit, selection) in manifests then Success(manifests[(commit, selection)])
           else Failure(CacheError(CacheIo(NotFound), false));
      answers := answers + [ManifestRead(r)];
    }

    method AcquireSnapshotLease() returns (r: Result<(), CacheError>)
      requires Valid()
      modifies this`bindings, this`manifests
      ensures Watched() && (quiet ==> r.Success?) && (r.Failure? ==> !r.error.mayHavePublished)
    {
      Interfere();
      var fault := Fault();
      r := if fault.Some? then Failure(CacheError(CacheIo(fault.value), false)) else Success(());
    }

    method VerifyBindings(files: seq<FileRecord>) returns (r: Result<(), CacheError>)
      requires Valid()
      modifies this`bindings, this`manifests
      ensures Watched()
      ensures r.Success? ==> forall k :: 0 <= k < |files| ==> Bound(bindings, files[k])
      ensures r.Failure? ==> !r.error.mayHavePublished
      ensures Still() && (forall k :: 0 <= k < |files| ==> Bound(bindings, files[k])) ==> r.Success?
    {
      for k := 0 to |files|
        invariant Watched() && forall j :: 0 <= j < k ==> Bound(bindings, files[j])
      {
        if files[k].key.None? {
          return Failure(CacheError(ConflictingRecord, false));
        }
        var binding := ReadHubBlobBinding(files[k].key.value);
        if binding.Failure? {
          return Failure(binding.error);
        }
        if binding.value != BindingRecord(files[k].sha256, files[k].size) {
          return Failure(CacheError(ConflictingRecord, false));
        }
      }
      r := Success(());
    }

    /** A manifest appears only once all its bindings have. */
    method PublishCompatibleManifest(commit: string, selection: Digest, files: seq<FileRecord>)
      returns (r: Result<(), CacheError>)
      requires Valid()
      modifies this
      ensures Grew() && attempts == old(attempts) + [PublishManifest]
      ensures answers == old(answers) + [ManifestPublished(if r.Success? then None else Some(r.error))]
      ensures r.Success? ==>
                && NewManifest(primitives, commit, selection, files).Success?
                && (commit, selection) in manifests
                && manifests[(commit, selection)] == NewManifest(primitives, commit, selection, files).value
      ensures Still() ==> bindings == old(bindings)
      ensures Scripted() && NewManifest(primitives, commit, selection, files).Success?
              && old((commit, selection) !in manifests) ==>
                var manifest := NewManifest(primitives, commit, selection, files).value;
                (forall k :: 0 <= k < |manifest.files| ==> Bound(old(bindings), manifest.files[k])) ==>
                && r == Failure(CacheError(CacheIo(script.value.published), true))
                && manifests == old(manifests)[(commit, selection) := manifest]
      ensures quiet && NewManifest(primitives, commit, selection, files).Success? ==>
                var manifest := NewManifest(primitives, commit, selection, files).value;
                (forall k :: 0 <= k < |manifest.files| ==> Bound(old(bindings), manifest.files[k])) ==>
                if old((commit, selection) in manifests) then
                  && manifests == old(manifests)
                  && (r.Success? <==> manifests[(commit, selection)] == manifest)
                  && (r.Failure? ==> r.error == CacheError(ConflictingRecord, false))
                else r.Success? && manifests == old(manifests)[(commit, selection) := manifest]
    {
      attempts := attempts + [PublishManifest];
      r := PutManifest(commit, selection, files);
      answers := answers + [ManifestPublished(if r.Success? then None else Some(r.error))];
    }

    method PutManifest(commit: string, selection: Digest, files: seq<FileRecord>)
      returns (r: Result<(), CacheError>)
      requires Valid()
      modifies this`bindings, this`manifests
      ensures Grew()
      ensures r.Success? ==>
                && NewManifest(primitives, commit, selection, files).Success?
                && (commit, selection) in manifests
                && manifests[(commit, selection)] == NewManifest(primitives, commit, selection, files).value
      ensures Still() ==> bindings == old(bindings)
      ensures Scripted() && NewManifest(primitives, commit, selection, files).Success?
              && old((commit, selection) !in manifests) ==>
                var manifest := NewManifest(primitives, commit, selection, files).value;
                (forall k :: 0 <= k < |manifest.files| ==> Bound(old(bindings), manifest.files[k])) ==>
                && r == Failure(CacheError(CacheIo(script.value.published), true))
                && manifests == old(manifests)[(commit, selection) := manifest]
      ensures quiet && NewManifest(primitives, commit, selection, files).Success? ==>
                var manifest := NewManifest(primitives, commit, selection, files).value;
                (forall k :: 0 <= k < |manifest.files| ==> Bound(old(bindings), manifest.files[k])) ==>
                if old((commit, selection) in manifests) then
                  && manifests == old(manifests)
                  && (r.Success? <==> manifests[(commit, selection)] == manifest)
                  && (r.Failure? ==> r.error == CacheError(ConflictingRecord, false))
                else r.Success? && manifests == old(manifests)[(commit, selection) := manifest]
    {
      var created := CreateManifest(primitives, commit, selection, files);
      if created.Failure? {
        return Failure(created.error);
      }
      var manifest := created.value;
      var early := Fault();
      if early.Some? {
        var flag: bool := *;
        return Failure(CacheError(CacheIo(early.value), flag));
      }
      r := VerifyBindings(manifest.files);
      if r.Failure? {
        return;
      }
      Interfere();
      if (commit, selection) in manifests {
        return if manifests[(commit, selection)] == manifest then Success(())
               else Failure(CacheError(ConflictingRecord, false));
      }
      manifests := manifests[(commit, selection) := manifest];
      var late := Fault();
      late := if Scripted() then Some(script.value.published) else late;
      r := if late.Some? then Failure(CacheError(CacheIo(late.value), true)) else Success(());
    }
  }

  lemma PathLeqIsOrder()
    ensures TotalPreorder(PathLeq)
  {
    LeqIsOrder();
  }

  /** A manifest can be made of records exactly if each is valid, no path comes twice, and
      their paths are the selection it names; it holds them in the order of their paths. */
  lemma ManifestExact(
    primitives: Primitives, commit: string, selection: Digest, files: seq<FileRecord>, manifest: Manifest)
    ensures NewManifest(primitives, commit, selection, files) == Success(manifest) <==>
            && manifest.commit == commit && manifest.selection == selection
            && multiset(manifest.files) == multiset(files) && StrictlySorted(Paths(manifest.files))
            && (forall record :: record in files ==> ValidRecord(primitives, record))
            && DeriveSelection(primitives, Paths(files)) == Success(selection)
  {
    var sorted := Sort(PathLeq, files);
    PathLeqIsOrder();
    SortSorts(PathLeq, files);
    SameElements(sorted, files);
    SamePaths(primitives, sorted, files);
    if multiset(manifest.files) == multiset(files) && StrictlySorted(Paths(manifest.files)) {
      OneOrder(manifest.files, sorted);
    }
  }

  lemma SamePaths(primitives: Primitives, s: seq<FileRecord>, t: seq<FileRecord>)
    requires multiset(s) == multiset(t)
    ensures DeriveSelection(primitives, Paths(s)) == DeriveSelection(primitives, Paths(t))
  {
    SameElements(s, t);
    forall path ensures path in Paths(s) <==> path in Paths(t) {
      PathsOf(s, path);
      PathsOf(t, path);
    }
    SelectionIdentity(primitives, Paths(s), Paths(t));
  }

  lemma PathsOf(files: seq<FileRecord>, path: string)
    ensures path in Paths(files) <==> exists record :: record in files && record.path == path
  {
    if path in Paths(files) {
      var k :| 0 <= k < |files| && Paths(files)[k] == path;
      assert files[k] in files;
    }
    if record :| record in files && record.path == path {
      var k :| 0 <= k < |files| && files[k] == record;
      assert Paths(files)[k] == path;
    }
  }

  /** Records without a repeated path have one order by path. */
  lemma OneOrder(s: seq<FileRecord>, t: seq<FileRecord>)
    requires multiset(s) == multiset(t) && StrictlySorted(Paths(s)) && Sorted(PathLeq, t)
    ensures s == t
  {
    SameElements(s, t);
    SortKeepsSorted(PathLeq, t);
    forall i, j | 0 <= i < j < |s| ensures PathLeq(s[i], s[j]) {
      assert Leq(Paths(s)[i], Paths(s)[j]);
    }
    SortUnique(s, t);
  }

  lemma FirstOfBoth(s: seq<FileRecord>, t: seq<FileRecord>)
    requires multiset(s) == multiset(t) && StrictlySorted(Paths(s)) && Sorted(PathLeq, t) && s != [] && t != []
    ensures s[0] == t[0]
  {
    SameElements(s, t);
    assert t[0] in s && s[0] in t;
    var i :| 0 <= i < |s| && s[i] == t[0];
    var j :| 0 <= j < |t| && t[j] == s[0];
    if i > 0 && j > 0 {
      assert PathLeq(t[0], t[j]) && Leq(Paths(s)[0], Paths(s)[i]);
      LeqAntisymmetric(s[0].path, t[0].path);
    }
  }

  lemma {:induction false} SortUnique(s: seq<FileRecord>, t: seq<FileRecord>)
    requires multiset(s) == multiset(t) && StrictlySorted(Paths(s)) && Sorted(PathLeq, t)
    ensures s == t
  {
    SameElements(s, t);
    if s != [] {
      FirstOfBoth(s, t);
      WithoutFirst(s);
      WithoutFirst(t);
      TailIsStrict(s);
      SortUnique(s[1..], t[1..]);
      assert s == [s[0]] + s[1..] && t == [t[0]] + t[1..];
    }
  }

  lemma WithoutFirst(s: seq<FileRecord>)
    requires s != []
    ensures multiset(s[1..]) == multiset(s) - multiset{s[0]}
  {
    assert s == [s[0]] + s[1..];
  }

  lemma TailIsStrict(s: seq<FileRecord>)
    requires s != [] && StrictlySorted(Paths(s))
    ensures StrictlySorted(Paths(s[1..]))
  {
    assert Paths(s[1..]) == Paths(s)[1..];
  }

  method CreateManifest(primitives: Primitives, commit: string, selection: Digest, files: seq<FileRecord>)
    returns (r: Result<Manifest, CacheError>)
    ensures r == NewManifest(primitives, commit, selection, files)
  {
    var sorted := Sort(PathLeq, files);
    for k := 0 to |sorted|
      invariant forall j :: 0 <= j < k ==> ValidRecord(primitives, sorted[j])
    {
      var record := sorted[k];
      if !(primitives.isRepoPath(record.path) && IsLowerHex(record.sha256, 64)
           && (record.key.Some? ==> IsBlobKey(primitives, record.key.value))) {
        assert record in sorted;
        return Failure(CacheError(InvalidRecord, false));
      }
    }
    var paths := Paths(sorted);
    if !StrictlySorted(paths) {
      return Failure(CacheError(InvalidRecord, false));
    }
    var id := DeriveSelectionId(primitives, paths);
    if id != Success(selection) {
      return Failure(CacheError(InvalidRecord, false));
    }
    r := Success(Manifest(commit, selection, sorted));
  }
}
