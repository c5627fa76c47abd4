/** Reading snapshots of the shared cache other tools write. */
module HubCache {
  import opened Content
  import opened Environment
  import opened Keys
  import L = LinkTarget
  import opened Publication
  import opened Text
  import opened Wrappers

  datatype HubError = HubMissing | HubIncomplete | HubCorrupt | HubUnsafe | HubIo(io: IoError)

  datatype DirectoryEntry = Regular(content: seq<Byte>) | Symlink(target: L.Path) | Special

  type Files = map<Location, DirectoryEntry>

  type Tree = map<string, TreeEntry>

  /** One repository directory: symbolic revisions, trees by commit, and files. */
  datatype Hub = Hub(refs: map<string, string>, trees: map<string, Tree>, files: Files)

  datatype Index = Index(commit: string, tree: Tree)

  datatype Form = SnapshotOnly | CopiedWithBlob | RelativeSymlink

  datatype HubFile = HubFile(
    path: Location, blobPath: Option<Location>, size: nat, digest: Digest, form: Form, key: string)

  predicate IsCommit(revision: string) {
    IsLowerHex(revision, 40)
  }

  // ----- paths

  function SplitPath(path: string): (parts: Location)
    ensures parts != []
    decreases |path|
  {
    var slash := Find(path, '/', 0);
    if slash.None? then [path] else [path[..slash.value]] + SplitPath(path[slash.value + 1..])
  }

  function SnapshotFile(commit: string, path: string): Location {
    ["snapshots", commit] + SplitPath(path)
  }

  function BlobPath(key: string): Location {
    ["blobs", key]
  }

  predicate HasIncompleteSuffix(value: string) {
    var suffix := ".incomplete";
    && |value| >= |suffix|
    && forall k :: 0 <= k < |suffix| ==> LowerCase(value[|value| - |suffix| + k]) == suffix[k]
  }

  /** Blob keys are single path components that no download in progress uses. */
  predicate IsBlobKey(primitives: Primitives, value: string) {
    primitives.isRepoPath(value) && '/' !in value && !HasIncompleteSuffix(value)
  }

  function CompatibleBlobKey(primitives: Primitives, entry: TreeEntry): Result<string, HubError> {
    match ValidatedLfsSha256(entry)
    case Failure(_) => Failure(HubCorrupt)
    case Success(lfs) =>
      var value := if lfs.Some? then lfs.value else entry.blobId;
      if IsBlobKey(primitives, value) then Success(value) else Failure(HubUnsafe)
  }

  // ----- what reading finds

  function IndexOf(hub: Hub, revision: string): Result<Index, HubError> {
    var commit :- if IsCommit(revision) then Success(revision)
                  else if revision !in hub.refs then Failure(HubMissing)
                  else if IsCommit(hub.refs[revision]) then Success(hub.refs[revision])
                  else Failure(HubCorrupt);
    if commit in hub.trees then Success(Index(commit, hub.trees[commit])) else Failure(HubIncomplete)
  }

  /** The size and digest of a regular file that is the content of its tree entry. */
  function HashRegular(primitives: Primitives, files: Files, location: Location, entry: TreeEntry)
    : Result<(nat, Digest), HubError>
  {
    if location !in files then Failure(HubIncomplete)
    else match files[location]
      case Regular(content) =>
        if IsContent(primitives, entry, content) then Success((|content|, primitives.sha256(content)))
        else Failure(HubCorrupt)
      case _ => Failure(HubCorrupt)
  }

  function Normals(location: Location): L.Path {
    L.Downs(location)
  }

  function FileOf(primitives: Primitives, files: Files, index: Index, path: string): Result<HubFile, HubError> {
    if path !in index.tree then Failure(HubMissing)
    else
      var entry := index.tree[path];
      var snapshot := SnapshotFile(index.commit, path);
      var key :- CompatibleBlobKey(primitives, entry);
      var blob := BlobPath(key);
      if snapshot !in files then Failure(HubIncomplete)
      else match files[snapshot]
        case Regular(_) =>
          var (size, digest) :- HashRegular(primitives, files, snapshot, entry);
          if blob !in files then Success(HubFile(snapshot, None, size, digest, SnapshotOnly, key))
          else if files[blob].Regular? then
            var (blobSize, blobDigest) :- HashRegular(primitives, files, blob, entry);
            if blobSize != size || blobDigest != digest then Failure(HubCorrupt)
            else Success(HubFile(snapshot, Some(blob), size, digest, CopiedWithBlob, key))
          else Failure(HubCorrupt)
        case Symlink(target) =>
          var expected := L.ExpectedTarget(Normals(snapshot), Normals(blob));
          if expected.None? then Failure(HubCorrupt)
          else if target != expected.value then Failure(HubUnsafe)
          else
            var (size, digest) :- HashRegular(primitives, files, blob, entry);
            Success(HubFile(snapshot, Some(blob), size, digest, RelativeSymlink, key))
        case Special => Failure(HubCorrupt)
  }

  /** `content` is what `file` was read from: the content of the tree entry, kept in the
      snapshot itself, in agreement with a blob if there is one, or in the blob its link
      leads to the shortest way. */
  ghost predicate ReadFrom(
    primitives: Primitives, files: Files, index: Index, path: string, file: HubFile, content: seq<Byte>)
  {
    && path in index.tree
    && CompatibleBlobKey(primitives, index.tree[path]) == Success(file.key)
    && IsContent(primitives, index.tree[path], content)
    && file.size == |content| && file.digest == primitives.sha256(content)
    && file.path == SnapshotFile(index.commit, path) && file.path in files
    && file.blobPath == (if file.form == SnapshotOnly then None else Some(BlobPath(file.key)))
    && match file.form
       case SnapshotOnly => files[file.path] == Regular(content) && BlobPath(file.key) !in files
       case CopiedWithBlob =>
         && files[file.path] == Regular(content)
         && BlobPath(file.key) in files && files[BlobPath(file.key)].Regular?
         && IsContent(primitives, index.tree[path], files[BlobPath(file.key)].content)
         && primitives.sha256(files[BlobPath(file.key)].content) == file.digest
       case RelativeSymlink =>
         && files[file.path].Symlink?
         && L.ShortestWalk(file.path[..|file.path| - 1], BlobPath(file.key), files[file.path].target)
         && BlobPath(file.key) in files && files[BlobPath(file.key)] == Regular(content)
  }

  lemma LinkExact(commit: string, path: string, key: string, target: L.Path)
    ensures var snapshot := SnapshotFile(commit, path);
            L.ExpectedTarget(Normals(snapshot), Normals(BlobPath(key))) == Some(target) <==>
            L.ShortestWalk(snapshot[..|snapshot| - 1], BlobPath(key), target)
  {
    var snapshot := SnapshotFile(commit, path);
    L.TargetExact(snapshot, BlobPath(key), target);
    assert snapshot[..|snapshot| - 1][0] != BlobPath(key)[0];
  }

  /** Whatever is read is the named content, and a link that is followed leads to it. */
  lemma FileIsContent(primitives: Primitives, files: Files, index: Index, path: string)
    returns (content: seq<Byte>)
    requires FileOf(primitives, files, index, path).Success?
    ensures ReadFrom(primitives, files, index, path, FileOf(primitives, files, index, path).value, content)
  {
    var file := FileOf(primitives, files, index, path).value;
    var snapshot, blob := SnapshotFile(index.commit, path), BlobPath(file.key);
    if files[snapshot].Symlink? {
      content := files[blob].content;
      LinkExact(index.commit, path, file.key, files[snapshot].target);
    } else {
      content := files[snapshot].content;
    }
  }

  /** What reading gives for a link with the expected target. */
  lemma FollowedLink(primitives: Primitives, files: Files, index: Index, path: string, key: string)
    requires path in index.tree && CompatibleBlobKey(primitives, index.tree[path]) == Success(key)
    requires var snapshot, blob := SnapshotFile(index.commit, path), BlobPath(key);
             && snapshot in files && files[snapshot].Symlink?
             && L.ExpectedTarget(Normals(snapshot), Normals(blob)) == Some(files[snapshot].target)
             && HashRegular(primitives, files, blob, index.tree[path]).Success?
    ensures var snapshot, blob := SnapshotFile(index.commit, path), BlobPath(key);
            var (size, digest) := HashRegular(primitives, files, blob, index.tree[path]).value;
            FileOf(primitives, files, index, path)
            == Success(HubFile(snapshot, Some(blob), size, digest, RelativeSymlink, key))
  {
  }

  /** What reading gives for a copy, with or without a blob beside it. */
  lemma CopyIsRead(
    primitives: Primitives, files: Files, index: Index, path: string, file: HubFile, content: seq<Byte>)
    ensures ReadFrom(primitives, files, index, path, file, content) && file.form != RelativeSymlink ==>
              FileOf(primitives, files, index, path) == Success(file)
  {
    if ReadFrom(primitives, files, index, path, file, content) && file.form != RelativeSymlink {
      assert HashRegular(primitives, files, file.path, index.tree[path]) == Success((file.size, file.digest));
      if file.form == CopiedWithBlob {
        var blob := BlobPath(file.key);
        assert HashRegular(primitives, files, blob, index.tree[path]) == Success((file.size, file.digest));
      }
    }
  }

  /** And whatever is so kept is read. */
  lemma ContentIsRead(
    primitives: Primitives, files: Files, index: Index, path: string, file: HubFile, content: seq<Byte>)
    ensures ReadFrom(primitives, files, index, path, file, content) ==>
              FileOf(primitives, files, index, path) == Success(file)
  {
    CopyIsRead(primitives, files, index, path, file, content);
    if ReadFrom(primitives, files, index, path, file, content) && file.form == RelativeSymlink {
      LinkExact(index.commit, path, file.key, files[file.path].target);
      FollowedLink(primitives, files, index, path, file.key);
    }
  }

  // ----- how revisions resolve

  lemma CommitExact(revision: string)
    ensures IsCommit(revision) <==>
            |revision| == 40 && forall k :: 0 <= k < |revision| ==> revision[k] in "0123456789abcdef"
  {
    LowerHexExact(revision, 40);
  }

  /** A commit stands for its own tree, whatever the refs say. */
  lemma CommitResolves(hub: Hub, commit: string, refs: map<string, string>)
    requires IsCommit(commit)
    ensures IndexOf(hub.(refs := refs), commit) == IndexOf(hub, commit)
    ensures IndexOf(hub, commit) ==
            if commit in hub.trees then Success(Index(commit, hub.trees[commit])) else Failure(HubIncomplete)
  {
  }

  /** Any other revision stands for the commit its own ref holds; no other ref, and no
      other tree, has a say in it. */
  lemma RefResolves(hub: Hub, revision: string, commit: string, other: string, text: string, tree: Tree)
    requires !IsCommit(revision)
    ensures IsCommit(commit) ==>
              IndexOf(hub.(refs := hub.refs[revision := commit]), revision) == IndexOf(hub, commit)
    ensures !IsCommit(commit) ==>
              IndexOf(hub.(refs := hub.refs[revision := commit]), revision) == Failure(HubCorrupt)
    ensures IndexOf(hub.(refs := hub.refs - {revision}), revision) == Failure(HubMissing)
    ensures other != revision ==>
              && IndexOf(hub.(refs := hub.refs[other := text]), revision) == IndexOf(hub, revision)
              && IndexOf(hub.(refs := hub.refs - {other}), revision) == IndexOf(hub, revision)
    ensures revision in hub.refs && other != hub.refs[revision] ==>
              IndexOf(hub.(trees := hub.trees[other := tree]), revision) == IndexOf(hub, revision)
  {
  }

  // ----- where files are

  function Join(parts: Location): string
    requires parts != []
  {
    if |parts| == 1 then parts[0] else parts[0] + "/" + Join(parts[1..])
  }

  lemma {:induction false} SplitThenJoin(path: string)
    ensures Join(SplitPath(path)) == path
    ensures forall part :: part in SplitPath(path) ==> '/' !in part
    decreases |path|
  {
    var slash := Find(path, '/', 0);
    if slash.None? {
      forall k | 0 <= k < |path| ensures path[k] != '/' { FindIsFirst(path, '/', 0, k); }
    } else {
      forall k | 0 <= k < slash.value ensures path[k] != '/' { FindIsFirst(path, '/', 0, k); }
      SplitThenJoin(path[slash.value + 1..]);
      assert SplitPath(path)[1..] == SplitPath(path[slash.value + 1..]);
      assert path == path[..slash.value] + "/" + path[slash.value + 1..];
    }
  }

  /** A file of a snapshot lies under its commit, by the components of its path; a blob
      lies beside, by its key. */
  lemma PlacesSpelled(commit: string, path: string, key: string)
    ensures |SnapshotFile(commit, path)| >= 3 && SnapshotFile(commit, path)[..2] == ["snapshots", commit]
    ensures Join(SnapshotFile(commit, path)[2..]) == path
    ensures forall part :: part in SnapshotFile(commit, path)[2..] ==> '/' !in part
    ensures BlobPath(key) == ["blobs", key]
  {
    SplitThenJoin(path);
    assert SnapshotFile(commit, path)[2..] == SplitPath(path);
  }

  /** A large file's key is its SHA-256, any other file's its blob identity; what cannot be
      one path component, or looks like a download in progress, is unsafe. */
  lemma BlobKeyExact(primitives: Primitives, entry: TreeEntry)
    ensures var wellFormed := entry.lfsSha256.Some? && entry.lfsSize.Some?
                              && IsLowerHex(entry.lfsSha256.value, 64) && entry.lfsSize.value == entry.size;
            var bare := entry.lfsSha256.None? && entry.lfsSize.None?;
            var value := if wellFormed then entry.lfsSha256.value else entry.blobId;
            CompatibleBlobKey(primitives, entry) ==
            if !wellFormed && !bare then Failure(HubCorrupt)
            else if IsBlobKey(primitives, value) then Success(value)
            else Failure(HubUnsafe)
  {
  }

  lemma UnfinishedIsNoKey(primitives: Primitives, stem: string, suffix: string)
    requires |suffix| == |".incomplete"|
    ensures IsBlobKey(primitives, stem + suffix) <==>
            && primitives.isRepoPath(stem + suffix) && '/' !in stem + suffix
            && exists k :: 0 <= k < |suffix| && LowerCase(suffix[k]) != ".incomplete"[k]
  {
    var value := stem + suffix;
    assert value[|stem|..] == suffix;
    forall k | 0 <= k < |suffix| ensures value[|value| - |suffix| + k] == suffix[k] {
      assert value[|stem|..][k] == value[|stem| + k];
    }
  }

  // ----- why reading fails

  lemma HasTarget(commit: string, path: string, key: string)
    ensures L.ExpectedTarget(Normals(SnapshotFile(commit, path)), Normals(BlobPath(key))).Some?
  {
    var snapshot := SnapshotFile(commit, path);
    var from := snapshot[..|snapshot| - 1];
    assert L.Names(L.Parent(Normals(snapshot)).value).value == from;
    assert L.Names(Normals(BlobPath(key))).value == BlobPath(key);
    assert from[0] != BlobPath(key)[0];
  }

  /** The snapshot is a link, to its blob or elsewhere. */
  ghost predicate IsLink(files: Files, index: Index, path: string, key: string, right: bool) {
    var snapshot := SnapshotFile(index.commit, path);
    && snapshot in files && files[snapshot].Symlink?
    && (right <==> L.ShortestWalk(snapshot[..|snapshot| - 1], BlobPath(key), files[snapshot].target))
  }

  lemma LinkFailures(primitives: Primitives, files: Files, index: Index, path: string, key: string, right: bool)
    requires path in index.tree && CompatibleBlobKey(primitives, index.tree[path]) == Success(key)
    requires IsLink(files, index, path, key, right)
    ensures var r := FileOf(primitives, files, index, path);
            if !right then r == Failure(HubUnsafe)
            else if BlobPath(key) !in files then r == Failure(HubIncomplete)
            else r.Success? || r == Failure(HubCorrupt)
  {
    HasTarget(index.commit, path, key);
    LinkExact(index.commit, path, key, files[SnapshotFile(index.commit, path)].target);
  }

  lemma OtherFailures(primitives: Primitives, files: Files, index: Index, path: string, key: string)
    requires path in index.tree && CompatibleBlobKey(primitives, index.tree[path]) == Success(key)
    requires var snapshot := SnapshotFile(index.commit, path); snapshot in files && !files[snapshot].Symlink?
    ensures var r := FileOf(primitives, files, index, path); r.Success? || r == Failure(HubCorrupt)
  {
  }

  /** Each failure of a read tells what it says: an unknown path is missing, an unusable
      key or a link elsewhere unsafe, what is not there incomplete, all else corrupt. */
  lemma ReadFailures(primitives: Primitives, files: Files, index: Index, path: string)
    ensures var r := FileOf(primitives, files, index, path);
            if path !in index.tree then r == Failure(HubMissing)
            else match CompatibleBlobKey(primitives, index.tree[path])
              case Failure(error) => r == Failure(error)
              case Success(key) =>
                if SnapshotFile(index.commit, path) !in files then r == Failure(HubIncomplete)
                else if IsLink(files, index, path, key, false) then r == Failure(HubUnsafe)
                else if IsLink(files, index, path, key, true) && BlobPath(key) !in files then
                  r == Failure(HubIncomplete)
                else r.Success? || r == Failure(HubCorrupt)
  {
    if path in index.tree && SnapshotFile(index.commit, path) in files {
      match CompatibleBlobKey(primitives, index.tree[path]) {
        case Failure(_) =>
        case Success(key) =>
          if files[SnapshotFile(index.commit, path)].Symlink? {
            var right := IsLink(files, index, path, key, true);
            LinkFailures(primitives, files, index, path, key, right);
          } else {
            OtherFailures(primitives, files, index, path, key);
          }
      }
    }
  }

  /** What a reader notes down: the state each read was made in, and what it was for. */
  datatype HubRead =
    | IndexRead(hub: Hub, revision: string)
    | FileRead(files: Files, index: Index, path: string)

  /** The cache is shared: others may change it between any two reads.  Only the
      two reading methods write to the journal. */
  class HubCacheReader {
    var hub: Hub
    ghost var journal: seq<HubRead>
    const quiet: bool
    const primitives: Primitives

    constructor (primitives: Primitives, hub: Hub, quiet: bool)
      ensures this.primitives == primitives && this.hub == hub && this.quiet == quiet && journal == []
    {
      this.primitives, this.hub, this.quiet, journal := primitives, hub, quiet, [];
    }

    method Interfere() returns (fault: Option<IoError>)
      modifies this`hub
      ensures quiet ==> hub == old(hub) && fault.None?
    {
      var fails: bool, kind: IoError := *, *;
      fault := None;
      if !quiet {
        hub := *;
        fault := if fails then Some(kind) else None;
      }
    }

    method ReadIndex(revision: string) returns (r: Result<Index, HubError>)
      modifies this
      ensures old(journal) <= journal
      ensures r.Success? ==> r == IndexOf(hub, revision) && journal == old(journal) + [IndexRead(hub, revision)]
      ensures quiet ==> hub == old(hub) && r == IndexOf(hub, revision)
    {
      var fault := Interfere();
      if fault.Some? {
        return Failure(HubIo(fault.value));
      }
      journal := journal + [IndexRead(hub, revision)];
      r := IndexOf(hub, revision);
    }

    method ReadSnapshotFile(index: Index, path: string) returns (r: Result<HubFile, HubError>)
      modifies this
      ensures old(journal) <= journal
      ensures r.Success? ==>
                && r == FileOf(primitives, hub.files, index, path)
                && journal == old(journal) + [FileRead(hub.files, index, path)]
      ensures quiet ==> hub == old(hub) && r == FileOf(primitives, hub.files, index, path)
    {
      var fault := Interfere();
      if fault.Some? {
        return Failure(HubIo(fault.value));
      }
      journal := journal + [FileRead(hub.files, index, path)];
      r := FileOf(primitives, hub.files, index, path);
    }
  }
}
