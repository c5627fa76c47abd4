# A verified model of the hf-store cache core

hf-store downloads repositories from a model hub, shares a cache directory with
other tools and materializes files into ordinary directories.  This project
models the parts of it where a mistake would lose or corrupt data, and proves
what those parts promise.

- **Materializing one file** (`RootedFileSystem`, `Publication`, `LocalDir`).  A
  call inspects the destination, stages the content, inspects again, installs it
  once or replaces a regular file, inspects a third time and syncs the directory.
  The file system is a map that other writers change between any two steps;
  every operation may fail, before or after it took effect; cancellation may
  arrive at any moment and is never taken back.  A `History` keeps every state
  and who caused it, so a statement about every moment of a history is also one
  about every crash.
- **Filters** (`CharacterClass`, `Glob`, `Filter`).  The pattern compiler, the
  character-class normalizer and the two-row matcher are proved against the
  plain recursive meaning of `fnmatchcase` on the raw pattern.
- **Transfers** (`Scheduler`, `Transfer`, `RangeResponse`).  The bounded
  scheduler, the streaming validator, resumed bodies and range responses.
- **Content and the shared cache** (`Content`, `HubCache`, `LinkTarget`).  The
  cache-side validator, snapshot reading and relative link targets.
- **Identities** (`Keys`, `Sorting`, `RepositoryNames`).  Hash preimages,
  selection identities, portable collisions, digests and directory names.
- **The sidecar** (`Sidecar`, `CompatibleCache`).  Importing a snapshot (read
  everything, then the format, then the bindings, then the manifest) and opening
  it again, while others read and write the same records.

`Text`, `Wrappers` and `Environment` hold what the others share: encodings,
result types, and the byte streams, sinks and cancellation tokens the program
does not control.  A stream, sink, file system, reader or kernel marked `quiet`
never fails and is left alone by others; nothing else is assumed of it, and the
statements that need it say so.  A quiet file system plays a scenario: nothing at
all, one fault after a file was created, or someone's entry at the destination at
one of two moments; a kernel may play one too.  SHA-256, SHA-1, the portable
spelling of a path and the validity of a repository path are arbitrary functions
(`Primitives`).

What happened is noted down by the surroundings and never by the program: the
file system keeps its history and what each look and check found, the token the
answers it gave, the executor what it was asked to start and wait for, the kernel
its answers about manifests, the shared-cache reader the state each read was made
in.  Only the methods of those classes write these records.

## What the proofs turned up

- **A staging file can outlive its call although no removal failed.**  Creating
  the staging file may report an error after the file exists
  (`crates/hf-store/src/cache/rooted_fs.rs:595-611`: the metadata of the new file
  is checked after it was opened).  `StagingCleanup` is activated only after
  creation succeeded
  (`crates/hf-store/src/cache/local_dir_materialization.rs:236-238`), so that file
  stays.  `LocalDir.StagingOutlivesCall` is such a call from start to end, and
  `LocalDir.MaterializeWithCancellation` promises the same outcome for every
  undisturbed call that gets as far as staging on a file system with that fault.
  With `Publication.TotalsAgree` it also says exactly when something of the call
  stays at the staging name: if and only if creation failed after having created,
  or the one removal failed before removing.
- **`publish_manifest` can lose the published flag.**  The conversion from a
  sidecar error (`crates/hf-store/src/cache/compatible_cache.rs:573-585`) turns
  every "not found" into an incomplete snapshot with the flag cleared, also when
  the sidecar error carried it.  `CompatibleCache.ManifestWithoutFlag` is a run
  that stores the manifest and then denies it.  `CompatibleCache.PublishManifest`
  says exactly when that happens, over the answers the kernel noted down: a
  flagged error leaves without its flag if and only if it is "not found" and the
  reading that follows does not return the intended manifest.  `import` puts the
  flag back for every failure after it began to write, so `CompatibleCache.Import`
  promises an exact flag; the other caller
  (`crates/hf-store/src/cache/standard_cache.rs:382`) passes the error on as it is.
- **A replacement can overwrite what is not a regular file.**  The kind of the
  destination is checked and the staged file renamed over it in two steps
  (`crates/hf-store/src/cache/rooted_fs.rs:711-722`).
  `LocalDir.ReplacementOverwrites` is a call that does so.  An undisturbed call
  overwrites what is not a file if and only if it is put there, and is no
  directory, between the check and the rename of a replacement
  (`LocalDir.MaterializeWithCancellation`, with `Oversteps`); whatever others do,
  `Publication.OverwritesOnlyIntruders` shows that the check before found nothing
  or a regular file and that only others acted in between.

## Model

| member | source | states |
|---|---|---|
| CharacterClass.ClassMembers | crates/hf-store/src/cache/filter.rs:216-259 | The literals and ranges read off a member list accept exactly the characters that a plain left-to-right scan accepts (`x-y` is a range, empty when reversed, anything else a literal), for every list |
| CharacterClass.CutAtHyphens | crates/hf-store/src/cache/filter.rs:221-238 | The loop over hyphens yields the recursive cut, a trailing hyphen going back to the last chunk |
| CharacterClass.MergeReversed | crates/hf-store/src/cache/filter.rs:240-251 | Merging in place from right to left equals the recursive merge, where a pair is judged after everything to its right |
| CharacterClass.SplitMeansScan | crates/hf-store/src/cache/filter.rs:221-238 | The chunks denote what the scan denotes: a range across each cut, all else literal |
| CharacterClass.MergeKeepsMeaning | crates/hf-store/src/cache/filter.rs:240-258 | Dropping reversed ranges by merging changes no character's membership, however merges cascade |
| Glob.ParseClass | crates/hf-store/src/cache/filter.rs:175-213 | A class is recognised exactly when a closing bracket follows its first member; it ends there and accepts, negation included, what the raw pattern's class accepts |
| Glob.CompileNormalized | crates/hf-store/src/cache/filter.rs:60-100 | The tokens match exactly the texts the raw pattern matches under recursive `fnmatchcase`; at most one token a character, no star next to a star |
| Glob.PushToken | crates/hf-store/src/cache/filter.rs:60-100 | Appending a token that stands for a stretch of the pattern keeps the meaning of tokens followed by the rest of the pattern |
| Glob.CollapseStar | crates/hf-store/src/cache/filter.rs:70-75 | Skipping a star after a star changes no match |
| Glob.NextRow | crates/hf-store/src/cache/filter.rs:108-132 | Cell `j` of the new row is true iff one token more matches the first `j` characters, at a cost linear in the row |
| Glob.MatchTokens | crates/hf-store/src/cache/filter.rs:102-135 | The two-row matcher decides the recursive token semantics and writes at most tokens times twice the row, and one, cells |
| Glob.RowStep | crates/hf-store/src/cache/filter.rs:108-132 | The recurrence the rows rely on: the last token against the last character, for stars and for single characters |
| Glob.DirectoryPattern | adr/0005-repository-filter-grammar.md:43-44 | A pattern without wildcards that ends in either separator selects exactly the paths its slash spelling is a prefix of |
| Glob.SeparatorSpelling | crates/hf-store/src/cache/filter.rs:151-157 | Writing a separator as a backslash or as a slash changes no match |
| Glob.PlainPattern | crates/hf-store/src/cache/filter.rs:151-157 | A pattern that does not end in a separator means its slash spelling and nothing more |
| Glob.TrailingSeparator | crates/hf-store/src/cache/filter.rs:151-157 | A pattern that ends in either separator, wildcards or not, matches a path iff its slash spelling matches some beginning of it |
| Glob.StarSplits | crates/hf-store/src/cache/filter.rs:70-75 | A star stands for any stretch of text, the empty one and separators included |
| Filter.CompilePatterns | crates/hf-store/src/cache/filter.rs:138-157 | Normalizing, sorting and dropping repeated patterns leaves the set of matched paths as the user's list has it |
| Filter.NewFilter | crates/hf-store/src/cache/filter.rs:13-18 | A path is included iff it is wanted: no allow list admits all, an empty one nothing, and ignoring wins |
| Filter.Includes | crates/hf-store/src/cache/filter.rs:41-47 | Decides inclusion through the matcher |
| Filter.SortTree | crates/hf-store/src/cache/filter.rs:20-30 | A tree that repeats a path is refused, and exactly such a tree; otherwise the one strictly sorted list of its paths results |
| Filter.Select | crates/hf-store/src/cache/filter.rs:20-39 | Repetition is refused before filtering; otherwise the included paths in order with their identity, and collisions only among them |
| Filter.SelectionIsCanonical | adr/0005-repository-filter-grammar.md:64-70 | Two requests that want the same paths of two listings select the same list, whatever patterns, order or listing they came from |
| Keys.PreimageInjective | crates/hf-store/src/cache/key.rs:212-226 | Two pairs of domain and component list feed the hash the same bytes only if they are equal |
| Keys.DeriveKey | crates/hf-store/src/cache/key.rs:212-226 | Hashing piece by piece hashes that preimage; only a count or length beyond its field fails |
| Keys.HasAncestor | crates/hf-store/src/cache/key.rs:243-253 | Finds a key exactly when some other key followed by a slash is a prefix of it |
| Keys.ValidateMaterializationCollisions | crates/hf-store/src/cache/key.rs:228-256 | Sorting and checking neighbours and ancestors accepts a list exactly when no two different paths share a portable spelling and none lies below another, for any portable spelling |
| Keys.NeighboursDecide | crates/hf-store/src/cache/key.rs:233-241 | In a sorted list, equal keys anywhere agree on their path if neighbours do |
| Keys.DeriveSelectionId | crates/hf-store/src/cache/key.rs:112-120 | The identity of a list: collision, too long, or the hash of its canonical list |
| Keys.SelectionIdentity | crates/hf-store/src/cache/key.rs:112-120 | Equal path sets have equal identities whatever order or repetition; two derived identities are equal iff the hash gives equal values on the two sets' bytes; and those bytes are equal iff the path sets are |
| Keys.SelectionsCanDiffer | crates/hf-store/src/cache/key.rs:112-120 | For any two different selections that can be derived there is a hash function that gives them different identities |
| Keys.OnePathPreimage | crates/hf-store/src/cache/key.rs:212-226 | The bytes hashed for a selection of one path, spelled out: format prefix, version, domain, count, length and the path |
| Keys.KeyPrefixSpelled | crates/hf-store/src/cache/key.rs:212-226 | The prefix is the format's name and a zero byte |
| Text.BigEndianValue | crates/hf-store/src/cache/key.rs:212-226 | Counts and lengths are written with the most significant byte first |
| Keys.ParseDigest | crates/hf-store/src/cache/key.rs:190-203 | Parsing into a fixed buffer accepts exactly the texts some digest is displayed as, and returns that digest |
| Keys.ParsedIsInverse | crates/hf-store/src/cache/key.rs:190-209 | Displaying and parsing a digest gives it back |
| Sorting.CanonicalDependsOnSet | crates/hf-store/src/cache/compatible_cache.rs:255-265 | Sorting and deduplicating gives the same list exactly for equal sets |
| Sorting.LeqExact | crates/hf-store/src/cache/compatible_cache.rs:255-265 | Paths are ordered by their first difference, and a prefix comes first |
| RepositoryNames.DirectoryNameReads | crates/hf-store/src/cache/hub_layout.rs:42-62 | Splitting the cache directory name of a valid identifier at doubled hyphens recovers kind, namespace and name |
| RepositoryNames.DirectoryNameInjective | crates/hf-store/src/repo.rs:158-224 | Two valid repositories share a directory name only if kind and identifier are equal |
| RepositoryNames.DirectoryNameSpelled | crates/hf-store/src/cache/hub_layout.rs:42-62 | The directory is the kind's word, `models`, `datasets` or `spaces`, then the namespace if there is one and the name, two hyphens between each |
| RepositoryNames.ValidIdExact | crates/hf-store/src/repo.rs:158-224 | Validation accepts exactly the identifiers that follow rules read off the whole text: length in UTF-8, one slash at most, name characters, no hyphen or dot at an edge of a component, none doubled, no Git suffix |
| RepositoryNames.WhyInvalid | crates/hf-store/src/repo.rs:158-224 | Each refusal but a malformed one tells what it says: empty, a zero character, too long in UTF-8, a character that is not allowed |
| RepositoryNames.NameCharacterExact | crates/hf-store/src/repo.rs:204-224 | Names are made of ASCII letters, digits, hyphen, underscore and dot |
| RepositoryNames.GitSuffixExact | crates/hf-store/src/repo.rs:158-202 | A Git suffix is recognised in any case, and nothing else |
| LinkTarget.CanonicalRelativeLinkTarget | crates/hf-store/src/cache/hub_cache.rs:507-545 | Pushing parents and then normal components computes the canonical target, and none for a source without parent, for other components, or when the target would be empty |
| LinkTarget.RelativeLeadsThere | crates/hf-store/src/cache/hub_cache.rs:507-545 | Following the target from the source's directory ends at the destination and never climbs above the root |
| LinkTarget.RelativeIsShortest | crates/hf-store/src/cache/hub_cache.rs:507-545 | Among all targets of any shape that lead there, it is the only shortest |
| LinkTarget.TargetExact | crates/hf-store/src/cache/hub_cache.rs:507-545 | Between normal paths a target is the expected one iff it is the shortest way, and there is none only for a source without parent or one whose parent is the destination |
| LinkTarget.NoTargetElsewhere | crates/hf-store/src/cache/hub_cache.rs:507-545 | There is no target from a root, a prefix or nothing, nor by way of a component that is not a name |
| Content.BoundedReadCapacity | crates/hf-store/src/cache/hub_cache.rs:493-497 | A read never asks for more than one byte beyond the expected size, nor for less unless the buffer ends; past the expected size it asks for at most one |
| Content.CopyAndValidateContent | crates/hf-store/src/cache/hub_cache.rs:425-491 | Accepts exactly the content of the entry, with its digest; on every path at most size + 1 bytes are read and a prefix of at most size bytes written; undisturbed it fails only for other content |
| Content.LfsContentDigest | crates/hf-store/src/cache/hub_cache.rs:479-491 | With large-file metadata, bytes are content iff their size is the one given twice and their SHA-256 is the one spelled |
| Content.GitHeaderExact | crates/hf-store/src/cache/hub_cache.rs:425-477 | The header fed before the bytes is the only string made of the word blob and a space, the size in decimal without a leading zero, and a zero byte |
| Content.GitContentDigest | crates/hf-store/src/cache/hub_cache.rs:425-477 | Without metadata and with a Git identity, bytes are content iff their size is right and the identity spells the SHA-1 of that header followed by them |
| Content.OtherContent | crates/hf-store/src/cache/hub_cache.rs:479-491 | With neither, only the size counts; with half the metadata nothing is content |
| Transfer.StreamValidatedBody | crates/hf-store/src/transfer.rs:152-237 | Any chunking of a body is accepted exactly when it is the entry's content; no path lets the sink exceed size, and what it holds is a prefix of the body; with a sink that does not fail a lost connection is a transport error, and cancellation is reported iff a look found it |
| Transfer.ValidateBothWays | crates/hf-store/src/transfer.rs:152-237 | The download validator and the cache validator accept the same bytes for every entry, with the same digest, whatever the chunks |
| Transfer.AppendBoundedBody | crates/hf-store/src/transfer.rs:239-289 | Succeeds only when the sink is the old bytes followed by the whole body, expected size long, and no look found cancellation; no path lets the sink exceed the expected size; undisturbed it fails only for a body of another length; with a sink that does not fail a lost connection is a transport error, and cancellation is reported iff a look found it |
| RangeResponse.ContentRangeExact | crates/hf-store/src/transfer.rs:386-415 | A header parses to a range exactly when it spells its three numbers by the grammar of section 14.4 of RFC 9110, in order |
| RangeResponse.DispositionExact | crates/hf-store/src/transfer.rs:319-377 | For each disposition exactly the responses that lead to it: resume needs 0 < offset, offset + body = size, status 206 and a range that spells offset, size - 1 and size |
| RangeResponse.HonestRangeResumes | crates/hf-store/src/transfer.rs:319-415 | The header a correct server writes for a request is accepted as a resume at that offset |
| Scheduler.RunBounded | crates/hf-store/src/transfer.rs:23-72 | For any completion order and outside cancellation: the journal of the run is one that is allowed, begins to wait only right after a look that found no cancellation, and never waits below the bound while jobs are left and nothing stopped it; once it waited, every started job finishes; the first error in completion order is returned, cancellation exactly if a look found it and no job failed, and else each job's own value at its place |
| Scheduler.StartNext | crates/hf-store/src/transfer.rs:38-43 | Exactly one look at the token, then exactly one start if it found no cancellation and a job is left; used for the first jobs too |
| Scheduler.ActiveBounded | crates/hf-store/src/transfer.rs:38-63 | At every point of an allowed run at most `concurrency` jobs are active |
| Scheduler.NoStartAfterStop | crates/hf-store/src/transfer.rs:38-63 | Once a job failed or a look found cancellation, no job starts: each start directly follows a look that found none, and no such look comes after either |
| Scheduler.NoWaitAfterEarlyStop | crates/hf-store/src/transfer.rs:38-48 | A run that found cancellation before it first waited never waits, so polls no job |
| Scheduler.NoErrorWithoutWait | crates/hf-store/src/transfer.rs:44-48 | Without waiting there is no job error, so such a run reports cancellation |
| Scheduler.FirstErrorIsFirst | crates/hf-store/src/transfer.rs:50-57 | The error reported belongs to a job that finished, and no job that finished before it failed |
| Scheduler.Advance | crates/hf-store/src/transfer.rs:48-63 | One round of the loop: one wait, its outcome taken, at most one start; waiting plus active shrinks and the run stays full unless stopped |
| Scheduler.EachOnce | crates/hf-store/src/transfer.rs:38-63 | No job starts or finishes twice |
| Scheduler.InJobOrder | crates/hf-store/src/transfer.rs:67-71 | Sorting as many results as jobs by index puts job `i`'s value at place `i`, none missing |
| Environment.CancellationToken.IsCancelled | crates/hf-store/src/cancellation.rs:16-25 | A token never goes back, without another holder only the program cancels it, and every answer it gives is in its journal |
| RootedFileSystem.FileSystem.CreateNew | crates/hf-store/src/cache/rooted_fs.rs:595-611 | Never touches an existing entry; may fail after having created the file |
| RootedFileSystem.FileSystem.InstallStagedCreateOnce | crates/hf-store/src/cache/rooted_fs.rs:683-701 | Reports an existing entry without changing it; otherwise the destination holds the whole staged file at once, also when an error follows; what stood there and how it went are noted down |
| RootedFileSystem.FileSystem.InstallStagedReplace | crates/hf-store/src/cache/rooted_fs.rs:703-723 | The kind of the destination is checked first, which is noted down, and anything but a missing or regular one is refused; then the whole staged file takes its place at once and leaves the staging name, also over what others, directories excepted, put there between the two; what it took the place of is noted down |
| RootedFileSystem.FileSystem.OpenDestination | crates/hf-store/src/cache/rooted_fs.rs:526-568 | What a look finds is what stands there and is noted down by the file system; only the bytes of a file that others write to in place may differ |
| RootedFileSystem.FileSystem.RemoveFile | crates/hf-store/src/cache/rooted_fs.rs:643-646 | Tells a missing file from a failure, which may come before or after the removal |
| Publication.DestinationIsNeverPartial | crates/hf-store/src/cache/local_dir_materialization.rs:227-346 | At every moment of every history, crashes included, the destination holds what others last left there, at first or since, or the complete target |
| Publication.RejectNeverOverwrites | crates/hf-store/src/cache/local_dir_materialization.rs:275-319 | Under the rejecting policy a call changes the destination only at a moment when nothing stood there |
| Publication.OverwritesOnlyIntruders | crates/hf-store/src/cache/rooted_fs.rs:703-723 | Every replacement that takes effect in a history follows a check of the destination that found nothing or a regular file, with nothing but others' steps between; so what it overwrites is something else only if others put it there after the check |
| Publication.NoAttemptNoTouch | crates/hf-store/src/cache/local_dir_materialization.rs:615-637 | A call changes its destination at most as often as it attempts an install, so a false flag means it never did |
| Publication.TotalsAgree | crates/hf-store/src/cache/local_dir_materialization.rs:582-646 | The counts used by the call's contract are the install attempts, the leaking and the overwriting acts of its history |
| Publication.EvidenceOrder | crates/hf-store/src/cache/local_dir_materialization.rs:348-376 | The evidence behind a success is a look at the destination, noted down by the file system, that gave exactly the target, after the last install and, for a copy, before the parent sync |
| Publication.ConfirmedMoment | crates/hf-store/src/cache/local_dir_materialization.rs:348-422 | That look has its moment in the history, and unless others wrote to the very file being read the complete target stood at the destination then |
| Publication.GuidedMeans | crates/hf-store/src/cache/local_dir_materialization.rs:253-319 | In a guided history every create-once follows at once on a look that found nothing, every replacement on one that found a different regular file; the token was looked at in between and never yet found cancelled; and the bytes were synced after they were last written |
| LocalDir.MaterializeWithCancellation | crates/hf-store/src/cache/local_dir_materialization.rs:181-225 | For any interference, faults and cancellation: an error carries the flag iff an install was attempted; at most two installs, each called for by a look just before it, cleared by the token since, and of synced bytes, and at most one change of the destination; cancellation is reported iff a look at the token found it; success was confirmed by a last look; a foreign staging entry is untouched and the call's own stays iff an act leaked it; a path the layout refuses is refused as invalid before anything is done; undisturbed, the result, down to which failure with which flag, final entries and what was overwritten are exactly those the state, the source and the scenario call for |
| LocalDir.StagingOutlivesCall | crates/hf-store/src/cache/rooted_fs.rs:595-611 | The whole call, alone in an empty directory: when creating the staging file fails after the file exists, the call ends with it there and nothing was to be removed |
| LocalDir.StagingFileNames | crates/hf-store/src/cache/rooted_fs.rs:916-921 | A staging file is hidden, carries the program's name and a suffix, and different staging names have different files |
| LocalDir.ReplacementOverwrites | crates/hf-store/src/cache/rooted_fs.rs:703-723 | The whole call over a different file, with someone's special file put there between check and rename: it succeeds, and one of its installs overwrote what is not a file |
| LocalDir.StageInstallAndClean | crates/hf-store/src/cache/local_dir_materialization.rs:213-225 | The same from staging to cleanup, for a call whose looks at the token found no cancellation so far |
| LocalDir.StageAndInstall | crates/hf-store/src/cache/local_dir_materialization.rs:227-273 | Content is installed only after it was staged complete and synced and the destination looked at again |
| LocalDir.LookAndInstall | crates/hf-store/src/cache/local_dir_materialization.rs:253-272 | The second look alone decides: reuse, create once, replace or conflict; undisturbed, exactly what the state before staging asked for |
| LocalDir.StageContent | crates/hf-store/src/cache/local_dir_materialization.rs:236-251 | Success means the staged bytes are the whole target; failure never carries the flag, and cleanup knows of any file created by a successful creation; undisturbed, content that is not the entry's is corrupt, and the entry's content with another digest a mismatch |
| LocalDir.InstallMissing | crates/hf-store/src/cache/local_dir_materialization.rs:275-319 | How creating went is read off the recorded act; a created file is a copy once confirmed, a lost race ends in a look, and that look in reuse, at most one replacement, or conflict; with an intruder just before the attempt on an undisturbed file system exactly that: the same file is reused, a different one replaced or refused by policy |
| LocalDir.SettleExisting | crates/hf-store/src/cache/local_dir_materialization.rs:295-319 | After a look that gave a verdict on another writer's file, exactly: reuse for the target, at most one replacement for a different file if the policy allows, otherwise a conflict with the flag; without a verdict failure and no attempt, after a look only because reading failed or was cancelled; undisturbed, exactly what the entry there calls for |
| LocalDir.CreateOnce | crates/hf-store/src/cache/local_dir_materialization.rs:283-290 | One attempt, cleared by a look at the token; the act it recorded says how the race went |
| LocalDir.FollowUp | crates/hf-store/src/cache/local_dir_materialization.rs:291-318 | A created file is confirmed or the call fails, someone else's is settled with; undisturbed, the outcome is the one asked for before the attempt |
| LocalDir.InstallReplacement | crates/hf-store/src/cache/local_dir_materialization.rs:321-346 | One attempt, only under the replacing policy and after a look that found a different file; success is a copy confirmed by a later look |
| LocalDir.ReplaceOnce | crates/hf-store/src/cache/local_dir_materialization.rs:328-338 | One attempt at most; undisturbed it succeeds unless a directory is put there after the check, and the act recorded says what was overwritten |
| LocalDir.FinishInstall | crates/hf-store/src/cache/local_dir_materialization.rs:348-376 | Success only after a look at the destination gave exactly the target and the directory was synced since; a look that found something else is a failed validation; every failure carries the flag |
| LocalDir.InspectDestination | crates/hf-store/src/cache/local_dir_materialization.rs:378-422 | One look, which changes nothing; the verdict is the one that what was found deserves; undisturbed it reports what stands there |
| LocalDir.ValidateParent | crates/hf-store/src/cache/local_dir_materialization.rs:424-447 | Its failures never carry the flag, even after an install; the cleanup repairs that |
| LocalDir.CopyWithCancellation | crates/hf-store/src/cache/local_dir_materialization.rs:494-548 | Succeeds only for the entry's content with no cancellation observed during any read, and reports cancellation exactly when one was |
| LocalDir.StagingCleanup.Finish | crates/hf-store/src/cache/local_dir_materialization.rs:615-637 | Whatever flag an error came with, it leaves with the exact one; the staging file is removed unless removal leaks it, and a foreign one is left alone |
| HubCache.FileIsContent | crates/hf-store/src/cache/hub_cache.rs:118-266 | Whatever snapshot form is read, the file returned is the content its tree entry names; a blob kept beside a copy is that content too, and a link that is followed leads to its blob the shortest way |
| HubCache.ContentIsRead | crates/hf-store/src/cache/hub_cache.rs:118-266 | The converse: content so kept, in any of the three forms, is read, with that form, key, size and digest |
| HubCache.ReadFailures | crates/hf-store/src/cache/hub_cache.rs:118-266 | Each failure of a read tells what it says: an unknown path is missing, an unusable key or a link elsewhere unsafe, what is not there incomplete, all else corrupt |
| HubCache.RefResolves | crates/hf-store/src/cache/hub_cache.rs:69-100 | A revision that is no commit stands for the commit its own ref holds, whatever other refs and trees there are; without that ref it is missing, and a ref that holds no commit is corrupt |
| HubCache.CommitResolves | crates/hf-store/src/cache/hub_cache.rs:69-100 | A commit stands for its own tree whatever the refs say, and is incomplete without one |
| HubCache.PlacesSpelled | crates/hf-store/src/cache/hub_layout.rs:100-121 | A file lies under `snapshots`, its commit and the components of its path, a blob under `blobs` by its key |
| HubCache.BlobKeyExact | crates/hf-store/src/cache/hub_cache.rs:413-416 | A large file's key is its SHA-256, any other file's its blob identity; inconsistent metadata is corrupt, and what cannot be a key unsafe |
| HubCache.UnfinishedIsNoKey | crates/hf-store/src/cache/hub_layout.rs:150-169 | A name that ends like a download in progress, in any case, is no key; any other valid single component is |
| Sidecar.CreateManifest | crates/hf-store/src/cache/metadata.rs:769-782 | A manifest is valid iff its records are valid, sorted without repetition, and derive the very selection it is for |
| Sidecar.ManifestExact | crates/hf-store/src/cache/metadata.rs:992-1003 | Records make a manifest iff each is valid, no path comes twice and their paths are the selection named; it holds them in the order of their paths, and no other |
| Sidecar.CacheKernel.PublishHubBlobBinding | crates/hf-store/src/cache/publication.rs:2062-2072 | An equal record is fine, a different one a conflict; success means the record is there; others' records are never changed |
| Sidecar.CacheKernel.PublishCompatibleManifest | crates/hf-store/src/cache/publication.rs:2087-2106 | A manifest appears only once every binding it needs, with equal digest and size, is there, so no state ever holds one without |
| Sidecar.CacheKernel.VerifyBindings | crates/hf-store/src/cache/publication.rs:2505-2519 | Success means every record is bound to exactly its digest and size |
| CompatibleCache.PrepareSnapshot | crates/hf-store/src/cache/compatible_cache.rs:291-321 | Reads every selected file, one recorded read each, and in an unchanged cache succeeds iff all can be read and no blob key names two contents; a failure names an unreadable file's error, or is corrupt for two such files |
| CompatibleCache.PublishBindings | crates/hf-store/src/cache/compatible_cache.rs:53-57 | Success means every binding is published; undisturbed it succeeds iff no binding already there differs, and otherwise reports a conflict |
| CompatibleCache.PublishManifest | crates/hf-store/src/cache/compatible_cache.rs:84-101 | Over the answers the kernel noted down: a publication is a success iff the kernel says so or, when that is open, the reading after it returns the intended manifest; a flagged error leaves without its flag iff it is "not found" and that reading does not; there is such a reading iff the error is flagged |
| CompatibleCache.ManifestWithoutFlag | crates/hf-store/src/cache/compatible_cache.rs:573-585 | Such a run in full: the manifest of the empty selection is stored, and the error says nothing may have been published |
| CompatibleCache.RecordsMakeManifest | crates/hf-store/src/cache/compatible_cache.rs:59-69 | The records of an exact selection make a valid manifest as they are |
| CompatibleCache.PublishPrepared | crates/hf-store/src/cache/compatible_cache.rs:47-70 | Writes only the format, then bindings, then the manifest last; once the manifest is attempted every binding is there; every failure carries the flag |
| CompatibleCache.Import | crates/hf-store/src/cache/compatible_cache.rs:38-77 | Nothing is attempted until every selected file was read, by the reads the reader noted down; a failure carries the flag iff something was attempted; success means the manifest of what was read is stored and opens; undisturbed it succeeds iff everything is readable and no record already there disagrees, and fails with the cause that reading has, or with a conflict |
| CompatibleCache.CheckRecord | crates/hf-store/src/cache/compatible_cache.rs:170-191 | One record opens only if manifest, binding and current content agree on path, blob key, digest and size, and undisturbed whenever they do; a missing binding is incomplete, a malformed record invalid, an unreadable file its own error, and every disagreement corrupt |
| CompatibleCache.Open | crates/hf-store/src/cache/compatible_cache.rs:146-200 | Opens exactly when manifest, bindings and content agree on every selected path, and then returns the snapshot they stand for; the states it speaks of are those of the reads the reader noted down, one of the index and one of each file; undisturbed, the kind of a failure tells its cause |
| CompatibleCache.FindRecords | crates/hf-store/src/cache/compatible_cache.rs:153-167 | The manifest found is there, the same before and after the lease, and has as many records as there are paths |
| CompatibleCache.OpenIsStable | crates/hf-store/src/cache/compatible_cache.rs:146-200 | In an unchanged shared cache a snapshot keeps opening, equal, as the sidecar grows, for any order and repetition of the paths |
| CompatibleCache.ImportThenOpen | crates/hf-store/src/cache/compatible_cache.rs:38-77 | Import followed by open returns an equal snapshot, for any reordering or duplication of the paths and any revision of the commit |

## Left out

- The HTTP client, redirects, URLs, tree pagination, retry delays and progress: they rest on libraries or add only counted loops.
- Hash functions, Unicode case folding and normalization, and the validity of repository paths: arbitrary functions here, so nothing depends on what they compute.
- Refs and trees are given as decoded; a revision whose ref would be an unsafe path, and a repository directory that is missing, are not told apart.
- JSON records, their size bounds, format versions and decoding errors: records are values here, and a record that cannot be encoded or read is one of the faults a kernel or reader may report.
- The hashed file names of sidecar records: maps are keyed by what the names are derived from; `Keys.PreimageInjective` shows that different keys hash different bytes.
- Locks, leases and garbage collection: another writer may add sidecar records at any time but never changes or removes one.
- The creation of missing parent directories of a staging file is not recorded as entries; a parent that is not a directory is.
- Staging bytes appear in one step, which other callers cannot see: the staging name is private to the call.
- Cleanup when a thread panics (the `Drop` of the staging guard), the stand-alone `inspect` call, and the text and backtraces of errors.
- A snapshot file is read in one state of the shared cache: others act between any two files, but not between the parts of one.
- Windows reparse points and identity checks of open files: an open file may show any bytes, which covers a file that is exchanged under the reader.
- Asynchronous execution of jobs: a job is the outcome it will have, and completion order is arbitrary.
- Sorting.SortUnstable: promises a sorted permutation and nothing of the standard library's algorithm, since callers see no more.
- The scheduler never polls a job without waiting for one to finish, and jobs have no effect on the token that the scheduler could tell from someone else's.
- Publication.RejectNeverOverwrites: speaks of the moment of the install; what others do afterwards is theirs.
- RootedFileSystem.FileSystem.InstallStagedReplace: does not promise that what it overwrites is a regular file, because others may act between the check of its kind and the rename.
- Sidecar.CacheKernel.PublishHubBlobBinding: a failure that came early may carry either flag, as nothing here says which operations preceded it.
