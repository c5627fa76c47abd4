/** Content validation on the cache side. */
module Content {
  import opened Environment
  import opened Keys
  import opened Text
  import opened Wrappers

  const U64_LIMIT: nat := 0x1_0000_0000_0000_0000

  type U64 = n: nat | n < 0x1_0000_0000_0000_0000

  datatype TreeEntry = TreeEntry(size: U64, blobId: string, lfsSha256: Option<string>, lfsSize: Option<U64>)

  datatype ContentError = Corrupt | ContentIo(io: IoError)

  const BUFFER_SIZE: nat := 65536

  /** The expected SHA-256 of large-file metadata, which is all or nothing. */
  function ValidatedLfsSha256(entry: TreeEntry): Result<Option<string>, ContentError> {
    match (entry.lfsSha256, entry.lfsSize)
    case (Some(sha256), Some(size)) =>
      if IsLowerHex(sha256, 64) && size == entry.size then Success(Some(sha256)) else Failure(Corrupt)
    case (None, None) => Success(None)
    case _ => Failure(Corrupt)
  }

  function GitHeader(size: nat): seq<Byte> {
    Utf8("blob ") + Utf8(Show(size)) + [0]
  }

  /** What Git puts before a blob to name it: the word, the size in decimal, a zero byte. */
  ghost predicate IsGitHeader(header: seq<Byte>, size: nat) {
    exists digits :: IsDecimalBytes(digits, size) && header == [98, 108, 111, 98, 32] + digits + [0]
  }

  lemma GitHeaderExact(header: seq<Byte>, size: nat)
    ensures IsGitHeader(header, size) <==> header == GitHeader(size)
  {
    ShowIsDecimal(size);
    Utf8Ascii("blob ");
    assert Utf8("blob ") == [98, 108, 111, 98, 32];
    if IsGitHeader(header, size) {
      var digits :| IsDecimalBytes(digits, size) && header == [98, 108, 111, 98, 32] + digits + [0];
      DecimalUnique(digits, size);
    }
  }

  /** Which bytes are the content a tree entry names: of its size, and with the
      SHA-256 of its large-file metadata or else the Git identity of its blob,
      where that is one. */
  predicate IsContent(primitives: Primitives, entry: TreeEntry, data: seq<Byte>) {
    && ValidatedLfsSha256(entry).Success?
    && |data| == entry.size
    && match ValidatedLfsSha256(entry).value
       case Some(sha256) => Hex(primitives.sha256(data)) == sha256
       case None =>
         IsLowerHex(entry.blobId, 40) ==> Hex(primitives.sha1(GitHeader(entry.size) + data)) == entry.blobId
  }

  /** Room for what is still expected and one byte more, within the buffer.  The byte more
      saturates, which no buffer of this machine's size can tell. */
  function BoundedReadCapacity(expected: U64, current: U64, buffer: U64): (capacity: nat)
    ensures capacity <= buffer && (buffer > 0 ==> capacity > 0)
    ensures current <= expected ==> current + capacity <= expected + 1
    ensures current <= expected && capacity < buffer ==> current + capacity == expected + 1
    ensures current > expected ==> capacity <= 1
  {
    var remaining := if current <= expected then expected - current else 0;
    var probe := if remaining + 1 < U64_LIMIT then remaining + 1 else U64_LIMIT - 1;
    if probe <= buffer then probe else buffer
  }

  /** What every outcome of a copy keeps: at most one byte beyond `size` has been
      read, and only a prefix of the input no longer than `size` written. */
  twostate predicate Bounded(reader: Reader, writer: Sink, size: nat)
    reads reader, writer, reader.token
  {
    && reader.Valid() && reader.position <= size + 1
    && old(writer.bytes) <= writer.bytes <= old(writer.bytes) + reader.data
    && |writer.bytes| <= |old(writer.bytes)| + size
    && Elapsed(reader.token)
    && reader.Notices()
    && (reader.observedCancellation ==> reader.token != null && reader.token.cancelled)
  }

  /** The copy loop; `header` starts what the second hasher is fed. */
  method CopyHashing(reader: Reader, writer: Sink, limit: U64, header: seq<Byte>)
    returns (r: Result<(nat, seq<Byte>, seq<Byte>), ContentError>)
    requires reader.position == 0 && !reader.observedCancellation
    modifies reader, writer, reader.token
    ensures Bounded(reader, writer, limit)
    ensures r.Success? ==>
              && r.value == (|reader.data|, reader.data, header + reader.data)
              && |reader.data| <= limit && writer.bytes == old(writer.bytes) + reader.data
              && !reader.observedCancellation
    ensures r.Failure? && r.error == Corrupt ==> |reader.data| > limit
    ensures r.Failure? && reader.quiet && writer.quiet && !reader.observedCancellation ==> r.error == Corrupt
  {
    var size, localFed, gitFed := 0, [], header;
    while true
      invariant reader.Valid() && size == reader.position <= limit && !reader.observedCancellation
      invariant localFed == reader.data[..size] && gitFed == header + localFed
      invariant writer.bytes == old(writer.bytes) + localFed && Elapsed(reader.token) && reader.Notices()
      decreases |reader.data| - reader.position
    {
      var capacity := BoundedReadCapacity(limit, size, BUFFER_SIZE);
      var bytes := reader.Read(capacity);
      if bytes.Failure? {
        return Failure(ContentIo(bytes.error));
      }
      if bytes.value == [] {
        assert localFed == reader.data;
        return Success((size, localFed, gitFed));
      }
      size := size + |bytes.value|;
      if size >= U64_LIMIT || size > limit {
        return Failure(Corrupt);
      }
      assert localFed + bytes.value == reader.data[..size] <= reader.data;
      var ok := writer.WriteAll(bytes.value);
      if !ok {
        return Failure(ContentIo(OtherIo));
      }
      localFed := localFed + bytes.value;
      gitFed := gitFed + bytes.value;
    }
  }

  /** Copies while hashing, and accepts exactly the content of the entry. */
  method CopyAndValidateContent(primitives: Primitives, reader: Reader, writer: Sink, entry: TreeEntry)
    returns (r: Result<(nat, Digest), ContentError>)
    requires reader.position == 0 && !reader.observedCancellation
    modifies reader, writer, reader.token
    ensures Bounded(reader, writer, entry.size)
    ensures r.Success? ==>
              && IsContent(primitives, entry, reader.data)
              && r.value == (|reader.data|, primitives.sha256(reader.data))
              && writer.bytes == old(writer.bytes) + reader.data
              && !reader.observedCancellation
    ensures r.Failure? && r.error == Corrupt ==> !IsContent(primitives, entry, reader.data)
    ensures r.Failure? && reader.quiet && writer.quiet && !reader.observedCancellation ==> r.error == Corrupt
  {
    var expectedLfs := ValidatedLfsSha256(entry);
    if expectedLfs.Failure? {
      return Failure(Corrupt);
    }
    var checkGit := expectedLfs.value.None? && IsLowerHex(entry.blobId, 40);
    var copied := CopyHashing(reader, writer, entry.size, if checkGit then GitHeader(entry.size) else []);
    if copied.Failure? {
      return Failure(copied.error);
    }
    var (size, localFed, gitFed) := copied.value;
    if size != entry.size {
      return Failure(Corrupt);
    }
    var digest := primitives.sha256(localFed);
    if expectedLfs.value.Some? && Hex(digest) != expectedLfs.value.value {
      return Failure(Corrupt);
    }
    if checkGit && Hex(primitives.sha1(gitFed)) != entry.blobId {
      return Failure(Corrupt);
    }
    r := Success((size, digest));
  }

  /** With large-file metadata, content is what has the size and the digest it spells. */
  lemma LfsContentDigest(primitives: Primitives, entry: TreeEntry, data: seq<Byte>)
    requires entry.lfsSha256.Some? && entry.lfsSize.Some?
    ensures IsContent(primitives, entry, data) <==>
            && |data| == entry.size == entry.lfsSize.value
            && ParsedDigest(entry.lfsSha256.value) == Success(primitives.sha256(data))
  {
    var digest := primitives.sha256(data);
    ParsedIsInverse(digest);
    HexIsLower(digest);
  }

  /** Without any, and with a Git identity, content is what has the size and that identity. */
  lemma GitContentDigest(primitives: Primitives, entry: TreeEntry, data: seq<Byte>, header: seq<Byte>)
    requires entry.lfsSha256.None? && entry.lfsSize.None? && IsLowerHex(entry.blobId, 40)
    requires IsGitHeader(header, entry.size)
    ensures IsContent(primitives, entry, data) <==>
            |data| == entry.size && Hex(primitives.sha1(header + data)) == entry.blobId
  {
    GitHeaderExact(header, entry.size);
  }

  /** With neither, only the size is known; half the metadata names nothing. */
  lemma OtherContent(primitives: Primitives, entry: TreeEntry, data: seq<Byte>)
    ensures entry.lfsSha256.None? && entry.lfsSize.None? && !IsLowerHex(entry.blobId, 40) ==>
              (IsContent(primitives, entry, data) <==> |data| == entry.size)
    ensures entry.lfsSha256.Some? != entry.lfsSize.Some? ==> !IsContent(primitives, entry, data)
  {
  }
}
