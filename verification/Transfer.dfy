/** The download side: range responses, validated bodies and resumed bodies. */
module Transfer {
  import opened Content
  import opened Environment
  import opened Keys
  import opened Text
  import opened Wrappers

  datatype OperationError = Cancelled | Validation | CacheIo | Transport | Protocol

  // ----- bodies

  /** On every path only a prefix of the body no longer than `room` reaches the sink. */
  twostate predicate Appended(body: TransportBody, sink: Sink, room: nat)
    requires old(body.Valid())
    reads body, sink
  {
    && old(sink.bytes) <= sink.bytes <= old(sink.bytes) + old(body.Remaining())
    && |sink.bytes| <= |old(sink.bytes)| + room
  }

  /** With a sink that never fails, the error names its cause: a lost connection is a
      transport error, cancellation that a look found is cancellation, and all else is
      content or length that does not validate. */
  twostate predicate NamesCause<T>(
    body: TransportBody, sink: Sink, token: CancellationToken, new r: Result<T, OperationError>)
    reads body, token
  {
    sink.quiet && !old(body.broken) && !old(token.Observed()) ==>
      && (body.broken <==> r.Failure? && r.error == Transport)
      && (token.Observed() <==> r.Failure? && r.error == Cancelled)
      && (r.Failure? ==> r.error in {Transport, Cancelled, Validation})
  }

  /** Nothing outside this call can stop it. */
  predicate Undisturbed(body: TransportBody, sink: Sink, token: CancellationToken)
    reads token
  {
    body.quiet && sink.quiet && !token.shared && !token.cancelled
  }

  /** One chunk of either loop: taken from the body, checked against the room left
      and written, or the end of the body. */
  method TakeChunk(body: TransportBody, sink: Sink, received: nat, limit: U64)
    returns (r: Result<Option<seq<Byte>>, OperationError>)
    requires body.Valid() && received < U64_LIMIT
    modifies body, sink
    ensures body.Valid() && old(body.position) <= body.position
    ensures received <= limit ==> Appended(body, sink, limit - received)
    ensures received > limit ==> sink.bytes == old(sink.bytes)
    ensures r.Success? && r.value.Some? ==>
              && r.value.value == body.data[old(body.position)..body.position]
              && sink.bytes == old(sink.bytes) + r.value.value
              && received + |r.value.value| <= limit && body.chunksLeft < old(body.chunksLeft)
    ensures r.Success? && r.value.None? ==>
              body.position == old(body.position) == |body.data| && sink.bytes == old(sink.bytes)
    ensures r.Failure? && r.error == Validation ==> received + |old(body.Remaining())| > limit
    ensures r.Failure? ==> r.error in {Validation, Transport, CacheIo}
    ensures r.Failure? && r.error == CacheIo ==> !sink.quiet
    ensures sink.quiet ==> (body.broken <==> old(body.broken) || (r.Failure? && r.error == Transport))
    ensures r.Success? ==> body.broken == old(body.broken)
    ensures r.Failure? && body.quiet && sink.quiet ==> r.error == Validation
  {
    var chunk := body.NextChunk();
    if chunk.Failure? {
      var ok := sink.SyncAll();
      return Failure(if ok then Transport else CacheIo);
    }
    if chunk.value.None? {
      return Success(None);
    }
    var bytes := chunk.value.value;
    if received + |bytes| >= U64_LIMIT || received + |bytes| > limit {
      return Failure(Validation);
    }
    assert bytes <= old(body.Remaining());
    var ok := sink.WriteAll(bytes);
    if !ok {
      return Failure(CacheIo);
    }
    r := Success(Some(bytes));
  }

  method StreamValidatedBody(
    primitives: Primitives, body: TransportBody, sink: Sink, entry: TreeEntry, token: CancellationToken)
    returns (r: Result<Digest, OperationError>)
    requires body.Valid()
    modifies body, sink, token
    ensures Appended(body, sink, entry.size) && Elapsed(token) && NamesCause(body, sink, token, r)
    ensures r.Success? ==>
              && IsContent(primitives, entry, old(body.Remaining()))
              && r.value == primitives.sha256(old(body.Remaining()))
              && sink.bytes == old(sink.bytes) + old(body.Remaining())
              && !token.cancelled
    ensures r.Failure? && r.error == Validation ==> !IsContent(primitives, entry, old(body.Remaining()))
    ensures r.Failure? && old(Undisturbed(body, sink, token)) ==> r.error == Validation
  {
    var cancelled := token.IsCancelled();
    if cancelled {
      return Failure(Cancelled);
    }
    var expectedLfs: Option<string> := None;
    if entry.lfsSha256.Some? && entry.lfsSize.Some? {
      if !(IsLowerHex(entry.lfsSha256.value, 64) && entry.lfsSize.value == entry.size) {
        return Failure(Validation);
      }
      expectedLfs := entry.lfsSha256;
    } else if entry.lfsSha256.Some? || entry.lfsSize.Some? {
      return Failure(Validation);
    }
    var checkGit := expectedLfs.None? && IsLowerHex(entry.blobId, 40);
    var received := Receive(body, sink, entry.size, if checkGit then GitHeader(entry.size) else [], token);
    if received.Failure? {
      return Failure(received.error);
    }
    var (size, localFed, gitFed) := received.value;
    if size != entry.size {
      return Failure(Validation);
    }
    var ok := sink.SyncAll();
    if !ok {
      return Failure(CacheIo);
    }
    cancelled := token.IsCancelled();
    if cancelled {
      return Failure(Cancelled);
    }
    var digest := primitives.sha256(localFed);
    if expectedLfs.Some? && Hex(digest) != expectedLfs.value {
      return Failure(Validation);
    }
    if checkGit && Hex(primitives.sha1(gitFed)) != entry.blobId {
      return Failure(Validation);
    }
    r := Success(digest);
  }

  /** The receive loop; `header` starts what the second hasher is fed. */
  method Receive(body: TransportBody, sink: Sink, limit: U64, header: seq<Byte>, token: CancellationToken)
    returns (r: Result<(nat, seq<Byte>, seq<Byte>), OperationError>)
    requires body.Valid()
    modifies body, sink, token
    ensures Appended(body, sink, limit) && Elapsed(token) && NamesCause(body, sink, token, r)
    ensures r.Success? ==>
              var data := old(body.Remaining());
              && r.value == (|data|, data, header + data) && |data| <= limit
              && sink.bytes == old(sink.bytes) + data
    ensures r.Failure? && r.error == Validation ==> |old(body.Remaining())| > limit
    ensures r.Failure? && old(Undisturbed(body, sink, token)) ==> r.error == Validation
  {
    var received, localFed, gitFed := 0, [], header;
    ghost var data := body.Remaining();
    while true
      invariant body.Valid() && old(body.position) <= body.position
      invariant received == body.position - old(body.position) <= limit
      invariant localFed == data[..received] && gitFed == header + localFed
      invariant sink.bytes == old(sink.bytes) + localFed && Elapsed(token)
      invariant token.Observed() == old(token.Observed()) && body.broken == old(body.broken)
      decreases body.chunksLeft
    {
      var chunk := TakeChunk(body, sink, received, limit);
      PartOfBody(old(sink.bytes), data, received, sink.bytes);
      if chunk.Failure? {
        return Failure(chunk.error);
      }
      if chunk.value.None? {
        assert localFed == data;
        return Success((received, localFed, gitFed));
      }
      received := received + |chunk.value.value|;
      localFed, gitFed := localFed + chunk.value.value, gitFed + chunk.value.value;
      var cancelled := token.IsCancelled();
      if cancelled {
        var ok := sink.SyncAll();
        return Failure(if ok then Cancelled else CacheIo);
      }
    }
  }

  lemma PartOfBody(before: seq<Byte>, data: seq<Byte>, taken: nat, written: seq<Byte>)
    requires taken <= |data| && before + data[..taken] <= written <= before + data[..taken] + data[taken..]
    ensures before <= written <= before + data
  {
    assert before + data[..taken] + data[taken..] == before + data;
  }

  /** Appends a resumed body, which must bring the sink to exactly `expectedSize`. */
  method AppendBoundedBody(
    body: TransportBody, sink: Sink, initialSize: U64, expectedSize: U64, token: CancellationToken)
    returns (r: Result<nat, OperationError>)
    requires body.Valid() && |sink.bytes| == initialSize
    modifies body, sink, token
    ensures initialSize <= expectedSize ==> Appended(body, sink, expectedSize - initialSize)
    ensures initialSize > expectedSize ==> sink.bytes == old(sink.bytes) && r.Failure?
    ensures Elapsed(token) && NamesCause(body, sink, token, r)
    ensures r.Success? ==>
              && !token.cancelled
              && r.value == expectedSize == |sink.bytes|
              && sink.bytes == old(sink.bytes) + old(body.Remaining())
    ensures r.Failure? && r.error == Validation ==> initialSize + |old(body.Remaining())| != expectedSize
    ensures r.Failure? && old(Undisturbed(body, sink, token)) ==> r.error == Validation
  {
    var received: nat := initialSize;
    ghost var data := body.Remaining();
    while true
      invariant body.Valid() && old(body.position) <= body.position
      invariant received == initialSize + (body.position - old(body.position)) < U64_LIMIT
      invariant sink.bytes == old(sink.bytes) + data[..received - initialSize] && Elapsed(token)
      invariant received <= expectedSize || received == initialSize
      invariant token.Observed() == old(token.Observed()) && body.broken == old(body.broken)
      decreases body.chunksLeft
    {
      var cancelled := token.IsCancelled();
      if cancelled {
        var ok := sink.SyncAll();
        return Failure(if ok then Cancelled else CacheIo);
      }
      var chunk := TakeChunk(body, sink, received, expectedSize);
      if received <= expectedSize {
        PartOfBody(old(sink.bytes), data, received - initialSize, sink.bytes);
      }
      if chunk.Failure? {
        return Failure(chunk.error);
      }
      if chunk.value.None? {
        break;
      }
      received := received + |chunk.value.value|;
    }
    assert data[..received - initialSize] == data;
    var ok := sink.SyncAll();
    if !ok {
      return Failure(CacheIo);
    }
    var cancelled := token.IsCancelled();
    if cancelled {
      return Failure(Cancelled);
    }
    if received != expectedSize {
      return Failure(Validation);
    }
    r := Success(received);
  }

  /** The download and the cache validator accept the same bytes and report the same
      digest, whatever the chunks of one and the reads of the other. */
  method ValidateBothWays(primitives: Primitives, entry: TreeEntry, data: seq<Byte>, chunks: nat)
    returns (downloaded: Result<Digest, OperationError>, cached: Result<(nat, Digest), ContentError>)
    requires data != [] ==> chunks > 0
    ensures downloaded.Success? <==> cached.Success?
    ensures downloaded.Success? <==> IsContent(primitives, entry, data)
    ensures downloaded.Success? ==> cached.value == (entry.size, downloaded.value)
    ensures downloaded.Failure? ==> downloaded.error == Validation && cached.error == Corrupt
  {
    var token := new CancellationToken(false);
    var body := new TransportBody(data, chunks, true);
    var sink := new Sink([], true);
    assert body.Remaining() == data;
    downloaded := StreamValidatedBody(primitives, body, sink, entry, token);
    var reader := new Reader(data, true, null);
    var writer := new Sink([], true);
    cached := CopyAndValidateContent(primitives, reader, writer, entry);
  }
}
