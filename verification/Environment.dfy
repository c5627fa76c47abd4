/** What the program does not control: cancellation, and byte streams that may
    fail or arrive in any pieces.

    A `quiet` stream never fails, and a token nobody else holds is cancelled only
    by the program itself. */
module Environment {
  import opened Text
  import opened Wrappers

  datatype IoError = NotFound | AlreadyExists | InvalidInput | InvalidData | UnsafePath | OtherIo

  /** What the surroundings note down themselves: the answers a token gave, and what an
      executor was asked to do and did. */
  datatype Event = Looked(answer: bool) | Started(index: nat) | Waited | Finished(index: nat)

  /** A token never goes back to uncancelled; others may cancel it at any time.

      It is the one object all parts of a request share, so it also keeps the journal.
      Only `IsCancelled` and the executor add to that. */
  class CancellationToken {
    var cancelled: bool
    const shared: bool
    ghost var journal: seq<Event>
    /** Some look at the token has answered yes. */
    ghost var observed: bool

    constructor (shared: bool)
      ensures Valid() && !cancelled && this.shared == shared && journal == [] && !Observed()
    {
      cancelled := false;
      this.shared := shared;
      journal, observed := [], false;
    }

    ghost predicate Observed()
      reads this
    {
      observed
    }

    ghost predicate Valid()
      reads this
    {
      Observed() ==> cancelled
    }

    method Cancel()
      modifies this`cancelled
      ensures cancelled
    {
      cancelled := true;
    }

    /** Time passes, and others may cancel. */
    method Pass()
      modifies this`cancelled
      ensures Elapsed(this)
    {
      var elsewhere: bool := *;
      if shared && elsewhere {
        cancelled := true;
      }
    }

    method IsCancelled() returns (r: bool)
      modifies this
      ensures r == cancelled && Elapsed(this) && journal == old(journal) + [Looked(r)]
      ensures Observed() <==> old(Observed()) || r
    {
      Pass();
      r := cancelled;
      journal, observed := journal + [Looked(r)], observed || r;
    }
  }

  /** What any stretch of time may do to a token. */
  twostate predicate Elapsed(token: CancellationToken?)
    reads token
  {
    token != null ==>
      && (old(token.cancelled) ==> token.cancelled)
      && (!token.shared ==> token.cancelled == old(token.cancelled))
      && |old(token.journal)| <= |token.journal|
      && (old(token.Observed()) ==> token.Observed())
      && (token.Observed() ==> old(token.Observed()) || token.cancelled)
  }

  /** A reader hands out its bytes in pieces of its own choosing.  With a token it
      checks for cancellation before and after every read. */
  class Reader {
    const data: seq<Byte>
    const quiet: bool
    const token: CancellationToken?
    var position: nat
    var observedCancellation: bool

    constructor (data: seq<Byte>, quiet: bool, token: CancellationToken?)
      ensures this.data == data && this.quiet == quiet && this.token == token
      ensures position == 0 && !observedCancellation
    {
      this.data, this.quiet, this.token := data, quiet, token;
      position, observedCancellation := 0, false;
    }

    predicate Valid()
      reads this
    {
      position <= |data|
    }

    /** Through this reader, cancellation is observed exactly when the token says so. */
    twostate predicate Notices()
      reads this, token
    {
      token != null && !old(token.Observed()) && !old(observedCancellation) ==>
        (token.Observed() <==> observedCancellation)
    }

    method CheckCancellation() returns (ok: bool)
      modifies this`observedCancellation, token
      ensures Notices()
      ensures token == null ==> ok
      ensures Elapsed(token) && (token != null ==> ok == !token.cancelled)
      ensures observedCancellation == (old(observedCancellation) || !ok)
    {
      ok := true;
      if token != null {
        var cancelled := token.IsCancelled();
        if cancelled {
          observedCancellation, ok := true, false;
        }
      }
    }

    /** At most `capacity` bytes; none exactly at the end. */
    method Read(capacity: nat) returns (r: Result<seq<Byte>, IoError>)
      requires Valid() && capacity > 0
      modifies this, token
      ensures Valid() && old(position) <= position <= old(position) + capacity && Notices()
      ensures r.Success? ==>
                && r.value == data[old(position)..position]
                && (r.value == [] ==> position == |data|)
                && observedCancellation == old(observedCancellation)
      ensures r.Failure? ==> !quiet || observedCancellation
      ensures token == null ==> observedCancellation == old(observedCancellation)
      ensures Elapsed(token)
      ensures token != null ==> (observedCancellation ==> old(observedCancellation) || token.cancelled)
    {
      var ok := CheckCancellation();
      if !ok {
        return Failure(OtherIo);
      }
      var count: nat, fault: bool, kind: IoError := *, *, *;
      if !(0 < count <= capacity && count <= |data| - position) {
        count := if capacity <= |data| - position then capacity else |data| - position;
      }
      var bytes := data[position..position + count];
      position := position + count;
      ok := CheckCancellation();
      if !ok {
        return Failure(OtherIo);
      }
      r := if fault && !quiet then Failure(kind) else Success(bytes);
    }
  }

  /** A growing file; a failed write may leave part of its bytes. */
  class Sink {
    var bytes: seq<Byte>
    const quiet: bool

    constructor (bytes: seq<Byte>, quiet: bool)
      ensures this.bytes == bytes && this.quiet == quiet
    {
      this.bytes, this.quiet := bytes, quiet;
    }

    method WriteAll(chunk: seq<Byte>) returns (ok: bool)
      modifies this
      ensures old(bytes) <= bytes && bytes <= old(bytes) + chunk
      ensures ok ==> bytes == old(bytes) + chunk
      ensures quiet ==> ok
    {
      var count: nat, fault: bool := *, *;
      ok := quiet || !fault;
      bytes := bytes + if ok || count > |chunk| then chunk else chunk[..count];
    }

    method SyncAll() returns (ok: bool)
      ensures quiet ==> ok
    {
      var fault: bool := *;
      ok := quiet || !fault;
    }
  }

  /** A response body: any cut of its bytes into `chunksLeft` chunks, empty ones included. */
  class TransportBody {
    const data: seq<Byte>
    const quiet: bool
    var position: nat
    var chunksLeft: nat
    /** The connection was lost when a chunk was asked for. */
    ghost var broken: bool

    predicate Valid()
      reads this
    {
      position <= |data| && (chunksLeft == 0 ==> position == |data|)
    }

    constructor (data: seq<Byte>, chunks: nat, quiet: bool)
      requires data != [] ==> chunks > 0
      ensures Valid() && this.data == data && this.quiet == quiet && position == 0 && !broken
    {
      this.data, this.quiet, position, chunksLeft, broken := data, quiet, 0, chunks, false;
    }

    function Remaining(): seq<Byte>
      requires Valid()
      reads this
    {
      data[position..]
    }

    method NextChunk() returns (r: Result<Option<seq<Byte>>, IoError>)
      requires Valid()
      modifies this
      ensures Valid()
      ensures r.Success? && r.value.Some? ==>
                && old(position) <= position && r.value.value == data[old(position)..position]
                && chunksLeft == old(chunksLeft) - 1
      ensures r.Success? && r.value.None? ==> position == |data| == old(position)
      ensures r.Failure? ==> !quiet && position == old(position)
      ensures broken == (old(broken) || r.Failure?)
    {
      var fault: bool, count: nat := *, *;
      if fault && !quiet {
        broken := true;
        return Failure(OtherIo);
      }
      if chunksLeft == 0 {
        return Success(None);
      }
      if chunksLeft == 1 || count > |data| - position {
        count := |data| - position;
      }
      r := Success(Some(data[position..position + count]));
      position, chunksLeft := position + count, chunksLeft - 1;
    }
  }
}
