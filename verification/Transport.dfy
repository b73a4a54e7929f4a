/** The byte transport: `IOSocket::putMessage` and `IOSocket::getMessage` over a kernel that moves
    any non-empty part of what it is asked for. Exceptions are results; a C++ `char` is a `char`. */
module Transport {
  import opened Text

  /** `now` is `was` with `piece` stored over the characters from `off` on. */
  ghost predicate Stored(now: string, was: string, off: nat, piece: string) {
    && |now| == |was| && off + |piece| <= |was|
    && (forall i :: off <= i < off + |piece| ==> now[i] == piece[i - off])
    && (forall i :: 0 <= i < |was| && !(off <= i < off + |piece|) ==> now[i] == was[i])
  }

  lemma StoredTwice(s0: string, s1: string, s2: string, off: nat, a: string, b: string)
    requires Stored(s1, s0, off, a) && Stored(s2, s1, off + |a|, b)
    ensures Stored(s2, s0, off, a + b)
  {}

  lemma StoredPrefix(now: string, was: string, off: nat, piece: string)
    requires Stored(now, was, off, piece)
    ensures now[..off + |piece|] == was[..off] + piece
  {}

  /** `Waiting`: the call does not return, because the peer neither sends more nor shuts its side. */
  datatype IoResult = Done(count: nat) | Thrown | Waiting

  // What one read comes to, when it is not a number of bytes.
  const ERROR := -1
  const BLOCKED := -2

  /** One end of a connected stream socket, reduced to what the transfer loops see of it:
      `getSocket()`, `getSSL() != nullptr`, and the two byte streams. */
  class IOSocket {
    const fd: int
    var secure: bool
    // Every byte the kernel has accepted from this end, in order.
    var sent: string
    // Every byte the peer sends from here on, less those already read, and whether it then shuts its
    // side. A read returns a non-empty front part of the bytes: whatever had arrived by then.
    var incoming: string
    const peerShuts: bool
    var writeShut: bool
    // Set by any call to the kernel or to OpenSSL that reports an error or a timeout.
    ghost var failed: bool

    constructor (fd: int, secure: bool, incoming: string, peerShuts: bool)
      ensures this.fd == fd && this.secure == secure && this.incoming == incoming && this.peerShuts == peerShuts
      ensures sent == "" && !writeShut && !failed
    {
      this.fd, this.secure, this.incoming, this.peerShuts := fd, secure, incoming, peerShuts;
      sent, writeShut, failed := "", false, false;
    }

    /** `write` or `SSL_write` of a non-empty buffer. */
    method Write(data: string) returns (put: int)
      requires data != ""
      modifies this`sent, this`failed
      ensures put == -1 || 1 <= put <= |data|
      ensures failed == (put == -1 || old(failed))
      ensures sent == old(sent) + (if put == -1 then "" else data[..put])
    {
      put := *;
      if put < 1 || put > |data| {
        put, failed := -1, true;
      } else {
        sent := sent + data[..put];
      }
    }

    /** `read` or `SSL_read` of at most `size` bytes into `buffer[off..]`; 0 is end of stream. With no byte
        left, it blocks for as long as the peer has not shut its side. */
    method Read(buffer: array<char>, off: nat, size: nat) returns (get: int)
      requires size > 0 && off + size <= buffer.Length
      modifies this`incoming, this`failed, buffer
      ensures get == ERROR || get == BLOCKED || (0 <= get <= size && get <= |old(incoming)|)
      ensures get == 0 ==> old(incoming) == "" && peerShuts
      ensures get == BLOCKED ==> old(incoming) == "" && !peerShuts
      ensures failed == (get == ERROR || old(failed))
      ensures get <= 0 ==> buffer[..] == old(buffer[..]) && incoming == old(incoming)
      ensures get > 0 ==> incoming == old(incoming)[get..]
      ensures get > 0 ==> Stored(buffer[..], old(buffer[..]), off, old(incoming)[..get])
    {
      get := *;
      if get < 1 || get > size || get > |incoming| {
        get := if incoming != "" || get != 0 then ERROR else if peerShuts then 0 else BLOCKED;
        failed := failed || get == ERROR;
        return;
      }
      forall i | 0 <= i < get {
        buffer[off + i] := incoming[i];
      }
      incoming := incoming[get..];
    }

    /** `select` on this descriptor: -1 error, 0 timeout, otherwise readable without blocking. */
    method Select(timeout: int) returns (state: int)
      modifies this`failed
      ensures failed == (state == -1 || state == 0 || old(failed))
      ensures state != -1 && state != 0 ==> incoming != "" || peerShuts
    {
      state := *;
      if incoming == "" && !peerShuts && state != -1 {
        state := 0;
      }
      failed := failed || state == -1 || state == 0;
    }

    method PutMessage(buffer: string) returns (r: IoResult)
      modifies this`sent, this`failed
      ensures failed == (r.Thrown? || old(failed)) && !r.Waiting?
      ensures r.Done? ==> r.count == 0 && sent == old(sent) + buffer
      ensures r.Thrown? ==>
        exists k :: 0 <= k < |buffer| && sent == old(sent) + buffer[..k]
    {
      var dataWritten := 0;
      while dataWritten < |buffer|
        invariant 0 <= dataWritten <= |buffer|
        invariant sent == old(sent) + buffer[..dataWritten] && failed == old(failed)
      {
        var put := Write(buffer[dataWritten..]);
        if put == ERROR {
          return Thrown;
        }
        assert buffer[..dataWritten + put] == buffer[..dataWritten] + buffer[dataWritten..][..put];
        dataWritten := dataWritten + put;
      }
      return Done(0);
    }

    /** One turn of the read loop, over either transport: `ERROR` is an exception, 0 a clean end of
        stream, which TLS reports as an error instead. Only a call with a timeout never blocks. */
    method ReadOnce(buffer: array<char>, off: nat, size: nat, timeout: int)
      returns (get: int, ghost chunk: string)
      requires size > 0 && off + size <= buffer.Length
      modifies this`incoming, this`failed, buffer
      ensures get == ERROR ==> failed || (secure && incoming == "" && peerShuts)
      ensures get != ERROR ==> failed == old(failed)
      ensures get == BLOCKED ==> incoming == "" && !peerShuts && (secure || timeout == -1)
      ensures get == ERROR || get == BLOCKED || 0 <= get <= size
      ensures |chunk| == (if get > 0 then get else 0)
      ensures get == 0 ==> !secure && incoming == "" && peerShuts
      ensures old(incoming) == chunk + incoming
      ensures Stored(buffer[..], old(buffer[..]), off, chunk)
      ensures buffer[off..off + |chunk|] == chunk
    {
      ghost var stream := incoming;
      if secure {
        get := Read(buffer, off, size);
        if get == 0 {
          get := ERROR;
        }
      } else {
        var state := 1;
        if timeout != -1 {
          state := Select(timeout);
        }
        if state == -1 || state == 0 {
          return ERROR, "";
        }
        get := Read(buffer, off, size);
      }
      chunk := if get > 0 then stream[..get] else "";
      assert chunk + incoming == stream;
    }

    /** `chunks` records what the successive reads delivered. */
    method GetMessage(buffer: array<char>, off: nat, size: nat, timeout: int, scanForEnd: string -> bool)
      returns (r: IoResult, ghost chunks: seq<string>)
      requires off + size <= buffer.Length
      modifies this`incoming, this`failed, buffer
      // The bytes read are the front of the stream, and they are in the buffer in order.
      ensures old(incoming) == Flatten(chunks) + incoming
      ensures |Flatten(chunks)| <= size
      ensures Stored(buffer[..], old(buffer[..]), off, Flatten(chunks))
      // The end scan is put to every chunk, and the first one it accepts is the last one read.
      ensures forall i | 0 <= i < |chunks| ::
        chunks[i] != "" && (i < |chunks| - 1 || !r.Done? ==> !scanForEnd(chunks[i]))
      // A normal return has one of three reasons, and a clean end of stream is never one over TLS.
      ensures r.Done? ==> fd != 0 && r.count == |Flatten(chunks)|
      ensures r.Done? ==>
        || r.count == size
        || (!secure && incoming == "" && peerShuts)
        || (chunks != [] && scanForEnd(chunks[|chunks| - 1]))
      ensures fd == 0 ==> r.Thrown? && chunks == []
      // An exception has one of three reasons too; a wait has one.
      ensures r.Thrown? ==> fd == 0 || failed || (secure && incoming == "" && peerShuts)
      ensures !r.Thrown? ==> failed == old(failed)
      ensures r.Waiting? ==> incoming == "" && !peerShuts && |Flatten(chunks)| < size
    {
      chunks := [];
      if fd == 0 {
        return Thrown, chunks;
      }
      ghost var was, stream, got := buffer[..], incoming, "";
      var dataRead := 0;
      while dataRead < size
        invariant 0 <= dataRead <= size && dataRead == |got| && got == Flatten(chunks)
        invariant stream == got + incoming && failed == old(failed)
        invariant Stored(buffer[..], was, off, got)
        invariant forall i | 0 <= i < |chunks| :: chunks[i] != "" && !scanForEnd(chunks[i])
      {
        var get;
        ghost var chunk, before := "", buffer[..];
        get, chunk := ReadOnce(buffer, off + dataRead, size - dataRead, timeout);
        StoredTwice(was, before, buffer[..], off, got, chunk);
        if get == ERROR {
          return Thrown, chunks;
        }
        if get == BLOCKED {
          return Waiting, chunks;
        }
        if get == 0 {
          break;
        }
        FlattenPush(chunks, chunk);
        Reassociate(got, chunk, incoming);
        got, chunks := got + chunk, chunks + [chunk];
        dataRead := dataRead + get;
        if scanForEnd(buffer[off + dataRead - get..off + dataRead]) {
          break;
        }
      }
      return Done(dataRead), chunks;
    }

    /** `closeSSL`, which leaves a plain socket, and `shutdown(SHUT_WR)`: after a normal return the peer
        sees end of stream. */
    method PutClose() returns (r: IoResult)
      modifies this`secure, this`writeShut, this`failed
      ensures !secure && writeShut == (r.Done? || old(writeShut)) && failed == (r.Thrown? || old(failed)) && !r.Waiting?
    {
      secure := false;
      if * {
        writeShut := true;
        r := Done(0);
      } else {
        failed := true;
        r := Thrown;
      }
    }
  }
}
