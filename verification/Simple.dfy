/** `ProtocolSimple`: send a byte string, and receive everything up to end of stream into a string
    whose capacity grows as it fills. */
module Simple {
  import opened Text
  import opened Transport

  /** `std::string` as the receive loop uses it: a buffer of `capacity()` characters, of which the
      first `size` are the value. */
  class CppString {
    var buf: array<char>
    var size: nat

    ghost predicate Valid()
      reads this
    {
      size <= buf.Length
    }

    function Text(): string
      reads this, buf
      requires Valid()
    {
      buf[..size]
    }

    /** `resize` within the capacity: new characters are NUL. */
    method Resize(n: nat)
      requires Valid() && n <= buf.Length
      modifies this`size, buf
      ensures Valid() && size == n
      ensures n <= old(size) ==> buf[..] == old(buf[..])
      ensures n > old(size) ==> buf[..old(size)] == old(Text())
      ensures forall i | old(size) <= i < n :: buf[i] == NUL
    {
      if n > size {
        forall i | size <= i < n {
          buf[i] := NUL;
        }
      }
      size := n;
    }

    /** `reserve`: at least `n` characters of room, contents kept. */
    method Reserve(n: nat)
      requires Valid()
      modifies this`buf
      ensures Valid() && buf.Length >= n && buf.Length >= old(buf.Length)
      ensures buf == old(buf) || fresh(buf)
      ensures buf[..size] == old(buf[..size])
    {
      if n > buf.Length {
        var slack: int := *;
        var grown := new char[if slack > 0 then n + slack else n];
        forall i | 0 <= i < size {
          grown[i] := buf[i];
        }
        buf := grown;
      }
    }
  }

  class ProtocolSimple {
    const socket: IOSocket

    constructor (socket: IOSocket)
      ensures this.socket == socket
    {
      this.socket := socket;
    }

    method SendMessage(message: string) returns (r: IoResult)
      modifies socket`sent, socket`failed
      ensures socket.failed == (r.Thrown? || old(socket.failed)) && !r.Waiting?
      ensures r.Done? ==> socket.sent == old(socket.sent) + message
      ensures r.Thrown? ==>
        exists k :: 0 <= k < |message| && socket.sent == old(socket.sent) + message[..k]
    {
      r := socket.PutMessage(message);
    }

    /** The body of the loop up to the exit test: open a `StringSizer`, read once into the room
        after the first `dataRead` characters (the scan accepts any chunk). */
    method ReadMore(message: CppString, dataRead: nat) returns (r: IoResult, ghost got: string)
      requires message.Valid() && dataRead == message.size < message.buf.Length
      modifies socket`incoming, socket`failed, message`size, message.buf
      ensures message.Valid() && message.size == message.buf.Length
      ensures dataRead + |got| < message.buf.Length
      ensures old(socket.incoming) == got + socket.incoming
      ensures message.buf[..dataRead + |got|] == old(message.Text()) + got
      ensures !r.Thrown? ==> socket.failed == old(socket.failed)
      ensures if r.Done? then r.count == |got| else got == ""
      ensures r.Thrown? ==>
        socket.fd == 0 || socket.failed || (socket.secure && socket.incoming == "" && socket.peerShuts)
      ensures r.Waiting? ==> socket.incoming == "" && !socket.peerShuts
      ensures r.Done? && r.count == 0 ==>
        dataRead + 1 == message.buf.Length || (!socket.secure && socket.incoming == "" && socket.peerShuts)
    {
      ghost var held := message.Text();
      message.Resize(message.buf.Length);
      ghost var filled := message.buf[..];
      assert filled[..dataRead] == held;
      var dataMax := message.buf.Length - 1;
      ghost var chunks;
      r, chunks := socket.GetMessage(message.buf, dataRead, dataMax - dataRead, -1, _ => true);
      got := Flatten(chunks);
      assert !r.Done? ==> chunks == [];
      StoredPrefix(message.buf[..], filled, dataRead, got);
      assert message.buf[..dataRead + |got|] == message.buf[..][..dataRead + |got|];
    }

    /** `message.reserve(message.capacity() * 1.5 + 10)` and the destructor of the sizer. */
    method Grow(message: CppString, dataRead: nat)
      requires message.Valid() && dataRead <= message.size == message.buf.Length
      modifies message
      ensures message.Valid() && message.size == dataRead
      ensures message.buf == old(message.buf) || fresh(message.buf)
      ensures message.buf.Length >= 3 * old(message.buf.Length) / 2 + 10
      ensures message.Text() == old(message.buf[..dataRead])
    {
      ghost var full := message.Text();
      message.Reserve(3 * message.buf.Length / 2 + 10);
      assert message.buf[..dataRead] == full[..dataRead];
      message.Resize(dataRead);
    }

    /** `Resize(dataRead)` is the destructor of the `StringSizer`; it also runs when the read throws. */
    method RecvMessage(message: CppString) returns (r: IoResult)
      requires message.Valid() && message.buf.Length >= 1
      modifies socket`incoming, socket`failed, message, message.buf
      ensures message.Valid() && (message.buf == old(message.buf) || fresh(message.buf))
      // With room for one character more than the terminator, a normal return is the whole stream.
      ensures r.Done? && old(message.buf.Length) >= 2 ==>
        !socket.secure && message.Text() == old(socket.incoming) && socket.incoming == "" && socket.peerShuts
      ensures !r.Thrown? ==> socket.failed == old(socket.failed)
      // Without it the buffer is full from the start, and that reads as end of stream.
      ensures r.Done? && old(message.buf.Length) == 1 ==>
        message.Text() == "" && socket.incoming == old(socket.incoming)
      // An exception is an error, or the end of a TLS stream; the string still holds the front of the
      // stream, which in the second case is all of it.
      ensures r.Thrown? ==>
        socket.fd == 0 || socket.failed || (socket.secure && socket.incoming == "" && socket.peerShuts)
      ensures !r.Waiting? ==> message.Text() <= old(socket.incoming)
      ensures r.Thrown? && socket.fd != 0 && !socket.failed ==> message.Text() == old(socket.incoming)
      // A peer that does not shut its side is waited for.
      ensures r.Waiting? ==> !socket.peerShuts && socket.incoming == ""
    {
      ghost var stream := socket.incoming;
      var dataRead := 0;
      message.Resize(0);
      while true
        invariant message.Valid() && message.size == dataRead < message.buf.Length
        invariant message.buf == old(message.buf) || fresh(message.buf)
        invariant stream == message.Text() + socket.incoming && socket.failed == old(socket.failed)
        invariant old(message.buf.Length) >= 2 ==> dataRead + 1 < message.buf.Length
        invariant old(message.buf.Length) == 1 ==> dataRead == 0 && message.buf.Length == 1
        decreases |socket.incoming|
      {
        ghost var held, got := message.Text(), "";
        r, got := ReadMore(message, dataRead);
        Reassociate(held, got, socket.incoming);
        ghost var now := held + got;
        assert message.buf[..dataRead] == now[..dataRead] == held;
        if r.Waiting? {
          return;
        }
        if r.Thrown? {
          message.Resize(dataRead);
          return;
        }
        dataRead := dataRead + r.count;
        if r.count == 0 {
          message.Resize(dataRead);
          return;
        }
        Grow(message, dataRead);
      }
    }
  }

  /** End to end: any series of sends followed by a close is received as their concatenation, however the
      two kernels cut the stream, unless a call fails. Over TLS it is received all the same, but the end of
      the stream is an exception. */
  method SendThenReceive(messages: seq<string>, sender: IOSocket, message: CppString)
    returns (ok: bool, receiver: IOSocket)
    requires message.Valid() && message.buf.Length >= 2 && sender.sent == "" && !sender.failed
    modifies sender, message, message.buf
    ensures message.Valid() && fresh(receiver)
    ensures !sender.failed && !receiver.failed ==> message.Text() == Flatten(messages)
    ensures ok == (!sender.failed && !receiver.failed && !old(sender.secure))
  {
    var from := new ProtocolSimple(sender);
    var secure := sender.secure;
    receiver := new IOSocket(3, secure, "", false);
    ok := false;
    var i := 0;
    while i < |messages|
      invariant 0 <= i <= |messages| && sender.sent == Flatten(messages[..i]) && !sender.failed
      modifies sender
    {
      var r := from.SendMessage(messages[i]);
      if r.Thrown? {
        return;
      }
      FlattenNext(messages, i);
      i := i + 1;
    }
    assert messages[..i] == messages;
    var closed := sender.PutClose();
    if closed.Done? {
      receiver := new IOSocket(3, secure, sender.sent, sender.writeShut);
      var into := new ProtocolSimple(receiver);
      var r := into.RecvMessage(message);
      ok := r.Done?;
    }
  }
}
