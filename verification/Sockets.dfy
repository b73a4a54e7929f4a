/** Ownership of descriptors and TLS handles: `BaseSocket`, `SSLSocket` and the sockets built on them,
    over the process's descriptor table and OpenSSL's handles. Exceptions are `false` results. */
module Sockets {

  const INVALID := -1   // invalidSocket
  const NULL := 0       // a null SSL* or SSLCtx*

  datatype Name =
    | Socket | Accepts | Connects | Binds | Listens | Closes     // on descriptors
    | Loads | News | Sets | Secures | Welcomes | Shuts           // on contexts and handles

  /** A call to the kernel or to OpenSSL, what it was given, and what it returned. */
  datatype Call = Call(name: Name, on: int, ret: int)

  datatype Trace = Begin | Then(before: Trace, call: Call)

  /** The kernel's descriptor table and the live TLS handles with the descriptor each is bound to. */
  class Os {
    var open: set<int>
    var handles: map<int, int>
    // Handles shut down when their object did not hold the descriptor they were bound to.
    ghost var stale: seq<int>
    // Those among them whose descriptor was open: the shutdown reached another's.
    ghost var stray: seq<int>
    // Descriptors whose `::close` has failed.
    ghost var failed: set<int>
    // Every call but `SSL_free`.
    ghost var calls: Trace

    constructor ()
      ensures open == {} && handles == map[] && stale == [] && stray == [] && failed == {} && calls == Begin
    {
      open, handles, stale, stray, failed, calls := {}, map[], [], [], {}, Begin;
    }

    /** `socket` or `accept`: any descriptor not in use, or -1. */
    method OpenFd(ghost name: Name, ghost on: int) returns (fd: int)
      modifies this`open, this`calls
      ensures calls == Then(old(calls), Call(name, on, fd))
      ensures if fd == INVALID then open == old(open)
              else fd >= 0 && fd !in old(open) && open == old(open) + {fd}
    {
      fd := *;
      if fd < 0 || fd in open {
        fd := INVALID;
      } else {
        open := open + {fd};
      }
      calls := Then(calls, Call(name, on, fd));
    }

    /** `::close`. It is only ever given an open descriptor; when it fails the descriptor stays open. */
    method CloseFd(fd: int) returns (ok: bool)
      requires fd in open
      modifies this`open, this`failed, this`calls
      ensures calls == Then(old(calls), Call(Closes, fd, if ok then 0 else -1))
      ensures open == if ok then old(open) - {fd} else old(open)
      ensures failed == if ok then old(failed) else old(failed) + {fd}
    {
      ok := *;
      if ok {
        open := open - {fd};
      } else {
        failed := failed + {fd};
      }
      calls := Then(calls, Call(Closes, fd, if ok then 0 else -1));
    }

    /** `SSL_new`: a handle not in use, or null. */
    method NewHandle() returns (h: int)
      modifies this`handles, this`calls
      ensures calls == Then(old(calls), Call(News, NULL, h))
      ensures if h == NULL then handles == old(handles)
              else h > 0 && h !in old(handles) && handles == old(handles)[h := INVALID]
    {
      h := *;
      if h <= 0 || h in handles {
        h := NULL;
      } else {
        handles := handles[h := INVALID];
      }
      calls := Then(calls, Call(News, NULL, h));
    }

    /** `SSL_set_fd`; 0 is a failure. */
    method Bind(h: int, fd: int) returns (ret: int)
      requires h in handles
      modifies this`handles, this`calls
      ensures calls == Then(old(calls), Call(Sets, h, ret))
      ensures handles == if ret != 0 then old(handles)[h := fd] else old(handles)
    {
      ret := *;
      if ret != 0 {
        handles := handles[h := fd];
      }
      calls := Then(calls, Call(Sets, h, ret));
    }

    /** `SSL_shutdown` until it no longer says "not yet"; `fd` is the descriptor its owner has now. */
    method Shutdown(h: int, ghost fd: int)
      requires h in handles
      modifies this`stale, this`stray, this`calls
      ensures calls == Then(old(calls), Call(Shuts, h, 1))
      ensures stale == old(stale) + (if handles[h] !in {INVALID, fd} then [h] else [])
      ensures stray == old(stray) + (if handles[h] !in {INVALID, fd} && handles[h] in open then [h] else [])
    {
      if handles[h] !in {INVALID, fd} {
        stale := stale + [h];
        stray := stray + if handles[h] in open then [h] else [];
      }
      calls := Then(calls, Call(Shuts, h, 1));
    }

    /** `SSL_free`, never given a handle twice. */
    method Free(h: int)
      requires h in handles
      modifies this`handles
      ensures handles == old(handles) - {h}
    {
      handles := handles - {h};
    }

    /** `connect`, `bind` and `listen` on a descriptor, without which they fail; `SSL_connect` and
        `SSL_accept` on a handle; the certificate calls on a context. */
    method Invoke(name: Name, on: int) returns (ret: int)
      modifies this`calls
      ensures calls == Then(old(calls), Call(name, on, ret))
      ensures name in {Connects, Binds, Listens} && on == INVALID ==> ret == -1
    {
      ret := *;
      if name in {Connects, Binds, Listens} && on == INVALID {
        ret := -1;
      }
      calls := Then(calls, Call(name, on, ret));
    }
  }

  /** The calls of `newSSL`: none on a null context; otherwise `SSL_new` gives `h`, and `SSL_set_fd` on it
      returns `bound`. */
  function NewTrace(was: Trace, ctxIsNull: bool, h: int, bound: int): Trace {
    if ctxIsNull then was
    else if h == NULL then Then(was, Call(News, NULL, NULL))
    else Then(Then(was, Call(News, NULL, h)), Call(Sets, h, bound))
  }

  function ShutTrace(was: Trace, h: int): Trace {
    if h == NULL then was else Then(was, Call(Shuts, h, 1))
  }

  function CloseTrace(was: Trace, fd: int, ok: bool): Trace {
    if fd == INVALID then was else Then(was, Call(Closes, fd, if ok then 0 else -1))
  }

  /** The calls of the destructors: the handle first, then the descriptor. */
  function DestroyTrace(was: Trace, h: int, fd: int, lost: bool): Trace {
    CloseTrace(ShutTrace(was, h), fd, !lost)
  }

  /** And of a constructor body that closes the descriptor before it throws. */
  function ThrowTrace(was: Trace, h: int, fd: int, closed: bool, lost: bool): Trace {
    DestroyTrace(CloseTrace(was, fd, closed), h, if closed then INVALID else fd, lost)
  }

  class SSLSocket {
    var fd: int
    var ssl: int
    var ctx: int

    constructor (socket: int, ctx: int)
      ensures fd == socket && this.ctx == ctx && ssl == NULL
    {
      fd, this.ctx, ssl := socket, ctx, NULL;
    }

    /** The two halves of `SSLSocket::swap`; also right when the two are one object. */
    method SwapHandle(o: SSLSocket)
      modifies this`ssl, this`ctx, o`ssl, o`ctx
      ensures ssl == old(o.ssl) && ctx == old(o.ctx) && o.ssl == old(ssl) && o.ctx == old(ctx)
    {
      var t := ssl;
      ssl := o.ssl;
      o.ssl := t;
      t := ctx;
      ctx := o.ctx;
      o.ctx := t;
    }

    /** `BaseSocket::swap` */
    method SwapFd(o: SSLSocket)
      modifies this`fd, o`fd
      ensures fd == old(o.fd) && o.fd == old(fd)
    {
      var t := fd;
      fd := o.fd;
      o.fd := t;
    }

    method Close(os: Os) returns (ok: bool)
      requires fd != INVALID ==> fd in os.open
      modifies this`fd, os`open, os`failed, os`calls
      ensures os.calls == CloseTrace(old(os.calls), old(fd), ok)
      ensures ok ==> old(fd) != INVALID && fd == INVALID && os.open == old(os.open) - {old(fd)}
      ensures !ok ==> fd == old(fd) && os.open == old(os.open)
      ensures os.failed == if ok || fd == INVALID then old(os.failed) else old(os.failed) + {fd}
    {
      if fd == INVALID {
        return false;
      }
      ok := os.CloseFd(fd);
      if ok {
        fd := INVALID;
      }
    }

    /** It has a handle bound to a descriptor that it does not hold, or no longer. */
    ghost predicate Detached(os: Os)
      reads this, os
    {
      ssl in os.handles && os.handles[ssl] !in {INVALID, fd}
    }

    method CloseSSL(os: Os)
      requires NULL !in os.handles
      requires ssl != NULL ==> ssl in os.handles
      modifies this`ssl, os`handles, os`stale, os`stray, os`calls
      ensures ssl == NULL && os.handles == old(os.handles) - {old(ssl)}
      ensures os.calls == ShutTrace(old(os.calls), old(ssl))
      ensures os.stale == old(os.stale + if Detached(os) then [ssl] else [])
      ensures os.stray == old(os.stray + if Detached(os) && os.handles[ssl] in os.open then [ssl] else [])
    {
      if ssl == NULL {
        return;
      }
      os.Shutdown(ssl, fd);
      os.Free(ssl);
      ssl := NULL;
    }

    /** `bound` is what `SSL_set_fd` returned; a failure of it is only logged. */
    method NewSSL(os: Os, ctxIsNull: bool) returns (ok: bool, ghost bound: int)
      modifies this`ssl, os`handles, os`calls
      ensures os.calls == NewTrace(old(os.calls), ctxIsNull, ssl, bound)
      ensures ok <==> !ctxIsNull && ssl != NULL
      ensures if ok then
          && ssl > 0 && ssl !in old(os.handles)
          && os.handles == old(os.handles)[ssl := if bound != 0 then fd else INVALID]
        else os.handles == old(os.handles) && ssl == if ctxIsNull then old(ssl) else NULL
    {
      bound := 0;
      if ctxIsNull {
        return false, 0;
      }
      ssl := os.NewHandle();
      if ssl == NULL {
        return false, 0;
      }
      var ret := os.Bind(ssl, fd);
      return true, ret;
    }
  }

  /** What the calls of `ConnectSocket` or of `accept` gave: the descriptor, what `connect` returned, the TLS
      handle, what `SSL_set_fd` and the handshake on it returned, and whether the body closed the
      descriptor, or it was lost. */
  datatype Attempt = Attempt(fd: int, connected: int, handle: int, bound: int, secured: int, closed: bool, lost: bool)

  /** All the socket objects of a process, at any point of any run. */
  class Program {
    const os: Os
    var live: set<SSLSocket>
    ghost var owner: map<int, SSLSocket>    // the one object that holds each owned descriptor
    ghost var holder: map<int, SSLSocket>   // and each TLS handle
    ghost var lostFds: set<int>             // descriptors whose close failed as their owner died
    ghost var lostHandles: set<int>         // handles overwritten by a second newSSL
    ghost var detached: set<SSLSocket>      // objects whose handle is bound to a descriptor they do not hold

    ghost predicate FdsOwned()
      reads this, os, live
    {
      && owner.Keys !! lostFds && owner.Keys + lostFds == os.open && INVALID !in os.open
      && lostFds <= os.failed
      && (forall f :: f in owner ==> owner[f] in live && owner[f].fd == f)
      && (forall o :: o in live && o.fd != INVALID ==> o.fd in owner && owner[o.fd] == o)
    }

    ghost predicate HandlesOwned()
      reads this, os, live
    {
      && holder.Keys !! lostHandles && holder.Keys + lostHandles == os.handles.Keys && NULL !in os.handles
      && (forall h :: h in holder ==> holder[h] in live && holder[h].ssl == h)
      && (forall o :: o in live && o.ssl != NULL ==> o.ssl in holder && holder[o.ssl] == o)
    }

    ghost predicate Marked()
      reads this, os, live
    {
      detached <= live && forall o :: o in live ==> (o in detached <==> o.Detached(os))
    }

    ghost predicate Valid()
      reads this, os, live
    {
      FdsOwned() && HandlesOwned() && Marked()
    }

    constructor ()
      ensures Valid() && live == {} && fresh(os)
      ensures lostFds == {} && lostHandles == {} && detached == {} && os.stale == [] && os.stray == []
    {
      os := new Os();
      live, owner, holder, lostFds, lostHandles, detached := {}, map[], map[], {}, {}, {};
    }

    /** Every open descriptor has exactly one live owner, unless its close failed as its owner died. */
    lemma ExactlyOneOwner()
      requires Valid()
      ensures forall o, p :: o in live && p in live && o != p ==> o.fd != p.fd || o.fd == INVALID
      ensures forall o, p :: o in live && p in live && o != p ==> o.ssl != p.ssl || o.ssl == NULL
      ensures forall f :: f in os.open <==> f in lostFds || exists o :: o in live && o.fd == f && f != INVALID
      ensures forall f :: f in lostFds ==> f in os.failed && forall o :: o in live ==> o.fd != f
      ensures forall o :: o in live && o !in detached && o.ssl != NULL ==> os.handles[o.ssl] in {INVALID, o.fd}
    {}

    /** The stale shutdown of a live object's handle reaches a descriptor of another exactly when that
        descriptor is open: another live object holds it, or one that died has lost it. */
    lemma StrayReachesAnother(o: SSLSocket)
      requires Valid() && o in live && o.Detached(os)
      ensures var f := os.handles[o.ssl];
        f in os.open <==> f in lostFds || exists p :: p in live && p != o && p.fd == f
    {
      var f := os.handles[o.ssl];
      if f in os.open && f !in lostFds {
        assert f in owner && owner[f] != o;
      }
    }

    /** `SSLSocket(::socket(...), ctx)` */
    method Construct(ctx: int, ghost from: Name, ghost on: int) returns (o: SSLSocket)
      requires Valid()
      modifies this`live, this`owner, os`open, os`calls
      ensures os.calls == Then(old(os.calls), Call(from, on, o.fd))
      ensures Valid() && fresh(o) && live == old(live) + {o} && detached == old(detached)
      ensures o.ssl == NULL && o.ctx == ctx && (o.fd == INVALID || o.fd !in old(os.open))
      ensures os.open == old(os.open) + (if o.fd == INVALID then {} else {o.fd})
    {
      var fd := os.OpenFd(from, on);
      o := new SSLSocket(fd, ctx);
      live := live + {o};
      if fd != INVALID {
        owner := owner[fd := o];
      }
    }

    static ghost function Exchanged(d: set<SSLSocket>, dst: SSLSocket, src: SSLSocket): set<SSLSocket> {
      d - {src, dst} + (if src in d then {dst} else {}) + (if dst in d then {src} else {})
    }

    /** What the exchange does to the marks, given which of the two objects were detached. */
    ghost method MoveDetached(dst: SSLSocket, src: SSLSocket, dstWas: bool, srcWas: bool)
      requires src in live && dst in live && detached <= live
      requires dst.Detached(os) == srcWas && src.Detached(os) == dstWas
      requires (dst in detached <==> dstWas) && (src in detached <==> srcWas)
      requires forall o :: o in live && o != src && o != dst ==> (o in detached <==> o.Detached(os))
      modifies this`detached
      ensures detached == Exchanged(old(detached), dst, src) && Marked()
    {
      detached := Exchanged(detached, dst, src);
    }

    /** The two halves of `src.Swap(dst)`, each keeping its own ownership map. */
    method MoveHandle(dst: SSLSocket, src: SSLSocket)
      requires HandlesOwned() && src in live && dst in live
      modifies this`holder, src`ssl, src`ctx, dst`ssl, dst`ctx
      ensures HandlesOwned()
      ensures dst.ssl == old(src.ssl) && dst.ctx == old(src.ctx)
      ensures src.ssl == old(dst.ssl) && src.ctx == old(dst.ctx)
    {
      src.SwapHandle(dst);
      if src.ssl != NULL {
        holder := holder[src.ssl := src];
      }
      if dst.ssl != NULL {
        holder := holder[dst.ssl := dst];
      }
    }

    method MoveFd(dst: SSLSocket, src: SSLSocket)
      requires FdsOwned() && src in live && dst in live
      modifies this`owner, src`fd, dst`fd
      ensures FdsOwned()
      ensures dst.fd == old(src.fd) && src.fd == old(dst.fd)
    {
      src.SwapFd(dst);
      if src.fd != INVALID {
        owner := owner[src.fd := src];
      }
      if dst.fd != INVALID {
        owner := owner[dst.fd := dst];
      }
    }

    /** `dst = std::move(src)`: the two exchange everything, so the source keeps what `dst` had. */
    method MoveAssign(dst: SSLSocket, src: SSLSocket)
      requires Valid() && src in live && dst in live
      modifies this`owner, this`holder, this`detached, src, dst
      ensures Valid() && detached == Exchanged(old(detached), dst, src)
      ensures dst.fd == old(src.fd) && dst.ssl == old(src.ssl) && dst.ctx == old(src.ctx)
      ensures src.fd == old(dst.fd) && src.ssl == old(dst.ssl) && src.ctx == old(dst.ctx)
    {
      MoveHandle(dst, src);
      MoveFd(dst, src);
      MoveDetached(dst, src, old(dst.Detached(os)), old(src.Detached(os)));
    }

    /** `T a(std::move(src))`: swap with an empty object, whose context is uninitialised. */
    method MoveConstruct(src: SSLSocket) returns (o: SSLSocket)
      requires Valid() && src in live
      modifies this`live, this`owner, this`holder, this`detached, src
      ensures Valid() && fresh(o) && live == old(live) + {o}
      ensures o.fd == old(src.fd) && o.ssl == old(src.ssl) && o.ctx == old(src.ctx)
      ensures src.fd == INVALID && src.ssl == NULL && detached == Exchanged(old(detached), o, src)
    {
      var garbage: int := *;
      o := new SSLSocket(INVALID, garbage);
      live := live + {o};
      MoveAssign(o, src);
    }

    /** `BaseSocket::swap`, and the moves of `BaseSocket` that are made of it: only the descriptors are
        exchanged, so a handle stays where it is. The two are detached afterwards exactly when they have a
        handle that is bound to a descriptor other than the one received. */
    method MoveBase(dst: SSLSocket, src: SSLSocket)
      requires Valid() && src in live && dst in live
      modifies this`owner, this`detached, src`fd, dst`fd
      ensures Valid() && dst.fd == old(src.fd) && src.fd == old(dst.fd)
      ensures detached == old(detached) - {src, dst}
        + (if src.Detached(os) then {src} else {}) + (if dst.Detached(os) then {dst} else {})
    {
      MoveFd(dst, src);
      detached := detached - {src, dst}
        + (if src.Detached(os) then {src} else {}) + (if dst.Detached(os) then {dst} else {});
    }

    /** `BaseSocket b(std::move(src))`: the handle is left behind without a descriptor. */
    method MoveConstructBase(src: SSLSocket) returns (o: SSLSocket)
      requires Valid() && src in live
      modifies this`live, this`owner, this`detached, src`fd
      ensures Valid() && fresh(o) && live == old(live) + {o} && o.ssl == NULL
      ensures o.fd == old(src.fd) && src.fd == INVALID
      ensures detached == old(detached) - {src} + (if src.Detached(os) then {src} else {})
    {
      o := new SSLSocket(INVALID, NULL);
      live := live + {o};
      MoveBase(o, src);
    }

    method Close(o: SSLSocket) returns (ok: bool)
      requires Valid() && o in live
      modifies this`owner, this`detached, o`fd, os`open, os`failed, os`calls
      ensures os.calls == CloseTrace(old(os.calls), old(o.fd), ok)
      ensures Valid() && detached == old(detached) + (if ok && o.Detached(os) then {o} else {})
      ensures os.failed == if ok || o.fd == INVALID then old(os.failed) else old(os.failed) + {o.fd}
      ensures ok ==> old(o.fd) != INVALID && o.fd == INVALID && os.open == old(os.open) - {old(o.fd)}
      ensures !ok ==> o.fd == old(o.fd) && os.open == old(os.open)
    {
      ghost var fd := o.fd;
      ok := o.Close(os);
      if ok {
        owner := owner - {fd};
        detached := detached + if o.Detached(os) then {o} else {};
      }
    }

    /** Also what `putClose` does to ownership. A handle is shut down stale exactly when its object is
        detached. */
    method CloseSSL(o: SSLSocket)
      requires Valid() && o in live
      modifies this`holder, this`detached, o`ssl, os`handles, os`stale, os`stray, os`calls
      ensures Valid() && o.ssl == NULL && detached == old(detached) - {o}
      ensures os.calls == ShutTrace(old(os.calls), old(o.ssl))
      ensures os.handles == old(os.handles) - {old(o.ssl)}
      ensures os.stale == old(os.stale + if o.Detached(os) then [o.ssl] else [])
      ensures os.stray == old(os.stray + if o.Detached(os) && os.handles[o.ssl] in os.open then [o.ssl] else [])
    {
      ghost var h := o.ssl;
      o.CloseSSL(os);
      holder, detached := holder - {h}, detached - {o};
    }

    method ReplaceHandle(o: SSLSocket, ctxIsNull: bool) returns (ok: bool, ghost bound: int)
      requires HandlesOwned() && o in live
      modifies this`holder, this`lostHandles, o`ssl, os`handles, os`calls
      ensures HandlesOwned() && os.calls == NewTrace(old(os.calls), ctxIsNull, o.ssl, bound)
      ensures lostHandles == old(lostHandles) + (if o.ssl != old(o.ssl) && old(o.ssl) != NULL then {old(o.ssl)} else {})
      ensures ok <==> !ctxIsNull && o.ssl != NULL
      ensures if ok then
          && o.ssl > 0 && o.ssl !in old(os.handles)
          && os.handles == old(os.handles)[o.ssl := if bound != 0 then o.fd else INVALID]
        else os.handles == old(os.handles) && o.ssl == if ctxIsNull then old(o.ssl) else NULL
    {
      ghost var h := o.ssl;
      ok, bound := o.NewSSL(os, ctxIsNull);
      if o.ssl != h && h != NULL {
        holder, lostHandles := holder - {h}, lostHandles + {h};
      }
      if ok {
        holder := holder[o.ssl := o];
      }
    }

    /** A second handle on the same object loses the first. */
    method NewSSL(o: SSLSocket, ctxIsNull: bool) returns (ok: bool, ghost bound: int)
      requires Valid() && o in live
      modifies this`holder, this`lostHandles, this`detached, o`ssl, os`handles, os`calls
      ensures Valid() && os.calls == NewTrace(old(os.calls), ctxIsNull, o.ssl, bound)
      ensures detached == old(detached) - (if o.ssl != old(o.ssl) then {o} else {})
      ensures ok <==> !ctxIsNull && o.ssl != NULL
      ensures if ok then
          && o.ssl !in old(os.handles)
          && os.handles == old(os.handles)[o.ssl := if bound != 0 then o.fd else INVALID]
        else os.handles == old(os.handles) && o.ssl == if ctxIsNull then old(o.ssl) else NULL
      ensures lostHandles == old(lostHandles) + (if o.ssl != old(o.ssl) && old(o.ssl) != NULL then {old(o.ssl)} else {})
    {
      ghost var h := o.ssl;
      ok, bound := ReplaceHandle(o, ctxIsNull);
      detached := detached - if o.ssl != h then {o} else {};
    }

    /** The object is gone; a descriptor it could not close is lost with it. */
    method Forget(o: SSLSocket)
      requires Valid() && o in live && o.ssl == NULL && (o.fd == INVALID || o.fd in os.failed)
      modifies this`live, this`owner, this`lostFds, this`detached
      ensures Valid() && live == old(live) - {o}
      ensures lostFds == old(lostFds) + (if o.fd != INVALID then {o.fd} else {})
      ensures detached == old(detached) - {o}
    {
      if o.fd != INVALID {
        owner, lostFds := owner - {o.fd}, lostFds + {o.fd};
      }
      live, detached := live - {o}, detached - {o};
    }

    /** `~SSLSocket` then `~BaseSocket`. */
    method Destroy(o: SSLSocket) returns (ghost lost: bool)
      requires Valid() && o in live
      modifies this`live, this`owner, this`holder, this`lostFds, this`detached, o, os
      ensures Valid() && live == old(live) - {o}
      ensures os.calls == DestroyTrace(old(os.calls), old(o.ssl), old(o.fd), lost)
      ensures lost ==> old(o.fd) != INVALID
      ensures os.open == old(os.open) - (if lost then {} else {old(o.fd)})
      ensures lostFds == old(lostFds) + (if lost then {old(o.fd)} else {})
      ensures os.handles == old(os.handles) - {old(o.ssl)} && detached == old(detached) - {o}
      ensures os.stale == old(os.stale + if o.Detached(os) then [o.ssl] else [])
      ensures os.stray == old(os.stray + if o.Detached(os) && os.handles[o.ssl] in os.open then [o.ssl] else [])
    {
      CloseSSL(o);
      lost := false;
      if o.fd != INVALID {
        var ok := Close(o);
        lost := !ok;
      }
      Forget(o);
    }

    // ---------- the sockets built on SSLSocket ----------

    /** A temporary moved into its destination, and then destroyed empty. */
    method MoveOut(temporary: SSLSocket) returns (o: SSLSocket)
      requires Valid() && temporary in live && temporary !in detached
      modifies this, temporary, os
      ensures Valid() && fresh(o) && live == old(live) - {temporary} + {o}
      ensures o.fd == old(temporary.fd) && o.ssl == old(temporary.ssl) && o.ctx == old(temporary.ctx)
      ensures os.open == old(os.open) && os.stale == old(os.stale) && os.stray == old(os.stray)
      ensures os.calls == old(os.calls) && detached == old(detached) && os.handles == old(os.handles)
      ensures lostFds == old(lostFds) && lostHandles == old(lostHandles)
    {
      o := MoveConstruct(temporary);
      ghost var lost := Destroy(temporary);
    }

    /** The base part of `ConnectSocket`: `IOSocket(SSLSocket(::socket(...), ctx))`. */
    method NewIOSocket(ctx: int) returns (o: SSLSocket)
      requires Valid()
      modifies this, os
      ensures Valid() && fresh(o) && live == old(live) + {o} && o.ssl == NULL && o.ctx == ctx
      ensures os.open == old(os.open) + (if o.fd == INVALID then {} else {o.fd})
      ensures os.calls == Then(old(os.calls), Call(Socket, 0, o.fd)) && (o.fd == INVALID || o.fd !in old(os.open))
      ensures lostFds == old(lostFds) && lostHandles == old(lostHandles) && os.handles == old(os.handles)
      ensures os.stale == old(os.stale) && os.stray == old(os.stray) && detached == old(detached)
    {
      var temporary := Construct(ctx, Socket, 0);
      o := MoveOut(temporary);
    }

    /** A failure in the constructor body: `close()`, then an exception that destroys the base part.
        If the close succeeds, a bound handle is shut down without its descriptor; that descriptor has not
        been given out again, so the shutdown reaches nobody else. */
    method CloseAndThrow(o: SSLSocket) returns (closed: bool, ghost leaked: set<int>)
      requires Valid() && o in live && o !in detached
      modifies this, o, os
      ensures Valid() && live == old(live) - {o} && lostHandles == old(lostHandles)
      ensures lostFds == old(lostFds) + leaked && leaked <= {old(o.fd)} && os.open <= old(os.open)
      ensures (closed ==> old(o.fd) != INVALID && leaked == {})
      ensures os.calls == ThrowTrace(old(os.calls), old(o.ssl), old(o.fd), closed, leaked != {})
      ensures os.stale == old(os.stale) +
        if old(o.ssl) != NULL && old(os.handles[o.ssl]) != INVALID && closed then [old(o.ssl)] else []
      ensures os.stray == old(os.stray) && detached == old(detached) - {o}
    {
      closed := Close(o);
      ghost var fd := o.fd;
      ghost var lost := Destroy(o);
      leaked := if lost then {fd} else {};
    }

    /** `newSSL` on an object that has a descriptor and no handle yet. */
    method FirstSSL(o: SSLSocket, ctxIsNull: bool) returns (ok: bool, ghost bound: int)
      requires Valid() && o in live && o.ssl == NULL && o.fd != INVALID
      modifies this`holder, this`lostHandles, this`detached, o`ssl, os`handles, os`calls
      ensures Valid() && lostHandles == old(lostHandles) && detached == old(detached)
      ensures os.calls == NewTrace(old(os.calls), ctxIsNull, o.ssl, bound)
      ensures (ok <==> o.ssl != NULL) && (ctxIsNull ==> !ok) && o.ssl !in old(os.handles)
      ensures ok ==> o.ssl in os.handles && (os.handles[o.ssl] != INVALID <==> bound != 0)
    {
      ok, bound := NewSSL(o, ctxIsNull);
    }

    /** The calls after a successful `connect` with a context. A failed `newSSL` is caught, and `SSL_connect`
        is then called on null; only -1 from it is a failure. */
    static function SecureTrace(was: Trace, a: Attempt, ctxIsNull: bool): Trace {
      var done := Then(NewTrace(was, ctxIsNull, a.handle, a.bound), Call(Secures, a.handle, a.secured));
      if a.secured == -1 then ThrowTrace(done, a.handle, a.fd, a.closed, a.lost) else done
    }

    method Secure(o: SSLSocket, ctxIsNull: bool) returns (ok: bool, ghost leaked: set<int>, ghost a: Attempt)
      requires Valid() && o in live && o.ssl == NULL && o.fd != INVALID
      modifies this, o, os
      ensures Valid() && lostFds == old(lostFds) + leaked && lostHandles == old(lostHandles)
      ensures os.calls == SecureTrace(old(os.calls), a, ctxIsNull) && a.fd == old(o.fd) && a.connected == 0
      ensures (ok <==> a.secured != -1) && a.handle !in old(os.handles) && (ctxIsNull ==> a.handle == NULL)
      ensures if ok then live == old(live) && o.fd == a.fd && o.ssl == a.handle && o.ctx == old(o.ctx) && leaked == {}
              else live == old(live) - {o} && leaked <= {a.fd} && (a.lost <==> leaked != {})
      ensures os.stale == old(os.stale) + if !ok && a.handle != NULL && a.bound != 0 && a.closed then [a.handle] else []
      ensures os.stray == old(os.stray) && detached == old(detached)
    {
      leaked := {};
      ghost var fd, bound := o.fd, 0;
      var ignored;
      ignored, bound := FirstSSL(o, ctxIsNull);
      ghost var h := o.ssl;
      var ret := os.Invoke(Secures, o.ssl);
      ok := ret != -1;
      var closed := false;
      if !ok {
        closed, leaked := CloseAndThrow(o);
      }
      a := Attempt(fd, 0, h, bound, ret, closed, leaked != {});
    }

    static function ConnectTrace(was: Trace, a: Attempt, ctx: int, ctxIsNull: bool): Trace {
      var done := Then(Then(was, Call(Socket, 0, a.fd)), Call(Connects, a.fd, a.connected));
      if a.connected != 0 then ThrowTrace(done, NULL, a.fd, a.closed, a.lost)
      else if ctx == NULL then done
      else SecureTrace(done, a, ctxIsNull)
    }

    /** The `ConnectSocket` constructor; null when it throws, which is exactly when `connect` does not return
        0, or with a context `SSL_connect` returns -1. A handle is shut down stale exactly when the second
        fails on a handle bound to the descriptor and the descriptor is then closed; it never reaches
        another's descriptor. */
    method Connect(ctx: int, ctxIsNull: bool) returns (r: SSLSocket?, ghost leaked: set<int>, ghost a: Attempt)
      requires Valid()
      modifies this, os
      ensures Valid() && lostFds == old(lostFds) + leaked && lostHandles == old(lostHandles)
      ensures os.calls == ConnectTrace(old(os.calls), a, ctx, ctxIsNull)
      ensures r != null <==> a.connected == 0 && (ctx == NULL || a.secured != -1)
      ensures if r == null then live == old(live) && leaked !! old(os.open)
              else fresh(r) && live == old(live) + {r} && leaked == {} && r.fd !in old(os.open)
      ensures r != null ==> INVALID != r.fd == a.fd && r.ctx == ctx && r.ssl == if ctx == NULL then NULL else a.handle
      ensures os.stale == old(os.stale) +
        if r == null && a.connected == 0 && a.handle != NULL && a.bound != 0 && a.closed then [a.handle] else []
      ensures a.handle !in old(os.handles) && (r == null ==> (a.lost <==> leaked != {}))
      ensures os.stray == old(os.stray) && detached == old(detached)
    {
      leaked := {};
      var o := NewIOSocket(ctx);
      ghost var fd := o.fd;
      var ret := os.Invoke(Connects, o.fd);
      a := Attempt(fd, ret, NULL, 0, 0, false, false);
      if ret != 0 {
        var closed;
        closed, leaked := CloseAndThrow(o);
        return null, leaked, a.(closed := closed, lost := leaked != {});
      }
      var ok := true;
      if ctx != NULL {
        ok, leaked, a := Secure(o, ctxIsNull);
      }
      r := if ok then o else null;
    }

    method CloseSSLAndThrow(o: SSLSocket) returns (ghost leaked: set<int>)
      requires Valid() && o in live && o.ssl == NULL
      modifies this, o, os
      ensures Valid() && live == old(live) - {o} && lostHandles == old(lostHandles)
      ensures os.calls == DestroyTrace(old(os.calls), NULL, old(o.fd), leaked != {})
      ensures lostFds == old(lostFds) + leaked && leaked <= {old(o.fd)} && os.stale == old(os.stale)
      ensures old(o.fd) == INVALID ==> leaked == {}
      ensures os.stray == old(os.stray) && detached == old(detached) - {o}
    {
      CloseSSL(o);
      ghost var fd := o.fd;
      ghost var lost := Destroy(o);
      leaked := if lost then {fd} else {};
    }

    /** The calls of the `ServerSocket` constructor, each made only if those before it have succeeded. */
    static function ListenTrace(was: Trace, fd: int, bind: int, listen: int, load: int, ctx: int,
                                closed: bool, lost: bool): Trace {
      var bound := Then(Then(was, Call(Socket, 0, fd)), Call(Binds, fd, bind));
      if bind != 0 then ThrowTrace(bound, NULL, fd, closed, lost)
      else
        var listening := Then(bound, Call(Listens, fd, listen));
        if listen != 0 then ThrowTrace(listening, NULL, fd, closed, lost)
        else if ctx == NULL then listening
        else
          var loaded := Then(listening, Call(Loads, ctx, load));
          if load > 0 then loaded else DestroyTrace(loaded, NULL, fd, lost)
    }

    /** The `ServerSocket` constructor; null when it throws, with nothing left behind but a descriptor
        whose close failed. */
    method Listen(ctx: int)
      returns (r: SSLSocket?, ghost leaked: set<int>, ghost fd: int, bind: int, listen: int, load: int, closed: bool)
      requires Valid()
      modifies this, os
      ensures Valid() && lostFds == old(lostFds) + leaked && lostHandles == old(lostHandles)
      ensures os.calls == ListenTrace(old(os.calls), fd, bind, listen, load, ctx, closed, leaked != {})
      ensures r != null <==> bind == 0 && listen == 0 && (ctx == NULL || load > 0)
      ensures if r == null then live == old(live) && leaked !! old(os.open)
              else fresh(r) && live == old(live) + {r} && leaked == {} && r.ctx == ctx && INVALID != r.fd == fd
      ensures os.stale == old(os.stale) && os.stray == old(os.stray) && detached == old(detached)
    {
      r, leaked, listen, load, closed := null, {}, 0, 1, false;
      var o := Construct(ctx, Socket, 0);
      fd := o.fd;
      bind := os.Invoke(Binds, o.fd);
      if bind == 0 {
        listen := os.Invoke(Listens, o.fd);
      }
      if bind != 0 || listen != 0 {
        closed, leaked := CloseAndThrow(o);
        return;
      }
      if ctx != NULL {
        load := os.Invoke(Loads, ctx);
      }
      if ctx != NULL && load <= 0 {
        leaked := CloseSSLAndThrow(o);
      } else {
        r := o;
      }
    }

    /** The calls of `newSSL` and `SSL_accept` on a new connection. */
    static function WelcomeTrace(was: Trace, a: Attempt, ctxIsNull: bool): Trace {
      var done := NewTrace(was, ctxIsNull, a.handle, a.bound);
      if a.handle == NULL then done else Then(done, Call(Welcomes, a.handle, a.secured))
    }

    method AcceptTLS(o: SSLSocket, ctxIsNull: bool) returns (ok: bool, ghost a: Attempt)
      requires Valid() && o in live && o.ssl == NULL && o.fd != INVALID
      modifies this`holder, this`lostHandles, this`detached, o`ssl, os`handles, os`calls
      ensures Valid() && lostHandles == old(lostHandles) && detached == old(detached)
      ensures os.calls == WelcomeTrace(old(os.calls), a, ctxIsNull) && a.fd == o.fd && a.handle == o.ssl
      ensures ok <==> a.handle != NULL && a.secured > 0
    {
      ghost var bound;
      ok, bound := FirstSSL(o, ctxIsNull);
      var ret := 0;
      if ok {
        ret := os.Invoke(Welcomes, o.ssl);
        ok := ret > 0;
      }
      a := Attempt(o.fd, 0, o.ssl, bound, ret, false, false);
    }

    static function AcceptTrace(was: Trace, a: Attempt, ctx: int, ctxIsNull: bool): Trace {
      if ctx == NULL then was
      else
        var done := WelcomeTrace(was, a, ctxIsNull);
        if a.handle != NULL && a.secured > 0 then done else DestroyTrace(done, a.handle, a.fd, a.lost)
    }

    /** From a new connection to the `IOSocket` that is returned. */
    method HandOver(newssl: SSLSocket, ctxIsNull: bool) returns (r: SSLSocket?, ghost lost: bool, ghost a: Attempt)
      requires Valid() && newssl in live && newssl.ssl == NULL && newssl.fd != INVALID
      modifies this, newssl, os
      ensures Valid() && lostHandles == old(lostHandles)
      ensures os.calls == AcceptTrace(old(os.calls), a, old(newssl.ctx), ctxIsNull) && a.fd == old(newssl.fd)
      ensures r != null <==> old(newssl.ctx) == NULL || (a.handle != NULL && a.secured > 0)
      ensures os.stale == old(os.stale) && os.stray == old(os.stray) && detached == old(detached)
      ensures if r == null then live == old(live) - {newssl}
              else fresh(r) && live == old(live) - {newssl} + {r} && r.fd == a.fd && r.ssl == a.handle
      ensures !lost ==> lostFds == old(lostFds)
      ensures r != null ==> r.ctx == old(newssl.ctx) && (r.ssl == NULL <==> r.ctx == NULL)
    {
      r, lost, a := null, false, Attempt(newssl.fd, 0, NULL, 0, 0, false, false);
      var ok := true;
      if newssl.ctx != NULL {
        ok, a := AcceptTLS(newssl, ctxIsNull);
      }
      if ok {
        r := MoveOut(newssl);
      } else {
        lost := Destroy(newssl);
        a := a.(lost := lost);
      }
    }

    /** `ServerSocket::accept`; null when it throws, which is exactly on a listener without a descriptor, when
        `::accept` fails, or with a context when there is no handle or `SSL_accept` does not return more than
        0. The handle is always shut down before its descriptor is closed. */
    method Accept(server: SSLSocket, ctxIsNull: bool) returns (r: SSLSocket?, ghost lost: bool, ghost a: Attempt)
      requires Valid() && server in live
      modifies this, os
      ensures Valid() && lostHandles == old(lostHandles)
      ensures var ctx, fd, was := old(server.ctx), old(server.fd), old(os.calls);
        && (os.calls == if fd == INVALID then was
              else var accepted := Then(was, Call(Accepts, fd, a.fd));
                   if a.fd == INVALID then accepted else AcceptTrace(accepted, a, ctx, ctxIsNull))
        && (r != null <==> fd != INVALID && a.fd != INVALID && (ctx == NULL || (a.handle != NULL && a.secured > 0)))
      ensures os.stale == old(os.stale) && os.stray == old(os.stray) && detached == old(detached)
      ensures if r == null then live == old(live)
              else fresh(r) && live == old(live) + {r} && INVALID != r.fd == a.fd && a.fd !in old(os.open)
      ensures !lost ==> lostFds == old(lostFds)
      ensures r != null ==> r.ctx == old(server.ctx) && r.ssl == a.handle && (r.ssl == NULL <==> r.ctx == NULL)
    {
      r, lost, a := null, false, Attempt(INVALID, 0, NULL, 0, 0, false, false);
      if server.fd == INVALID {
        return;
      }
      var newssl := Construct(server.ctx, Accepts, server.fd);
      if newssl.fd == INVALID {
        // An object without a descriptor stands for a failed `::accept`.
        lost := Destroy(newssl);
      } else {
        r, lost, a := HandOver(newssl, ctxIsNull);
      }
    }

    /** What every step keeps; in an orderly one, no object comes apart from its descriptor and no shutdown
        reaches another's. */
    twostate predicate Kept(orderly: bool)
      reads this, os, live
    {
      && Valid() && (forall o :: o in live ==> o in old(live) || fresh(o))
      && (orderly && old(detached) == {} ==> detached == {} && os.stray == old(os.stray))
    }

    /** A step that makes an object. */
    method Make(op: int, ctx: int, ctxIsNull: bool, orderly: bool)
      requires Valid()
      modifies this, os
      ensures Kept(orderly)
    {
      if op == 0 {
        var o := Construct(ctx, Socket, 0);
      } else if op == 1 {
        var o;
        ghost var leaked, a;
        o, leaked, a := Connect(ctx, ctxIsNull);
      } else {
        var o, bind, listen, load, closed;
        ghost var leaked, fd;
        o, leaked, fd, bind, listen, load, closed := Listen(ctx);
      }
    }

    /** A step that makes an object from a live one. */
    method Derive(op: int, o: SSLSocket, ctxIsNull: bool, orderly: bool)
      requires Valid() && o in live
      modifies this, os, o
      ensures Kept(orderly)
    {
      if op == 0 {
        var q := MoveConstruct(o);
      } else if op == 1 {
        var q;
        ghost var lost, a;
        q, lost, a := Accept(o, ctxIsNull);
      } else if !orderly || o.ssl == NULL {
        var q := MoveConstructBase(o);
      }
    }

    /** A step on live objects. */
    method Act(op: int, o: SSLSocket, p: SSLSocket, ctxIsNull: bool, orderly: bool)
      requires Valid() && o in live && p in live
      modifies this, os, o, p
      ensures Kept(orderly)
    {
      if op == 0 {
        MoveAssign(o, p);
      } else if op == 1 {
        if !orderly || (o.ssl == NULL && p.ssl == NULL) {
          MoveBase(o, p);
        }
      } else if op == 2 {
        if !orderly || o.ssl == NULL {
          var ok := Close(o);
        }
      } else if op == 3 {
        CloseSSL(o);
      } else if op == 4 {
        var ok;
        ghost var bound;
        ok, bound := NewSSL(o, ctxIsNull);
      } else {
        ghost var lost := Destroy(o);
      }
    }

    /** Any run: any operations, on any of the live objects, in any order, with any failures. In an orderly
        one no object is closed or parted from its descriptor while it has a handle; then every handle
        stays with the descriptor it is bound to, and no shutdown reaches another's. */
    method Run(steps: nat, orderly: bool)
      requires Valid()
      modifies this, os, live
      ensures Valid()
      ensures orderly && old(detached) == {} ==> detached == {} && os.stray == old(os.stray)
    {
      for i := 0 to steps
        invariant Valid() && (forall o :: o in live ==> o in old(live) || fresh(o))
        invariant orderly && old(detached) == {} ==> detached == {} && os.stray == old(os.stray)
      {
        var kind: int, op: int, ctx: int, ctxIsNull: bool := *, *, *, *;
        if kind == 0 || live == {} {
          Make(op, ctx, ctxIsNull, orderly);
        } else {
          var o :| o in live;
          var p :| p in live;
          if kind == 1 {
            Derive(op, o, ctxIsNull, orderly);
          } else {
            Act(op, o, p, ctxIsNull, orderly);
          }
        }
      }
    }
  }
}
