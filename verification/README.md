# SocketProgram in Dafny

A model, with proofs, of five parts of this C++ network and media toolkit:

- **Transport** (`Transport.dfy`, `Simple.dfy`, `Interleaving.dfy`): the loops over partial writes and
  partial reads, and the receive buffer that grows. Whatever the kernels do with the stream, and whenever,
  what is sent is what is received.
- **HTTP** (`Lines.dfy`, `HttpRequest.dfy`, `HttpResponse.dfy`, `Http.dfy`): request printing and parsing
  as inverses, the end-of-header scan, range requests, and the agreement of `Content-Length` and
  `Content-Range` with the bytes sent.
- **Socket ownership** (`Sockets.dfy`): descriptors and TLS handles under swap-based moves.
- **FTP** (`FtpVerbs.dfy`, `FtpLog.dfy`, `FtpSession.dfy`, `FtpWire.dfy`, `Ftp.dfy`): dispatch, replies, working
  directory and data connection. `FtpSession.PointOf` says which logs are sessions of this server; the handlers and the session
  loop are proved to produce only those, and what holds of every session is proved about the log; in
  `FtpWire`, from its events alone, with the texts written out.
- **Muxer** (`Schedule.dfy`, `Mux.dfy`, `Yuv.dfy`): the two-stream encode loop and the synthetic picture.

`Text.dfy` holds the string library: concatenation, `find`, C strings, decimal numerals, and `%s`, `%d` of
`sscanf`. `dafny verify dfyconfig.toml` checks everything.

Classes keep the fields of the C++ objects and change them in place. What the outside decides (how many
bytes a call moves, whether it fails, what an encoder holds back, which descriptor is free) is chosen
arbitrarily inside small methods with explicit contracts, so each result holds for every choice. An
exception is a result value, and contracts tie it, both ways, to a flag that only a failing call sets, or to
the trace of calls and what they returned (sockets), or to the log (FTP).
Undefined behaviour (a buffer overrun, a null dereference) is a result value too, with its condition, and
ends the run. So is waiting for ever, at a read from a peer that neither sends more nor shuts its side. A
`char` stands for a byte.

## What the code does not do, and exactly when

- The end-of-header scan looks at the latest chunk only. For any cutting of a request it stops at the end
  and nowhere else if and only if the last chunk is the bare CRLF, or has four characters or more and no
  NUL, and no earlier chunk is a bare CRLF (`HttpRequest.ScanStopsAtEnd`; `StraddledBlankIsMissed` is an
  input that is missed). When it does stop, the request is whole unless the chunk is a bare CRLF. The client
  keeps its side open, so when it never does both ends wait for ever: that is, if and only if no chunk is a
  bare CRLF and the last one has fewer than four characters or a NUL, with one exception, a request that
  fills the server's buffer to its last character. The server has the request if and only if it does not
  wait and at most the final CRLF is left unread (`Http.Exchange`). Chunks that are runs of whole writes
  leave nothing (`WholeWritesAreReceived`).
- A request comes back from the parser if and only if its three tokens are non-empty, free of white space
  and NUL and fit the fixed buffers, and its header lines are non-empty and free of CRLF
  (`HttpRequest.RoundTrip`).
- `Content-Length` is right if and only if the range starts inside the file or at its end; `Content-Range`
  if and only if it starts at a byte of the file (`HttpResponse.Framing`, `RangeFraming`). A range that
  starts later makes the `size_t` subtraction wrap; there is no 416. The end of a requested range is read
  and ignored, so bytes a to b are answered if and only if a is a byte of the file below 2^32 and b is its
  last byte or beyond (`ClosedRangeAnswered`; `RangeEndIsIgnored` is a request that is not). The last n bytes
  are asked for with a minus sign that `%d` takes as the number's, so they are answered only for particular
  sizes of file or n (`SuffixRangeAnswered`).
- `%d` stores half a `size_t`: a range start is understood if and only if it is below 2^32. The C standard
  leaves values from 2^31 on undefined; the model keeps a numeral within 64 bits and stores its low 32, as
  glibc does on a little-endian machine.
- An object that has sent one whole file answers every later request with an empty one: its file stays open
  and at its end (`Http.ProtocolHttp.SendResponse`, `ServeFile`).
- `recvMessage` returns the whole of a stream that is not empty if and only if the string starts with room
  for two characters; with room for one it returns nothing (`Simple.ProtocolSimple.RecvMessage`,
  `Interleaving.RoomForOneIsNone`). From a peer that does not shut its side it never returns. Over TLS,
  given that room, it never returns normally: a clean end is an exception, with the whole stream received.
- An FTP line `VERB arg` goes to VERB if and only if no verb listed earlier occurs in `arg`
  (`FtpVerbs.DispatchIsExact`; `StorPortfolioIsNotStor` is an input that does not).
- A TLS handle is shut down without its descriptor exactly when its object was closed first, or was parted
  from the descriptor by a move or swap of its `BaseSocket` (`Sockets.Program.CloseSSL`, `MoveBase`). The
  failure path of `ConnectSocket` closes first; `accept` does not (`Connect`, `CloseAndThrow`, `Accept`).
  Such a shutdown reaches another object's descriptor exactly when the number it is bound to is open
  (`StrayReachesAnother`); no constructor, nor `accept`, ever does that, nor does any run that closes or
  parts no object while it has a handle (`Run`). `newSSL` on an object that has a handle loses it
  (`NewSSL`).
- A `::close` that fails is taken to leave the descriptor open, as the code assumes when it keeps the number.
  POSIX does not say so, and Linux releases it; the destructor would then close the number a second time.
  One thread at a time is at work: another one could be given the number between a close and a shutdown.
- FTP: an exception during LIST, RETR or STOR is answered 226 and leaves the data connection in place
  (`FtpSession.GoneExactlyWhenThrough`, `Ftp.ProtocolFtp.HandleSTOR`); a session is undefined only at a transfer
  with no data connection or at a name of 512 characters or more (`UndefinedOnlyThen`); SIZE is not
  answered; USER in the command loop reads another message and expects USER in that one; what STOR receives
  goes nowhere; the login timeout is not used.

## Model

| member | source | states |
|---|---|---|
| Transport.IOSocket.PutMessage | libs/Inet/Socket.cpp:194-248 | over any partial writes: a normal return has put exactly the buffer on the wire, an exception a proper front part of it |
| Transport.IOSocket.ReadOnce | libs/Inet/Socket.tpp:28-114 | one read over either transport: the next part of the stream, stored at its place; a clean end only without TLS and once the peer has shut its side; with nothing left and the peer open it blocks, unless there is a timeout |
| Transport.IOSocket.GetMessage | libs/Inet/Socket.tpp:13-123 | the buffer holds the front of the stream and nothing else changed; every chunk is scanned, only the last may be accepted; a normal return means accepted, full, or end of stream; it waits only for a peer that is open and silent |
| Transport.IOSocket.PutClose | libs/Inet/Socket.cpp:250-258 | the socket is plain afterwards, and its write side is shut exactly on a normal return |
| Interleaving.EveryRun | libs/Protocols/ProtocolSimple.cpp:36-52 | for every interleaving of partial writes, partial reads and buffer growth: what is held is a front of what was sent, the next read is the part after it, the loop ends with the whole, after a bounded number of steps |
| Interleaving.Progress | libs/Inet/Socket.cpp:194-248 | no interleaving deadlocks before the end of stream is seen |
| Interleaving.RoomForOneIsNone | libs/Protocols/ProtocolSimple.cpp:43-49 | with room for one character nothing is ever received |
| Simple.CppString.Resize | libs/Protocols/ProtocolSimple.cpp:20-29 | the sizer's resize keeps the characters held and fills the rest with NUL |
| Simple.ProtocolSimple.SendMessage | libs/Protocols/ProtocolSimple.cpp:5-8 | the message is appended to what was sent, or on an exception a front of it |
| Simple.ProtocolSimple.ReadMore | libs/Protocols/ProtocolSimple.cpp:41-49 | what was received stays in front of what is now read; nothing read means end of stream or no free room |
| Simple.ProtocolSimple.Grow | libs/Protocols/ProtocolSimple.cpp:50-51 | growing and shrinking back keep the received prefix and leave free room |
| Simple.ProtocolSimple.RecvMessage | libs/Protocols/ProtocolSimple.cpp:36-52 | a normal return is the whole stream when the capacity starts at two or more, nothing when it is one; an exception is a failure, with a front of the stream, or the end of a TLS stream, with all of it; it waits only for a peer that does not shut its side |
| Simple.SendThenReceive | libs/Protocols/ProtocolSimple.cpp:5-52 | any series of sends, then a close, is received as the concatenation, unless a call failed; over TLS the end is an exception |
| Lines.LineEnd | libs/Protocols/ProtocolHttp.cpp:323-333 | the first CRLF, or -1 when there is none |
| Lines.ScanOfJoin | libs/Protocols/ProtocolHttp.cpp:356-367 | the header loop reads back any non-empty CRLF-free lines printed with CRLF and a blank line, and stops there |
| Lines.JoinOfScan | libs/Protocols/ProtocolHttp.cpp:356-367 | the lines appended are non-empty and CRLF-free and rebuild the buffer up to the stopping point |
| Lines.BlankOnlyAtEnd | libs/Protocols/ProtocolHttp.cpp:112-124 | printed lines and the final CRLF contain CRLFCRLF at the end and nowhere else |
| HttpRequest.RoundTrip | libs/Protocols/ProtocolHttp.cpp:335-370 | parsing what sendRequest printed gives back method, path, version and all lines in order if and only if the request is well formed |
| HttpRequest.FewTokensAreRefused | libs/Protocols/ProtocolHttp.cpp:347-348 | a request line of no, one or two tokens, however spaced, gives -1 |
| HttpRequest.ReadsBackExactly | libs/Protocols/ProtocolHttp.cpp:356-370 | a received front of a request, cut after a CRLF, is parsed as the request if and only if at most the final CRLF is missing |
| HttpRequest.ParsePrint | libs/Protocols/ProtocolHttp.cpp:335-370 | what any successful parse appended prints back to the buffer it came from |
| HttpRequest.ParsePrintWhole | libs/Protocols/ProtocolHttp.cpp:335-370 | on a buffer that ends at its only blank line, the whole buffer is rebuilt |
| HttpRequest.ScanStopsAtEnd | libs/Protocols/ProtocolHttp.cpp:157-174 | for every cutting of a request: the scan accepts the last chunk and no other if and only if the stated condition on the chunks holds |
| HttpRequest.AcceptedExactly | libs/Protocols/ProtocolHttp.cpp:157-174 | the chunks the lambda accepts: the bare CRLF, and any with a blank line and no NUL in front of its end, whatever follows |
| HttpRequest.WholeWrites | libs/Protocols/ProtocolHttp.cpp:157-174 | a chunk of consecutive whole sendRequest writes is accepted exactly when it holds the final blank line and no NUL |
| HttpRequest.AcceptedIsWhole | libs/Protocols/ProtocolHttp.cpp:157-174 | after an accepted chunk nothing of the request is left, unless the chunk is a bare CRLF |
| HttpRequest.WholeWritesAreReceived | libs/Protocols/ProtocolHttp.cpp:157-174 | when every chunk is a run of whole writes: nothing is left unread when reading stops, and the last chunk is accepted exactly when it has no NUL |
| HttpRequest.StraddledBlankIsMissed | libs/Protocols/ProtocolHttp.cpp:157-174 | a cutting the scan never accepts |
| Http.ProtocolHttp.SendRequest | libs/Protocols/ProtocolHttp.cpp:112-124 | the whole request is put on the wire, or on an exception a front of it |
| Http.ProtocolHttp.ReadLine | libs/Protocols/ProtocolHttp.cpp:323-333 | the loop finds the first CRLF, with every read in bounds |
| Http.ProtocolHttp.AppendLines | libs/Protocols/ProtocolHttp.cpp:356-367 | the header loop terminates and appends exactly the lines of the reference, after those already there |
| Http.ProtocolHttp.ParseRequestHeader | libs/Protocols/ProtocolHttp.cpp:335-370 | the members become what the reference parse gives; unchanged with -1 for a bad request line; overruns and a header line without end are reported |
| Http.ProtocolHttp.RecvRequest | libs/Protocols/ProtocolHttp.cpp:149-179 | the message is what was read, reading stopped for one of three reasons, and the members are its parse; it waits only for a peer that is open, with nothing accepted |
| Http.Exchange | libs/Protocols/ProtocolHttp.cpp:112-179 | over any fragmentation, with the client left open: the server waits for ever if and only if no chunk is accepted, which is said of the chunks themselves; it has the request if and only if it does not wait and at most the final CRLF is left; runs of whole writes leave nothing |
| Http.ProtocolHttp.GetBodySize | libs/Protocols/ProtocolHttp.cpp:181-217 | the range is that of the header lines, folded in order; 200 with the size of what the stream has, or 404; an open file stays open |
| Http.ProtocolHttp.SendBody | libs/Protocols/ProtocolHttp.cpp:238-273 | the blocks are full but the last, none is empty, they concatenate to the file from the range start, and what was sent is always a prefix of it |
| Http.ProtocolHttp.SendResponse | libs/Protocols/ProtocolHttp.cpp:276-321 | for a first or later response: the header, then the body or after a swallowed exception a front of it, then the write side is shut; complete exactly when no call failed; after a whole file nothing is left for the next response |
| Http.ProtocolHttp.SendNotFound | libs/Protocols/ProtocolHttp.cpp:440-455 | the 404 page, whole, on a normal return |
| Http.ServeFile | libs/Protocols/ProtocolHttp.cpp:276-321 | any response sent without failure is framed if and only if the range starts within what the stream has, which is the file the first time and nothing afterwards |
| HttpResponse.RangeReadsBack | libs/Protocols/ProtocolHttp.cpp:195-201 | a printed range start is read back if and only if it fits 32 bits |
| HttpResponse.Framing | libs/Protocols/ProtocolHttp.cpp:276-313 | a client that splits at the first blank line finds Content-Length equal to the body bytes if and only if the range starts within the file |
| HttpResponse.RangeFraming | libs/Protocols/ProtocolHttp.cpp:284-294 | the status is 206 and Content-Range is valid and describes exactly the bytes sent if and only if it starts at a byte of the file |
| HttpResponse.StatusTells | libs/Protocols/ProtocolHttp.cpp:284-294 | the client reads 206 if and only if a header line asks for a range, if and only if there is a Content-Range; 200 otherwise |
| HttpResponse.PlainRequestAnswered | libs/Protocols/ProtocolHttp.cpp:194-313 | a request without a range gets 200, no Content-Range, the length and all the bytes |
| HttpResponse.RangeRequestAnswered | libs/Protocols/ProtocolHttp.cpp:194-313 | a request for everything from byte n, as the last range it asks for, is answered validly, with 206, if and only if n fits 32 bits and is a byte of the file |
| HttpResponse.ClosedRangeAnswered | libs/Protocols/ProtocolHttp.cpp:194-313 | a request for bytes a to b, as the last range it asks for, is answered with exactly those, and 206, if and only if a fits 32 bits and is a byte of the file, and b is the last byte or beyond |
| HttpResponse.RangeEndIsIgnored | libs/Protocols/ProtocolHttp.cpp:198 | a request that is not: the first of two bytes |
| HttpResponse.SuffixRangeAnswered | libs/Protocols/ProtocolHttp.cpp:194-313 | a request for the last n bytes, as the last range it asks for, is answered with them if and only if the sizes meet the stated condition |
| HttpResponse.HeadEndsAtFirstBlank | libs/Protocols/ProtocolHttp.cpp:283-308 | the first blank line of the header is its end |
| HttpResponse.ErrorFraming | libs/Protocols/ProtocolHttp.cpp:440-453 | the 404 page is framed, and says 404 |
| Schedule.WholeSchedule | libs/Ffmpeg/muxer.cpp:195-206 | 250 video frames stamped 0, 1, ... and ceil(10 rate / nb) audio frames stamped 0, nb, 2 nb, ... |
| Schedule.RemainingIsChronological | src/muxer.cpp:78-87 | frames are made in order of their time, video first on a tie |
| Schedule.RemainingIsComplete | libs/Ffmpeg/muxer.cpp:343-374 | from any clock reading, each stream's remaining frames come once each, evenly spaced, to its end |
| Schedule.TickAt | libs/Ffmpeg/muxer.cpp:205-206 | the k-th timestamp of a stream is k frame lengths after its first |
| Schedule.FramesLeftIsCeiling | libs/Ffmpeg/muxer.cpp:195-206 | the number of frames is the ceiling of the time left over the frame size |
| Schedule.EndedIsLater | src/muxer.cpp:80-86 | a stream past its end is ahead of one before its end, so draining never makes frames out of turn |
| Schedule.DriftIsKept | src/muxer.cpp:80-86 | -25 nb < video rate - 25 audio <= rate: neither stream gets ahead of the other by more than one frame of its own |
| Mux.OutputStream.GetFrame | libs/Ffmpeg/muxer.cpp:339-374 | takes the first of the timestamps the stream has left in the reference schedule, and gives none exactly when none is left |
| Mux.Muxer.EncodeAndWrite | libs/Ffmpeg/muxer.cpp:249-262 | what goes into the encoder comes out as packets in order; finished exactly when there was nothing to feed and nothing left; it goes on exactly when no call failed |
| Mux.Muxer.MakeVideoFrame | libs/Ffmpeg/muxer.cpp:339-374 | the frame made is the next of the schedule, and the drift bound is kept; none is made on an exit |
| Mux.Muxer.MakeAudioFrame | libs/Ffmpeg/muxer.cpp:189-208 | the same for audio |
| Mux.Muxer.PrepareAudioFrame | libs/Ffmpeg/muxer.cpp:223-248 | the frame fed to the encoder is the next of the schedule though it is stamped with samples_count, which stays equal to next_pts |
| Mux.Muxer.WriteVideoFrame | libs/Ffmpeg/muxer.cpp:379-405 | keeps schedule, conservation and drift, and uses up work; on an exit what was written is a front of each stream |
| Mux.Muxer.WriteAudioFrame | libs/Ffmpeg/muxer.cpp:213-263 | the same, and samples_count equals next_pts after it |
| Mux.Muxer.Run | src/muxer.cpp:78-87 | the loop terminates; it succeeds exactly when no library call failed, and then every frame of the schedule was made in order and written once, and both encoders are empty |
| Yuv.FillYuvImage | libs/Ffmpeg/muxer.cpp:322-338 | every sample of each plane has its formula modulo 256, padding is untouched, all writes are in bounds |
| Yuv.PaintedSample | libs/Ffmpeg/muxer.cpp:327-337 | the same read sample by sample through `y * linesize + x` |
| Yuv.Address | libs/Ffmpeg/muxer.cpp:330-335 | `y * linesize + x` determines x and y and stays inside the plane |
| Yuv.Byte | libs/Ffmpeg/muxer.cpp:330-335 | what a sample keeps of its formula: a byte that differs from it by a multiple of 256 |
| Sockets.SSLSocket.Close | libs/Inet/Socket.cpp:37-53 | closes an open descriptor once and forgets it, or throws and keeps it |
| Sockets.SSLSocket.CloseSSL | libs/Inet/Socket.cpp:129-163 | the handle is shut down and freed once; stale exactly when its object does not hold the descriptor it is bound to |
| Sockets.SSLSocket.NewSSL | libs/Inet/Socket.cpp:97-121 | the calls made and their results; a new handle, bound to this descriptor exactly when SSL_set_fd did not return 0; a failed SSL_new leaves null, a null context everything |
| Sockets.Program.ExactlyOneOwner | libs/Inet/Socket.h:8-60 | in every reachable state: distinct descriptors and handles, every open descriptor owned unless its close failed as its owner died, and every handle with its descriptor unless its object is marked |
| Sockets.Program.StrayReachesAnother | libs/Inet/Socket.cpp:129-163 | the shutdown of a handle without its descriptor reaches a descriptor of another exactly when the number is open |
| Sockets.Program.Construct | libs/Inet/Socket.cpp:83-95 | a new object owns the new descriptor, or none |
| Sockets.Program.MoveConstruct | libs/Inet/Socket.cpp:173-178 | descriptor, handle and context move together; the source is left empty |
| Sockets.Program.MoveAssign | libs/Inet/Socket.cpp:165-185 | the two objects exchange everything, also when they are one |
| Sockets.Program.MoveBase | libs/Inet/Socket.cpp:55-72 | only the descriptors are exchanged; an object is marked afterwards exactly when its handle is bound to another than the one received |
| Sockets.Program.MoveConstructBase | libs/Inet/Socket.cpp:61-65 | the new object has the descriptor alone; the source keeps a bound handle without it |
| Sockets.Program.Close | libs/Inet/Socket.cpp:37-53 | ownership is given up exactly when the close succeeded |
| Sockets.Program.CloseSSL | libs/Inet/Socket.cpp:129-163 | ownership kept; stale exactly when the descriptor was closed or parted first, and stray exactly when it is open |
| Sockets.Program.NewSSL | libs/Inet/Socket.cpp:97-121 | the same with ownership kept; a handle already there is lost, and no other |
| Sockets.Program.Destroy | libs/Inet/Socket.cpp:123-127 | handle shut down and freed first, then the descriptor closed, and lost only if that close failed |
| Sockets.Program.CloseAndThrow | libs/Inet/Socket.cpp:286-308 | the constructor's failure paths release everything, the descriptor closed first; the handle is stale exactly when it was bound and the close succeeded, and never stray |
| Sockets.Program.Connect | libs/Inet/Socket.cpp:277-309 | the calls made and their results: an object is returned exactly when connect gave 0 and, with a context, SSL_connect did not give -1; otherwise none is left; a shutdown is stale exactly after a failed handshake on a bound handle and a successful close, and never stray |
| Sockets.Program.Listen | libs/Inet/Socket.cpp:386-439 | the ServerSocket constructor, with its calls and their results: an object is returned exactly when bind and listen gave 0 and, with a context, the certificate calls succeeded; no handle is shut down stale |
| Sockets.Program.Accept | libs/Inet/Socket.cpp:441-473 | the calls made and their results: an object is returned exactly when there was a listener, accept gave a descriptor and, with a context, SSL_new a handle and SSL_accept more than 0; no handle is ever shut down stale |
| Sockets.Program.Run | libs/Inet/Socket.cpp:22-192 | any sequence of operations on any objects with any failures keeps exactly one owner; if no object is closed or parted from its descriptor while it has a handle, every handle stays with its descriptor and no shutdown reaches another |
| FtpVerbs.FirstVerb | libs/Protocols/ProtocolFtp.cpp:65-172 | the earliest verb of the table that occurs anywhere in the line |
| FtpVerbs.NoVerbInAnother | libs/Protocols/ProtocolFtp.cpp:65-167 | no verb of the table occurs in another |
| FtpVerbs.DispatchIsExact | libs/Protocols/ProtocolFtp.cpp:65-172 | a verb with an argument is dispatched to that verb if and only if no verb listed earlier occurs in the argument |
| FtpVerbs.StorPortfolioIsNotStor | libs/Protocols/ProtocolFtp.cpp:127-156 | an argument that takes the line to another handler |
| FtpLog.OwedInCounts | libs/Protocols/ProtocolFtp.cpp:51-175 | what is owed, in counts of messages, failed reads, SIZE, USER and replies other than 150 |
| FtpLog.PhasePairs | libs/Protocols/ProtocolFtp.cpp:270-456 | a 150 is followed at once by one 226 or 500, and a 226 comes only there |
| FtpSession.SessionIsSettled | libs/Protocols/ProtocolFtp.cpp:51-175 | in every session of the reference: wherever the server reads, nothing is owed and no 150 is open |
| FtpSession.CommandsAreAnswered | libs/Protocols/ProtocolFtp.cpp:62-173 | at each read of the command loop, in counts: replies other than 150 are 1 + messages + failed reads - main-loop SIZE - main-loop USER |
| FtpSession.EveryCommandAnswered | libs/Protocols/ProtocolFtp.cpp:62-173 | in every session, what is said after a command is its handler's reply text, PWD quoting the directory where the session then is, or the 150 of a transfer |
| FtpSession.EveryTransferConcluded | libs/Protocols/ProtocolFtp.cpp:270-398 | in every session, RETR ends in 500 if and only if it names no file that can be opened; LIST only if its directory cannot be opened |
| FtpSession.GoneExactlyWhenThrough | libs/Protocols/ProtocolFtp.cpp:320-331 | in every session, after a 226 the data connection is gone if and only if the transfer went through |
| FtpSession.UndefinedOnlyThen | libs/Protocols/ProtocolFtp.cpp:270-484 | a session becomes undefined only at a transfer commanded without a data connection or at a name that overruns its buffer |
| FtpWire.OpensWithGreeting | libs/Protocols/ProtocolFtp.cpp:54-55 | every session opens with the 220 |
| FtpWire.CommandsFollowLogin | libs/Protocols/ProtocolFtp.cpp:57-63 | every command was read after a USER, 331, a message and 230 |
| FtpWire.FailedReads | libs/Protocols/ProtocolFtp.cpp:195-216 | a failed read is the first of a login, to be refused, or ends the session at a password or after a login |
| FtpWire.EveryLoginAnswered | libs/Protocols/ProtocolFtp.cpp:195-222 | text by text: 230 to a password, 331 to a USER, the one 530 to any other message and the other to a failed read |
| FtpWire.EveryCommandSpelled | libs/Protocols/ProtocolFtp.cpp:63-484 | text by text: what follows a line, by the verb it is dispatched to, with the directory in the 257 of PWD |
| FtpWire.EveryTransferEnds | libs/Protocols/ProtocolFtp.cpp:270-456 | text by text: how LIST, RETR and STOR end, by whether the directory, or the directory, a slash and the name, can be opened |
| FtpWire.UnsentEnds | libs/Protocols/ProtocolFtp.cpp:274-331 | a reply that cannot be sent ends the session, except the 500 of a listing |
| FtpWire.PortIsDialed | libs/Protocols/ProtocolFtp.cpp:224-268 | when a PORT line is answered, the host and port it names have been dialed |
| FtpWire.PrintedPortIsDialed | libs/Protocols/ProtocolFtp.cpp:224-268 | for a printed line: the dotted address as written, and the port |
| FtpLog.WhereIsResolved | libs/Protocols/ProtocolFtp.cpp:400-418 | the directory is the last absolute argument, or home, followed by each later relative one, and is absolute |
| FtpLog.AcceptedExactly | libs/Protocols/ProtocolFtp.cpp:400-412 | the arguments it is made of: those of the CWD lines that are read and fit the buffer |
| FtpLog.PortRoundTrip | libs/Protocols/ProtocolFtp.cpp:226-234 | for all octets and every port 0 to 65535, the printed PORT line is read back to the same numbers and port |
| FtpLog.TargetRoundTrip | libs/Protocols/ProtocolFtp.cpp:226-234 | and names exactly the dotted address that was written and that port |
| FtpLog.TooFewNumbers | libs/Protocols/ProtocolFtp.cpp:226-231 | a PORT line with fewer than six numbers is not understood |
| FtpLog.ScanArgExactly | libs/Protocols/ProtocolFtp.cpp:403 | an argument is read if and only if the line is the verb, white space or none, and that argument up to white space, NUL or the end |
| FtpLog.PortLineIsPort | libs/Protocols/ProtocolFtp.cpp:127-128 | and the line is dispatched to PORT |
| Ftp.ProtocolFtp.HandleLogin | libs/Protocols/ProtocolFtp.cpp:195-222 | a login is USER, 331, a message, 230; a refusal is the one 530 for a failed read, or the other for a message without USER |
| Ftp.ProtocolFtp.HandlePORT | libs/Protocols/ProtocolFtp.cpp:224-268 | the old connection is deleted, the new one goes to the host and port read, and is there unless it was refused; 200 either way, 500 if unread |
| Ftp.ProtocolFtp.HandleLIST | libs/Protocols/ProtocolFtp.cpp:270-333 | 150, then 500 exactly for a directory that cannot be opened, or 226; the whole listing was sent and the connection is gone if and only if it went through; undefined only without one |
| Ftp.ProtocolFtp.HandleRETR | libs/Protocols/ProtocolFtp.cpp:335-398 | 150, then 500 exactly when no file that can be opened is named, or 226; the whole file was sent and the connection is gone if and only if it went through |
| Ftp.ProtocolFtp.HandleSTOR | libs/Protocols/ProtocolFtp.cpp:436-456 | 150 then 226; the whole stream was read and the connection is gone if and only if the receive did not throw; waits only for a peer that does not shut its side; undefined exactly without a connection |
| Ftp.ProtocolFtp.HandleCWD | libs/Protocols/ProtocolFtp.cpp:400-418 | the directory changes exactly by an accepted argument, before the reply |
| Ftp.ProtocolFtp.HandleMKD | libs/Protocols/ProtocolFtp.cpp:471-484 | one 257 or 500; undefined exactly for an overlong name |
| Ftp.ProtocolFtp.HandleOne | libs/Protocols/ProtocolFtp.cpp:65-172 | each single-reply branch sends its reply; PWD quotes the directory; undefined exactly for an overlong name after CWD or MKD |
| Ftp.ProtocolFtp.HandleCommand | libs/Protocols/ProtocolFtp.cpp:63-173 | the handler of the dispatched verb, and no other, answers; the session stays one of the reference, the directory is the log's, and it is thrown or undefined exactly where the reference is |
| Ftp.ProtocolFtp.StartProtocol | libs/Protocols/ProtocolFtp.cpp:51-175 | every run is a session of the reference, on the files and directories there are, whose reads are the consumed part of the delivery; it ends waiting with all of it consumed or for a data connection that its peer keeps open, thrown exactly at a failed read or send that nothing catches, or undefined exactly where the reference is; all data connections but the current one are deleted, none twice and none used afterwards |

## Left out

- Libraries: OpenSSL, FFmpeg, glog, DNS, `select`, `stat` and `readdir` appear only as small contracts. An
  encoder is a queue that gives out packets in the order of its frames; `SSL_shutdown` says "not yet" only
  finitely often; a read returns the next part of the peer's stream (`Interleaving` shows why).
- Blocking writes: a write moves some bytes or fails; one that blocks because the peer does not read is not
  considered.
- Files: contents are a string given to the model; path lookup under the document root, and the path with a
  query string, are not modelled. The `asctime` text and the media type are parameters with no CR in them.
  For FTP, the files and directories that can be opened are maps, the same for a whole session.
- Simple.SendThenReceive: the sends are over before the receive begins; `Interleaving.EveryRun` is the same
  result with both ends at work at once, as a state machine.
- Http.Exchange: the client's writes are over before the server reads; a read may still return any part of
  what is there, and `Interleaving` shows for the byte transport that nothing else depends on the timing.
- `ProtocolHttp::recvMessage` and `sendRequestFd`: they write into reserved but unsized strings.
- `_ResponseError`: only the 404 page, the one code that reaches it.
- Sockets.Program.Run: a `::close` that fails keeps its descriptor, and threads are not interleaved.
- `SSLCtx`: a context is a number; an object whose context is uninitialised after a move is not asked for a handle;
  `SSL_connect` on the null handle of a failed `newSSL` is taken to return any value.
- `add_stream`, `open_audio`, `open_video`, `close_stream`, the resampler and the sine samples: library setup and
  floating point; a frame is its timestamp.
- Non-standard exceptions: `catch(...)` branches for anything other than `std::runtime_error`.
- `ProtocolMuxer` and the programs under `src/` other than `muxer.cpp`: glue and demonstrations; ProtocolMuxer is
  not part of this model.
- Yuv.FillYuvImage: planes are as large as FFmpeg allocates them, `height * linesize`; a smaller last row is not considered.
