# aesdsocket: the per-connection core, modelled in Dafny

`server/aesdsocket.c` is a TCP server on port 9000. It handles one client
at a time in its `while (keep_running)` loop. For each client it does two
things:

- **Receive and frame.** It receives bytes into a 1024-byte buffer, at most
  1023 bytes per `recv`, and NUL-terminates each chunk. It looks for the
  first newline with `strchr`. Bytes through that newline are appended to
  the log file `/var/tmp/aesdsocketdata`, and receiving stops. A chunk
  with no newline is appended whole, and receiving goes on.
- **Echo.** It reopens the log, reads it from offset 0 with 1024-byte
  `fread` calls, and pushes each chunk out with a loop of partial `send`
  calls. Then it closes the client.

The log persists across clients. A missing log is created empty by
`fopen(..., "a+")`. When a signal arrives, the handler removes the log and
clears `keep_running`. If it arrives just before the accept loop's test,
the loop ends, the log is removed again and `main` returns 0. If it
arrives while `main` is blocked in `accept`, `accept` fails and the
process exits with -1 (lines 121-124); the log is gone all the same.

The project has five modules:

- **`Framing`** (`framing.dfy`): what `strchr` sees of a NUL-terminated
  chunk. It includes the scan itself, `FindNewline`, as a loop over the
  buffer array.
- **`Transport`** (`transport.dfy`): the client socket as a `Socket` class.
  - What the peer sends is a script of events: `Data` segments, then a
    `Close` or a `Reset`. `recv` takes at most its limit from the pending
    segment and leaves the rest queued. A script that has run out reads as
    a closed connection.
  - How each `send` call fares is a script too: `Accept(k)` hands over at
    most `k` bytes, `Refuse` makes `send` return -1. A script that has run
    out accepts everything.
- **`Protocol`** (`protocol.dfy`): a reference model on values.
  - It has one function per loop: `ReceiveInto`, `SendChunk`, `EchoFrom`
    and `Serve`. Each takes the state its loop has built so far (the log,
    what the client has been sent, the replies so far) and returns the
    state the loop leaves.
  - The lemmas here state what the source promises.
- **`AesdSocket`** (`aesdsocket.dfy`): the server as a `Server` class. The
  `log` field is the file, `present` says whether the file exists, and
  `signal` is the schedule of the flag.
  - `ReceiveLoop`, `EchoLoop`, `SendBuffer`, `HandleConnection` and
    `AcceptLoop` keep the source's loops and buffers.
  - Each is proved to compute the matching `Protocol` function.
- **`Scenarios`** (`scenarios.dfy`): concrete sessions. Example: "hello\n"
  then "world\n" from two clients.

The environment is given as parameters:

- `fwrite` takes a per-call script of how many bytes the file accepts. A
  script that has run out accepts everything, and a short write keeps the
  bytes it wrote.
- Each client says whether its two `fopen` calls succeed. A failed
  `fopen` closes the client and ends the process with `exit(-1)`: outcome
  `Aborted`. With no signal involved, the log is left on disk.
- `keep_running` is `Signal`:
  - `Never`, or `AfterTests(n)`: the first `n` tests of the flag read 1.
  - After that every test reads 0, because the handler only ever clears
    the flag.
  - Every test is counted, the accept loop's and the receive loop's alike.
  - The signal arrives just before the first test that reads 0, and the
    handler's `unlink` (line 22) happens there.
  - When that test is the receive loop's, the log is gone when the loop
    ends. The `fopen(..., "r")` at line 191 then fails, and the process
    exits having sent the client nothing (`Scenarios.SignalMidLineAborts`).
- The model keeps one invariant on the file, `OnDisk`: a log file that does
  not exist holds nothing. `Server`'s constructor requires it, and
  `ServeLogOnlyGrows` proves that serving keeps it.
- The accept loop runs over a finite list of clients. When the list runs
  out while the flag still reads 1, the server is left blocked in
  `accept`: outcome `AcceptPending`.

Facts about the code that the model keeps:

- The server is single-threaded and has no timer. Clients are served one
  after another.
- `strchr` stops at the first zero byte, so a newline after one in the
  same chunk is not seen. That chunk is appended whole, and receiving goes
  on (`Scenarios.NewlineAfterNulIsMissed`).
- `FramingIgnoresChunking` proves what happens on a stream without zero
  bytes, with every write succeeding and no signal: the log takes the
  stream through its first newline, however `recv` splits it.
- `packet_complete` is never set to true, so the receive loop's test reads
  only `keep_running`. Every other way out of that loop is a `break`.

## Model

| member | source | states |
|---|---|---|
| Framing.Visible | server/aesdsocket.c:167-169 | no contract of its own: computes the bytes of the terminated chunk that `strchr` scans; `VisibleIsPrefix` says what they are |
| Framing.VisibleIsPrefix | server/aesdsocket.c:167-169 | what `strchr` scans of a NUL-terminated chunk is its longest prefix without a zero byte, followed by a zero byte or the end |
| Framing.NewlineIndexIsFirst | server/aesdsocket.c:169 | `strchr(buffer, '\n')` finds the first newline among the visible bytes, with no newline before it; it finds none exactly when the visible bytes hold no newline |
| Framing.NewlineIndex | server/aesdsocket.c:169 | a found newline lies inside the chunk |
| Framing.NewlineIndexAt | server/aesdsocket.c:169 | a newline with no zero byte or newline before it is what `strchr` returns; a zero byte first means no match |
| Framing.NewlineIndexStopsAtNul | server/aesdsocket.c:167-169 | bytes after the terminator written at `buffer[bytes_received]` never affect the search |
| Framing.ToWrite | server/aesdsocket.c:169-171 | the bytes handed to `fwrite` are a prefix of the chunk |
| Framing.FindNewline | server/aesdsocket.c:169 | the scan over the terminated buffer stays in bounds and returns exactly the `strchr` result |
| Transport.RecvStep | server/aesdsocket.c:143-167 | a successful `recv` returns between 1 and `limit` bytes (1023 here, so `buffer[bytes_received]` is in bounds), and they are the next bytes of the peer's stream |
| Transport.RecvStepEnds | server/aesdsocket.c:159-165 | `recv` returns 0 exactly when the peer has closed, -1 exactly on a reset; in both cases nothing is consumed |
| Transport.SendStep | server/aesdsocket.c:204-208 | `send` returns -1 exactly on a refusal, otherwise between 1 and `len`, and consumes one script entry |
| Transport.Socket.constructor | server/aesdsocket.c:121 | the accepted socket starts open, with nothing sent |
| Transport.Socket.Recv | server/aesdsocket.c:159 | the received bytes land at the start of the buffer, the rest of the buffer is unchanged, and the count is 0, -1 or the number of bytes |
| Transport.Socket.Send | server/aesdsocket.c:204 | exactly the `n` bytes from `buffer + offset` are delivered to the client, nothing on -1 |
| Transport.Socket.Close | server/aesdsocket.c:213 | the client socket is closed |
| Protocol.Tick | server/aesdsocket.c:18-23 | once the flag reads 0 it stays 0 |
| Protocol.WriteStep | server/aesdsocket.c:172-182 | `fwrite` writes at most the bytes asked for, exactly `min(room, count)`, and all of them when the file has room |
| Protocol.FrameChunk | server/aesdsocket.c:169-182 | no contract of its own: computes what one chunk appends, drops and leaves of the `fwrite` script; `FrameChunkConserves`, `FramedWrite` and `WriteChunk` state and use what it means |
| Protocol.FrameChunkConserves | server/aesdsocket.c:169-183 | every byte of a chunk is appended or dropped, in order; a short write drops at least one byte; the loop goes on only after a chunk with no visible newline was appended whole |
| Protocol.FramedWrite | server/aesdsocket.c:169-171 | when `strchr` finds a newline, the bytes written end in it and hold no earlier visible newline |
| Protocol.ReceivePass | server/aesdsocket.c:159-183 | a pass of the loop that does not break consumes at least one byte of the peer's stream |
| Protocol.ReceivePassConserves | server/aesdsocket.c:159-183 | every byte one pass receives is appended or dropped, in order; a closed or failed `recv` and a pass that continues drop nothing |
| Protocol.ReceivePassMarks | server/aesdsocket.c:159-177 | each way out of the body has its mark: the newline ends the appended bytes, a short write drops bytes, 0 and -1 from `recv` consume nothing |
| Protocol.ReceiveInto | server/aesdsocket.c:156-186 | no contract of its own: computes the receive loop from the log it appends to; `ReceiveConservesStream`, `ReceiveStops` and `FramingIgnoresChunking` state what it means (with `ReceiveKeepsLog`), and `Server.ReceiveLoop` is proved to compute it |
| Protocol.ReceiveOneChunk | server/aesdsocket.c:169-183 | with a newline found, exactly the chunk through it is appended, the rest of the chunk dropped, and no further `recv` made; without one the whole chunk is appended and receiving goes on; a short write keeps what it wrote and ends the loop |
| Protocol.ReceiveConservesStream | server/aesdsocket.c:156-187 | every byte the peer sent is, in order, in the log, dropped from the last chunk, or still unread |
| Protocol.ReceiveKeepsLog | server/aesdsocket.c:149-186 | the receive loop only appends to the log it opened with `a+`: every earlier byte stays |
| Protocol.ReceiveStops | server/aesdsocket.c:158-182 | the receive loop ends only on a newline (the log then ends in it), a short write, `recv` returning 0 or -1, or the flag reading 0, and each leaves its own mark |
| Protocol.FramingIgnoresChunking | server/aesdsocket.c:156-186 | on a stream without zero bytes, with no short write and no signal, the log takes the stream through its first newline, or the whole stream when it has none, however `recv` splits it |
| Protocol.Chunk | server/aesdsocket.c:201 | `fread` returns the next `min(1024, remaining)` bytes of the log at the file position |
| Protocol.SendChunk | server/aesdsocket.c:202-210 | no contract of its own: computes the inner send loop from `total_sent`; `SendChunkSendsPrefix` and `SendChunkWhole` state what it means, and `SendBuffer` is proved to compute it |
| Protocol.SendChunkSendsPrefix | server/aesdsocket.c:202-210 | `total_sent` starts where it is, only grows and never passes `bytes_read`; the client is sent exactly the chunk up to `total_sent`; the loop stops short only after a `send` error |
| Protocol.SendChunkWhole | server/aesdsocket.c:202-210 | with no `send` error the inner loop ends with `total_sent == bytes_read`, the whole chunk sent |
| Protocol.EchoFrom | server/aesdsocket.c:201-211 | no contract of its own: computes the read-and-send loop from a file position; `EchoSendsOnlyLog`, `EchoSendsWholeLog` and `SendErrorLosesOnlyItsChunk` state what it means |
| Protocol.EchoSendsOnlyLog | server/aesdsocket.c:191-211 | the echo only appends to what the client was sent; what it appends is, in order, a prefix of each 1024-byte chunk of the log, and never more than the rest of the log; that the chunks go out whole when no `send` fails is `EchoSendsWholeLog` |
| Protocol.EchoSendsWholeLog | server/aesdsocket.c:191-211 | with every `send` succeeding the client is sent exactly the whole log from offset 0, in order, however `fread` and `send` split it |
| Protocol.SendErrorLosesOnlyItsChunk | server/aesdsocket.c:201-211 | a `send` error abandons only the rest of its chunk, and the read loop still sends every later chunk |
| Protocol.Handle | server/aesdsocket.c:143-214 | a connection that ends the process has sent the client nothing, and one that does not leaves the log file in place (the function receives into an empty log when the file is missing, as `a+` creates it; `HandleRepliesWholeLog` states the reply) |
| Protocol.HandleRepliesWholeLog | server/aesdsocket.c:143-213 | with both `fopen` calls and every `send` succeeding, the log keeps its earlier bytes and the client is sent the whole log after its own bytes were appended; only a flag that reads 0 in the receive loop ends the process instead, with the log gone and nothing sent |
| Protocol.Serve | server/aesdsocket.c:118-219 | no contract of its own: computes the accept loop over the clients; `ServeLogOnlyGrows`, `OnlySignalAborts` and `RepliesExtendEachOther` state what it means, and `Server.AcceptLoop` is proved to compute it |
| Protocol.ServeLogOnlyGrows | server/aesdsocket.c:118-219 | a missing log stays empty; while the file exists it keeps every earlier byte; it is gone when the loop ends on the flag, and it disappears only when the process ends; each accepted client adds one reply |
| Protocol.OnlySignalAborts | server/aesdsocket.c:187-196 | with every client well served, the process can abort only through a signal in a receive loop: that client is sent nothing and the log is gone |
| Protocol.RepliesExtendEachOther | server/aesdsocket.c:118-215 | with every client well served, every reply but an aborted one extends the log as it was and the reply before it; when the server is left waiting in `accept`, the last reply is the log |
| AesdSocket.Server.constructor | server/aesdsocket.c:18 | the process starts with the log as left on disk (empty when there is no file) and the flag's schedule |
| AesdSocket.Server.KeepRunning | server/aesdsocket.c:118 | a test of `keep_running` reads the flag and advances the schedule |
| AesdSocket.Server.Fwrite | server/aesdsocket.c:172-182 | `fwrite` appends exactly the bytes it reports written to the end of the log, changing nothing else |
| AesdSocket.Server.Fread | server/aesdsocket.c:201 | `fread` fills the buffer with the log's next chunk |
| AesdSocket.Server.Unlink | server/aesdsocket.c:217 | the log file is removed, by the handler or after the loop |
| AesdSocket.Server.ReceiveOnce | server/aesdsocket.c:159-183 | one pass of the receive loop's body computes `ReceivePass`, terminating the chunk in bounds |
| AesdSocket.Server.WriteChunk | server/aesdsocket.c:167-182 | terminating, searching and writing one chunk computes `FrameChunk` |
| AesdSocket.Server.ReceiveLoop | server/aesdsocket.c:156-186 | the receive loop leaves the log, the peer's script, the flag and the reason as `ReceiveInto` says |
| AesdSocket.SendBuffer | server/aesdsocket.c:202-210 | the inner send loop leaves `total_sent`, the send script and what the client was sent as `SendChunk` says |
| AesdSocket.Server.EchoLoop | server/aesdsocket.c:197-211 | the read-and-send loop sends the client what `EchoFrom` says |
| AesdSocket.Server.HandleConnection | server/aesdsocket.c:143-214 | one connection leaves the log, the file, the flag, the reply and the fatal flag as `Handle` says (a missing log created empty, a log removed by the handler), and the client closed |
| AesdSocket.Server.AcceptLoop | server/aesdsocket.c:118-219 | the accept loop ends with the outcome, log and replies that `Serve` gives; when it ends on its test, the flag stays down, so no later state depends on the schedule |
| Scenarios.LineIsFramed | server/aesdsocket.c:169-177 | a one-line segment is appended whole in one pass and ends the receive loop |
| Scenarios.LineIsEchoed | server/aesdsocket.c:143-213 | a client sending one line is sent the old log followed by its line |
| Scenarios.ServeLine | server/aesdsocket.c:118-215 | serving a one-line client takes two tests of the flag, appends its line and replies with the new log |
| Scenarios.TwoLines | server/aesdsocket.c:118-215 | two one-line clients are sent their line, then both lines, and the log keeps both |
| Scenarios.TwoLinesThenSignal | server/aesdsocket.c:118-219 | the same two clients and then the flag reading 0: both are served, and the log is then removed |
| Scenarios.HelloWorld | server/aesdsocket.c:118-219 | "hello\n" then "world\n" get back "hello\n" and "hello\nworld\n" |
| Scenarios.NewlineAfterNulIsMissed | server/aesdsocket.c:167-183 | in "a\0b\nc" `strchr` finds no newline, so the whole chunk is appended and receiving continues |
| Scenarios.SignalMidLineAborts | server/aesdsocket.c:156-196 | a line arriving as "he" then "y\n", with the flag dropping after the receive loop's first test: "he" is appended, the log is then removed, and the process aborts having sent nothing |

## Left out

- Socket setup, `listen`, and `accept` with its `exit(-1)` on failure (lines 49-125): OS I/O. Each accepted client is an entry of the client list instead.
- `close(sockID)` and `freeaddrinfo` after the loop (lines 216, 218): they hold no state the model keeps.
- `inet_ntop`, `syslog` and `perror` (lines 127-140, 214): logging only.
- Daemonisation and `getopt` parsing (lines 29-108): process control.
- Any other moment of a signal's arrival: the model fixes it just before the first test of `keep_running` that reads 0. The cases this leaves out are these.
  - The signal arrives after a receive loop has broken out (newline, short write, `recv` returning 0 or -1) but before the `fopen(..., "r")`. The log is then gone, that `fopen` fails and the process exits. In the model the log is still there, the client is echoed all of it, and the log is removed at the next test of the flag. Each client's `readOpens` can stand for the failed `fopen`, but the model does not derive it from the signal.
  - The signal arrives after `accept` has returned but before the `fopen(..., "a+")`. That `fopen` then creates a new empty log, and the client is echoed an empty file before the loop ends. The model instead removes the log at the receive loop's test and aborts.
  - The signal arrives while `main` is blocked in `accept`, which is how an idle server is usually stopped. `accept` returns -1 and the process exits with -1 (lines 121-124), with the log removed by the handler. The model's `AcceptPending` outcome stops just before that call and does not model its failure.
  - The signal arrives during the echo. The open `FILE` still reads the removed file, so the model's reply is right, but the file is already gone before the loop's test.
- SIGPIPE: the source neither passes `MSG_NOSIGNAL` to `send` (line 204) nor ignores SIGPIPE. A `send` to a peer that has closed therefore kills the process by default. In the model a `Refuse` makes `send` return -1 and serving goes on (`SendErrorLosesOnlyItsChunk`, `Serve`): it stands for an `EPIPE` error, as when SIGPIPE is ignored.
- Interrupted system calls: the source defines `_POSIX_C_SOURCE 200112L` (line 1) and nothing that enables glibc's default features, so `signal` (lines 46-47) has System V semantics. The handler is reset after one delivery, which lets a second SIGINT or SIGTERM kill the process, and no call is restarted. A signal during a blocked `recv` makes it return -1 with `EINTR`; the loop breaks and the `fopen(..., "r")` on the removed log fails. A signal during `send` makes it return -1 or a short count. The model takes the signal to arrive only at a test of the flag, so it never makes these calls fail.
- `fread` errors and the results of `fflush` and `fclose` (lines 176, 187, 212): the source ignores them. `fread` always returns the next chunk of the log.
- Buffering in the `FILE` stream: the log is what was written, since `fclose` flushes it before the file is reread.
- `finder-app/writer.c` is not part of this model: it only wraps `fopen`/`fputs`/`fclose`.
- Threads, locks, the session list and the timestamp timer are not in this source.
