/** The server of server/aesdsocket.c: one process, one connection at a
    time. The log file persists across connections as the `log` field; the
    receive loop fills a 1024-byte buffer, the echo refills a 1024-byte
    `sendbuf`. Each method is proved to compute the matching function of
    module Protocol. */
module AesdSocket {
  import opened Framing
  import opened Transport
  import opened Protocol

  class Server {
    /** The contents of the log file /var/tmp/aesdsocketdata. */
    var log: seq<bv8>
    /** Whether the log file exists. */
    var present: bool
    /** When `keep_running` drops to 0. */
    var signal: Signal

    /** The process before its accept loop: the log file as left on disk
        (nothing, when there is no file), and the schedule of signals to
        come. */
    constructor (log: seq<bv8>, present: bool, signal: Signal)
      requires OnDisk(log, present)
      ensures this.log == log && this.present == present && this.signal == signal
    {
      this.log := log;
      this.present := present;
      this.signal := signal;
    }

    /** One test of `keep_running`. */
    method KeepRunning() returns (running: bool)
      modifies this`signal
      ensures running == Running(old(signal))
      ensures signal == Tick(old(signal))
    {
      running := Running(signal);
      signal := Tick(signal);
    }

    /** `fwrite(buffer, 1, count, fp1)` on the file opened for appending:
        the bytes written go to the end of the log, and nothing else of the
        log changes. */
    method Fwrite(buffer: array<bv8>, count: nat, room: seq<nat>) returns (written: nat, room': seq<nat>)
      requires count <= buffer.Length
      modifies this`log
      ensures (written, room') == WriteStep(room, count)
      ensures log == old(log) + buffer[..written]
    {
      var step := WriteStep(room, count);
      written, room' := step.0, step.1;
      log := log + buffer[..written];
    }

    /** `fread(buffer, 1, BUFFER_SIZE, fp2)` with the file position at `pos`. */
    method Fread(buffer: array<bv8>, pos: nat) returns (n: nat)
      requires buffer.Length == BUFFER_SIZE && pos <= |log|
      modifies buffer
      ensures n == |Chunk(log, pos)| && buffer[..n] == Chunk(log, pos)
    {
      var c := Chunk(log, pos);
      forall i | 0 <= i < |c| {
        buffer[i] := c[i];
      }
      n := |c|;
    }

    /** `unlink("/var/tmp/aesdsocketdata")`, by the handler or after the loop. */
    method Unlink()
      modifies this`log, this`present
      ensures log == [] && !present
    {
      log, present := [], false;
    }

    /** The body of the receive loop, lines 159-183: receive into `buffer`,
        then frame and write the chunk. */
    method ReceiveOnce(sock: Socket, buffer: array<bv8>, room: seq<nat>)
      returns (stop: Option<StopReason>, room': seq<nat>)
      requires buffer.Length == BUFFER_SIZE
      modifies this`log, sock`inbox, buffer
      ensures var p := ReceivePass(old(sock.inbox), room);
              log == old(log) + p.appended && sock.inbox == p.inbox &&
              room' == p.room && stop == p.stop
    {
      var n := sock.Recv(buffer, RECV_LIMIT);
      if n == -1 {
        return Some(RecvFailed), room;
      } else if n == 0 {
        return Some(PeerClosed), room;
      }
      stop, room' := WriteChunk(buffer, n, room);
    }

    /** Lines 168-182: terminate the chunk of `n` bytes in `buffer`, look for
        the newline and append through it, or append the whole chunk. */
    method WriteChunk(buffer: array<bv8>, n: nat, room: seq<nat>)
      returns (stop: Option<StopReason>, room': seq<nat>)
      requires 0 < n < buffer.Length
      modifies this`log, buffer
      ensures var f := FrameChunk(old(buffer[..n]), room);
              log == old(log) + f.appended && room' == f.room && stop == f.stop
    {
      ghost var chunk := buffer[..n];
      buffer[n] := NUL;
      assert buffer[..] == chunk + [NUL] + buffer[n + 1..];
      NewlineIndexStopsAtNul(chunk, buffer[n + 1..]);
      var newline := FindNewline(buffer);
      var written;
      if newline.Some? {
        var toWrite := newline.value + 1;
        assert buffer[..toWrite] == ToWrite(chunk);
        written, room' := Fwrite(buffer, toWrite, room);
        if written < toWrite {
          return Some(ShortWrite), room';
        }
        return Some(FoundNewline), room';
      } else {
        assert buffer[..n] == ToWrite(chunk);
        written, room' := Fwrite(buffer, n, room);
        if written < n {
          return Some(ShortWrite), room';
        }
        return None, room';
      }
    }

    /** The receive loop, lines 156-186. Its test reads only `keep_running`,
        since `packet_complete` is never set: every other exit is a `break`. */
    method ReceiveLoop(sock: Socket, room: seq<nat>) returns (reason: StopReason)
      modifies this`log, this`signal, sock`inbox
      ensures var r := ReceiveInto(old(log), old(sock.inbox), room, old(signal));
              log == r.log && sock.inbox == r.inbox && signal == r.signal && reason == r.reason
    {
      var buffer := new bv8[BUFFER_SIZE];
      var left := room;
      while true
        invariant ReceiveInto(old(log), old(sock.inbox), room, old(signal)) == ReceiveInto(log, sock.inbox, left, signal)
        decreases |Stream(sock.inbox)|
      {
        ghost var before := ReceiveInto(log, sock.inbox, left, signal);
        var running := KeepRunning();
        if !running {
          assert before == Receipt(log, [], sock.inbox, left, signal, Stopped);
          return Stopped;
        }
        var stop;
        stop, left := ReceiveOnce(sock, buffer, left);
        if stop.Some? {
          return stop.value;
        }
      }
    }

    /** The echo, lines 189-211: read the log from offset 0 in chunks of
        `BUFFER_SIZE` and push each chunk out with as many `send` calls as
        it takes. A failed `send` abandons the rest of its chunk only. */
    method EchoLoop(sock: Socket)
      modifies sock`window, sock`delivered
      ensures var e := EchoFrom(log, 0, old(sock.window), old(sock.delivered));
              sock.delivered == e.delivered && sock.window == e.window
    {
      var sendbuf := new bv8[BUFFER_SIZE];
      var pos := 0;
      while true
        invariant pos <= |log|
        invariant EchoFrom(log, 0, old(sock.window), old(sock.delivered)) == EchoFrom(log, pos, sock.window, sock.delivered)
        decreases |log| - pos
      {
        var bytesRead := Fread(sendbuf, pos);
        if bytesRead == 0 {
          return;
        }
        var totalSent := SendBuffer(sock, sendbuf, bytesRead);
        pos := pos + bytesRead;
      }
    }

    /** One connection, lines 143-214: open the log for appending (creating
        it empty if it is missing), receive, reopen it for reading, echo,
        close the client. A failed `fopen` closes the client and ends the
        process. */
    method HandleConnection(sock: Socket, c: Client) returns (fatal: bool)
      requires sock.inbox == c.inbox && sock.window == c.window && sock.delivered == []
      modifies this, sock
      ensures Visit(log, present, sock.delivered, signal, fatal) == Handle(old(log), old(present), c, old(signal))
      ensures !sock.open
    {
      if !c.appendOpens {
        sock.Close();
        return true;
      }
      if !present {
        log := [];
      }
      present := true;
      var reason := ReceiveLoop(sock, c.room);
      if reason == Stopped {
        // The handler removed the log just before the test that read 0,
        // so the `fopen(..., "r")` fails.
        Unlink();
        sock.Close();
        return true;
      }
      if !c.readOpens {
        sock.Close();
        return true;
      }
      EchoLoop(sock);
      sock.Close();
      return false;
    }

    /** The accept loop of `main`, lines 118-219: while `keep_running` reads
        1, accept the next client and serve it to the end before the next
        one; then close the listening socket, remove the log and return 0.
        `replies[i]` is everything client `i` was sent. When the loop ends
        on its test, the flag has dropped for good. */
    method AcceptLoop(clients: seq<Client>) returns (outcome: Outcome, replies: seq<seq<bv8>>)
      modifies this
      ensures Run(outcome, log, present, replies) == Serve(old(log), old(present), clients, old(signal), [])
      ensures outcome == Finished ==> !Running(signal)
    {
      var i := 0;
      replies := [];
      while true
        invariant i <= |clients|
        invariant Serve(old(log), old(present), clients, old(signal), []) == Serve(log, present, clients[i..], signal, replies)
        decreases |clients| - i
      {
        var running := KeepRunning();
        if !running {
          break;
        }
        if i == |clients| {
          return AcceptPending, replies;
        }
        assert clients[i..][1..] == clients[i + 1..];
        var sock := new Socket(clients[i].inbox, clients[i].window);
        var fatal := HandleConnection(sock, clients[i]);
        replies := replies + [sock.delivered];
        if fatal {
          return Aborted, replies;
        }
        i := i + 1;
      }
      Unlink();
      outcome := Finished;
    }
  }

  /** The inner send loop, lines 202-210: `send` from `total_sent` on until
      the chunk of `bytesRead` bytes in `sendbuf` is out or a call fails. */
  method SendBuffer(sock: Socket, sendbuf: array<bv8>, bytesRead: nat) returns (totalSent: nat)
    requires bytesRead <= sendbuf.Length
    modifies sock`window, sock`delivered
    ensures var s := SendChunk(sendbuf[..bytesRead], 0, old(sock.window), old(sock.delivered));
            totalSent == s.total && sock.window == s.window && sock.delivered == s.delivered
  {
    ghost var chunk := sendbuf[..bytesRead];
    totalSent := 0;
    while totalSent < bytesRead
      invariant totalSent <= bytesRead
      invariant SendChunk(chunk, 0, old(sock.window), old(sock.delivered)) == SendChunk(chunk, totalSent, sock.window, sock.delivered)
      decreases bytesRead - totalSent
    {
      var bytesSent := sock.Send(sendbuf, totalSent, bytesRead - totalSent);
      if bytesSent == -1 {
        return;
      }
      assert sendbuf[totalSent..totalSent + bytesSent] == chunk[totalSent..totalSent + bytesSent];
      totalSent := totalSent + bytesSent;
    }
  }
}
