/** A reference model of what the server does, written on values: the
    receive-and-frame loop, the read-and-send loops of the echo, one whole
    connection, and the accept loop. Each function takes the state the
    loop it models has built so far (the log file, the bytes the client
    has been sent, the replies of earlier clients) and returns the state
    the loop leaves. The imperative server in module AesdSocket is proved
    to compute exactly these functions; the lemmas here state what they
    mean. */
module Protocol {
  import opened Framing
  import opened Transport

  /** When `keep_running` drops to 0: never, or after `n` tests of the flag
      have read 1. The handler only ever clears the flag, so once a test
      reads 0 every later test does too. The signal is taken to arrive just
      before the first test that reads 0, so the handler's `unlink` (line
      22) happens there. */
  datatype Signal = Never | AfterTests(n: nat)

  /** What the next test of `keep_running` reads. */
  predicate Running(s: Signal) {
    s.Never? || s.n > 0
  }

  /** The signal schedule after one test of the flag. */
  function Tick(s: Signal): (t: Signal)
    ensures !Running(s) ==> t == s
  {
    if s.AfterTests? && s.n > 0 then AfterTests(s.n - 1) else s
  }

  /** One `fwrite(buffer, 1, count, fp1)`: the file takes at most `room[0]`
      of the bytes. A script that has run out takes everything. */
  function WriteStep(room: seq<nat>, count: nat): (r: (nat, seq<nat>))
    ensures r.0 <= count
    ensures room == [] ==> r.0 == count && r.1 == []
    ensures room != [] ==> r.0 == Min(room[0], count) && r.1 == room[1..]
  {
    if room == [] then (count, []) else (Min(room[0], count), room[1..])
  }

  /** Why the receive loop ended. */
  datatype StopReason =
    | FoundNewline    // `strchr` found a newline; the framed bytes were written
    | PeerClosed      // `recv` returned 0
    | RecvFailed      // `recv` returned -1
    | ShortWrite      // `fwrite` wrote fewer bytes than asked
    | Stopped         // `keep_running` read 0 at the loop test

  /** What the body of the receive loop does with one received chunk: what
      it appends, what it drops, what is left of the `fwrite` script, and
      the reason it breaks out of the loop, if it does. */
  datatype Written = Written(appended: seq<bv8>, dropped: seq<bv8>, room: seq<nat>,
                             stop: Option<StopReason>)

  /** Lines 169-182: look for the newline among the visible bytes, write
      through it and break, or write the whole chunk and go on; a short
      write breaks too. */
  function FrameChunk(chunk: seq<bv8>, room: seq<nat>): Written
  {
    var w := ToWrite(chunk);
    var write := WriteStep(room, |w|);
    if write.0 < |w| then Written(w[..write.0], chunk[write.0..], write.1, Some(ShortWrite))
    else if NewlineIndex(chunk).Some? then Written(w, chunk[|w|..], write.1, Some(FoundNewline))
    else Written(w, [], write.1, None)
  }

  /** Each byte of the chunk is appended or dropped, in order; a short
      write drops at least one byte, and a chunk the loop goes on after
      held no visible newline and was appended whole. */
  lemma FrameChunkConserves(chunk: seq<bv8>, room: seq<nat>)
    ensures var f := FrameChunk(chunk, room);
            chunk == f.appended + f.dropped &&
            (f.stop.None? ==> f.dropped == [] && NewlineIndex(chunk).None?) &&
            (f.stop == Some(ShortWrite) ==> f.dropped != []) &&
            (f.stop.Some? ==> f.stop == Some(ShortWrite) || f.stop == Some(FoundNewline))
  {
  }

  /** One pass of the receive loop's body after the flag test read 1: what
      it appends, what it receives but drops, what is left of the scripts,
      and the reason it breaks out of the loop, if it does. */
  datatype Pass = Pass(appended: seq<bv8>, dropped: seq<bv8>, inbox: seq<Event>,
                       room: seq<nat>, stop: Option<StopReason>)

  /** The body of the receive loop, lines 159-183: `recv` at most 1023
      bytes, break when it returns -1 or 0, frame and write the chunk. */
  function ReceivePass(inbox: seq<Event>, room: seq<nat>): (p: Pass)
    ensures p.stop.None? ==> |Stream(p.inbox)| < |Stream(inbox)|
  {
    var step := RecvStep(inbox, RECV_LIMIT);
    match step.0
    case RecvError => Pass([], [], step.1, room, Some(RecvFailed))
    case EndOfStream => Pass([], [], step.1, room, Some(PeerClosed))
    case Got(chunk) =>
      var f := FrameChunk(chunk, room);
      Pass(f.appended, f.dropped, step.1, f.room, f.stop)
  }

  /** Every byte one pass receives is either appended or dropped, in order,
      and a pass that does not end the loop drops nothing. */
  lemma ReceivePassConserves(inbox: seq<Event>, room: seq<nat>)
    ensures var p := ReceivePass(inbox, room);
            Stream(inbox) == p.appended + p.dropped + Stream(p.inbox) &&
            (p.stop.None? || p.stop == Some(PeerClosed) || p.stop == Some(RecvFailed) ==> p.dropped == [])
  {
    RecvStepEnds(inbox, RECV_LIMIT);
    var step := RecvStep(inbox, RECV_LIMIT);
    if step.0.Got? {
      FrameChunkConserves(step.0.bytes, room);
    }
  }

  /** How each way out of the loop body is marked: a framed append ends in
      the newline `strchr` found and holds no earlier one, a short write
      drops part of its chunk, a closed or failed `recv` consumes nothing. */
  lemma ReceivePassMarks(inbox: seq<Event>, room: seq<nat>)
    ensures var p := ReceivePass(inbox, room);
            p.stop != Some(Stopped) &&
            (p.stop == Some(FoundNewline) ==>
               p.appended != [] && p.appended[|p.appended| - 1] == NEWLINE &&
               NEWLINE !in Visible(p.appended[..|p.appended| - 1])) &&
            (p.stop == Some(ShortWrite) ==> p.dropped != []) &&
            (p.stop == Some(PeerClosed) ==> p.inbox == inbox && (inbox == [] || inbox[0].Close?)) &&
            (p.stop == Some(RecvFailed) ==> p.inbox == inbox && inbox != [] && inbox[0].Reset?)
  {
    RecvStepEnds(inbox, RECV_LIMIT);
    var step := RecvStep(inbox, RECV_LIMIT);
    if step.0.Got? {
      FramedWrite(step.0.bytes);
      FrameChunkConserves(step.0.bytes, room);
    }
  }

  /** When `strchr` finds a newline, the bytes handed to `fwrite` end in it
      and hold no visible newline before it. */
  lemma FramedWrite(chunk: seq<bv8>)
    ensures var w := ToWrite(chunk);
            NewlineIndex(chunk).Some? ==>
              w != [] && w[|w| - 1] == NEWLINE && NEWLINE !in Visible(w[..|w| - 1])
  {
    if NewlineIndex(chunk).Some? {
      var i := NewlineIndex(chunk).value;
      var w := ToWrite(chunk);
      NewlineIndexIsFirst(chunk);
      VisibleIsPrefix(chunk);
      assert w == chunk[..i + 1];
      assert w[i] == Visible(chunk)[i];
      assert w[..i] == chunk[..i];
      VisibleOfPrefix(chunk, i);
    }
  }

  /** Before the first zero byte, a prefix looks the same to `strchr` as
      the prefix of what `strchr` sees. */
  lemma {:induction false} VisibleOfPrefix(s: seq<bv8>, i: nat)
    requires i <= |s| && i <= |Visible(s)|
    ensures Visible(s[..i]) == Visible(s)[..i]
  {
    if i > 0 {
      assert s[..i][1..] == s[1..][..i - 1];
      VisibleOfPrefix(s[1..], i - 1);
    }
  }

  /** The result of the receive loop: the log as the loop leaves it, what
      was received but not written (the tail of the last chunk), what is
      left of the scripts, and why the loop ended. */
  datatype Receipt = Receipt(log: seq<bv8>, dropped: seq<bv8>, inbox: seq<Event>,
                             room: seq<nat>, signal: Signal, reason: StopReason)

  /** The receive loop, lines 157-186, run on the log `log`: the loop test
      reads `keep_running`, each pass of the body appends to the log, and a
      pass that breaks out ends the loop. */
  function ReceiveInto(log: seq<bv8>, inbox: seq<Event>, room: seq<nat>, signal: Signal): (r: Receipt)
    decreases |Stream(inbox)|
  {
    if !Running(signal) then Receipt(log, [], inbox, room, signal, Stopped)
    else
      var p := ReceivePass(inbox, room);
      if p.stop.Some? then Receipt(log + p.appended, p.dropped, p.inbox, p.room, Tick(signal), p.stop.value)
      else ReceiveInto(log + p.appended, p.inbox, p.room, Tick(signal))
  }

  /** One iteration of the receive loop on a received chunk: when `strchr`
      finds a newline, exactly the bytes through it are appended, the rest
      of the chunk is dropped and no further `recv` is made; otherwise the
      whole chunk, bytes after a zero byte included, is appended and
      receiving goes on. A short `fwrite` keeps what it wrote and ends the
      loop. */
  lemma ReceiveOneChunk(log: seq<bv8>, inbox: seq<Event>, room: seq<nat>, signal: Signal)
    requires Running(signal) && RecvStep(inbox, RECV_LIMIT).0.Got?
    ensures var chunk := RecvStep(inbox, RECV_LIMIT).0.bytes;
            var rest := RecvStep(inbox, RECV_LIMIT).1;
            var w := ToWrite(chunk);
            var write := WriteStep(room, |w|);
            var r := ReceiveInto(log, inbox, room, signal);
            (write.0 < |w| ==>
               r == Receipt(log + chunk[..write.0], chunk[write.0..], rest, write.1, Tick(signal), ShortWrite)) &&
            (write.0 == |w| ==>
               match NewlineIndex(chunk)
               case Some(i) =>
                 r == Receipt(log + chunk[..i + 1], chunk[i + 1..], rest, write.1, Tick(signal), FoundNewline)
               case None =>
                 r == ReceiveInto(log + chunk, rest, write.1, Tick(signal)))
  {
  }

  /** Every byte the peer sent before closing is, in order, either
      appended to the log, dropped from the last chunk, or still unread. */
  lemma {:induction false} ReceiveConservesStream(log: seq<bv8>, inbox: seq<Event>, room: seq<nat>, signal: Signal)
    ensures var r := ReceiveInto(log, inbox, room, signal);
            log + Stream(inbox) == r.log + r.dropped + Stream(r.inbox)
    decreases |Stream(inbox)|
  {
    if Running(signal) {
      var p := ReceivePass(inbox, room);
      ReceivePassConserves(inbox, room);
      var grown := log + p.appended;
      assert log + Stream(inbox) == grown + p.dropped + Stream(p.inbox);
      if p.stop.None? {
        ReceiveConservesStream(grown, p.inbox, p.room, Tick(signal));
      }
    }
  }

  /** The receive loop only appends to the log. */
  lemma {:induction false} ReceiveKeepsLog(log: seq<bv8>, inbox: seq<Event>, room: seq<nat>, signal: Signal)
    ensures log <= ReceiveInto(log, inbox, room, signal).log
    decreases |Stream(inbox)|
  {
    if Running(signal) {
      var p := ReceivePass(inbox, room);
      if p.stop.None? {
        ReceiveKeepsLog(log + p.appended, p.inbox, p.room, Tick(signal));
      }
    }
  }

  /** The loop ends for exactly the reasons the source gives, each with its
      own mark: a framed write ends in a newline, a short write drops part
      of its chunk, a closed or failed `recv` and a cleared flag drop
      nothing. */
  lemma {:induction false} ReceiveStops(log: seq<bv8>, inbox: seq<Event>, room: seq<nat>, signal: Signal)
    ensures var r := ReceiveInto(log, inbox, room, signal);
            (r.reason == FoundNewline ==> |r.log| > |log| && r.log[|r.log| - 1] == NEWLINE) &&
            (r.reason == ShortWrite ==> r.dropped != []) &&
            (r.reason in {PeerClosed, RecvFailed, Stopped} ==> r.dropped == []) &&
            (r.reason == Stopped ==> !Running(r.signal)) &&
            (r.reason == PeerClosed ==> r.inbox == [] || r.inbox[0].Close?) &&
            (r.reason == RecvFailed ==> r.inbox != [] && r.inbox[0].Reset?)
    decreases |Stream(inbox)|
  {
    if Running(signal) {
      var p := ReceivePass(inbox, room);
      ReceivePassMarks(inbox, room);
      if p.stop.None? {
        ReceiveStops(log + p.appended, p.inbox, p.room, Tick(signal));
        assert ReceiveInto(log, inbox, room, signal) == ReceiveInto(log + p.appended, p.inbox, p.room, Tick(signal));
      } else {
        var r := Receipt(log + p.appended, p.dropped, p.inbox, p.room, Tick(signal), p.stop.value);
        assert ReceiveInto(log, inbox, room, signal) == r;
        if r.reason == FoundNewline {
          assert r.log[|r.log| - 1] == p.appended[|p.appended| - 1];
        }
      }
    }
  }

  /** `r.log` is `log` followed by the peer's stream `s` through its first
      newline, or by the whole of `s` when it has none. */
  ghost predicate FramedAtFirstNewline(r: Receipt, log: seq<bv8>, s: seq<bv8>) {
    log <= r.log && r.log[|log|..] <= s &&
    (NEWLINE in s ==> r.reason == FoundNewline && |r.log| > |log| &&
                      r.log[|r.log| - 1] == NEWLINE &&
                      NEWLINE !in r.log[|log|..|r.log| - 1]) &&
    (NEWLINE !in s ==> r.log == log + s && r.reason in {PeerClosed, RecvFailed})
  }

  /** With no zero bytes in the stream, no short write and no signal, the
      framing does not depend on how the peer's bytes were split into
      chunks: the log receives the stream through its first newline, or
      the whole stream when it has none. */
  lemma {:induction false} FramingIgnoresChunking(log: seq<bv8>, inbox: seq<Event>)
    requires NUL !in Stream(inbox)
    ensures FramedAtFirstNewline(ReceiveInto(log, inbox, [], Never), log, Stream(inbox))
    decreases |Stream(inbox)|
  {
    var s := Stream(inbox);
    RecvStepEnds(inbox, RECV_LIMIT);
    var step := RecvStep(inbox, RECV_LIMIT);
    if step.0.Got? {
      var chunk := step.0.bytes;
      var tail := Stream(step.1);
      assert s == chunk + tail;
      assert NUL !in chunk by {
        forall j | 0 <= j < |chunk| ensures chunk[j] != NUL {
          assert chunk[j] == s[j];
        }
      }
      VisibleWithoutNul(chunk);
      NewlineIndexIsFirst(chunk);
      match NewlineIndex(chunk)
      case Some(i) =>
        var r := ReceiveInto(log, inbox, [], Never);
        assert ToWrite(chunk) == chunk[..i + 1];
        assert r.log == log + chunk[..i + 1] && r.reason == FoundNewline;
        NewlineChunk(r, log, chunk, i, tail);
      case None =>
        assert NUL !in tail by {
          forall j | 0 <= j < |tail| ensures tail[j] != NUL {
            assert tail[j] == s[|chunk| + j];
          }
        }
        FramingIgnoresChunking(log + chunk, step.1);
        assert ToWrite(chunk) == chunk;
        assert ReceiveInto(log, inbox, [], Never) == ReceiveInto(log + chunk, step.1, [], Never);
        PlainChunk(ReceiveInto(log, inbox, [], Never), log, chunk, tail);
    }
  }

  /** The case of `FramingIgnoresChunking` where the first chunk holds the
      newline: the log takes the chunk through it. */
  lemma NewlineChunk(r: Receipt, log: seq<bv8>, chunk: seq<bv8>, i: nat, tail: seq<bv8>)
    requires i < |chunk| && chunk[i] == NEWLINE && NEWLINE !in chunk[..i]
    requires r.log == log + chunk[..i + 1] && r.reason == FoundNewline
    ensures FramedAtFirstNewline(r, log, chunk + tail)
  {
  }

  /** The case of `FramingIgnoresChunking` where the first chunk has no
      newline: the log takes the whole chunk and the rest of the stream is
      framed after it. */
  lemma PlainChunk(r: Receipt, log: seq<bv8>, chunk: seq<bv8>, tail: seq<bv8>)
    requires NEWLINE !in chunk
    requires FramedAtFirstNewline(r, log + chunk, tail)
    ensures FramedAtFirstNewline(r, log, chunk + tail)
  {
  }

  /** A chunk without zero bytes is all visible to `strchr`. */
  lemma {:induction false} VisibleWithoutNul(s: seq<bv8>)
    requires NUL !in s
    ensures Visible(s) == s
  {
    if s != [] {
      assert NUL !in s[1..];
      VisibleWithoutNul(s[1..]);
    }
  }

  /** The bytes of the log that one `fread(sendbuf, 1, 1024, fp2)` returns
      when the file position is `pos`: the next 1024 bytes, fewer at the
      end of the file, none at its end. */
  function Chunk(log: seq<bv8>, pos: nat): (c: seq<bv8>)
    requires pos <= |log|
    ensures |c| == Min(BUFFER_SIZE, |log| - pos)
    ensures pos + |c| <= |log| && c == log[pos..pos + |c|]
  {
    log[pos..Min(pos + BUFFER_SIZE, |log|)]
  }

  /** The inner send loop's result: how far into the chunk `total_sent`
      got, what is left of the send script, and everything the client has
      been sent. */
  datatype Sending = Sending(total: nat, window: seq<SendEvent>, delivered: seq<bv8>)

  /** The inner send loop, lines 202-210, from `total_sent == total`, with
      the client having been sent `delivered` so far. */
  function SendChunk(chunk: seq<bv8>, total: nat, window: seq<SendEvent>, delivered: seq<bv8>): (s: Sending)
    requires total <= |chunk|
    decreases |chunk| - total
  {
    if total == |chunk| then Sending(total, window, delivered)
    else
      var step := SendStep(window, |chunk| - total);
      if step.0 == -1 then Sending(total, step.1, delivered)
      else SendChunk(chunk, total + step.0, step.1, delivered + chunk[total..total + step.0])
  }

  /** The inner loop sends the chunk from `total` on, in order, up to where
      it stops; it stops short of the end only on a `send` error. */
  lemma {:induction false} SendChunkSendsPrefix(chunk: seq<bv8>, total: nat, window: seq<SendEvent>, delivered: seq<bv8>)
    requires total <= |chunk|
    ensures var s := SendChunk(chunk, total, window, delivered);
            total <= s.total <= |chunk| &&
            s.delivered == delivered + chunk[total..s.total] &&
            (s.total < |chunk| ==> Refuse in window)
    decreases |chunk| - total
  {
    if total < |chunk| {
      var step := SendStep(window, |chunk| - total);
      if step.0 != -1 {
        SendChunkSendsPrefix(chunk, total + step.0, step.1, delivered + chunk[total..total + step.0]);
        var s := SendChunk(chunk, total, window, delivered);
        assert chunk[total..s.total] == chunk[total..total + step.0] + chunk[total + step.0..s.total];
        if s.total < |chunk| {
          assert window != [] && window[1..] == step.1 && Refuse in step.1;
        }
      }
    }
  }

  /** Every `send` call of the script succeeds. */
  predicate NoSendErrors(window: seq<SendEvent>) {
    forall i :: 0 <= i < |window| ==> window[i].Accept?
  }

  /** With no `send` error the inner loop ends with `total_sent == bytes_read`:
      the whole chunk is sent, and what is left of the script still has no
      error. */
  lemma {:induction false} SendChunkWhole(chunk: seq<bv8>, total: nat, window: seq<SendEvent>, delivered: seq<bv8>)
    requires total <= |chunk| && NoSendErrors(window)
    ensures var s := SendChunk(chunk, total, window, delivered);
            s.total == |chunk| && s.delivered == delivered + chunk[total..] && NoSendErrors(s.window)
    decreases |chunk| - total
  {
    if total < |chunk| {
      var step := SendStep(window, |chunk| - total);
      var d := delivered + chunk[total..total + step.0];
      SendChunkWhole(chunk, total + step.0, step.1, d);
      assert chunk[total..] == chunk[total..total + step.0] + chunk[total + step.0..];
    }
  }

  /** The echo's result: everything the client has been sent and what is
      left of the send script. */
  datatype Echo = Echo(delivered: seq<bv8>, window: seq<SendEvent>)

  /** The read loop of the echo, lines 201-211, with the file position at
      `pos` and the client having been sent `delivered` so far. */
  function EchoFrom(log: seq<bv8>, pos: nat, window: seq<SendEvent>, delivered: seq<bv8>): (e: Echo)
    requires pos <= |log|
    decreases |log| - pos
  {
    var c := Chunk(log, pos);
    if c == [] then Echo(delivered, window)
    else
      var s := SendChunk(c, 0, window, delivered);
      EchoFrom(log, pos + |c|, s.window, s.delivered)
  }

  /** `sent` is, in order, a prefix of each `fread` chunk of the log from
      `pos` on. */
  ghost predicate ChunkPrefixes(sent: seq<bv8>, log: seq<bv8>, pos: nat)
    requires pos <= |log|
    decreases |log| - pos
  {
    var c := Chunk(log, pos);
    if c == [] then sent == []
    else exists k: nat :: k <= |c| && k <= |sent| && sent[..k] == c[..k] &&
                          ChunkPrefixes(sent[k..], log, pos + |c|)
  }

  /** The client is only ever sent bytes of the log, in order: a prefix of
      each 1024-byte chunk, and never more than the log holds. That every
      chunk goes out whole when no `send` fails is `EchoSendsWholeLog`. */
  lemma {:induction false} EchoSendsOnlyLog(log: seq<bv8>, pos: nat, window: seq<SendEvent>, delivered: seq<bv8>)
    requires pos <= |log|
    ensures var e := EchoFrom(log, pos, window, delivered);
            delivered <= e.delivered && ChunkPrefixes(e.delivered[|delivered|..], log, pos) &&
            |e.delivered| <= |delivered| + |log| - pos
    decreases |log| - pos
  {
    var c := Chunk(log, pos);
    if c != [] {
      var s := SendChunk(c, 0, window, delivered);
      SendChunkSendsPrefix(c, 0, window, delivered);
      EchoSendsOnlyLog(log, pos + |c|, s.window, s.delivered);
      var e := EchoFrom(log, pos + |c|, s.window, s.delivered);
      assert EchoFrom(log, pos, window, delivered) == e;
      var sent := e.delivered[|delivered|..];
      assert sent[..s.total] == c[..s.total];
      assert sent[s.total..] == e.delivered[|s.delivered|..];
      ChunkPrefixesStep(sent, log, pos, s.total);
    } else {
      assert EchoFrom(log, pos, window, delivered).delivered[|delivered|..] == [];
    }
  }

  /** A prefix of the next chunk followed by prefixes of the chunks after it. */
  lemma ChunkPrefixesStep(sent: seq<bv8>, log: seq<bv8>, pos: nat, k: nat)
    requires pos < |log| && k <= |Chunk(log, pos)| && k <= |sent|
    requires sent[..k] == Chunk(log, pos)[..k]
    requires ChunkPrefixes(sent[k..], log, pos + |Chunk(log, pos)|)
    ensures ChunkPrefixes(sent, log, pos)
  {
  }

  /** With no `send` error the client receives the entire log from offset
      `pos`, in order, however `fread` and `send` split it. */
  lemma {:induction false} EchoSendsWholeLog(log: seq<bv8>, pos: nat, window: seq<SendEvent>, delivered: seq<bv8>)
    requires pos <= |log| && NoSendErrors(window)
    ensures EchoFrom(log, pos, window, delivered).delivered == delivered + log[pos..]
    decreases |log| - pos
  {
    var c := Chunk(log, pos);
    if c != [] {
      SendChunkWhole(c, 0, window, delivered);
      var s := SendChunk(c, 0, window, delivered);
      EchoSendsWholeLog(log, pos + |c|, s.window, s.delivered);
      assert log[pos..] == c + log[pos + |c|..];
    }
  }

  /** A `send` error abandons only the rest of its own chunk: the read loop
      goes on with the next chunk, so if no later `send` fails the client
      still receives the whole log from the next chunk on. */
  lemma SendErrorLosesOnlyItsChunk(log: seq<bv8>, pos: nat, window: seq<SendEvent>, delivered: seq<bv8>)
    requires pos < |log|
    requires var s := SendChunk(Chunk(log, pos), 0, window, delivered);
             s.total < |Chunk(log, pos)| && NoSendErrors(s.window)
    ensures var c := Chunk(log, pos);
            var s := SendChunk(c, 0, window, delivered);
            EchoFrom(log, pos, window, delivered).delivered == delivered + c[..s.total] + log[pos + |c|..]
  {
    var c := Chunk(log, pos);
    SendChunkSendsPrefix(c, 0, window, delivered);
    var s := SendChunk(c, 0, window, delivered);
    EchoSendsWholeLog(log, pos + |c|, s.window, s.delivered);
  }

  /** What one client does to the server, as the file system and the peer
      answer: whether each `fopen` succeeds, the room each `fwrite` finds,
      what the peer sends and how each `send` fares. */
  datatype Client = Client(inbox: seq<Event>, window: seq<SendEvent>,
                           appendOpens: bool, room: seq<nat>, readOpens: bool)

  /** The server after one connection: the log file, whether it exists, what
      the client was sent, the flag schedule, and whether an `fopen`
      failure ended the process. */
  datatype Visit = Visit(log: seq<bv8>, present: bool, reply: seq<bv8>, signal: Signal, fatal: bool)

  /** One iteration of the accept loop after the accept: lines 143-214.
      `fopen(..., "a+")` creates a missing log empty. When the receive loop
      ends because the flag read 0, the handler has just removed the log,
      so the `fopen(..., "r")` at line 191 fails and the process exits. */
  function Handle(log: seq<bv8>, present: bool, c: Client, signal: Signal): (v: Visit)
    ensures v.fatal ==> v.reply == []
    ensures !v.fatal ==> v.present
  {
    if !c.appendOpens then Visit(log, present, [], signal, true)
    else
      var r := ReceiveInto(if present then log else [], c.inbox, c.room, signal);
      if r.reason == Stopped then Visit([], false, [], r.signal, true)
      else if !c.readOpens then Visit(r.log, true, [], r.signal, true)
      else Visit(r.log, true, EchoFrom(r.log, 0, c.window, []).delivered, r.signal, false)
  }

  /** A client on which both `fopen` calls and every `send` succeed. */
  predicate WellServed(c: Client) {
    c.appendOpens && c.readOpens && NoSendErrors(c.window)
  }

  /** For a well-served client the reply is the entire log as it stands
      after this client's bytes were appended: everything earlier clients
      left, then this client's bytes. Only a signal during the receive loop
      ends the process instead: the log is then gone and nothing is sent. */
  lemma HandleRepliesWholeLog(log: seq<bv8>, present: bool, c: Client, signal: Signal)
    requires WellServed(c) && (!present ==> log == [])
    ensures var r := ReceiveInto(log, c.inbox, c.room, signal);
            var v := Handle(log, present, c, signal);
            log <= r.log &&
            (r.reason == Stopped ==> v == Visit([], false, [], r.signal, true)) &&
            (r.reason != Stopped ==> !v.fatal && v.present && v.log == r.log && v.reply == v.log)
  {
    assert (if present then log else []) == log;
    var r := ReceiveInto(log, c.inbox, c.room, signal);
    ReceiveKeepsLog(log, c.inbox, c.room, signal);
    EchoSendsWholeLog(r.log, 0, c.window, []);
  }

  /** How the process ends: `return 0` after the loop, `exit(-1)` after a
      failed `fopen`, or still blocked in `accept` when the clients run out. */
  datatype Outcome = Finished | Aborted | AcceptPending

  datatype Run = Run(outcome: Outcome, log: seq<bv8>, present: bool, replies: seq<seq<bv8>>)

  /** The accept loop, lines 118-219, with `replies` what the clients
      served so far were sent: connections are handled strictly one after
      another while the flag reads 1; when it reads 0 the log is removed. */
  function Serve(log: seq<bv8>, present: bool, clients: seq<Client>, signal: Signal,
                 replies: seq<seq<bv8>>): Run
    decreases |clients|
  {
    if !Running(signal) then Run(Finished, [], false, replies)
    else if clients == [] then Run(AcceptPending, log, present, replies)
    else
      var v := Handle(log, present, clients[0], Tick(signal));
      if v.fatal then Run(Aborted, v.log, v.present, replies + [v.reply])
      else Serve(v.log, v.present, clients[1..], v.signal, replies + [v.reply])
  }

  /** A missing log file holds nothing: `fopen(..., "a+")` creates it empty
      and `unlink` empties it. */
  predicate OnDisk(log: seq<bv8>, present: bool) {
    !present ==> log == []
  }

  /** While the log file exists it keeps every earlier byte; it disappears
      only when the flag drops, and then the loop ends or the next `fopen`
      fails. Each accepted client adds one reply. */
  lemma {:induction false} ServeLogOnlyGrows(log: seq<bv8>, present: bool, clients: seq<Client>,
                                             signal: Signal, replies: seq<seq<bv8>>)
    requires OnDisk(log, present)
    ensures var r := Serve(log, present, clients, signal, replies);
            (r.outcome == Finished ==> r.log == [] && !r.present) &&
            OnDisk(r.log, r.present) && (r.present ==> log <= r.log) &&
            (r.outcome == AcceptPending && present ==> r.present) &&
            replies <= r.replies && |r.replies| <= |replies| + |clients| &&
            (r.outcome == AcceptPending ==> |r.replies| == |replies| + |clients|)
    decreases |clients|
  {
    if Running(signal) && clients != [] {
      var v := Handle(log, present, clients[0], Tick(signal));
      assert (if present then log else []) == log;
      if clients[0].appendOpens {
        ReceiveKeepsLog(log, clients[0].inbox, clients[0].room, Tick(signal));
      }
      if !v.fatal {
        ServeLogOnlyGrows(v.log, v.present, clients[1..], v.signal, replies + [v.reply]);
      }
    }
  }

  /** Each reply extends the one before it, and the last one is the log. */
  ghost predicate Chained(replies: seq<seq<bv8>>, log: seq<bv8>) {
    (forall i :: 0 <= i < |replies| - 1 ==> replies[i] <= replies[i + 1]) &&
    (replies != [] ==> replies[|replies| - 1] == log)
  }

  /** When every client is well served, the only abort is a signal during
      a receive loop: that client is sent nothing and the log is gone. */
  lemma {:induction false} OnlySignalAborts(log: seq<bv8>, present: bool, clients: seq<Client>,
                                            signal: Signal, replies: seq<seq<bv8>>)
    requires forall i :: 0 <= i < |clients| ==> WellServed(clients[i])
    ensures var r := Serve(log, present, clients, signal, replies);
            r.outcome == Aborted ==>
              |replies| < |r.replies| && r.replies[|r.replies| - 1] == [] && r.log == [] && !r.present
    decreases |clients|
  {
    if Running(signal) && clients != [] {
      var v := Handle(log, present, clients[0], Tick(signal));
      if v.fatal {
        assert WellServed(clients[0]);
        assert v.log == [] && !v.present && v.reply == [];
        var r := Run(Aborted, [], false, replies + [[]]);
        assert Serve(log, present, clients, signal, replies) == r;
        assert r.replies[|r.replies| - 1] == [];
      } else {
        OnlySignalAborts(v.log, v.present, clients[1..], v.signal, replies + [v.reply]);
        assert Serve(log, present, clients, signal, replies) ==
               Serve(v.log, v.present, clients[1..], v.signal, replies + [v.reply]);
      }
    }
  }

  /** When every client is well served, each reply is the whole log as it
      stood after that client's bytes were appended, and each later reply
      extends the earlier one: the log is shared, persistent and
      append-only. A client aborted by a signal is left out of the chain. */
  lemma {:induction false} RepliesExtendEachOther(log: seq<bv8>, present: bool, clients: seq<Client>,
                                                  signal: Signal, replies: seq<seq<bv8>>)
    requires forall i :: 0 <= i < |clients| ==> WellServed(clients[i])
    requires OnDisk(log, present) && Chained(replies, log)
    ensures var r := Serve(log, present, clients, signal, replies);
            var n := if r.outcome == Aborted then |r.replies| - 1 else |r.replies|;
            (forall i :: 0 <= i < n - 1 ==> r.replies[i] <= r.replies[i + 1]) &&
            (forall i :: |replies| <= i < n ==> log <= r.replies[i]) &&
            (r.outcome == AcceptPending ==> Chained(r.replies, r.log))
    decreases |clients|
  {
    if Running(signal) && clients != [] {
      HandleRepliesWholeLog(log, present, clients[0], Tick(signal));
      var v := Handle(log, present, clients[0], Tick(signal));
      var replies' := replies + [v.reply];
      if v.fatal {
        assert Serve(log, present, clients, signal, replies) == Run(Aborted, [], false, replies');
        ChainedAppend(replies, log, []);
      } else {
        ChainedAppend(replies, log, v.log);
        RepliesExtendEachOther(v.log, v.present, clients[1..], v.signal, replies');
        var r := Serve(v.log, v.present, clients[1..], v.signal, replies');
        ServeLogOnlyGrows(v.log, v.present, clients[1..], v.signal, replies');
        assert Serve(log, present, clients, signal, replies) == r;
        var n := if r.outcome == Aborted then |r.replies| - 1 else |r.replies|;
        assert r.replies[|replies|] == v.reply by {
          assert replies' <= r.replies;
        }
        forall i | |replies| <= i < n ensures log <= r.replies[i] {
          if i > |replies| {
            assert v.log <= r.replies[i];
          }
        }
      }
    }
  }

  /** Appending a reply keeps the earlier replies chained, and when the
      new reply extends the log it is chained after them. */
  lemma ChainedAppend(replies: seq<seq<bv8>>, log: seq<bv8>, reply: seq<bv8>)
    requires Chained(replies, log)
    ensures var r := replies + [reply];
            (forall i :: 0 <= i < |replies| - 1 ==> r[i] <= r[i + 1]) &&
            (log <= reply ==> Chained(r, reply))
  {
    var r := replies + [reply];
    forall i | 0 <= i < |r| - 1 ensures i < |replies| - 1 || log <= reply ==> r[i] <= r[i + 1] {
      if i < |replies| - 1 {
        assert r[i] == replies[i] && r[i + 1] == replies[i + 1];
      }
    }
  }
}
