/** The client connection as the server sees it through `recv`, `send` and
    `close`. What the peer does is given up front as a script: the segments
    it sends and how it ends (for `recv`), and how much each `send` call may
    hand to the kernel (for `send`). */
module Transport {
  import opened Framing

  /** A nonempty run of bytes that arrives at once. */
  type Segment = s: seq<bv8> | |s| > 0 witness [0]

  /** What the server's `recv` calls find next: data, an orderly shutdown
      by the peer, or a connection error. */
  datatype Event = Data(bytes: Segment) | Close | Reset

  /** How many bytes a `send` call may hand to the kernel. */
  type Room = n: nat | n > 0 witness 1

  /** What one `send` call meets: room for some bytes, or an error. */
  datatype SendEvent = Accept(room: Room) | Refuse

  /** What one `recv` call returns: some bytes (a positive count), 0 or -1. */
  datatype RecvResult = Got(bytes: seq<bv8>) | EndOfStream | RecvError

  /** The bytes the peer sends before it closes or resets the connection. */
  function Stream(inbox: seq<Event>): seq<bv8>
  {
    if inbox == [] then []
    else match inbox[0]
      case Data(b) => b + Stream(inbox[1..])
      case _ => []
  }

  /** One `recv(fd, buf, limit, 0)`: at most `limit` bytes of the pending
      segment, the rest stays queued. A script that has run out reads as a
      closed connection. */
  function RecvStep(inbox: seq<Event>, limit: nat): (r: (RecvResult, seq<Event>))
    requires limit > 0
    ensures r.0.Got? ==> 0 < |r.0.bytes| <= limit
    ensures r.0.Got? ==> Stream(inbox) == r.0.bytes + Stream(r.1)
    ensures !r.0.Got? ==> r.1 == inbox
  {
    if inbox == [] then (EndOfStream, inbox)
    else match inbox[0]
      case Close => (EndOfStream, inbox)
      case Reset => (RecvError, inbox)
      case Data(b) =>
        if |b| <= limit then
          (Got(b), inbox[1..])
        else
          var rest := [Data(b[limit..])] + inbox[1..];
          assert rest[1..] == inbox[1..];
          assert b == b[..limit] + b[limit..];
          (Got(b[..limit]), rest)
  }

  /** `recv` returns 0 exactly when the peer has closed (or the script has
      run out), -1 exactly on a reset, and a full segment when it fits. */
  lemma RecvStepEnds(inbox: seq<Event>, limit: nat)
    requires limit > 0
    ensures var r := RecvStep(inbox, limit);
            (r.0.EndOfStream? <==> inbox == [] || inbox[0].Close?) &&
            (r.0.RecvError? <==> inbox != [] && inbox[0].Reset?) &&
            (!r.0.Got? ==> Stream(inbox) == []) &&
            (r.0.Got? ==> |r.0.bytes| == limit || [Data(r.0.bytes)] + r.1 == inbox)
  {
  }

  /** One `send(fd, buf, len, 0)` with `len > 0`: -1, or a count from 1 to
      `len`. A script that has run out accepts everything. */
  function SendStep(window: seq<SendEvent>, len: nat): (r: (int, seq<SendEvent>))
    requires len > 0
    ensures r.0 == -1 <==> window != [] && window[0].Refuse?
    ensures r.0 != -1 ==> 0 < r.0 <= len
    ensures window == [] ==> r.0 == len && r.1 == []
    ensures window != [] ==> r.1 == window[1..]
  {
    if window == [] then (len as int, [])
    else match window[0]
      case Refuse => (-1, window[1..])
      case Accept(k) => (Min(k, len) as int, window[1..])
  }

  /** The connected socket `clientFD`. `delivered` is everything the client
      has been sent so far. */
  class Socket {
    var inbox: seq<Event>
    var window: seq<SendEvent>
    var delivered: seq<bv8>
    var open: bool

    /** The socket `accept` returns. */
    constructor (inbox: seq<Event>, window: seq<SendEvent>)
      ensures this.inbox == inbox && this.window == window
      ensures delivered == [] && open
    {
      this.inbox := inbox;
      this.window := window;
      delivered := [];
      open := true;
    }

    /** `recv(clientFD, buffer, len, 0)`: the received bytes land at the start
        of `buffer`, the rest of the buffer is left alone. */
    method Recv(buffer: array<bv8>, len: nat) returns (n: int)
      requires 0 < len <= buffer.Length
      modifies this`inbox, buffer
      ensures inbox == RecvStep(old(inbox), len).1
      ensures RecvStep(old(inbox), len).0.Got? ==>
                n == |RecvStep(old(inbox), len).0.bytes| &&
                buffer[..n] == RecvStep(old(inbox), len).0.bytes &&
                buffer[n..] == old(buffer[n..])
      ensures RecvStep(old(inbox), len).0.EndOfStream? ==> n == 0 && buffer[..] == old(buffer[..])
      ensures RecvStep(old(inbox), len).0.RecvError? ==> n == -1 && buffer[..] == old(buffer[..])
    {
      var step := RecvStep(inbox, len);
      inbox := step.1;
      match step.0
      case Got(b) =>
        forall i | 0 <= i < |b| {
          buffer[i] := b[i];
        }
        n := |b|;
      case EndOfStream =>
        n := 0;
      case RecvError =>
        n := -1;
    }

    /** `send(clientFD, buffer + offset, len, 0)`. */
    method Send(buffer: array<bv8>, offset: nat, len: nat) returns (n: int)
      requires 0 < len && offset + len <= buffer.Length
      modifies this`window, this`delivered
      ensures (n, window) == SendStep(old(window), len)
      ensures delivered == old(delivered) + (if n > 0 then buffer[offset..offset + n] else [])
    {
      var step := SendStep(window, len);
      n, window := step.0, step.1;
      if n > 0 {
        delivered := delivered + buffer[offset..offset + n];
      }
    }

    /** `close(clientFD)`. */
    method Close()
      modifies this`open
      ensures !open
    {
      open := false;
    }
  }
}
