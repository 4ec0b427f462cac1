/** Two concrete sessions worked through the reference model. */
module Scenarios {
  import opened Framing
  import opened Transport
  import opened Protocol

  const HELLO: seq<bv8> := [104, 101, 108, 108, 111, 10]   // "hello\n"
  const WORLD: seq<bv8> := [119, 111, 114, 108, 100, 10]   // "world\n"

  /** A client that sends one line and whose `fopen` and `send` calls all succeed. */
  function LineClient(line: Segment): Client {
    Client([Data(line)], [], true, [], true)
  }

  /** A segment that fits one `recv` and ends in its only newline, with no
      zero byte before it. */
  predicate IsLine(line: Segment) {
    |line| <= RECV_LIMIT && line[|line| - 1] == NEWLINE &&
    NUL !in line[..|line| - 1] && NEWLINE !in line[..|line| - 1]
  }

  lemma HelloAndWorldAreLines()
    ensures IsLine(HELLO) && IsLine(WORLD)
  {
  }

  /** A one-line segment ending in its only newline is framed whole, with
      one test of the flag. */
  lemma {:induction false} LineIsFramed(log: seq<bv8>, line: Segment, signal: Signal)
    requires Running(signal) && IsLine(line)
    ensures ReceiveInto(log, [Data(line)], [], signal) == Receipt(log + line, [], [], [], Tick(signal), FoundNewline)
  {
    var i := |line| - 1;
    forall j | 0 <= j < i ensures line[j] != NUL && line[j] != NEWLINE {
      assert line[j] == line[..i][j];
    }
    NewlineIndexAt(line, i);
    assert line[..i + 1] == line && line[i + 1..] == [];
    assert ToWrite(line) == line;
  }

  /** A well-served client sending one line is sent back the log with that
      line appended. */
  lemma {:induction false} LineIsEchoed(log: seq<bv8>, present: bool, line: Segment, signal: Signal)
    requires Running(signal) && IsLine(line) && OnDisk(log, present)
    ensures Handle(log, present, LineClient(line), signal) == Visit(log + line, true, log + line, Tick(signal), false)
  {
    LineIsFramed(log, line, signal);
    EchoSendsWholeLog(log + line, 0, [], []);
  }

  /** Serving a client that sends one line takes two tests of the flag
      (the accept loop's and the receive loop's) and adds the line to the
      log and the new log to the replies. */
  lemma {:induction false} ServeLine(log: seq<bv8>, present: bool, line: Segment, clients: seq<Client>,
                                     signal: Signal, replies: seq<seq<bv8>>,
                                     log': seq<bv8>, signal': Signal, replies': seq<seq<bv8>>)
    requires clients != [] && clients[0] == LineClient(line) && IsLine(line) && OnDisk(log, present)
    requires Running(signal) && Running(Tick(signal)) && signal' == Tick(Tick(signal))
    requires log' == log + line && replies' == replies + [log']
    ensures Serve(log, present, clients, signal, replies) == Serve(log', true, clients[1..], signal', replies')
  {
    LineIsEchoed(log, present, line, Tick(signal));
  }

  /** Two clients, each sending one line: the first is sent its line back,
      the second both lines. With no signal the server then waits in
      `accept` for a third client. */
  lemma {:induction false} TwoLines(a: Segment, b: Segment)
    requires IsLine(a) && IsLine(b)
    ensures Serve([], false, [LineClient(a), LineClient(b)], Never, [])
         == Run(AcceptPending, a + b, true, [a, a + b])
  {
    var clients := [LineClient(a), LineClient(b)];
    assert clients[1..][0] == LineClient(b) && clients[1..][1..] == [];
    assert [] + a == a && [] + [a] == [a] && [a] + [a + b] == [a, a + b];
    ServeLine([], false, a, clients, Never, [], a, Never, [a]);
    ServeLine(a, true, b, clients[1..], Never, [a], a + b, Never, [a, a + b]);
  }

  /** The same two clients when the flag drops after four tests (the accept
      loop's and the receive loop's for each client): both are served, the
      loop ends at its next test, the log is removed and the process
      returns 0. */
  lemma {:induction false} TwoLinesThenSignal(a: Segment, b: Segment)
    requires IsLine(a) && IsLine(b)
    ensures Serve([], false, [LineClient(a), LineClient(b)], AfterTests(4), [])
         == Run(Finished, [], false, [a, a + b])
  {
    var clients := [LineClient(a), LineClient(b)];
    assert clients[1..][0] == LineClient(b) && clients[1..][1..] == [];
    assert [] + a == a && [] + [a] == [a] && [a] + [a + b] == [a, a + b];
    ServeLine([], false, a, clients, AfterTests(4), [], a, AfterTests(2), [a]);
    ServeLine(a, true, b, clients[1..], AfterTests(2), [a], a + b, AfterTests(0), [a, a + b]);
  }

  /** A first client sends "hello\n" and is sent "hello\n" back; a second
      sends "world\n" and is sent "hello\nworld\n": the log persists across
      connections. */
  lemma HelloWorld()
    ensures Serve([], false, [LineClient(HELLO), LineClient(WORLD)], Never, [])
         == Run(AcceptPending, HELLO + WORLD, true, [HELLO, HELLO + WORLD])
    ensures Serve([], false, [LineClient(HELLO), LineClient(WORLD)], AfterTests(4), [])
         == Run(Finished, [], false, [HELLO, HELLO + WORLD])
  {
    HelloAndWorldAreLines();
    TwoLines(HELLO, WORLD);
    TwoLinesThenSignal(HELLO, WORLD);
  }

  /** `strchr` stops at a zero byte: in "a\0b\nc" the newline is not seen,
      so the whole chunk is appended and the loop goes on receiving. */
  lemma NewlineAfterNulIsMissed()
    ensures NewlineIndex([97, 0, 98, 10, 99]) == None
    ensures FrameChunk([97, 0, 98, 10, 99], []) == Written([97, 0, 98, 10, 99], [], [], None)
  {
  }

  /** A line that arrives in two segments, "he" then "y\n", with the flag
      dropping after two tests: the accept loop's test and the receive
      loop's first test read 1 and "he" is appended, then the next test
      reads 0. The handler has just removed the log, so the second `fopen`
      fails and the process exits having sent nothing. */
  lemma SignalMidLineAborts()
    ensures Serve([], false, [Client([Data([104, 101]), Data([121, 10])], [], true, [], true)], AfterTests(2), [])
         == Run(Aborted, [], false, [[]])
  {
  }
}
