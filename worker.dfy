/** NTRipClient.ResponseThreadLoop as a function of what the thread observes.
    The thread's flag, client.Available, Stream.Read and the Stream.Write of
    SendGGA are answered by an oracle (Env); each answer is consumed in the
    order the code asks for it. The functions here are the specification the
    imperative loop in module Ntrip is proved against. */
module Worker {
  import opened Ascii
  import Reply

  /** Size of the thread's receive buffer: no read asks for more. */
  const ReadBufferSize := 1024
  /** Number of streaming rounds between two GGA reports. */
  const GgaInterval := 30
  /** The message of the exception client.Available throws when there is no client. */
  const NullClientMessage := "Object reference not set to an instance of an object."

  const ResponseFailedPrefix := "Failed to get response: "
  const LoopFailedPrefix := "Response loop failed: "

  /** A call that returns a value or throws an exception with a message. */
  datatype Answer<T> = Returns(value: T) | Throws(message: string)

  /** The thread's environment: the flag threadRunning reads true at the
      first `running` tests and false afterwards; client.Available,
      Stream.Read and Stream.Write answer in turn from their sequences, and
      once a sequence is used up Available returns 0, Read returns no bytes
      and Write succeeds. */
  datatype Env = Env(
    running: nat,
    available: seq<Answer<nat>>,
    received: seq<Answer<seq<byte>>>,
    writes: seq<Option<string>>)

  /** How many answers of each kind have been consumed: flag tests,
      Available polls, Read calls and Write calls. */
  datatype Cursor = Cursor(checks: nat, polls: nat, receives: nat, writes: nat)

  const Start := Cursor(0, 0, 0, 0)

  function AvailableAt(env: Env, i: nat): Answer<nat>
  {
    if i < |env.available| then env.available[i] else Returns(0)
  }

  function ReadAt(env: Env, i: nat): Answer<seq<byte>>
  {
    if i < |env.received| then env.received[i] else Returns([])
  }

  function WriteAt(env: Env, i: nat): Option<string>
  {
    if i < |env.writes| then env.writes[i] else None
  }

  function Min(a: int, b: int): (m: int)
    ensures m <= a && m <= b && (m == a || m == b)
  {
    if a <= b then a else b
  }

  /** Stream.Read(buf, 0, toRead) when the transport offers data: the bytes
      stored are a prefix of what is offered, and never more than asked for. */
  function Received(data: seq<byte>, toRead: nat): (chunk: seq<byte>)
    ensures |chunk| <= toRead && chunk <= data
    ensures |chunk| == toRead || chunk == data
  {
    data[..Min(|data|, toRead)]
  }

  /** The part of the client's state the thread changes: _status, _err,
      total_read, the bytes written to the stream and the chunks handed to
      the data sink. */
  datatype Effects = Effects(
    status: int,
    err: string,
    totalRead: int,
    wire: seq<seq<byte>>,
    sunk: seq<seq<byte>>)

  /** The bytes SendGGA writes: Encoding.ASCII.GetBytes(latestGGA + "\r\n"). */
  function GgaBytes(gga: string): seq<byte>
  {
    AsciiBytes(gga + "\r\n")
  }

  /** Sum of the lengths of a sequence of chunks. */
  function TotalLength(chunks: seq<seq<byte>>): nat
  {
    if chunks == [] then 0 else TotalLength(chunks[..|chunks| - 1]) + |chunks[|chunks| - 1]|
  }

  lemma TotalLengthAppend(chunks: seq<seq<byte>>, c: seq<byte>)
    ensures TotalLength(chunks + [c]) == TotalLength(chunks) + |c|
  {
    assert (chunks + [c])[..|chunks|] == chunks;
  }

  lemma {:induction false} TotalLengthConcat(a: seq<seq<byte>>, b: seq<seq<byte>>)
    ensures TotalLength(a + b) == TotalLength(a) + TotalLength(b)
    decreases |b|
  {
    if b == [] {
      assert a + b == a;
    } else {
      var b' := b[..|b| - 1];
      assert a + b == (a + b') + [b[|b| - 1]];
      assert b == b' + [b[|b| - 1]];
      TotalLengthConcat(a, b');
      TotalLengthAppend(a + b', b[|b| - 1]);
      TotalLengthAppend(b', b[|b| - 1]);
    }
  }

  /** A Stream.Read the thread made: the index of the client.Available call
      whose answer sized it (the second one of its pass) and the index of
      the read itself. */
  datatype Reading = Reading(poll: nat, read: nat)

  /** The bytes a reading left in buf: what the transport offered, cut to
      Math.Min(client.Available, 1024). */
  function ChunkAt(env: Env, r: Reading): (chunk: seq<byte>)
    ensures |chunk| <= ReadBufferSize
  {
    match (AvailableAt(env, r.poll), ReadAt(env, r.read))
    case (Returns(n), Returns(data)) => Received(data, Min(n, ReadBufferSize))
    case _ => []
  }

  /** The non-empty chunks of a run of readings, in the order they were
      read: an empty read is passed over by both loops of the thread. */
  function Chunks(env: Env, log: seq<Reading>): seq<seq<byte>>
  {
    if log == [] then []
    else (if |ChunkAt(env, log[0])| > 0 then [ChunkAt(env, log[0])] else []) + Chunks(env, log[1..])
  }

  lemma {:induction false} ChunksConcat(env: Env, a: seq<Reading>, b: seq<Reading>)
    ensures Chunks(env, a + b) == Chunks(env, a) + Chunks(env, b)
    decreases |a|
  {
    if a == [] {
      assert a + b == b;
    } else {
      assert (a + b)[1..] == a[1..] + b;
      ChunksConcat(env, a[1..], b);
    }
  }

  /** Every chunk the thread handles holds 1 to 1024 bytes. */
  lemma {:induction false} ChunksBounded(env: Env, log: seq<Reading>)
    ensures forall k :: 0 <= k < |Chunks(env, log)| ==> 1 <= |Chunks(env, log)[k]| <= ReadBufferSize
    decreases |log|
  {
    if log != [] {
      ChunksBounded(env, log[1..]);
    }
  }

  /** client.Available answers 0 at every poll from `from` up to `to`. */
  predicate Quiet(env: Env, from: nat, to: nat)
  {
    forall p :: from <= p < to ==> AvailableAt(env, p) == Returns(0)
  }

  lemma QuietJoin(env: Env, x: nat, y: nat, z: nat)
    requires Quiet(env, x, y) && Quiet(env, y, z)
    ensures Quiet(env, x, z)
  {
  }

  /** The reads made between cursors c and c': every Stream.Read in
      between, in order. Each read belongs to a pass that opened with a
      positive client.Available, every poll before that one, back to the
      previous read or to c, having answered 0; the next Available sized
      it, and both answered. Only a last read may have thrown instead of
      answering. Given the transport's answers, the log is unique. */
  predicate Readings(env: Env, c: Cursor, c': Cursor, log: seq<Reading>)
    decreases |log|
  {
    if log == [] then
      && c.polls <= c'.polls
      && (c'.receives == c.receives || (c'.receives == c.receives + 1 && ReadAt(env, c.receives).Throws?))
    else
      var r := log[0];
      && r.read == c.receives && c.polls < r.poll
      && Quiet(env, c.polls, r.poll - 1)
      && AvailableAt(env, r.poll - 1).Returns? && AvailableAt(env, r.poll - 1).value > 0
      && AvailableAt(env, r.poll).Returns? && ReadAt(env, r.read).Returns?
      && Readings(env, Cursor(0, r.poll + 1, c.receives + 1, 0), c', log[1..])
  }

  /** After the last read of log, every poll up to c' answered 0: the loops
      ended without an exception. */
  predicate Settled(env: Env, c: Cursor, c': Cursor, log: seq<Reading>)
  {
    Quiet(env, if log == [] then c.polls else log[|log| - 1].poll + 1, c'.polls)
  }

  /** The transport's answers fix the log: two logs of the same length that
      both meet Readings from c are the same log, so each read's chunk is
      sized by the one poll the loops use for it. */
  lemma {:induction false} ReadingsUnique(env: Env, c: Cursor, c1: Cursor, c2: Cursor, a: seq<Reading>, b: seq<Reading>)
    requires Readings(env, c, c1, a) && Readings(env, c, c2, b) && |a| == |b|
    ensures a == b
    decreases |a|
  {
    if a != [] {
      assert a[0] == b[0];
      ReadingsUnique(env, Cursor(0, a[0].poll + 1, c.receives + 1, 0), c1, c2, a[1..], b[1..]);
      assert a == [a[0]] + a[1..] && b == [b[0]] + b[1..];
    }
  }

  /** Two runs of reads, the first ended without an exception, make one. */
  lemma {:induction false} ReadingsTrans(env: Env, c1: Cursor, c2: Cursor, c3: Cursor, a: seq<Reading>, b: seq<Reading>)
    requires Readings(env, c1, c2, a) && Readings(env, c2, c3, b)
    requires c2.receives == c1.receives + |a| && Settled(env, c1, c2, a)
    ensures Readings(env, c1, c3, a + b)
    decreases |a|
  {
    if a == [] {
      assert a + b == b;
      if b != [] {
        QuietJoin(env, c1.polls, c2.polls, b[0].poll - 1);
      }
    } else {
      var c1' := Cursor(0, a[0].poll + 1, c1.receives + 1, 0);
      assert (a + b)[0] == a[0] && (a + b)[1..] == a[1..] + b;
      assert Settled(env, c1', c2, a[1..]) by {
        assert a[1..] != [] ==> a[1..][|a[1..]| - 1] == a[|a| - 1];
      }
      ReadingsTrans(env, c1', c2, c3, a[1..], b);
    }
  }

  /** Two runs of reads that both ended without an exception. */
  lemma SettledTrans(env: Env, c1: Cursor, c2: Cursor, c3: Cursor, a: seq<Reading>, b: seq<Reading>)
    requires Settled(env, c1, c2, a) && Settled(env, c2, c3, b)
    ensures Settled(env, c1, c3, a + b)
  {
    if b == [] {
      assert a + b == a;
      QuietJoin(env, if a == [] then c1.polls else a[|a| - 1].poll + 1, c2.polls, c3.polls);
    } else {
      assert (a + b)[|a + b| - 1] == b[|b| - 1];
    }
  }

  /** What the drain and streaming loops do with the reads in log: the sink
      gets their non-empty chunks appended in read order, total_read grows
      by exactly their size, and nothing else is handed on. */
  predicate Forwarded(env: Env, log: seq<Reading>, e: Effects, e': Effects)
  {
    && e'.sunk == e.sunk + Chunks(env, log)
    && e'.totalRead == e.totalRead + TotalLength(Chunks(env, log))
  }

  lemma ForwardedTrans(env: Env, a: seq<Reading>, b: seq<Reading>, e1: Effects, e2: Effects, e3: Effects)
    requires Forwarded(env, a, e1, e2) && Forwarded(env, b, e2, e3)
    ensures Forwarded(env, a + b, e1, e3)
  {
    var ca, cb := Chunks(env, a), Chunks(env, b);
    assert Chunks(env, a + b) == ca + cb by {
      ChunksConcat(env, a, b);
    }
    assert e3.sunk == e1.sunk + (ca + cb) by {
      assert e3.sunk == e1.sunk + ca + cb;
    }
    assert e3.totalRead == e1.totalRead + TotalLength(ca + cb) by {
      TotalLengthConcat(ca, cb);
    }
  }

  /** One reading: its chunk is forwarded when it is not empty. */
  lemma ForwardedOne(env: Env, r: Reading, e: Effects)
    ensures var chunk := ChunkAt(env, r);
      Forwarded(env, [r], e, if |chunk| > 0 then e.(totalRead := e.totalRead + |chunk|, sunk := e.sunk + [chunk]) else e)
  {
    assert [r][1..] == [];
    TotalLengthAppend([], ChunkAt(env, r));
    assert [] + [ChunkAt(env, r)] == [ChunkAt(env, r)];
  }

  /** The handshake loop ends because the flag went down, because a call
      threw, or with the first non-empty chunk read. */
  datatype Greeting = Stopped(at: Cursor) | Failed(message: string) | Replied(reply: seq<byte>, at: Cursor)

  /** The first try block of ResponseThreadLoop, from cursor c. */
  function HandshakeFrom(env: Env, client: bool, c: Cursor): (g: Greeting)
    ensures g.Replied? ==> 1 <= |g.reply| <= ReadBufferSize
    ensures g.Stopped? ==> g.at.checks >= env.running
    ensures g.Replied? || g.Stopped? ==> g.at.receives >= c.receives && g.at.polls >= c.polls && g.at.writes == c.writes
    decreases env.running - c.checks
  {
    if c.checks >= env.running then Stopped(c)
    else if !client then Failed(NullClientMessage)
    else
      match AvailableAt(env, c.polls)
      case Throws(m) => Failed(m)
      case Returns(n) =>
        if n == 0 then HandshakeFrom(env, client, c.(checks := c.checks + 1, polls := c.polls + 1))
        else
          match AvailableAt(env, c.polls + 1)
          case Throws(m) => Failed(m)
          case Returns(n2) =>
            match ReadAt(env, c.receives)
            case Throws(m) => Failed(m)
            case Returns(data) =>
              var chunk := Received(data, Min(n2, ReadBufferSize));
              var next := c.(checks := c.checks + 1, polls := c.polls + 2, receives := c.receives + 1);
              if |chunk| > 0 then Replied(chunk, next) else HandshakeFrom(env, client, next)
  }

  /** What the reads of the handshake from c came to, for its outcome g:
      when it ended with the flag down, every read stored nothing; when it
      ended with a reply, the reply is what the last read stored and every
      read before it stored nothing. */
  predicate Greeted(env: Env, c: Cursor, g: Greeting, log: seq<Reading>)
  {
    && ((g.Stopped? || g.Replied?) ==>
          Readings(env, c, g.at, log) && Settled(env, c, g.at, log) && g.at.receives == c.receives + |log|)
    && (g.Stopped? ==> Chunks(env, log) == [])
    && (g.Replied? ==>
          && |log| > 0 && log[|log| - 1].read == g.at.receives - 1
          && ChunkAt(env, log[|log| - 1]) == g.reply
          && Chunks(env, log[..|log| - 1]) == [] && Chunks(env, log) == [g.reply])
  }

  /** Polls that read nothing, in front of the rest of the handshake. */
  lemma GreetedAfterPoll(env: Env, c: Cursor, next: Cursor, g: Greeting, log: seq<Reading>)
    requires c.polls <= next.polls && next.receives == c.receives && Quiet(env, c.polls, next.polls)
    requires Greeted(env, next, g, log)
    ensures Greeted(env, c, g, log)
  {
    if g.Stopped? || g.Replied? {
      ReadingsTrans(env, c, next, g.at, [], log);
      SettledTrans(env, c, next, g.at, [], log);
      assert [] + log == log;
    }
  }

  /** A read that stored the reply. */
  lemma GreetedByRead(env: Env, c: Cursor, next: Cursor, x: Reading)
    requires Readings(env, c, next, [x]) && next.receives == c.receives + 1 && next.polls == x.poll + 1
    requires |ChunkAt(env, x)| > 0
    ensures Greeted(env, c, Replied(ChunkAt(env, x), next), [x])
  {
    assert [x][1..] == [] && [x][..0] == [];
  }

  /** A read that stored nothing, in front of a run of reads that ended
      without an exception. */
  lemma PrependEmpty(env: Env, c: Cursor, next: Cursor, at: Cursor, x: Reading, rest: seq<Reading>)
    requires Readings(env, c, next, [x]) && next.receives == c.receives + 1 && next.polls == x.poll + 1
    requires |ChunkAt(env, x)| == 0
    requires Readings(env, next, at, rest) && Settled(env, next, at, rest)
    ensures Readings(env, c, at, [x] + rest) && Settled(env, c, at, [x] + rest)
    ensures Chunks(env, [x] + rest) == Chunks(env, rest)
  {
    assert Chunks(env, [x]) == [] by {
      assert [x][1..] == [];
    }
    ReadingsTrans(env, c, next, at, [x], rest);
    SettledTrans(env, c, next, at, [x], rest);
    ChunksConcat(env, [x], rest);
  }

  /** A read that stored nothing, in front of the rest of the handshake. */
  lemma GreetedAfterEmpty(env: Env, c: Cursor, next: Cursor, x: Reading, g: Greeting, rest: seq<Reading>)
    requires Readings(env, c, next, [x]) && next.receives == c.receives + 1 && next.polls == x.poll + 1
    requires |ChunkAt(env, x)| == 0
    requires Greeted(env, next, g, rest)
    ensures Greeted(env, c, g, [x] + rest)
  {
    if g.Stopped? || g.Replied? {
      PrependEmpty(env, c, next, g.at, x, rest);
    }
    if g.Replied? {
      ReplyAfterEmpty(env, x, rest);
    }
  }

  /** A read that stored nothing, in front of reads whose last one alone
      stored something: the last read is the same one, and every read
      before it stored nothing. */
  lemma ReplyAfterEmpty(env: Env, x: Reading, rest: seq<Reading>)
    requires |ChunkAt(env, x)| == 0 && |rest| > 0 && Chunks(env, rest[..|rest| - 1]) == []
    ensures var log := [x] + rest;
      log[|log| - 1] == rest[|rest| - 1] && Chunks(env, log[..|log| - 1]) == []
  {
    var log := [x] + rest;
    assert log[..|log| - 1] == [x] + rest[..|rest| - 1];
    assert [x][1..] == [];
    ChunksConcat(env, [x], rest[..|rest| - 1]);
  }

  /** The reply is what the last read of the handshake stored, and every
      read before it stored nothing; if the flag falls first, every read
      stored nothing. */
  lemma {:induction false} HandshakeReads(env: Env, client: bool, c: Cursor) returns (log: seq<Reading>)
    ensures Greeted(env, c, HandshakeFrom(env, client, c), log)
    decreases env.running - c.checks
  {
    var g := HandshakeFrom(env, client, c);
    log := [];
    if g.Failed? || c.checks >= env.running {
      // a fault leaves nothing to show; a lowered flag stops before any read
    } else if AvailableAt(env, c.polls).value == 0 {
      var next := c.(checks := c.checks + 1, polls := c.polls + 1);
      assert g == HandshakeFrom(env, client, next);
      log := HandshakeReads(env, client, next);
      GreetedAfterPoll(env, c, next, g, log);
    } else {
      var x := Reading(c.polls + 1, c.receives);
      var next := c.(checks := c.checks + 1, polls := c.polls + 2, receives := c.receives + 1);
      assert ChunkAt(env, x) == Received(ReadAt(env, c.receives).value, Min(AvailableAt(env, c.polls + 1).value, ReadBufferSize));
      assert Readings(env, c, next, [x]);
      if |ChunkAt(env, x)| > 0 {
        assert g == Replied(ChunkAt(env, x), next);
        log := [x];
        GreetedByRead(env, c, next, x);
      } else {
        assert g == HandshakeFrom(env, client, next);
        var rest := HandshakeReads(env, client, next);
        GreetedAfterEmpty(env, c, next, x, g, rest);
        log := [x] + rest;
      }
    }
  }

  /** Where one step of the streaming loop leaves things: the new effects,
      the cursor, and the message of an exception if one was thrown. */
  datatype Step = Step(effects: Effects, at: Cursor, fault: Option<string>)

  /** SendGGA inside the thread. */
  function SendGgaAt(env: Env, client: bool, gga: string, c: Cursor, e: Effects): (s: Step)
    ensures s.effects.wire == e.wire || s.effects.wire == e.wire + [GgaBytes(gga)]
    ensures s.effects.wire == e.wire + [GgaBytes(gga)] <==> client && s.fault.None?
    ensures s.effects.(wire := e.wire) == e
    ensures s.at.checks == c.checks && s.at.polls == c.polls && s.at.receives == c.receives
  {
    if !client then Step(e, c, None)
    else
      match WriteAt(env, c.writes)
      case None => Step(e.(wire := e.wire + [GgaBytes(gga)]), c.(writes := c.writes + 1), None)
      case Some(m) => Step(e, c.(writes := c.writes + 1), Some(m))
  }

  /** The inner `while (client.Available > 0)` loop. */
  function DrainFrom(env: Env, c: Cursor, e: Effects): (s: Step)
    ensures s.effects.(sunk := e.sunk, totalRead := e.totalRead) == e
    ensures s.at.checks == c.checks && s.at.writes == c.writes
    decreases |env.available| - c.polls
  {
    if c.polls >= |env.available| then Step(e, c.(polls := c.polls + 1), None)
    else
      match env.available[c.polls]
      case Throws(m) => Step(e, c.(polls := c.polls + 1), Some(m))
      case Returns(n) =>
        if n == 0 then Step(e, c.(polls := c.polls + 1), None)
        else
          match AvailableAt(env, c.polls + 1)
          case Throws(m) => Step(e, c.(polls := c.polls + 2), Some(m))
          case Returns(n2) =>
            var next := c.(polls := c.polls + 2, receives := c.receives + 1);
            match ReadAt(env, c.receives)
            case Throws(m) => Step(e, next, Some(m))
            case Returns(data) =>
              var chunk := Received(data, Min(n2, ReadBufferSize));
              DrainFrom(env, next, if |chunk| > 0 then e.(totalRead := e.totalRead + |chunk|, sunk := e.sunk + [chunk]) else e)
  }

  /** The drain ends at the first poll that throws or finds nothing. */
  lemma DrainStops(env: Env, c: Cursor, e: Effects)
    requires AvailableAt(env, c.polls).Throws? || AvailableAt(env, c.polls) == Returns(0)
    ensures DrainFrom(env, c, e) == Step(e, c.(polls := c.polls + 1),
      if AvailableAt(env, c.polls).Throws? then Some(AvailableAt(env, c.polls).message) else None)
  {
  }

  /** The drain ends when the second Available or the Read throws. */
  lemma DrainFails(env: Env, c: Cursor, e: Effects)
    requires AvailableAt(env, c.polls).Returns? && AvailableAt(env, c.polls).value > 0
    requires AvailableAt(env, c.polls + 1).Throws? || ReadAt(env, c.receives).Throws?
    ensures DrainFrom(env, c, e) ==
      if AvailableAt(env, c.polls + 1).Throws?
      then Step(e, c.(polls := c.polls + 2), Some(AvailableAt(env, c.polls + 1).message))
      else Step(e, c.(polls := c.polls + 2, receives := c.receives + 1), Some(ReadAt(env, c.receives).message))
  {
  }

  /** A successful read forwards the chunk, if it is not empty, and the drain
      goes on. */
  lemma DrainReads(env: Env, c: Cursor, e: Effects, n2: nat, data: seq<byte>)
    requires AvailableAt(env, c.polls).Returns? && AvailableAt(env, c.polls).value > 0
    requires AvailableAt(env, c.polls + 1) == Returns(n2) && ReadAt(env, c.receives) == Returns(data)
    ensures var chunk := Received(data, Min(n2, ReadBufferSize));
      DrainFrom(env, c, e) == DrainFrom(env, c.(polls := c.polls + 2, receives := c.receives + 1),
        if |chunk| > 0 then e.(totalRead := e.totalRead + |chunk|, sunk := e.sunk + [chunk]) else e)
  {
  }

  /** What the drain's ensures say about the reads from c to s. */
  predicate Drained(env: Env, c: Cursor, e: Effects, s: Step, log: seq<Reading>)
  {
    && Readings(env, c, s.at, log) && Forwarded(env, log, e, s.effects)
    && (s.fault.None? ==> s.at.receives == c.receives + |log| && Settled(env, c, s.at, log))
    && (forall i :: 0 <= i < |log| ==> log[i].poll == c.polls + 2 * i + 1)
  }

  /** One successful pass of the drain in front of the rest of it. */
  lemma DrainPass(env: Env, c: Cursor, e: Effects, s: Step, rest: seq<Reading>)
    requires AvailableAt(env, c.polls).Returns? && AvailableAt(env, c.polls).value > 0
    requires AvailableAt(env, c.polls + 1).Returns? && ReadAt(env, c.receives).Returns?
    requires var chunk := ChunkAt(env, Reading(c.polls + 1, c.receives));
      Drained(env, c.(polls := c.polls + 2, receives := c.receives + 1),
              if |chunk| > 0 then e.(totalRead := e.totalRead + |chunk|, sunk := e.sunk + [chunk]) else e, s, rest)
    ensures Drained(env, c, e, s, [Reading(c.polls + 1, c.receives)] + rest)
  {
    var x := Reading(c.polls + 1, c.receives);
    var next := c.(polls := c.polls + 2, receives := c.receives + 1);
    var chunk := ChunkAt(env, x);
    var e' := if |chunk| > 0 then e.(totalRead := e.totalRead + |chunk|, sunk := e.sunk + [chunk]) else e;
    var log := [x] + rest;
    assert Forwarded(env, log, e, s.effects) by {
      ForwardedOne(env, x, e);
      ForwardedTrans(env, [x], rest, e, e', s.effects);
    }
    assert Readings(env, c, s.at, log) && (s.fault.None? ==> Settled(env, c, s.at, log)) by {
      assert Readings(env, c, next, [x]) && Settled(env, c, next, [x]);
      ReadingsTrans(env, c, next, s.at, [x], rest);
      if s.fault.None? {
        SettledTrans(env, c, next, s.at, [x], rest);
      }
    }
    assert forall i :: 0 < i < |log| ==> log[i] == rest[i - 1];
  }

  /** The drain hands the sink every non-empty chunk it reads, in the
      order read, and counts exactly those bytes in total_read; its i-th
      read is sized by the second poll of its i-th pass. */
  lemma {:induction false} DrainForwards(env: Env, c: Cursor, e: Effects) returns (log: seq<Reading>)
    ensures var s := DrainFrom(env, c, e);
      && Readings(env, c, s.at, log) && Forwarded(env, log, e, s.effects)
      && (s.fault.None? ==> s.at.receives == c.receives + |log| && Settled(env, c, s.at, log))
    ensures forall i :: 0 <= i < |log| ==> log[i].poll == c.polls + 2 * i + 1
    decreases |env.available| - c.polls
  {
    var s := DrainFrom(env, c, e);
    log := [];
    if c.polls < |env.available| && env.available[c.polls].Returns? && env.available[c.polls].value > 0
       && AvailableAt(env, c.polls + 1).Returns? && ReadAt(env, c.receives).Returns?
    {
      var x := Reading(c.polls + 1, c.receives);
      var chunk := ChunkAt(env, x);
      assert chunk == Received(ReadAt(env, c.receives).value, Min(AvailableAt(env, c.polls + 1).value, ReadBufferSize));
      var e' := if |chunk| > 0 then e.(totalRead := e.totalRead + |chunk|, sunk := e.sunk + [chunk]) else e;
      var next := c.(polls := c.polls + 2, receives := c.receives + 1);
      assert s == DrainFrom(env, next, e');
      var rest := DrainForwards(env, next, e');
      DrainPass(env, c, e, s, rest);
      log := [x] + rest;
    } else {
      assert s.effects == e;
      assert s.fault.None? ==> AvailableAt(env, c.polls) == Returns(0) && s.at.polls == c.polls + 1;
    }
  }

  /** A pass whose two polls disagree: Available answers 5, then 2, and the
      transport offers five bytes. The read is sized by the second poll, so
      two bytes go to the sink, and no log sized by the first poll meets
      Readings. */
  lemma SizedBySecondPoll(data: seq<byte>, e: Effects)
    requires |data| == 5
    ensures var env := Env(1, [Returns(5), Returns(2)], [Returns(data)], []);
      && DrainFrom(env, Start, e).effects.sunk == e.sunk + [data[..2]]
      && Readings(env, Start, Cursor(0, 3, 1, 0), [Reading(1, 0)])
      && !Readings(env, Start, Cursor(0, 3, 1, 0), [Reading(0, 0)])
  {
    var env := Env(1, [Returns(5), Returns(2)], [Returns(data)], []);
    assert ChunkAt(env, Reading(1, 0)) == data[..2];
    DrainReads(env, Start, e, 2, data);
    DrainStops(env, Cursor(0, 2, 1, 0), e.(totalRead := e.totalRead + 2, sunk := e.sunk + [data[..2]]));
  }

  /** What the streaming loop writes: nothing but copies of the GGA line,
      appended after what was written before. */
  predicate Reported(gga: string, e: Effects, e': Effects)
  {
    && |e.wire| <= |e'.wire|
    && e'.wire[..|e.wire|] == e.wire
    && forall k :: |e.wire| <= k < |e'.wire| ==> e'.wire[k] == GgaBytes(gga)
  }

  lemma ReportedTrans(gga: string, e1: Effects, e2: Effects, e3: Effects)
    requires Reported(gga, e1, e2) && Reported(gga, e2, e3)
    ensures Reported(gga, e1, e3)
  {
    assert e3.wire[..|e1.wire|] == e3.wire[..|e2.wire|][..|e1.wire|];
  }

  /** One round of the streaming loop body, up to its Thread.Sleep: SendGGA
      when the countdown has run out, then the drain, whose first
      client.Available throws when there is no client. */
  function RoundFrom(env: Env, client: bool, gga: string, c: Cursor, send: bool, e: Effects): (s: Step)
    ensures s.effects.status == e.status && s.effects.err == e.err
    ensures s.at.checks == c.checks
    ensures !client ==> s.fault == Some(NullClientMessage)
  {
    var g := if send then SendGgaAt(env, client, gga, c, e) else Step(e, c, None);
    if g.fault.Some? then g
    else if !client then Step(g.effects, g.at, Some(NullClientMessage))
    else DrainFrom(env, g.at, g.effects)
  }

  /** A round forwards what it reads, writes at most the GGA line, and writes
      it exactly when it is due, there is a client and no exception. */
  lemma RoundProgress(env: Env, client: bool, gga: string, c: Cursor, send: bool, e: Effects) returns (log: seq<Reading>)
    ensures var s := RoundFrom(env, client, gga, c, send, e);
      && Readings(env, c, s.at, log) && Forwarded(env, log, e, s.effects) && Reported(gga, e, s.effects)
      && (s.fault.None? ==> s.at.receives == c.receives + |log| && Settled(env, c, s.at, log))
      && (s.fault.None? ==> |s.effects.wire| == |e.wire| + (if send && client then 1 else 0))
    ensures forall i :: 0 <= i < |log| ==> log[i].poll == c.polls + 2 * i + 1
  {
    var g := if send then SendGgaAt(env, client, gga, c, e) else Step(e, c, None);
    log := [];
    if g.fault.None? && client {
      log := DrainForwards(env, g.at, g.effects);
    }
  }

  /** Status and error after the catch block of the streaming loop. */
  function LoopFailed(e: Effects, message: string): (e': Effects)
    ensures e'.status == -1 && LoopFailedPrefix <= e'.err
    ensures e'.err[|LoopFailedPrefix|..] == message
    ensures e'.(status := e.status, err := e.err) == e
  {
    e.(status := -1, err := LoopFailedPrefix + message)
  }

  /** How the streaming loop ended: its effects and the number of rounds
      it began. */
  datatype Streamed = Streamed(effects: Effects, rounds: nat)

  /** The second try block of ResponseThreadLoop, from cursor c with the
      countdown at `count`, after `rounds` rounds. */
  function StreamFrom(env: Env, client: bool, gga: string, c: Cursor, count: int, e: Effects, rounds: nat): (r: Streamed)
    ensures || (r.effects.status == e.status && r.effects.err == e.err)
            || (e.status == 0 && r.effects.status == -1 && LoopFailedPrefix <= r.effects.err)
    ensures rounds <= r.rounds
    ensures e.status == 0 && r.effects.status == 0 ==>
      r.rounds == rounds + (if c.checks < env.running then env.running - c.checks else 0)
    decreases env.running - c.checks
  {
    if c.checks >= env.running || e.status != 0 then Streamed(e, rounds)
    else
      var s := RoundFrom(env, client, gga, c.(checks := c.checks + 1), count <= 0, e);
      if s.fault.Some? then Streamed(LoopFailed(s.effects, s.fault.value), rounds + 1)
      else StreamFrom(env, client, gga, s.at, (if count <= 0 then GgaInterval else count) - 1, s.effects, rounds + 1)
  }

  /** An exception in a round ends the loop at once, through the catch
      block: status -1 and "Response loop failed: " with the message, on
      top of what the round did before it threw. */
  lemma StreamFault(env: Env, client: bool, gga: string, c: Cursor, count: int, e: Effects, rounds: nat)
    requires c.checks < env.running && e.status == 0
    requires RoundFrom(env, client, gga, c.(checks := c.checks + 1), count <= 0, e).fault.Some?
    ensures var s := RoundFrom(env, client, gga, c.(checks := c.checks + 1), count <= 0, e);
      StreamFrom(env, client, gga, c, count, e, rounds) == Streamed(LoopFailed(s.effects, s.fault.value), rounds + 1)
  {
  }

  /** Every run of the loop that ends with status -1 ended in a round that
      threw: from some point of the run (its cursor, countdown, effects and
      round number) the next round throws, and the loop's result is the
      catch block applied to that round's effects and its exception's
      message. */
  lemma {:induction false} StreamFailure(env: Env, client: bool, gga: string, c: Cursor, count: int, e: Effects, rounds: nat)
    returns (at: Cursor, k: int, mid: Effects, n: nat)
    requires e.status == 0 && StreamFrom(env, client, gga, c, count, e, rounds).effects.status != 0
    ensures c.checks <= at.checks < env.running && mid.status == 0 && rounds <= n
    ensures var s := RoundFrom(env, client, gga, at.(checks := at.checks + 1), k <= 0, mid);
      && s.fault.Some?
      && StreamFrom(env, client, gga, c, count, e, rounds) == Streamed(LoopFailed(s.effects, s.fault.value), n + 1)
    decreases env.running - c.checks
  {
    var s := RoundFrom(env, client, gga, c.(checks := c.checks + 1), count <= 0, e);
    if s.fault.Some? {
      at, k, mid, n := c, count, e, rounds;
    } else {
      var count' := (if count <= 0 then GgaInterval else count) - 1;
      assert StreamFrom(env, client, gga, c, count, e, rounds) == StreamFrom(env, client, gga, s.at, count', s.effects, rounds + 1);
      at, k, mid, n := StreamFailure(env, client, gga, s.at, count', s.effects, rounds + 1);
    }
  }

  /** The streaming loop hands the sink every non-empty chunk it reads, in
      the order read, counts them in total_read, and writes nothing but GGA
      lines; `at` is where it leaves the transport's answers. */
  lemma {:induction false} StreamProgress(env: Env, client: bool, gga: string, c: Cursor, count: int, e: Effects, rounds: nat)
    returns (log: seq<Reading>, at: Cursor)
    ensures var r := StreamFrom(env, client, gga, c, count, e, rounds);
      Readings(env, c, at, log) && Forwarded(env, log, e, r.effects) && Reported(gga, e, r.effects)
    decreases env.running - c.checks
  {
    var out := StreamFrom(env, client, gga, c, count, e, rounds).effects;
    log, at := [], c;
    if c.checks < env.running && e.status == 0 {
      var s := RoundFrom(env, client, gga, c.(checks := c.checks + 1), count <= 0, e);
      var first := RoundProgress(env, client, gga, c.(checks := c.checks + 1), count <= 0, e);
      assert Readings(env, c, s.at, first);
      if s.fault.None? {
        assert Settled(env, c, s.at, first);
        var count' := (if count <= 0 then GgaInterval else count) - 1;
        assert out == StreamFrom(env, client, gga, s.at, count', s.effects, rounds + 1).effects;
        var rest, end := StreamProgress(env, client, gga, s.at, count', s.effects, rounds + 1);
        ForwardedTrans(env, first, rest, e, s.effects, out);
        ReportedTrans(gga, e, s.effects, out);
        ReadingsTrans(env, c, s.at, end, first, rest);
        log, at := first + rest, end;
      } else {
        assert out == LoopFailed(s.effects, s.fault.value);
        log, at := first, s.at;
      }
    }
  }

  /** The whole thread body, from the client state e at thread start. */
  function ThreadLoop(env: Env, client: bool, gga: string, e: Effects): Streamed
  {
    match HandshakeFrom(env, client, Start)
    case Stopped(c) => StreamFrom(env, client, gga, c, 0, e, 0)
    case Failed(m) => Streamed(e.(status := -1, err := ResponseFailedPrefix + m), 0)
    case Replied(reply, c) =>
      match Reply.ParseReply(reply)
      case Http401Unauthorized => Streamed(e.(err := "authorization error", status := -3), 0)
      case Unexpected => Streamed(e.(err := "unexpected reply from host", status := -4), 0)
      case SourceTable200 => Streamed(e.(err := "invalid mounting point", status := -4), 0)
      case Icy200Ok => StreamFrom(env, client, gga, c, 0, e.(totalRead := e.totalRead + |reply|), 0)
  }

  /** A handshake fault: status -1 and the message, nothing else changes. */
  function ResponseFailed(e: Effects, message: string): (e': Effects)
    ensures e'.status == -1 && ResponseFailedPrefix <= e'.err
    ensures e'.err[|ResponseFailedPrefix|..] == message
    ensures e'.(status := e.status, err := e.err) == e
  {
    e.(status := -1, err := ResponseFailedPrefix + message)
  }

  /** After an "ICY 200" reply the streaming loop starts with the reply's
      length counted in total_read and the countdown at 0. */
  lemma IcyContinues(env: Env, client: bool, gga: string, e: Effects, reply: seq<byte>, c: Cursor)
    requires HandshakeFrom(env, client, Start) == Replied(reply, c)
    requires Reply.ParseReply(reply) == Reply.Icy200Ok
    ensures ThreadLoop(env, client, gga, e) == StreamFrom(env, client, gga, c, 0, e.(totalRead := e.totalRead + |reply|), 0)
  {
  }

  /** The table of outcomes of the handshake, stated on the reply text:
      the three fatal replies set status and error and end the thread
      without writing, forwarding or counting anything; "ICY 200" goes on
      to stream, writing nothing but GGA lines, with the reply counted in
      total_read (ThreadForwards says what happens to every byte read). */
  lemma ReplyOutcomes(env: Env, client: bool, gga: string, e: Effects)
    requires HandshakeFrom(env, client, Start).Replied?
    ensures var reply := HandshakeFrom(env, client, Start).reply;
      var text := Reply.ReplyText(reply);
      var out := ThreadLoop(env, client, gga, e).effects;
      && (Reply.HasPrefix(text, Reply.HttpPattern) ==>
            out == e.(status := -3, err := "authorization error"))
      && (Reply.HasPrefix(text, Reply.SourceTablePattern) ==>
            out == e.(status := -4, err := "invalid mounting point"))
      && (!Reply.HasPrefix(text, Reply.IcyPattern) && !Reply.HasPrefix(text, Reply.HttpPattern) &&
          !Reply.HasPrefix(text, Reply.SourceTablePattern) ==>
            out == e.(status := -4, err := "unexpected reply from host"))
      && (Reply.HasPrefix(text, Reply.IcyPattern) ==>
            && (out.status == e.status || out.status == -1)
            && out.totalRead >= e.totalRead + |reply|
            && Reported(gga, e, out))
  {
    var h := HandshakeFrom(env, client, Start);
    Reply.ClassifyMeaning(Reply.ReplyText(h.reply));
    if Reply.ParseReply(h.reply) == Reply.Icy200Ok {
      IcyContinues(env, client, gga, e, h.reply, h.at);
      var log, at := StreamProgress(env, client, gga, h.at, 0, e.(totalRead := e.totalRead + |h.reply|), 0);
    }
  }

  /** Where every byte the thread reads goes. If the flag falls before any
      reply, every read of the handshake stored nothing. After an "ICY 200"
      reply, the first non-empty read is the reply, counted in total_read
      but never handed to the sink, and every later non-empty read goes to
      the sink, in the order read. total_read counts all of them. */
  lemma ThreadForwards(env: Env, client: bool, gga: string, e: Effects) returns (log: seq<Reading>, at: Cursor)
    requires !HandshakeFrom(env, client, Start).Failed?
    requires HandshakeFrom(env, client, Start).Replied? ==>
      Reply.ParseReply(HandshakeFrom(env, client, Start).reply) == Reply.Icy200Ok
    ensures var h := HandshakeFrom(env, client, Start);
      var out := ThreadLoop(env, client, gga, e).effects;
      && Readings(env, Start, at, log)
      && out.totalRead == e.totalRead + TotalLength(Chunks(env, log))
      && (h.Stopped? ==> out.sunk == e.sunk + Chunks(env, log))
      && (h.Replied? ==> 1 <= |Chunks(env, log)| && Chunks(env, log)[0] == h.reply
                         && out.sunk == e.sunk + Chunks(env, log)[1..])
  {
    var h := HandshakeFrom(env, client, Start);
    var greet := HandshakeReads(env, client, Start);
    var e0 := if h.Replied? then e.(totalRead := e.totalRead + |h.reply|) else e;
    if h.Replied? {
      IcyContinues(env, client, gga, e, h.reply, h.at);
    }
    var rest, end := StreamProgress(env, client, gga, h.at, 0, e0, 0);
    ReadingsTrans(env, Start, h.at, end, greet, rest);
    ChunksConcat(env, greet, rest);
    TotalLengthConcat(Chunks(env, greet), Chunks(env, rest));
    if h.Replied? {
      TotalLengthAppend([], h.reply);
      assert [] + [h.reply] == [h.reply];
      assert (Chunks(env, greet) + Chunks(env, rest))[1..] == Chunks(env, rest);
    }
    log, at := greet + rest, end;
  }

  /** Any exception in the handshake phase: status -1, "Failed to get
      response: " and the message, and nothing else changes. */
  lemma HandshakeFault(env: Env, client: bool, gga: string, e: Effects)
    requires HandshakeFrom(env, client, Start).Failed?
    ensures ThreadLoop(env, client, gga, e).effects ==
      ResponseFailed(e, HandshakeFrom(env, client, Start).message)
  {
  }

  /** The only statuses the thread sets are -1, -3 and -4; -1 comes with one
      of the two exception messages. */
  lemma ThreadStatus(env: Env, client: bool, gga: string, e: Effects)
    ensures var out := ThreadLoop(env, client, gga, e).effects;
      || (out.status == e.status && out.err == e.err)
      || (out.status == -1 && (ResponseFailedPrefix <= out.err || LoopFailedPrefix <= out.err))
      || out.status == -3 || out.status == -4
  {
    match HandshakeFrom(env, client, Start)
    case Stopped(c) =>
    case Failed(m) =>
    case Replied(reply, c) =>
  }

  /** Number of GGA reports sent in `rounds` streaming rounds that start with
      the countdown at `count`. */
  function Sends(count: int, rounds: nat): nat
    decreases rounds
  {
    if rounds == 0 then 0
    else if count <= 0 then 1 + Sends(GgaInterval - 1, rounds - 1)
    else Sends(count - 1, rounds - 1)
  }

  lemma {:induction false} SendsFrom(count: int, rounds: nat)
    requires 0 <= count < GgaInterval
    ensures Sends(count, rounds) == if rounds <= count then 0 else (rounds - count + GgaInterval - 1) / GgaInterval
    decreases rounds
  {
    if rounds > 0 {
      if count == 0 {
        SendsFrom(GgaInterval - 1, rounds - 1);
      } else {
        SendsFrom(count - 1, rounds - 1);
      }
    }
  }

  /** One round of the countdown: a report when it has run out. */
  lemma SendsStep(count: int, k: nat)
    ensures Sends(count, k + 1) == (if count <= 0 then 1 else 0) + Sends((if count <= 0 then GgaInterval else count) - 1, k)
  {
  }

  /** From a countdown of 0 the loop reports in round 0 and every 30th round
      after it: round k sends exactly when k is a multiple of 30. */
  lemma GgaCadence(k: nat)
    ensures Sends(0, k + 1) == Sends(0, k) + (if k % GgaInterval == 0 then 1 else 0)
    ensures Sends(0, k) == (k + GgaInterval - 1) / GgaInterval
  {
    SendsFrom(0, k);
    SendsFrom(0, k + 1);
  }

  /** While the streaming loop runs without a fault on a connected client,
      it writes the GGA line exactly Sends(count, rounds) times. */
  lemma {:induction false} StreamCadence(env: Env, gga: string, c: Cursor, count: int, e: Effects, rounds: nat)
    requires e.status == 0
    ensures var r := StreamFrom(env, true, gga, c, count, e, rounds);
      r.effects.status == 0 ==> |r.effects.wire| == |e.wire| + Sends(count, r.rounds - rounds)
    decreases env.running - c.checks
  {
    if c.checks >= env.running {
      assert StreamFrom(env, true, gga, c, count, e, rounds) == Streamed(e, rounds);
    } else {
      var s := RoundFrom(env, true, gga, c.(checks := c.checks + 1), count <= 0, e);
      if s.fault.None? {
        var count' := (if count <= 0 then GgaInterval else count) - 1;
        var r := StreamFrom(env, true, gga, s.at, count', s.effects, rounds + 1);
        assert StreamFrom(env, true, gga, c, count, e, rounds) == r;
        assert s.effects.status == 0;
        assert |s.effects.wire| == |e.wire| + (if count <= 0 then 1 else 0) by {
          var log := RoundProgress(env, true, gga, c.(checks := c.checks + 1), count <= 0, e);
        }
        StreamCadence(env, gga, s.at, count', s.effects, rounds + 1);
        SendsStep(count, r.rounds - (rounds + 1));
      } else {
        assert StreamFrom(env, true, gga, c, count, e, rounds) == Streamed(LoopFailed(s.effects, s.fault.value), rounds + 1);
      }
    }
  }

  /** From a countdown of 0, while no fault occurs, the streaming loop
      writes the GGA line in its first round and every 30th after it. */
  lemma StreamCadenceFromStart(env: Env, gga: string, c: Cursor, e: Effects)
    requires e.status == 0
    ensures var r := StreamFrom(env, true, gga, c, 0, e, 0);
      r.effects.status == 0 ==> |r.effects.wire| == |e.wire| + (r.rounds + GgaInterval - 1) / GgaInterval
  {
    StreamCadence(env, gga, c, 0, e, 0);
    SendsFrom(0, StreamFrom(env, true, gga, c, 0, e, 0).rounds);
  }

  /** The thread, once the caster has answered "ICY 200", reports its
      position in the first streaming round and every 30th after it. */
  lemma ThreadCadence(env: Env, gga: string, e: Effects, reply: seq<byte>, c: Cursor)
    requires e.status == 0
    requires HandshakeFrom(env, true, Start) == Replied(reply, c)
    requires Reply.ParseReply(reply) == Reply.Icy200Ok
    ensures var r := ThreadLoop(env, true, gga, e);
      r.effects.status == 0 ==> |r.effects.wire| == |e.wire| + (r.rounds + GgaInterval - 1) / GgaInterval
  {
    IcyContinues(env, true, gga, e, reply, c);
    StreamCadenceFromStart(env, gga, c, e.(totalRead := e.totalRead + |reply|));
  }

  /** "ICY 200" as the caster sends it. */
  const IcyReply: seq<byte> := [0x49, 0x43, 0x59, 0x20, 0x32, 0x30, 0x30]

  lemma IcyReplyAccepted()
    ensures Reply.ParseReply(IcyReply) == Reply.Icy200Ok
  {
    assert Reply.ReplyText(IcyReply) == "ICY 200";
  }

  /** A caster that answers "ICY 200" and then offers 10 and 5 bytes in two
      rounds before the thread is stopped. */
  function IcyEnv(ten: seq<byte>, five: seq<byte>): Env
  {
    Env(3, [Returns(7), Returns(7), Returns(10), Returns(10), Returns(0), Returns(5), Returns(5)],
        [Returns(IcyReply), Returns(ten), Returns(five)], [])
  }

  lemma IcyGreeting(ten: seq<byte>, five: seq<byte>)
    ensures HandshakeFrom(IcyEnv(ten, five), true, Start) == Replied(IcyReply, Cursor(1, 2, 1, 0))
  {
    assert IcyReply[..7] == IcyReply;
  }

  lemma IcyFirstRound(gga: string, ten: seq<byte>, five: seq<byte>)
    requires |ten| == 10
    ensures RoundFrom(IcyEnv(ten, five), true, gga, Cursor(2, 2, 1, 0), true, Effects(0, "", 7, [], []))
      == Step(Effects(0, "", 17, [GgaBytes(gga)], [ten]), Cursor(2, 5, 2, 1), None)
  {
    var env := IcyEnv(ten, five);
    var e1 := Effects(0, "", 7, [GgaBytes(gga)], []);
    var e2 := Effects(0, "", 17, [GgaBytes(gga)], [ten]);
    assert ten[..10] == ten;
    assert SendGgaAt(env, true, gga, Cursor(2, 2, 1, 0), Effects(0, "", 7, [], [])) == Step(e1, Cursor(2, 2, 1, 1), None);
    DrainReads(env, Cursor(2, 2, 1, 1), e1, 10, ten);
    assert DrainFrom(env, Cursor(2, 4, 2, 1), e2) == Step(e2, Cursor(2, 5, 2, 1), None);
    assert DrainFrom(env, Cursor(2, 2, 1, 1), e1) == Step(e2, Cursor(2, 5, 2, 1), None);
  }

  lemma IcySecondRound(gga: string, ten: seq<byte>, five: seq<byte>)
    requires |five| == 5
    ensures RoundFrom(IcyEnv(ten, five), true, gga, Cursor(3, 5, 2, 1), false, Effects(0, "", 17, [GgaBytes(gga)], [ten]))
      == Step(Effects(0, "", 22, [GgaBytes(gga)], [ten, five]), Cursor(3, 8, 3, 1), None)
  {
    var env := IcyEnv(ten, five);
    var e3 := Effects(0, "", 22, [GgaBytes(gga)], [ten, five]);
    assert five[..5] == five;
    assert [ten] + [five] == [ten, five];
    assert DrainFrom(env, Cursor(3, 7, 3, 1), e3) == Step(e3, Cursor(3, 8, 3, 1), None);
  }

  /** The GGA line goes out once, the sink gets the two chunks in the order
      they were read, and total_read counts the 7-byte reply as well. */
  lemma IcyScenario(gga: string, ten: seq<byte>, five: seq<byte>)
    requires |ten| == 10 && |five| == 5
    ensures ThreadLoop(IcyEnv(ten, five), true, gga, Effects(0, "", 0, [], []))
      == Streamed(Effects(0, "", 22, [GgaBytes(gga)], [ten, five]), 2)
  {
    IcyReplyAccepted();
    IcyGreeting(ten, five);
    IcyFirstRound(gga, ten, five);
    IcySecondRound(gga, ten, five);
    var env := IcyEnv(ten, five);
    var e2 := Effects(0, "", 17, [GgaBytes(gga)], [ten]);
    var e3 := Effects(0, "", 22, [GgaBytes(gga)], [ten, five]);
    assert StreamFrom(env, true, gga, Cursor(3, 8, 3, 1), 28, e3, 2) == Streamed(e3, 2);
    assert StreamFrom(env, true, gga, Cursor(2, 5, 2, 1), 29, e2, 1) == Streamed(e3, 2);
    assert StreamFrom(env, true, gga, Cursor(1, 2, 1, 0), 0, Effects(0, "", 7, [], []), 0) == Streamed(e3, 2);
  }

  /** "HTTP/1.0 401" as a caster sends it when it refuses the credentials. */
  const UnauthorizedReply: seq<byte> := [0x48, 0x54, 0x54, 0x50, 0x2F, 0x31, 0x2E, 0x30, 0x20, 0x34, 0x30, 0x31]

  lemma UnauthorizedReplyRefused()
    ensures Reply.ParseReply(UnauthorizedReply) == Reply.Http401Unauthorized
  {
    assert Reply.ReplyText(UnauthorizedReply) == "HTTP/1.0 401";
    assert !Reply.MatchFrom("HTTP/1.0 401", Reply.IcyPattern, 0);
    assert Reply.MatchFrom("HTTP/1.0 401", Reply.HttpPattern, 0);
  }

  /** A caster that refuses the credentials after two empty polls. */
  function UnauthorizedEnv(): Env
  {
    Env(5, [Returns(0), Returns(0), Returns(12), Returns(12)], [Returns(UnauthorizedReply)], [])
  }

  lemma UnauthorizedGreeting()
    ensures HandshakeFrom(UnauthorizedEnv(), true, Start) == Replied(UnauthorizedReply, Cursor(3, 4, 1, 0))
  {
    assert UnauthorizedReply[..12] == UnauthorizedReply;
    assert HandshakeFrom(UnauthorizedEnv(), true, Cursor(2, 2, 0, 0)) == Replied(UnauthorizedReply, Cursor(3, 4, 1, 0));
  }

  /** The thread ends with status -3 and writes, forwards and counts nothing. */
  lemma UnauthorizedScenario(gga: string)
    ensures ThreadLoop(UnauthorizedEnv(), true, gga, Effects(0, "", 0, [], [])).effects
      == Effects(-3, "authorization error", 0, [], [])
  {
    UnauthorizedGreeting();
    UnauthorizedReplyRefused();
  }
}
