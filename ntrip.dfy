/** The class NTRipClient: its fields, its public operations and the body of
    its response thread, each proved to do what the functions of modules
    Session and Worker say. The TCP connection, the thread flag and the data
    sink are not simulated: what they answer comes in as parameters (an
    outcome, a fault, an Env), and what goes out to them is recorded in the
    fields `wire` and `sunk`. */
module Ntrip {
  import opened Ascii
  import Nmea
  import Handshake
  import Reply
  import Worker
  import Session

  /** Stream.Read(buf, 0, toRead) on the data the transport hands over:
      the bytes are copied to the front of buf and their number returned. */
  method ReadInto(buf: array<byte>, data: seq<byte>, toRead: nat) returns (len: nat)
    requires toRead <= buf.Length
    modifies buf
    ensures len == |Worker.Received(data, toRead)| && len <= toRead
    ensures buf[..len] == Worker.Received(data, toRead)
  {
    len := if |data| <= toRead then |data| else toRead;
    for i := 0 to len
      invariant buf[..i] == data[..i]
    {
      buf[i] := data[i];
    }
  }

  class NTRipClient {
    /** address, port number, mount point, user and password. */
    const config: Session.Config

    /** client != null */
    var connected: bool
    var latestGga: string
    var status: int
    var err: string
    var totalRead: int
    /** Every buffer written to the TCP stream, in order. */
    var wire: seq<seq<byte>>
    /** Every chunk handed to the data sink, in order. */
    var sunk: seq<seq<byte>>
    /** responseThread != null, responseThread.IsAlive, threadRunning */
    var threadPresent: bool
    var threadAlive: bool
    var threadRunning: bool

    /** The fields as a value of the state model. */
    function Snapshot(): (s: Session.Client)
      reads this
      ensures s.status == status && s.wire == wire && s.sunk == sunk
    {
      Session.Client(connected, latestGga, status, err, totalRead, wire, sunk,
                     Session.ThreadState(threadPresent, threadAlive, threadRunning))
    }

    ghost predicate Valid()
      reads this
    {
      Session.Valid(Snapshot())
    }

    constructor(address: string, portNumber: int, mountPoint: string, user: string, pass: string)
      ensures config == Session.Config(address, portNumber, mountPoint, user, pass)
      ensures Snapshot() == Session.Initial() && Valid()
    {
      config := Session.Config(address, portNumber, mountPoint, user, pass);
      connected := false;
      latestGga := "";
      status := 0;
      err := "";
      totalRead := 0;
      wire := [];
      sunk := [];
      threadPresent := false;
      threadAlive := false;
      threadRunning := false;
    }

    /** Stops the thread, then closes and drops the client. */
    method Abort()
      requires Valid()
      modifies this
      ensures Snapshot() == Session.Abort(old(Snapshot())) && Valid()
    {
      ResponseThreadStop();
      if connected {
        connected := false;
      }
    }

    /** Writes the latest GGA line and CR LF when there is a client; `fault`
        is the exception Stream.Write throws, if any. */
    method SendGGA(fault: Option<string>) returns (thrown: Option<string>)
      modifies this`wire
      ensures (Snapshot(), thrown) == Session.SendGga(old(Snapshot()), fault)
    {
      var toBytes := AsciiBytes(latestGga + "\r\n");
      if !connected {
        return None;
      }
      if fault.Some? {
        return fault;
      }
      wire := wire + [toBytes];
      thrown := None;
    }

    method ResponseThreadStart()
      requires Valid()
      modifies this`threadPresent, this`threadAlive, this`threadRunning
      ensures Snapshot() == old(Snapshot()).(thread := Session.ThreadStart(old(Snapshot()).thread))
    {
      if threadPresent {
        if threadAlive {
          return;
        }
        ResponseThreadStop();
      }
      threadRunning := true;
      threadPresent := true;
      threadAlive := true;
    }

    /** Clears the flag; Join, or failing that Abort, ends the thread. */
    method ResponseThreadStop()
      requires threadAlive ==> threadPresent
      modifies this`threadPresent, this`threadAlive, this`threadRunning
      ensures Snapshot() == old(Snapshot()).(thread := Session.ThreadStop(old(Snapshot()).thread))
    {
      if threadPresent {
        threadRunning := false;
        threadAlive := false;
        threadPresent := false;
      }
    }

    /** Connects and sends the NTRIP request unless there is a client;
        `outcome` is how TcpClient.Connect and Stream.Write end. */
    method SetupWebRequest(outcome: Session.SetupOutcome)
      modifies this`connected, this`wire, this`status, this`err
      ensures Snapshot() == Session.Setup(old(Snapshot()), config, outcome)
    {
      if connected {
        return;
      }
      var auth := Handshake.BasicAuth(config.user, config.pass);
      var msg := Handshake.RequestText(config.mount, auth);
      connected := true;
      match outcome {
        case Connected =>
          wire := wire + [AsciiBytes(msg)];
        case SocketError(m) =>
          status := -2;
          err := Session.SetupFailedPrefix + m;
        case OtherError(m) =>
          status := -1;
          err := Session.SetupFailedPrefix + m;
      }
    }

    /** Hands a chunk of correction data to the sink. */
    method SerialPortWrite(buf: array<byte>, len: nat)
      requires len <= buf.Length
      modifies this`sunk
      ensures sunk == old(sunk) + [buf[..len]]
    {
      sunk := sunk + [buf[..len]];
    }

    /** UpdateRoverPosition(string). `thrown` is an exception of SendGGA,
        which reaches the caller. */
    method UpdateRoverPosition(pos: string, setup: Session.SetupOutcome, ggaFault: Option<string>)
      returns (thrown: Option<string>)
      requires Valid()
      modifies this
      ensures (Snapshot(), thrown) == Session.UpdatePosition(old(Snapshot()), config, pos, setup, ggaFault)
      ensures Valid()
    {
      Session.UpdateKeepsValid(Snapshot(), config, pos, setup, ggaFault);
      latestGga := pos;
      if status != 0 {
        return None;
      }
      SetupWebRequest(setup);
      if status != 0 {
        return None;
      }
      thrown := SendGGA(ggaFault);
      if thrown.Some? {
        return;
      }
      ResponseThreadStart();
    }

    /** The three-argument UpdateRoverPosition: the sentence is built from
        the UTC time, given here as hour, minute and second. */
    method UpdateRoverPositionAt(hour: nat, minute: nat, second: nat,
                                 setup: Session.SetupOutcome, ggaFault: Option<string>)
      returns (thrown: Option<string>)
      requires Valid()
      modifies this
      ensures latestGga == Nmea.SyntheticGga(hour, minute, second)
      ensures (Snapshot(), thrown)
        == Session.UpdatePosition(old(Snapshot()), config, Nmea.SyntheticGga(hour, minute, second), setup, ggaFault)
      ensures Valid()
    {
      var pos := "GPGGA," + Decimal(hour) + Decimal(minute) + Decimal(second) + Nmea.GgaTail;
      var checksum := Nmea.Checksum(pos);
      var res := "$" + pos + "*" + Hex(checksum);
      assert pos == Nmea.SyntheticBody(hour, minute, second);
      assert res == Nmea.SyntheticGga(hour, minute, second);
      thrown := UpdateRoverPosition(res, setup, ggaFault);
    }

    /** The handshake loop of ResponseThreadLoop: polls until a non-empty
        chunk arrives (left in buf[..len]), a call throws, or the flag goes
        down. */
    method AwaitReply(env: Worker.Env, buf: array<byte>) returns (c: Worker.Cursor, fault: Option<string>, len: nat)
      requires buf.Length == Worker.ReadBufferSize
      modifies buf
      ensures len <= buf.Length
      ensures Worker.HandshakeFrom(env, connected, Worker.Start) ==
        if fault.Some? then Worker.Failed(fault.value)
        else if len > 0 then Worker.Replied(buf[..len], c)
        else Worker.Stopped(c)
    {
      c := Worker.Start;
      fault := None;
      len := 0;
      while c.checks < env.running
        invariant Worker.HandshakeFrom(env, connected, c) == Worker.HandshakeFrom(env, connected, Worker.Start)
        decreases env.running - c.checks
      {
        if !connected {
          fault := Some(Worker.NullClientMessage);
          return;
        }
        var available := Worker.AvailableAt(env, c.polls);
        if available.Throws? {
          fault := Some(available.message);
          return;
        }
        if available.value > 0 {
          var again := Worker.AvailableAt(env, c.polls + 1);
          if again.Throws? {
            fault := Some(again.message);
            return;
          }
          var toRead := Worker.Min(again.value, Worker.ReadBufferSize);
          var data := Worker.ReadAt(env, c.receives);
          if data.Throws? {
            fault := Some(data.message);
            return;
          }
          len := ReadInto(buf, data.value, toRead);
          c := c.(checks := c.checks + 1, polls := c.polls + 2, receives := c.receives + 1);
          if len > 0 {
            return;
          }
        } else {
          c := c.(checks := c.checks + 1, polls := c.polls + 1);
        }
      }
    }

    /** The inner `while (client.Available > 0)` loop of the streaming phase. */
    method Drain(env: Worker.Env, start: Worker.Cursor, buf: array<byte>) returns (c: Worker.Cursor, fault: Option<string>)
      requires buf.Length == Worker.ReadBufferSize
      modifies buf, this`totalRead, this`sunk
      ensures Worker.Step(Session.EffectsOf(Snapshot()), c, fault)
        == Worker.DrainFrom(env, start, Session.EffectsOf(old(Snapshot())))
    {
      c := start;
      fault := None;
      ghost var target := Worker.DrainFrom(env, start, Session.EffectsOf(Snapshot()));
      var more := true;
      while more
        invariant more ==> fault.None? && Worker.DrainFrom(env, c, Session.EffectsOf(Snapshot())) == target
        invariant !more ==> Worker.Step(Session.EffectsOf(Snapshot()), c, fault) == target
        decreases (if more then 1 else 0) + (if c.polls < |env.available| then |env.available| - c.polls else 0)
      {
        c, fault, more := DrainPass(env, c, buf);
      }
    }

    /** One pass of the drain loop: poll Available, read up to 1024 bytes
        and hand them to the sink; `more` when the loop polls again. */
    method DrainPass(env: Worker.Env, c: Worker.Cursor, buf: array<byte>)
      returns (next: Worker.Cursor, fault: Option<string>, more: bool)
      requires buf.Length == Worker.ReadBufferSize
      modifies buf, this`totalRead, this`sunk
      ensures c.polls < next.polls
      ensures more ==> fault.None? && c.polls < |env.available| && next.polls == c.polls + 2
      ensures more ==> (Worker.DrainFrom(env, next, Session.EffectsOf(Snapshot()))
                        == Worker.DrainFrom(env, c, Session.EffectsOf(old(Snapshot()))))
      ensures !more ==> (Worker.Step(Session.EffectsOf(Snapshot()), next, fault)
                         == Worker.DrainFrom(env, c, Session.EffectsOf(old(Snapshot()))))
    {
      ghost var e := Session.EffectsOf(Snapshot());
      var available := Worker.AvailableAt(env, c.polls);
      if available.Throws? {
        Worker.DrainStops(env, c, e);
        return c.(polls := c.polls + 1), Some(available.message), false;
      }
      if available.value == 0 {
        Worker.DrainStops(env, c, e);
        return c.(polls := c.polls + 1), None, false;
      }
      var again := Worker.AvailableAt(env, c.polls + 1);
      if again.Throws? {
        Worker.DrainFails(env, c, e);
        return c.(polls := c.polls + 2), Some(again.message), false;
      }
      var toRead := Worker.Min(again.value, Worker.ReadBufferSize);
      var data := Worker.ReadAt(env, c.receives);
      next := c.(polls := c.polls + 2, receives := c.receives + 1);
      if data.Throws? {
        Worker.DrainFails(env, c, e);
        return next, Some(data.message), false;
      }
      Worker.DrainReads(env, c, e, again.value, data.value);
      var len := ReadInto(buf, data.value, toRead);
      if len > 0 {
        totalRead := totalRead + len;
        SerialPortWrite(buf, len);
      }
      fault, more := None, true;
    }

    /** One round of the streaming loop up to its Thread.Sleep: SendGGA when
        `send` (the countdown has run out), then the drain. */
    method Round(env: Worker.Env, start: Worker.Cursor, send: bool, buf: array<byte>)
      returns (c: Worker.Cursor, fault: Option<string>)
      requires buf.Length == Worker.ReadBufferSize
      modifies buf, this`totalRead, this`sunk, this`wire
      ensures Worker.Step(Session.EffectsOf(Snapshot()), c, fault)
        == Worker.RoundFrom(env, connected, latestGga, start, send, Session.EffectsOf(old(Snapshot())))
    {
      c := start;
      fault := None;
      if send {
        fault := SendGGA(Worker.WriteAt(env, c.writes));
        if connected {
          c := c.(writes := c.writes + 1);
        }
        if fault.Some? {
          return;
        }
      }
      if !connected {
        fault := Some(Worker.NullClientMessage);
        return;
      }
      c, fault := Drain(env, c, buf);
    }

    /** The streaming loop `while (threadRunning && _status == 0)` with its
        catch block, from cursor `start` with the countdown at 0. */
    method StreamLoop(env: Worker.Env, start: Worker.Cursor, buf: array<byte>) returns (ghost rounds: nat)
      requires buf.Length == Worker.ReadBufferSize
      modifies buf, this`totalRead, this`sunk, this`wire, this`status, this`err
      ensures Worker.Streamed(Session.EffectsOf(Snapshot()), rounds)
        == Worker.StreamFrom(env, connected, latestGga, start, 0, Session.EffectsOf(old(Snapshot())), 0)
    {
      var c := start;
      var count := 0;
      rounds := 0;
      while c.checks < env.running && status == 0
        invariant Worker.StreamFrom(env, connected, latestGga, c, count, Session.EffectsOf(Snapshot()), rounds)
          == Worker.StreamFrom(env, connected, latestGga, start, 0, Session.EffectsOf(old(Snapshot())), 0)
        decreases env.running - c.checks
      {
        var fault;
        c, fault := Round(env, c.(checks := c.checks + 1), count <= 0, buf);
        rounds := rounds + 1;
        if fault.Some? {
          status := -1;
          err := Worker.LoopFailedPrefix + fault.value;
          return;
        }
        count := (if count <= 0 then Worker.GgaInterval else count) - 1;
      }
    }

    /** The first try block of ResponseThreadLoop and the switch on the
        reply. `proceed` tells whether the streaming loop follows; if not,
        the thread's work is done. */
    method Greet(env: Worker.Env, buf: array<byte>) returns (c: Worker.Cursor, proceed: bool)
      requires buf.Length == Worker.ReadBufferSize
      modifies buf, this`status, this`err, this`totalRead
      ensures proceed ==>
        Worker.ThreadLoop(env, connected, latestGga, Session.EffectsOf(old(Snapshot())))
        == Worker.StreamFrom(env, connected, latestGga, c, 0, Session.EffectsOf(Snapshot()), 0)
      ensures !proceed ==>
        Worker.ThreadLoop(env, connected, latestGga, Session.EffectsOf(old(Snapshot())))
        == Worker.Streamed(Session.EffectsOf(Snapshot()), 0)
    {
      ghost var e0 := Session.EffectsOf(Snapshot());
      var fault, len;
      c, fault, len := AwaitReply(env, buf);
      ghost var greeting := Worker.HandshakeFrom(env, connected, Worker.Start);
      proceed := false;
      if fault.Some? {
        assert greeting == Worker.Failed(fault.value);
        err := Worker.ResponseFailedPrefix + fault.value;
        status := -1;
        return;
      }
      if len > 0 {
        var reply := buf[..len];
        assert greeting == Worker.Replied(reply, c);
        match Reply.ParseReply(reply) {
          case Http401Unauthorized =>
            err := "authorization error";
            status := -3;
            return;
          case Unexpected =>
            err := "unexpected reply from host";
            status := -4;
            return;
          case SourceTable200 =>
            err := "invalid mounting point";
            status := -4;
            return;
          case Icy200Ok =>
            Worker.IcyContinues(env, connected, latestGga, e0, reply, c);
            ghost var e1 := e0.(totalRead := e0.totalRead + |reply|);
            totalRead := totalRead + len;
            assert Session.EffectsOf(Snapshot()) == e1;
        }
      } else {
        assert greeting == Worker.Stopped(c);
        assert Worker.ThreadLoop(env, connected, latestGga, e0) == Worker.StreamFrom(env, connected, latestGga, c, 0, e0, 0);
        assert Session.EffectsOf(Snapshot()) == e0;
      }
      proceed := true;
    }

    /** The body of the response thread. The flag threadRunning, the
        transport's answers and the write faults come from env; the flag
        reads false throughout if it was clear when the thread began. */
    method ResponseThreadLoop(env: Worker.Env) returns (ghost rounds: nat)
      requires Valid()
      modifies this
      ensures Snapshot() == Session.RunThread(old(Snapshot()), env) && Valid()
      ensures rounds == Worker.ThreadLoop(Session.FlagEnv(env, old(threadRunning)), old(connected), old(latestGga),
                                          Session.EffectsOf(old(Snapshot()))).rounds
    {
      ghost var s0 := Snapshot();
      var flags := Session.FlagEnv(env, threadRunning);
      ghost var run := Worker.ThreadLoop(flags, connected, latestGga, Session.EffectsOf(s0));
      var buf := new byte[Worker.ReadBufferSize];
      var c, proceed := Greet(flags, buf);
      rounds := 0;
      if proceed {
        rounds := StreamLoop(flags, c, buf);
      }
      assert Session.EffectsOf(Snapshot()) == run.effects && rounds == run.rounds;
      threadAlive := false;
      Session.RunKeepsValid(s0, env);
    }
  }
}
