/** The state of an NTRipClient and what each of its operations does to it,
    as functions. The class in module Ntrip is proved to follow them; the
    lemmas here state what the source promises about them. */
module Session {
  import opened Ascii
  import Handshake
  import Worker
  import Reply

  const SetupFailedPrefix := "Failed to setup GGA request. "

  /** The constructor's arguments that the operations use. */
  datatype Config = Config(address: string, port: int, mount: string, user: string, pass: string)

  /** responseThread != null, responseThread.IsAlive, and threadRunning. */
  datatype ThreadState = ThreadState(present: bool, alive: bool, running: bool)

  /** The fields of NTRipClient: client != null, latestGGA, _status, _err,
      total_read and the thread, plus what went out on the TCP stream and
      what was handed to the data sink. */
  datatype Client = Client(
    connected: bool,
    latestGga: string,
    status: int,
    err: string,
    totalRead: int,
    wire: seq<seq<byte>>,
    sunk: seq<seq<byte>>,
    thread: ThreadState)

  /** How the TcpClient.Connect and Stream.Write of SetupWebRequest end. */
  datatype SetupOutcome = Connected | SocketError(message: string) | OtherError(message: string)

  /** What the client keeps true between operations: a living thread has a
      Thread object, total_read never goes below zero and the status is one
      of the codes the class sets. */
  predicate Valid(s: Client)
  {
    && (s.thread.alive ==> s.thread.present)
    && s.totalRead >= 0
    && s.status in {0, -1, -2, -3, -4}
  }

  /** The state the constructor leaves. */
  function Initial(): (s: Client)
    ensures Valid(s) && !s.connected && s.status == 0 && !s.thread.present
  {
    Client(false, "", 0, "", 0, [], [], ThreadState(false, false, false))
  }

  /** ResponseThreadStop: clear the flag and wait for (or abort) the thread,
      which is then gone. */
  function ThreadStop(t: ThreadState): (t': ThreadState)
    requires t.alive ==> t.present
    ensures !t'.present && !t'.alive
    ensures t'.running == (t.running && !t.present)
  {
    if t.present then ThreadState(false, false, false) else t
  }

  /** ResponseThreadStart: nothing if a thread is alive; otherwise stop a
      dead one and start a new thread with the flag set. */
  function ThreadStart(t: ThreadState): (t': ThreadState)
    requires t.alive ==> t.present
    ensures t.alive ==> t' == t
    ensures t'.present && t'.alive
    ensures !t.alive ==> t'.running
  {
    if t.present && t.alive then t
    else ThreadState(true, true, true)
  }

  /** SendGGA: the GGA line and CR LF in ASCII, written when there is a
      client; the write may throw. */
  function SendGga(s: Client, fault: Option<string>): (Client, Option<string>)
  {
    if !s.connected then (s, None)
    else if fault.Some? then (s, fault)
    else (s.(wire := s.wire + [Worker.GgaBytes(s.latestGga)]), None)
  }

  /** SetupWebRequest: nothing if there is a client already; otherwise the
      TcpClient is created (and stays, even if Connect or Write fail), the
      request goes out, or the failure sets status and error. */
  function Setup(s: Client, cfg: Config, outcome: SetupOutcome): Client
  {
    if s.connected then s
    else
      var s' := s.(connected := true);
      match outcome
      case Connected => s'.(wire := s.wire + [AsciiBytes(Handshake.Request(cfg.mount, cfg.user, cfg.pass))])
      case SocketError(m) => s'.(status := -2, err := SetupFailedPrefix + m)
      case OtherError(m) => s'.(status := -1, err := SetupFailedPrefix + m)
  }

  /** UpdateRoverPosition(string): remember the sentence; on a healthy
      session set up the connection, send the sentence and make sure the
      thread runs. An exception from SendGGA propagates to the caller and
      the thread is not started. */
  function UpdatePosition(s: Client, cfg: Config, pos: string, setup: SetupOutcome, ggaFault: Option<string>): (Client, Option<string>)
    requires Valid(s)
  {
    var s1 := s.(latestGga := pos);
    if s1.status != 0 then (s1, None)
    else
      var s2 := Setup(s1, cfg, setup);
      if s2.status != 0 then (s2, None)
      else
        var (s3, thrown) := SendGga(s2, ggaFault);
        if thrown.Some? then (s3, thrown)
        else (s3.(thread := ThreadStart(s3.thread)), None)
  }

  /** Abort: stop the thread, then close and drop the client. */
  function Abort(s: Client): Client
    requires Valid(s)
  {
    s.(thread := ThreadStop(s.thread), connected := false)
  }

  /** The flag as the thread sees it: never set if it was clear at the start. */
  function FlagEnv(env: Worker.Env, running: bool): Worker.Env
  {
    if running then env else env.(running := 0)
  }

  function EffectsOf(s: Client): Worker.Effects
  {
    Worker.Effects(s.status, s.err, s.totalRead, s.wire, s.sunk)
  }

  /** One run of ResponseThreadLoop to its end, after which the thread is
      no longer alive. */
  function RunThread(s: Client, env: Worker.Env): Client
  {
    var out := Worker.ThreadLoop(FlagEnv(env, s.thread.running), s.connected, s.latestGga, EffectsOf(s)).effects;
    s.(status := out.status, err := out.err, totalRead := out.totalRead, wire := out.wire, sunk := out.sunk,
       thread := s.thread.(alive := false))
  }

  // ---- What the source promises about these operations ----

  /** UpdateRoverPosition always records the sentence; on a session whose
      status is not 0 it does nothing else: no connect, no write, no thread. */
  lemma DeadSessionOnlyRecords(s: Client, cfg: Config, pos: string, setup: SetupOutcome, ggaFault: Option<string>)
    requires Valid(s) && s.status != 0
    ensures UpdatePosition(s, cfg, pos, setup, ggaFault) == (s.(latestGga := pos), None)
  {
  }

  /** UpdateRoverPosition records the sentence on every path, whatever the
      status, the setup and the write do. */
  lemma AlwaysRecords(s: Client, cfg: Config, pos: string, setup: SetupOutcome, ggaFault: Option<string>)
    requires Valid(s)
    ensures UpdatePosition(s, cfg, pos, setup, ggaFault).0.latestGga == pos
  {
  }

  /** The steady state: on a healthy, connected session with a living
      thread, an update records the sentence, writes exactly its GGA line,
      and leaves the thread and everything else as it was. */
  lemma SteadyUpdate(s: Client, cfg: Config, pos: string, setup: SetupOutcome)
    requires Valid(s) && s.status == 0 && s.connected && s.thread.alive
    ensures UpdatePosition(s, cfg, pos, setup, None) ==
      (s.(latestGga := pos, wire := s.wire + [Worker.GgaBytes(pos)]), None)
  {
  }

  /** SetupWebRequest is idempotent: with a client it changes nothing, and a
      second call after any first call changes nothing. */
  lemma SetupIdempotent(s: Client, cfg: Config, first: SetupOutcome, second: SetupOutcome)
    ensures s.connected ==> Setup(s, cfg, first) == s
    ensures Setup(Setup(s, cfg, first), cfg, second) == Setup(s, cfg, first)
  {
  }

  /** A successful setup writes exactly the NTRIP request; when the mount
      point holds no CR, a caster reads its mount point and credentials back. */
  lemma SetupSendsRequest(s: Client, cfg: Config)
    requires !s.connected
    ensures var s' := Setup(s, cfg, Connected);
      && s'.connected && s'.status == s.status
      && s'.wire == s.wire + [AsciiBytes(Handshake.RequestText(cfg.mount, Handshake.BasicAuth(cfg.user, cfg.pass)))]
    ensures (forall i :: 0 <= i < |cfg.mount| ==> cfg.mount[i] != '\r') ==>
      Handshake.ParseRequest(Handshake.Request(cfg.mount, cfg.user, cfg.pass))
        == Some((cfg.mount, Handshake.BasicAuth(cfg.user, cfg.pass)))
  {
    if forall i :: 0 <= i < |cfg.mount| ==> cfg.mount[i] != '\r' {
      Handshake.RequestRoundTrip(cfg.mount, Handshake.BasicAuth(cfg.user, cfg.pass));
    }
  }

  /** A failed setup: -2 for a socket error, -1 for any other, the error
      text is "Failed to setup GGA request. " and the exception's message,
      nothing is written,
      and the TcpClient object stays. */
  lemma SetupFailure(s: Client, cfg: Config, outcome: SetupOutcome)
    requires !s.connected && !outcome.Connected?
    ensures var s' := Setup(s, cfg, outcome);
      && s'.status == (if outcome.SocketError? then -2 else -1)
      && SetupFailedPrefix <= s'.err && s'.err == SetupFailedPrefix + outcome.message
      && s'.wire == s.wire && s'.connected
  {
  }

  /** After a failed setup UpdateRoverPosition sends nothing and starts no
      thread, now and on every later call: the status never returns to 0. */
  lemma FailedSetupSilences(s: Client, cfg: Config, pos: string, setup: SetupOutcome, ggaFault: Option<string>,
                            pos2: string, setup2: SetupOutcome, ggaFault2: Option<string>)
    requires Valid(s) && s.status == 0 && !s.connected && !setup.Connected?
    ensures var (s1, t1) := UpdatePosition(s, cfg, pos, setup, ggaFault);
      && t1.None? && s1.status in {-1, -2} && s1.wire == s.wire && s1.thread == s.thread
      && Valid(s1)
      && UpdatePosition(s1, cfg, pos2, setup2, ggaFault2).0 == s1.(latestGga := pos2)
  {
    var s1 := UpdatePosition(s, cfg, pos, setup, ggaFault).0;
    assert s1.status in {-1, -2};
    DeadSessionOnlyRecords(s1, cfg, pos2, setup2, ggaFault2);
  }

  /** The first update on a fresh, healthy session: the request, then the
      GGA line, go out, and the thread is started with its flag set. */
  lemma FirstUpdate(s: Client, cfg: Config, pos: string)
    requires Valid(s) && s.status == 0 && !s.connected && !s.thread.present
    ensures var (s1, t1) := UpdatePosition(s, cfg, pos, Connected, None);
      && t1.None? && s1.status == 0 && s1.connected && s1.latestGga == pos
      && s1.wire == s.wire + [AsciiBytes(Handshake.Request(cfg.mount, cfg.user, cfg.pass)), Worker.GgaBytes(pos)]
      && s1.thread == ThreadState(true, true, true)
  {
  }

  /** A write error in SendGGA reaches the caller and no thread is started. */
  lemma GgaWriteFault(s: Client, cfg: Config, pos: string, message: string)
    requires Valid(s) && s.status == 0 && s.connected
    ensures var (s1, t1) := UpdatePosition(s, cfg, pos, Connected, Some(message));
      t1 == Some(message) && s1 == s.(latestGga := pos)
  {
  }

  /** SendGGA writes nothing without a client. */
  lemma SendWithoutClient(s: Client, fault: Option<string>)
    requires !s.connected
    ensures SendGga(s, fault) == (s, None)
  {
  }

  /** UpdateRoverPosition keeps the class invariant. */
  lemma UpdateKeepsValid(s: Client, cfg: Config, pos: string, setup: SetupOutcome, ggaFault: Option<string>)
    requires Valid(s)
    ensures Valid(UpdatePosition(s, cfg, pos, setup, ggaFault).0)
  {
  }

  /** Abort keeps the class invariant. */
  lemma AbortKeepsValid(s: Client)
    requires Valid(s)
    ensures Valid(Abort(s))
  {
  }

  /** A run of the thread keeps the class invariant: it sets only the
      statuses -1, -3 and -4 and never lowers total_read. */
  lemma RunKeepsValid(s: Client, env: Worker.Env)
    requires Valid(s)
    ensures Valid(RunThread(s, env))
  {
    Worker.ThreadStatus(FlagEnv(env, s.thread.running), s.connected, s.latestGga, EffectsOf(s));
    ThreadTotalGrows(FlagEnv(env, s.thread.running), s.connected, s.latestGga, EffectsOf(s));
  }

  /** total_read never decreases over a run of the thread. */
  lemma ThreadTotalGrows(env: Worker.Env, client: bool, gga: string, e: Worker.Effects)
    ensures Worker.ThreadLoop(env, client, gga, e).effects.totalRead >= e.totalRead
  {
    match Worker.HandshakeFrom(env, client, Worker.Start)
    case Stopped(c) =>
      var log, at := Worker.StreamProgress(env, client, gga, c, 0, e, 0);
    case Failed(m) =>
    case Replied(reply, c) =>
      if Reply.ParseReply(reply) == Reply.Icy200Ok {
        var log, at := Worker.StreamProgress(env, client, gga, c, 0, e.(totalRead := e.totalRead + |reply|), 0);
      }
  }

  /** Abort leaves no thread and no client; a later update on a healthy
      session connects afresh. */
  lemma AbortThenReconnect(s: Client, cfg: Config, pos: string)
    requires Valid(s) && s.status == 0
    ensures var a := Abort(s);
      && !a.connected && !a.thread.present && !a.thread.alive
      && UpdatePosition(a, cfg, pos, Connected, None).0.wire
         == s.wire + [AsciiBytes(Handshake.Request(cfg.mount, cfg.user, cfg.pass)), Worker.GgaBytes(pos)]
  {
  }
}
