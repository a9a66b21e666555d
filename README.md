# NTRIP correction client — a Dafny model

This project models `NTRipClient`, the NTRIP client of a GNSS rover app. The
client does four things:

- It connects to a correction caster over TCP.
- It sends an HTTP/1.0 `GET /<mount>` request with Basic credentials.
- It classifies the caster's first reply.
- It then streams RTCM correction data to a sink and reports the rover's GGA
  position every 30 rounds.

The model is proved in Dafny. It has eight modules:

- `Ascii`: bytes, Encoding.ASCII, and the `{0}` and `{0:X}` renderings of
  numbers.
- `Reply`: `ParseReply`, the ordered, case-insensitive prefix match of the
  reply against `ICY 200`, `HTTP/1.\d 401` and `SOURCETABLE 200`.
- `Nmea`: `Checksum`, the NMEA 0183 XOR checksum, and the synthetic GGA
  sentence of the three-argument `UpdateRoverPosition`.
- `Base64`: Convert.ToBase64String as in section 4 of RFC 4648. A decoder is
  its proved partner.
- `Handshake`: the request text of `SetupWebRequest`. A caster-side parser is
  its proved partner.
- `Worker`: the body of `ResponseThreadLoop`, as a function of an oracle. The
  oracle answers the thread flag, `client.Available`, `Stream.Read` and the
  write faults of `SendGGA`.
- `Session`: the client state, and each public operation as a function on
  it. This module also holds the lemmas about what the source promises.
- `Ntrip`: the class `NTRipClient`, with the source's fields. Its methods
  mutate them, and its thread body runs the real nested `while` loops over a
  1024-byte `array`.

Every method of the class that changes the client's state or runs a loop
is proved equal to the matching `Session` or `Worker` function. The loop
invariants tie the loop state to those functions. The two byte helpers,
`ReadInto` and `SerialPortWrite`, state directly which bytes they copy or
hand on. `SendGGA` is defined twice, on purpose: `Session.SendGga` is the
call from `UpdateRoverPosition`, on the client state, and `Worker.SendGgaAt`
is the call from the thread, on the oracle's cursor.

The TCP stream and the data sink are recorded as sequences in the class. The
field `wire` holds every buffer written to the stream. The field `sunk` holds
every chunk handed to the sink.

The model follows the code as written, including these behaviours:

- Only a `SocketException` during setup gives status -2. Any other exception
  gives -1.
- The `TcpClient` object stays set after a failed connect.
- A fatal reply does not close the connection.
- A handshake exception sets status -1 ("Failed to get response: ").
- The time field is not zero-padded.
- The checksum is written with `{1:X}`, which has no minimum width.
- Without a client, the streaming loop's first `client.Available` throws a
  NullReferenceException, which its catch block turns into status -1.

The thread's reads are tied to the transport by a log of readings. Each
reading is the pair of indices of a `Stream.Read` call and of the
`client.Available` call that sized it. Each read belongs to a pass that
opened with a positive `client.Available`; the next `client.Available`
sized it, and every poll before the opening one, back to the previous read,
answered 0. So the transport's answers fix the log, and each chunk is sized
by the second poll of its own pass. A chunk is what the transport offered,
cut to `Math.Min(client.Available, 1024)`. The lemmas about the thread
state that the sink gets exactly the non-empty chunks of those reads, in
the order read.

## Model

| member | source | states |
|---|---|---|
| Ascii.AsciiByte | Assets/NTRIP.cs:128 | no contract of its own: Encoding.ASCII of one character, its code below 0x80 and '?' above; Ascii.AsciiCharByte states the first case |
| Ascii.AsciiBytes | Assets/NTRIP.cs:128 | no contract of its own: Encoding.ASCII.GetBytes, one byte per character; Ascii.AsciiTextRoundTrip and Ascii.AsciiBytesAppend state what it keeps |
| Ascii.Decimal | Assets/NTRIP.cs:375-376 | `{0}` of a natural number is one or more decimal digits, and a single digit exactly when the number is below 10 |
| Ascii.DecimalRoundTrip | Assets/NTRIP.cs:375-376 | reading the digits of `{0}` back gives the number |
| Ascii.Hex | Assets/NTRIP.cs:378 | `{1:X}` of a byte is one upper-case hex digit exactly when the byte is below 0x10, and two otherwise |
| Ascii.HexRoundTrip | Assets/NTRIP.cs:378 | a receiver that reads the one or two hex digits back gets the byte |
| Ascii.AsciiTextRoundTrip | Assets/NTRIP.cs:128 | Encoding.ASCII.GetBytes loses nothing on ASCII text |
| Ascii.AsciiBytesAppend | Assets/NTRIP.cs:128 | encoding a concatenation is the concatenation of the encodings |
| Reply.ReplyText | Assets/NTRIP.cs:177 | Encoding.UTF8.GetString as far as the patterns can tell: one character per byte, so the text is as long as the reply |
| Reply.Classify | Assets/NTRIP.cs:179-194 | no contract of its own: the three IsMatch tests in order; Reply.ClassifyMeaning states which class each text gets |
| Reply.ParseReply | Assets/NTRIP.cs:175-196 | no contract of its own: Classify of the decoded reply; Reply.AsciiReply, Worker.IcyReplyAccepted and Worker.UnauthorizedReplyRefused state its answers on bytes |
| Reply.MatchesExactly | Assets/NTRIP.cs:179-191 | the matcher succeeds exactly when the text is at least as long as the pattern and agrees with it case-insensitively, `\d` matching a digit |
| Reply.ClassifyMeaning | Assets/NTRIP.cs:175-195 | ParseReply is total; it gives ICY_200_OK, HTTP_401_Unauthorized or SOURCETABLE_200 exactly when that pattern matches, and Unexpected exactly when none does |
| Reply.ClassifyIgnoresTail | Assets/NTRIP.cs:179-191 | only the first characters decide the class; the `.*` tail does not matter |
| Reply.AsciiReply | Assets/NTRIP.cs:177 | a reply of ASCII bytes is classified on its own text |
| Reply.IcyExamples | Assets/NTRIP.cs:179-182 | "ICY 200 OK\r\n" and "icy 200 ok" are ICY_200_OK |
| Reply.UnauthorizedExamples | Assets/NTRIP.cs:184-187 | "HTTP/1.0 401\r\n" and "http/1.1 401" are HTTP_401_Unauthorized |
| Reply.SourceTableExamples | Assets/NTRIP.cs:189-192 | "SOURCETABLE 200" in either letter case is SOURCETABLE_200 |
| Reply.UnexpectedExamples | Assets/NTRIP.cs:194 | a plain HTTP 200, a non-digit minor version, a truncated "ICY 20" and the empty reply are Unexpected |
| Nmea.Checksum | Assets/NTRIP.cs:355-364 | the `foreach` loop returns the XOR of all ASCII bytes of the string |
| Nmea.ChecksumAppend | Assets/NTRIP.cs:355-364 | the checksum of a concatenation is the XOR of the two checksums |
| Nmea.TimeText | Assets/NTRIP.cs:375-376 | the time field is all digits and at least three long |
| Nmea.SyntheticBody | Assets/NTRIP.cs:374-376 | no contract of its own: the fixed GGA fields around the unpadded time; Nmea.SyntheticChecksumWide and Nmea.TimeAmbiguous state its properties |
| Nmea.SyntheticGga | Assets/NTRIP.cs:378 | no contract of its own: the framed synthetic body; Nmea.SyntheticValidates states that every one passes a receiver's check |
| Nmea.Frame | Assets/NTRIP.cs:378 | the sentence is '$', the body, '*' and the hex checksum |
| Nmea.FrameValidates | Assets/NTRIP.cs:378 | a receiver's checksum test accepts every framed body free of '*' and returns that body |
| Nmea.SyntheticValidates | Assets/NTRIP.cs:374-378 | every synthetic sentence passes a receiver's checksum test |
| Nmea.SyntheticChecksumWide | Assets/NTRIP.cs:375-378 | a synthetic sentence's checksum is at least 0x50, so `{1:X}` writes two digits for it |
| Nmea.NarrowChecksum | Assets/NTRIP.cs:378 | for a body whose checksum is below 0x10, `{1:X}` writes one digit: "11" is framed "$11*0" |
| Nmea.TimeAmbiguous | Assets/NTRIP.cs:375-376 | without zero padding, 01:23:04 and 12:03:04 give the same sentence, and 14:08:16 is written "14816" |
| Nmea.FirstExampleChecksum | Assets/NTRIP.cs:368-369 | the first example body written in the source has checksum 0x67 |
| Nmea.SecondExampleChecksum | Assets/NTRIP.cs:371-372 | the second example body has checksum 0x62 |
| Base64.IndexCharRoundTrip | Assets/NTRIP.cs:307 | the inverse table maps each alphabet character back to its sextet |
| Base64.EncodeGroup | Assets/NTRIP.cs:307 | a group of 1 to 3 bytes gives 4 alphabet or '=' characters, with '=' exactly in the padded positions |
| Base64.Encode | Assets/NTRIP.cs:307 | the output has 4·⌈n/3⌉ characters, all from the alphabet or '=' |
| Base64.GroupRoundTrip | Assets/NTRIP.cs:307 | decoding an encoded group gives its bytes back |
| Base64.DecodeEncode | Assets/NTRIP.cs:307 | decoding Convert.ToBase64String's output gives the bytes back |
| Base64.EncodeInjective | Assets/NTRIP.cs:307 | different credentials give different header values |
| Base64.VectorF | Assets/NTRIP.cs:307 | "f" encodes as "Zg==" (RFC 4648 section 10) |
| Base64.VectorFo | Assets/NTRIP.cs:307 | "fo" encodes as "Zm8=" |
| Base64.VectorFoo | Assets/NTRIP.cs:307 | "foo" encodes as "Zm9v" |
| Base64.VectorFoob | Assets/NTRIP.cs:307 | "foob" encodes as "Zm9vYg==" |
| Handshake.Credentials | Assets/NTRIP.cs:306-307 | no contract of its own: Encoding.ASCII of user + ":" + password; Handshake.CredentialsRoundTrip and Handshake.NonAsciiCollapses state what survives |
| Handshake.RequestText | Assets/NTRIP.cs:308 | no contract of its own: the string.Format of the request; Handshake.RequestLineEnds and Handshake.RequestRoundTrip state its shape |
| Handshake.Request | Assets/NTRIP.cs:306-308 | no contract of its own: the request for a mount point, user and password; Session.SetupSendsRequest states that a caster reads it back |
| Handshake.BasicAuth | Assets/NTRIP.cs:306-307 | the credential header value consists only of Base64 characters |
| Handshake.RequestLineEnds | Assets/NTRIP.cs:308 | the request line is "GET /" + mount + " HTTP/1.0", it ends at the first CR, and the headers, credentials and blank line follow |
| Handshake.RequestRoundTrip | Assets/NTRIP.cs:308 | a caster that parses the request gets back the mount point and the credentials |
| Handshake.CredentialsRoundTrip | Assets/NTRIP.cs:306-307 | decoding the header gives "user:pass" back, and splitting at the first ':' gives user and password for ASCII credentials whose user has no ':' |
| Handshake.CredentialsSplit | Assets/NTRIP.cs:306 | "user:pass" splits back into user and password at its first ':' |
| Handshake.NonAsciiCollapses | Assets/NTRIP.cs:307 | Encoding.ASCII sends a password with 'é' as if it had '?' |
| Handshake.ShortExample | Assets/NTRIP.cs:306-307 | user "a" with password "b" is sent as "Basic YTpi" |
| Worker.Received | Assets/NTRIP.cs:217-218 | a read stores at most to_read bytes, and they are a prefix of what the transport offers |
| Worker.HandshakeFrom | Assets/NTRIP.cs:211-247 | the handshake ends with a reply of 1 to 1024 bytes, with an exception, or only once the flag is down |
| Worker.HandshakeReads | Assets/NTRIP.cs:211-244 | the reply is exactly what the last read of the handshake stored, every earlier read stored nothing, and if the flag falls first every read stored nothing |
| Worker.SendGgaAt | Assets/NTRIP.cs:126-135 | SendGGA appends latestGGA + CR LF to the stream exactly when there is a client and the write does not throw, and changes nothing else |
| Worker.DrainFrom | Assets/NTRIP.cs:267-275 | the drain loop leaves status, error and the stream as they were |
| Worker.DrainReads | Assets/NTRIP.cs:267-274 | one pass reads min(Available, 1024) bytes at most and forwards the chunk exactly when it is non-empty |
| Worker.ChunkAt | Assets/NTRIP.cs:268-269 | the chunk a read stores is at most 1024 bytes |
| Worker.ChunksBounded | Assets/NTRIP.cs:268-272 | every chunk the thread handles holds 1 to 1024 bytes |
| Worker.ReadingsUnique | Assets/NTRIP.cs:267-270 | two logs of the same length that both meet the reading conditions from the same point are equal, so each read is sized by exactly one poll, the one the loops use |
| Worker.SizedBySecondPoll | Assets/NTRIP.cs:267-270 | when the two polls of a pass answer 5 and 2, the read is sized by the second: two bytes reach the sink, and a log sized by the first poll does not meet the reading conditions |
| Worker.DrainForwards | Assets/NTRIP.cs:267-275 | the drain reads in order, its i-th read sized by the second Available poll of its i-th pass, the pass having opened with a positive poll, and the drain ending on a poll of 0 when nothing threw; it appends to the sink exactly the non-empty chunks of those reads in read order, and raises total_read by exactly their total length |
| Worker.RoundFrom | Assets/NTRIP.cs:258-277 | one round of the streaming loop keeps status and error; without a client it throws the NullReferenceException of `client.Available` |
| Worker.RoundProgress | Assets/NTRIP.cs:260-275 | a round forwards the non-empty chunks of its reads as the drain does, each read sized by the second poll of its pass, writes nothing but the GGA line, and writes it exactly when it is due, there is a client and there is no fault |
| Worker.LoopFailed | Assets/NTRIP.cs:280-285 | an exception in the streaming loop sets status -1 and the error to "Response loop failed: " plus the message, and changes nothing else |
| Worker.StreamFrom | Assets/NTRIP.cs:256-285 | the streaming loop either keeps status and error, or ends a healthy session with -1 and "Response loop failed: "; a loop that ends a healthy session with status 0 ran one round per flag test that read true, that is, until the flag fell |
| Worker.StreamFault | Assets/NTRIP.cs:256-284 | an exception in a round ends the loop at once with the catch block: status -1 and "Response loop failed: " followed by the exception's message, on top of what the round did |
| Worker.StreamFailure | Assets/NTRIP.cs:256-284 | every run that ends with status -1 ended in a round that threw, and its result is the catch block applied to that round's effects and that exception's message |
| Worker.StreamProgress | Assets/NTRIP.cs:256-285 | over the whole streaming loop the sink receives exactly the non-empty chunks of the loop's reads, in read order, total_read grows by exactly their length, and the stream gets nothing but GGA lines |
| Worker.ResponseFailed | Assets/NTRIP.cs:248-254 | a handshake exception sets status -1 and "Failed to get response: " plus the message, and changes nothing else |
| Worker.ThreadLoop | Assets/NTRIP.cs:201-286 | no contract of its own: the thread body on the oracle; Worker.ReplyOutcomes, Worker.HandshakeFault, Worker.ThreadStatus, Worker.ThreadForwards and Worker.ThreadCadence state its outcomes |
| Worker.IcyContinues | Assets/NTRIP.cs:237-242 | after "ICY 200" the reply's length is added to total_read and streaming starts with the countdown at 0 |
| Worker.ReplyOutcomes | Assets/NTRIP.cs:220-242 | a 401 reply gives -3 "authorization error", a source table -4 "invalid mounting point", anything unmatched -4 "unexpected reply from host", with nothing else changed; "ICY 200" streams, writes nothing but GGA lines, and counts the reply in total_read |
| Worker.ThreadForwards | Assets/NTRIP.cs:211-275 | over the whole thread, after "ICY 200" the first non-empty read is the reply, counted but not handed on, and the sink gets every later non-empty chunk in read order; if the flag falls before a reply, all handshake reads were empty; total_read counts every non-empty chunk |
| Worker.HandshakeFault | Assets/NTRIP.cs:248-254 | any exception in the handshake gives exactly the ResponseFailed state |
| Worker.ThreadStatus | Assets/NTRIP.cs:201-286 | the thread sets no status other than -1 (with one of its two messages), -3 and -4 |
| Worker.SendsFrom | Assets/NTRIP.cs:260-266 | the number of GGA reports in a run of rounds, in closed form |
| Worker.GgaCadence | Assets/NTRIP.cs:260-266 | starting from a countdown of 0, round k reports exactly when k is a multiple of 30 |
| Worker.StreamCadence | Assets/NTRIP.cs:258-266 | while streaming runs without a fault on a connected client, the number of GGA lines written equals the countdown's report count |
| Worker.StreamCadenceFromStart | Assets/NTRIP.cs:256-266 | from the start of streaming, ⌈rounds/30⌉ GGA lines are written |
| Worker.ThreadCadence | Assets/NTRIP.cs:201-286 | after "ICY 200" a fault-free thread writes ⌈rounds/30⌉ GGA lines |
| Worker.IcyReplyAccepted | Assets/NTRIP.cs:179-181 | the bytes of "ICY 200" are classified ICY_200_OK |
| Worker.IcyScenario | Assets/NTRIP.cs:201-286 | a caster that answers "ICY 200" and then offers 10 and 5 bytes gets one GGA line; the sink gets the two chunks in order; total_read is 22 |
| Worker.UnauthorizedReplyRefused | Assets/NTRIP.cs:184-186 | the bytes of "HTTP/1.0 401" are classified HTTP_401_Unauthorized |
| Worker.UnauthorizedScenario | Assets/NTRIP.cs:211-226 | a 401 after two empty polls ends the thread with -3 "authorization error", having written, forwarded and counted nothing |
| Session.Initial | Assets/NTRIP.cs:95-108 | a new client has no connection and no thread, has status 0, and keeps the invariant |
| Session.ThreadStop | Assets/NTRIP.cs:161-173 | afterwards there is no thread; the flag is cleared whenever a thread existed |
| Session.ThreadStart | Assets/NTRIP.cs:140-156 | a live thread is left alone; otherwise a new live thread is started with its flag set |
| Session.SendGga | Assets/NTRIP.cs:126-135 | no contract of its own: SendGGA on the state; Session.SendWithoutClient and Session.GgaWriteFault state its cases |
| Session.Setup | Assets/NTRIP.cs:294-328 | no contract of its own: SetupWebRequest on the state; Session.SetupIdempotent, Session.SetupSendsRequest and Session.SetupFailure state its cases |
| Session.UpdatePosition | Assets/NTRIP.cs:338-353 | no contract of its own: UpdateRoverPosition on the state; Session.AlwaysRecords states that every path records the sentence; Session.DeadSessionOnlyRecords, Session.FirstUpdate, Session.SteadyUpdate, Session.FailedSetupSilences, Session.GgaWriteFault and Session.UpdateKeepsValid state its cases |
| Session.Abort | Assets/NTRIP.cs:113-121 | no contract of its own: Abort on the state; Session.AbortKeepsValid and Session.AbortThenReconnect state its effect |
| Session.RunThread | Assets/NTRIP.cs:201-286 | no contract of its own: a run of the thread on the state; Session.RunKeepsValid and Session.ThreadTotalGrows state its effect |
| Session.DeadSessionOnlyRecords | Assets/NTRIP.cs:338-344 | with status not 0, UpdateRoverPosition only records the sentence: no connect, no write, no thread |
| Session.SetupIdempotent | Assets/NTRIP.cs:299-302 | with a client, SetupWebRequest changes nothing, so a second call is a no-op |
| Session.SetupSendsRequest | Assets/NTRIP.cs:306-314 | a successful setup writes exactly the request for every mount point, and, when the mount point holds no CR, the caster reads the mount point and credentials back from it |
| Session.SetupFailure | Assets/NTRIP.cs:316-327 | a socket error gives -2 and any other error -1, the error text being "Failed to setup GGA request. " followed by the exception's message; nothing is written and the TcpClient stays |
| Session.AlwaysRecords | Assets/NTRIP.cs:340 | every call of UpdateRoverPosition sets latestGGA to its argument, on every path |
| Session.SteadyUpdate | Assets/NTRIP.cs:338-353 | on a healthy, connected session with a living thread, an update records the sentence, writes its GGA line and changes nothing else |
| Session.FailedSetupSilences | Assets/NTRIP.cs:338-350 | after a failed setup nothing is sent and no thread starts, now and on every later update |
| Session.FirstUpdate | Assets/NTRIP.cs:338-353 | the first update on a healthy client sends the request, then the GGA line, and starts the thread with its flag set |
| Session.GgaWriteFault | Assets/NTRIP.cs:351-352 | a write error in SendGGA reaches the caller and no thread is started |
| Session.SendWithoutClient | Assets/NTRIP.cs:130-133 | SendGGA writes nothing without a client |
| Session.UpdateKeepsValid | Assets/NTRIP.cs:338-353 | UpdateRoverPosition keeps the class invariant |
| Session.AbortKeepsValid | Assets/NTRIP.cs:113-121 | Abort keeps the class invariant |
| Session.RunKeepsValid | Assets/NTRIP.cs:201-286 | a run of the thread keeps the class invariant |
| Session.ThreadTotalGrows | Assets/NTRIP.cs:241-272 | total_read never decreases over a run of the thread |
| Session.AbortThenReconnect | Assets/NTRIP.cs:113-121 | Abort leaves no client and no thread, and the next healthy update connects afresh |
| Ntrip.ReadInto | Assets/NTRIP.cs:218 | Read copies the bytes it returns to the front of buf and returns their number, at most to_read |
| Ntrip.NTRipClient.constructor | Assets/NTRIP.cs:95-108 | the fields start in the initial state, and the configuration is kept |
| Ntrip.NTRipClient.Abort | Assets/NTRIP.cs:113-121 | the fields change as Session.Abort says |
| Ntrip.NTRipClient.SendGGA | Assets/NTRIP.cs:126-135 | the stream and the thrown exception are as Session.SendGga says |
| Ntrip.NTRipClient.ResponseThreadStart | Assets/NTRIP.cs:140-156 | the thread fields change as Session.ThreadStart says, and nothing else changes |
| Ntrip.NTRipClient.ResponseThreadStop | Assets/NTRIP.cs:161-173 | the thread fields change as Session.ThreadStop says, and nothing else changes |
| Ntrip.NTRipClient.SetupWebRequest | Assets/NTRIP.cs:294-328 | the fields change as Session.Setup says |
| Ntrip.NTRipClient.SerialPortWrite | Assets/NTRIP.cs:288-292 | the sink receives buf[..len] after everything it received before |
| Ntrip.NTRipClient.UpdateRoverPosition | Assets/NTRIP.cs:338-353 | the fields and the thrown exception are as Session.UpdatePosition says, and the invariant holds |
| Ntrip.NTRipClient.UpdateRoverPositionAt | Assets/NTRIP.cs:366-380 | the sentence built, checksummed and framed is Nmea.SyntheticGga, and it is handed to UpdateRoverPosition |
| Ntrip.NTRipClient.AwaitReply | Assets/NTRIP.cs:211-247 | the handshake loop ends as Worker.HandshakeFrom says, with the reply in buf |
| Ntrip.NTRipClient.DrainPass | Assets/NTRIP.cs:267-275 | one pass of the drain loop advances as Worker.DrainFrom says, or ends it |
| Ntrip.NTRipClient.Drain | Assets/NTRIP.cs:267-275 | the drain loop leaves total_read, the sink and the cursor as Worker.DrainFrom says |
| Ntrip.NTRipClient.Round | Assets/NTRIP.cs:258-277 | a streaming round does what Worker.RoundFrom says |
| Ntrip.NTRipClient.StreamLoop | Assets/NTRIP.cs:256-285 | the streaming loop and its catch block do what Worker.StreamFrom says |
| Ntrip.NTRipClient.Greet | Assets/NTRIP.cs:211-254 | the handshake try block and the switch do what Worker.ThreadLoop says up to the streaming loop |
| Ntrip.NTRipClient.ResponseThreadLoop | Assets/NTRIP.cs:201-286 | the thread body leaves the fields as Session.RunThread says and keeps the invariant |

## Left out

- Threads are not modelled as concurrency. `ResponseThreadStart/Stop` keep three flags: the thread exists, it is alive, and `threadRunning`. The thread body is a sequential method whose view of the flag is an input: the flag reads true for the first `running` tests and false after them. `Join` with `THREAD_STOP_TIMEOUT`, `Thread.Abort` and any interleaving with the caller are left out.
- Sockets are left out: `TcpClient`, `Connect`, `GetStream`, `Available`, `Read` and `Write`. Setup takes its outcome as a parameter (connected, `SocketException`, or another exception). The thread takes an oracle of answers. Writes are recorded in `wire`.
- Ntrip.NTRipClient.SendGGA: a write never writes part of a buffer. It either writes all of it or throws.
- `Thread.Sleep` and `DATA_CHECK_DELAY` are timing only, and no sleep is recorded. The model therefore does not show that the handshake loop spins without sleeping while `client.Available` is 0 and sleeps once after each empty read. Worker.HandshakeReads does state that every read before the reply stored nothing. `Debug.Log*` calls are logging only. The `uri` string is used only in log messages.
- `DateTime.UtcNow` is a clock. Ntrip.NTRipClient.UpdateRoverPositionAt takes hour, minute and second as parameters and drops the three `double` arguments, which the code ignores.
- Text encodings: reply bytes at or above 0x80 become a character outside ASCII, which no pattern accepts. Ascii.AsciiByte follows Encoding.ASCII, mapping characters above 0x7F to '?'. The request is encoded with the same function in place of `Encoding.Default`.
- Reply.ClassifyMeaning: .NET's `IgnoreCase` and `\d` also accept some non-ASCII letters and digits. The model folds ASCII case only and accepts only '0'-'9'. `IgnoreCase` also follows the current culture: under a Turkish culture "icy 200" does not match "ICY 200", while the model's folding is culture-free.
- The `dataSink` delegate is not called. Each chunk it would receive is recorded in `sunk`. An exception thrown by the sink is not modelled.
- `_err` starts as null in the source. The model starts it as the empty string, so the `err` getter's null before any failure is not modelled.
- `latestGGA` starts as null in the source. The model starts it as the empty string, which SendGGA would encode the same way.
- The `status` and `err` getters just return the fields `status` and `err` of the class.
- Session.ThreadTotalGrows: `total_read` is a C# `int`, and `total_read += len` wraps to a negative value once more than 2^31−1 bytes have been read. The model counts in unbounded integers, so "never decreases" is proved only for the unbounded counter, which is the source's value while fewer than 2^31 bytes have been read.
- Session.RunKeepsValid: the invariant's `total_read >= 0` holds in the model because its counter cannot wrap. The source's `int` counter breaks it after 2^31−1 bytes.
- Worker.ThreadForwards: the equation for total_read holds in unbounded integers. The source's `int` counter agrees with it only while the total stays below 2^31.
- Handshake.RequestRoundTrip: stated only for mount points without a CR. A CR in the mount point would end the request line early, and the source does not guard against it.
