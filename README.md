# picopico-phone, modelled in Dafny

picopico-phone is Rust firmware for Raspberry Pi Pico 2 W boards. It has three programs and one shared module:

- **The sensor server** (`src/bin/server/main.rs`) runs a Wi-Fi access point and accepts one TCP connection at a time on port 1234. It writes `high\n` for each rising edge on a trigger pin. An edge is only sent if it comes more than 5000 ms after the last edge sent.
- **The echo server** (`src/main.rs`) accepts on port 1234 and writes back every chunk it reads. It logs each chunk as UTF-8 text with `unwrap`.
- **The alert client** (`src/bin/client/main.rs`) does the following in order:
  - sets up a PWM buzzer and silences it;
  - joins the network, retrying while joining fails;
  - connects once to 169.254.1.1:1234;
  - rings the buzzer with a two-tone pattern for every successful read.
- **`src/music.rs`** computes the PWM configuration for a tone and plays a 30-note melody.

The model treats each program loop as a transducer. Its input is one stream of outcomes per kind of await:

- accept results;
- edge timestamps in milliseconds;
- read results;
- write results;
- join results;
- connect results;
- the set `failing` of fallible PWM calls that return an error, numbered in run order.

It writes an ordered log of `Io.Action`s. When a stream runs out, the program is blocked on that await, and the log ends there.

Each loop is an imperative Dafny method with loop invariants. Each method is proved equal to a recursive specification function over the streams. The properties the firmware promises are then proved as lemmas about those functions. Examples:

- the debounce spacing;
- what is echoed, and why a connection ends;
- at most one connect;
- the panic on the first failing unwrap;
- what the buzzer sounds like;
- the length of the melody.

Some lemmas need to say what a log *sounds like*. For this, `Io.Audible` reads the PWM entries of a log as a sequence of (configuration, duration) segments.

Modules and files:

| file | module | models |
|---|---|---|
| `pwm.dfy` | `Pwm` | the integer fields of a tone configuration, shared by `tone` and `into_cfg` |
| `io.dfy` | `Io` | actions, read results, log predicates, and what the buzzer emits |
| `utf8.dfy` | `Utf8` | strict UTF-8 validity, as `core::str::from_utf8` accepts it |
| `server.dfy` | `SensorServer` | the sensor server's accept loop and debounced write loop |
| `echo.dfy` | `EchoServer` | the echo server's accept loop and read/write loop |
| `client.dfy` | `AlertClient` | `ring_buzzer`, the join loop, the connect and the read loop |
| `music.dfy` | `Music` | the song table and the `ode_to_joy` loop |

## Model

| member | source | states |
|---|---|---|
| Pwm.AsU16 | src/music.rs:16 | `as u16` keeps a value below 2^16 unchanged; any other value is reduced modulo 2^16 |
| Pwm.ToneConfig | src/music.rs:12-20 | The configuration for frequency f has these properties. It is enabled. Its divider is 64. Its compare value is half the counter top, rounded down. From 36 Hz up, `top` is the largest count with top·64·f ≤ 150 MHz. |
| Pwm.PeriodBrackets | src/music.rs:16 | the unwrapped quotient lies between the two bounds of integer division of the system clock by 64·f |
| Pwm.TopFitsIff | src/music.rs:16 | the quotient fits 16 bits exactly when f ≥ 36 Hz; below that, the cast wraps |
| Pwm.ToneOrder | src/music.rs:16 | from 36 Hz up, a higher frequency never gets a larger counter top |
| Pwm.KnownTones | src/music.rs:23-27 | the exact configurations for the seven frequencies the firmware uses |
| Utf8.Valid | src/main.rs:135 | what `from_utf8` accepts: a chunk made of well-formed sequences one after the other; a valid chunk never starts with a continuation byte or with C0, C1 or F5 to FF |
| Utf8.HeadLen | src/main.rs:135 | the well-formed sequence at the front of a chunk is at most 4 bytes long and lies inside the chunk |
| Utf8.Encode | src/main.rs:135 | the reference encoding of a scalar value is 1 to 4 bytes long |
| Utf8.EncodeDecode | src/main.rs:135 | the encoding of every scalar value is exactly one well-formed sequence, and it decodes back to that value |
| Utf8.DecodeEncode | src/main.rs:135 | every well-formed sequence decodes to a scalar value whose encoding is that sequence |
| Utf8.EncodeAllValid | src/main.rs:135 | the encoding of any text is accepted |
| Utf8.ValidConcat | src/main.rs:135 | the concatenation of two valid chunks is valid |
| Utf8.DecodeAll | src/main.rs:135 | a valid chunk read as text: a sequence of scalar values, no more of them than bytes |
| Utf8.DecodeAllEncodes | src/main.rs:135 | every valid chunk is the encoding of some text, the one it decodes to; with `EncodeAllValid`, the valid chunks are exactly the encodings of texts |
| Utf8.SplitCharacter | src/main.rs:135 | the converse fails: the two halves of a valid two-byte character are each rejected |
| Utf8.RejectsIllFormed | src/main.rs:135 | overlong forms, encoded surrogates, code points above U+10FFFF and the byte FF are rejected |
| SensorServer.Debounce | src/bin/server/main.rs:146-148 | the gate applied to a sequence of edges, `last_sent` moving to each edge that passes; it never sends more edges than it is given |
| SensorServer.SessionAt | src/bin/server/main.rs:143-157 | a connection only moves forward through the edge and write streams, and stays inside them |
| SensorServer.Writes | src/bin/server/main.rs:149 | n writes, each of the `high\n` payload |
| SensorServer.ServerAt | src/bin/server/main.rs:127-158 | the run from any accept position: every run starts with the outer loop's head (new socket, 20 s timeout, 10 s keep-alive, LED off, accept) |
| SensorServer.ServerLog | src/bin/server/main.rs:127-158 | the run from the start of all three streams, which starts with the same head |
| SensorServer.Connection | src/bin/server/main.rs:141-157 | The inner loop starts with `last_sent` at tick 0. It writes once for each edge the gate lets through. It stops at the same edge and write positions as `SessionAt`. It reports a broken connection exactly when `SessionAt` does. |
| SensorServer.SkipStep | src/bin/server/main.rs:134-137 | a failed accept contributes the listen sequence and nothing else before the next pass |
| SensorServer.ServeStep | src/bin/server/main.rs:139-157 | an accepted client contributes its writes after the LED goes on; the outer loop resumes only after a failed write |
| SensorServer.Serve | src/bin/server/main.rs:127-158 | the whole program logs exactly `ServerLog`: a fresh socket and accept each time round, LED on per connection, a new socket after each failed write |
| SensorServer.GateBoundary | src/bin/server/main.rs:147 | the gate is strict: an edge exactly 5000 ms after the last send is dropped, and one at 5001 ms is sent |
| SensorServer.PayloadSpellsHigh | src/bin/server/main.rs:149 | the payload is the five bytes of `high\n` |
| SensorServer.DebounceExamples | src/bin/server/main.rs:141-148 | edges in the first 5000 ms after boot are dropped; a connection that starts later sends its first edge at once |
| SensorServer.DebounceSpaced | src/bin/server/main.rs:146-148 | every edge sent is more than 5000 ms after the edge sent before it |
| SensorServer.SessionFollowsDebounce | src/bin/server/main.rs:143-157 | The edges a connection writes are exactly the debounced edges it consumed. Write results decide only where the connection stops. |
| SensorServer.ConnectionSpaced | src/bin/server/main.rs:141-148 | within one connection, sent edges are more than 5000 ms apart, and the first is more than 5000 ms after boot |
| SensorServer.SessionEndsOnWriteFailure | src/bin/server/main.rs:149-155 | A connection breaks exactly when its last write failed, and every earlier write succeeded. A connection that does not break is blocked on an edge or on a write. The number of writes issued matches the edges sent. |
| SensorServer.SessionGate | src/bin/server/main.rs:146-148 | the next edge is written exactly when it passes the gate; a dropped edge leaves the rest of the connection unchanged |
| SensorServer.DebounceBounded | src/bin/server/main.rs:146-148 | every edge sent is one of the input edges; the first is more than 5000 ms after `last_sent` |
| SensorServer.ListenWellFormed | src/bin/server/main.rs:128-137 | the head of the outer loop: the LED goes off before the accept |
| SensorServer.ConnectionWellFormed | src/bin/server/main.rs:132-157 | one connection's log keeps the loops' order |
| SensorServer.ServerAtWellFormed | src/bin/server/main.rs:127-158 | From any stream positions, the run starts with a fresh socket. Every accept comes right after the LED goes off. The LED goes on only right after an accept. Each accept is followed by the LED going on or by a new socket. After the LED goes on or a write, the next action is a write or a new socket. Only `high\n` is ever written. |
| SensorServer.ServerLogWellFormed | src/bin/server/main.rs:127-158 | the whole run starts with the listen sequence and has the loops' order |
| SensorServer.AcceptOutcomes | src/bin/server/main.rs:127-140 | From any position i, the k-th accept in the log is followed by the LED going on exactly when accept i + k succeeded, and by a fresh socket exactly when it failed. A run from an accept that has an outcome in the stream reaches at least one outcome. |
| SensorServer.AcceptRetries | src/bin/server/main.rs:127-137 | The outer loop retries. When the last accept outcome of a run was a failure, or the run reached no outcome, the run ends blocked in a new accept. A run ends blocked in an accept only when every accept outcome of the stream has been consumed. |
| SensorServer.WritesThen | src/bin/server/main.rs:143-157 | In a stretch of n writes, each write but the last is followed by another write. The last is followed by whatever comes after it. |
| SensorServer.BrokenWrites | src/bin/server/main.rs:149-155 | n writes whose last one failed after n - 1 that succeeded: each success is followed by a write, and the failure by the fresh socket that starts the rest of the run. |
| SensorServer.SessionWrites | src/bin/server/main.rs:143-157 | For one connection's writes with the outcomes `SessionEndsOnWriteFailure` gives: each write is answered by the write stream. A failed write is followed by a fresh socket. A connection that did not break ends the run, blocked on an edge or on a write. |
| SensorServer.ServedWrites | src/bin/server/main.rs:139-157 | An accepted connection followed by the rest of the run: its writes are answered by the write stream, and it is followed by a fresh socket only when it broke. |
| SensorServer.WriteOutcomes | src/bin/server/main.rs:127-158 | From any stream positions, the k-th write of the run is followed by another write exactly when write w + k succeeds, and by a fresh socket exactly when it fails. So only a write error leads back to the outer loop. A run ends in a write only when that write awaits its outcome, or after a successful write with no edge left. |
| SensorServer.LedThenWrite | src/bin/server/main.rs:139-157 | From any stream positions, the LED going on is always followed by a write. So a connection that sent nothing never returns to a fresh socket: it ends the run. |
| EchoServer.EchoAt | src/main.rs:122-144 | a connection only moves forward through the read and write streams, and stays inside them |
| EchoServer.Rounds | src/main.rs:123-143 | the echoed rounds log one read and one write per chunk |
| EchoServer.Closing | src/main.rs:123-135 | the last pass of a connection panics exactly when its chunk was not valid UTF-8 |
| EchoServer.SessionLog | src/main.rs:122-144 | one connection's log contains a panic exactly when the connection ended on an invalid chunk |
| EchoServer.PassAt | src/main.rs:123-143 | one pass of the inner loop uses at most one write; the loop goes on exactly when the pass used one write and that write succeeded |
| EchoServer.PassMore | src/main.rs:122-144 | a pass that goes on contributes its steps in front of the rest of the connection, which ends the same way |
| EchoServer.PassStop | src/main.rs:122-144 | a pass that stops is the last: the connection's log ends with it, one read later |
| EchoServer.Fill | src/main.rs:123 | the read fills the front of the buffer with the received bytes and leaves the rest of the buffer as it was |
| EchoServer.Round | src/main.rs:123-143 | one pass (read, UTF-8 check, write) does exactly what `PassAt` says |
| EchoServer.Connection | src/main.rs:122-144 | the inner loop logs exactly the connection's rounds and closing, stops at the same positions and gives the same reason for ending |
| EchoServer.SkipStep | src/main.rs:114-117 | a failed accept contributes the listen sequence and nothing else before the next pass |
| EchoServer.ServeStep | src/main.rs:112-144 | an accepted connection contributes its log after the LED goes on; the outer loop resumes only after a close, a read error or a write error |
| EchoServer.EchoServerAt | src/main.rs:108-145 | the run from any accept position: every run starts with the outer loop's head (new socket, 10 s timeout, LED off, accept) |
| EchoServer.EchoLog | src/main.rs:108-145 | the run from the start of all three streams, which starts with the same head |
| EchoServer.Serve | src/main.rs:108-145 | the whole program logs exactly `EchoLog` |
| EchoServer.RoundsConcat | src/main.rs:122-144 | the log of consecutive rounds is the concatenation of their logs |
| EchoServer.EchoedAreReads | src/main.rs:122-144 | Each chunk written back is the bytes of the corresponding read, unchanged, non-empty and valid UTF-8. The chunks come from consecutive reads. The number of writes matches the number of chunks echoed. |
| EchoServer.EchoEnds | src/main.rs:123-143 | A connection ends on a zero-length read, a read error or an invalid chunk exactly when its last read was one. It ends on a write error exactly when its last write failed, and every earlier write succeeded. Otherwise a stream ran out. |
| EchoServer.RoundsWellFormed | src/main.rs:122-144 | every write of echoed rounds comes right after a read, and there is no panic |
| EchoServer.ClosingWellFormed | src/main.rs:123-135 | closing a connection keeps the order; only the panic case halts |
| EchoServer.ConnectionWellFormed | src/main.rs:112-144 | one connection's log keeps the loops' order |
| EchoServer.EchoServerAtWellFormed | src/main.rs:108-145 | From any stream positions, the run starts with a fresh socket. The LED goes off before every accept, and goes on only right after one. Every write comes right after a read. Nothing follows a panic. |
| EchoServer.EchoLogWellFormed | src/main.rs:108-145 | the whole run starts with the listen sequence and has the loops' order |
| EchoServer.AcceptOutcomes | src/main.rs:108-120 | From any position i, the k-th accept in the log is followed by the LED going on exactly when accept i + k succeeded, and by a fresh socket exactly when it failed. A run from an accept that has an outcome in the stream reaches at least one outcome. |
| EchoServer.AcceptRetries | src/main.rs:108-117 | The outer loop retries. When the last accept outcome of a run was a failure, or the run reached no outcome, the run ends blocked in a new accept. A run ends blocked in an accept only when every accept outcome of the stream has been consumed. |
| EchoServer.SessionStartsWithRead | src/main.rs:122-123 | every connection's log starts with a read |
| EchoServer.LastLog | src/main.rs:122-144 | The last pass of a connection logs one read, then a panic when the chunk is not UTF-8, a write-back when the chunk is valid and non-empty, and nothing more otherwise. |
| EchoServer.ConnectionReads | src/main.rs:122-144 | For one connection followed by the rest of the run, from read r: the k-th read is followed by the write-back of result r + k when it is valid non-empty UTF-8, by a panic when it is not UTF-8, and by a fresh socket when it is a zero-length read or an error. This holds when the rest of the run is a run from a fresh socket after a zero-length read, a read error or a write error, and is empty after any other end. |
| EchoServer.ConnectionWrites | src/main.rs:122-144 | For one connection followed by the rest of the run, from write w: the k-th write is followed by the next read exactly when write w + k succeeds, and by a fresh socket when it fails. The rest of the run is as for `ConnectionReads`. |
| EchoServer.ReadOutcomes | src/main.rs:108-145 | From any stream positions, the k-th read of the run is followed by the write-back of result r + k when it is valid non-empty UTF-8, by a panic when it is not UTF-8, and by a fresh socket when it is a zero-length read or an error. So those two end the connection and lead back to the outer loop. A run ends in a read only when the read stream has run out. |
| EchoServer.WriteOutcomes | src/main.rs:108-145 | From any stream positions, the k-th write of the run is followed by the next read exactly when write w + k succeeds, and by a fresh socket exactly when it fails. So a write error leads back to the outer loop. A run ends in a write only when the write stream has run out. |
| EchoServer.EchoThenClose | src/main.rs:122-144 | a read of `hi` is echoed; the following zero-length read closes the connection, and the server listens again |
| EchoServer.SplitCharacterPanics | src/main.rs:135 | a character split across two reads makes the first read panic, though the two halves together are valid |
| AlertClient.Script | src/bin/client/main.rs:66-77 | the ten steps of a ring in which no call fails |
| AlertClient.RingLog | src/bin/client/main.rs:66-77 | a ring logs the whole script exactly when none of its fallible calls fails; otherwise it logs a proper prefix of the script and then the panic |
| AlertClient.RingBuzzer | src/bin/client/main.rs:66-77 | the ten steps of `ring_buzzer` happen up to the first failing unwrap, which panics; the result says whether the ring completed |
| AlertClient.Attempts | src/bin/client/main.rs:142-147 | finds the first successful join from a position: every join before it failed |
| AlertClient.JoinAt | src/bin/client/main.rs:142-147 | the join loop from position j: it starts with an attempt and logs one attempt and one report per failed join before the first success, plus the final attempt |
| AlertClient.JoinLoop | src/bin/client/main.rs:142-147 | the join loop logs one attempt per pass and reports each failure; it succeeds exactly when some join succeeds |
| AlertClient.ReadStep | src/bin/client/main.rs:163-170 | a successful read contributes a ring; the loop goes on only if the ring completed |
| AlertClient.ReadAt | src/bin/client/main.rs:162-171 | the read loop from position k: it starts with a read, and a read error or a pending read ends it with no ring |
| AlertClient.ReadLoop | src/bin/client/main.rs:162-171 | the read loop logs exactly `ReadAt`: a read per pass, a ring per successful read, stopping at a read error or a panic |
| AlertClient.ConnectLog | src/bin/client/main.rs:152-171 | everything from the socket on starts with the socket and the one connect; a failed connect is followed by the panic and nothing else |
| AlertClient.Connect | src/bin/client/main.rs:154-171 | from the connect on, the client logs exactly `ConnectLog`: socket, connect, a panic if the connect fails, otherwise the options and the read loop |
| AlertClient.ClientLog | src/bin/client/main.rs:91-171 | a whole run starts by loading tone A; it panics straight after exactly when the initial silencing fails |
| AlertClient.Run | src/bin/client/main.rs:91-171 | The whole client logs exactly `ClientLog`. The order is: initial configuration, silence, join loop, link wait, connect, read loop. A failed initial silence panics. |
| AlertClient.TonesAreIntoCfg | src/bin/client/main.rs:85-86 | the two buzzer tones are `into_cfg(4698, 0.5)` and `into_cfg(4186, 0.5)` |
| AlertClient.RingTiming | src/bin/client/main.rs:66-77 | a complete ring waits 2350 ms in total |
| AlertClient.BeepSound | src/bin/client/main.rs:67-71 | a beep sounds the configuration loaded before it, for its duration; afterwards the next configuration is loaded and the slice is silent |
| AlertClient.RingSound | src/bin/client/main.rs:66-77 | A ring sounds the current configuration for 500 ms, then tone A for 750 ms. It leaves tone B loaded and the slice silent. |
| AlertClient.InitSilent | src/bin/client/main.rs:91-93 | the initial configuration is tone A, and the initial duty cycle leaves the buzzer silent |
| AlertClient.FirstRingDiffers | src/bin/client/main.rs:66-77 | The first two rings after boot sound A, A, then B, A. |
| AlertClient.Chimes | src/bin/client/main.rs:66-77 | n rings sound two segments each |
| AlertClient.ChimesAt | src/bin/client/main.rs:66-77 | In n rings, ring j beeps for 500 ms and then sounds tone A for 750 ms. Its first beep is the loaded tone for j = 0 and tone B for every later j. |
| AlertClient.ReadLoopSound | src/bin/client/main.rs:162-171 | without PWM failures, the read loop from any position sounds one ring per successful read up to the first read error or the end of the stream, and nothing else; after at least one ring, tone B is loaded and the slice is silent |
| AlertClient.JoinQuiet | src/bin/client/main.rs:142-147 | the join loop neither waits nor touches the buzzer |
| AlertClient.ClientSound | src/bin/client/main.rs:91-171 | In a whole run without PWM failures where a join and the connect succeed, the buzzer is silent until the first read. The n-th ring then beeps A, then A, if n = 1, and B, then A, otherwise. There is one ring per successful read. |
| AlertClient.RingStopsAtFirstFailure | src/bin/client/main.rs:66-77 | A ring whose calls all succeed logs the whole script. Otherwise it logs the script up to its first failing duty-cycle call, then the panic. The four fallible positions are the duty-cycle calls. |
| AlertClient.OkRun | src/bin/client/main.rs:163-171 | the run of successful reads from a position ends at a read error or at the end of the stream |
| AlertClient.ReadsRingOnce | src/bin/client/main.rs:163-170 | without PWM failures, the client rings exactly once per successful read, in order, then issues one more read |
| AlertClient.EmptyReadRings | src/bin/client/main.rs:165 | a zero-length read rings the buzzer like any other successful read |
| AlertClient.JoinRetries | src/bin/client/main.rs:142-147 | the join loop retries once for every failed join before the first success, reporting each failure |
| AlertClient.NoConnectInJoin | src/bin/client/main.rs:142-147 | the join loop never connects |
| AlertClient.NoConnectInRing | src/bin/client/main.rs:66-77 | ringing never connects |
| AlertClient.NoConnectInReads | src/bin/client/main.rs:162-171 | the read loop never connects: a read error ends the run, with no reconnect |
| AlertClient.ConnectLogOnce | src/bin/client/main.rs:150-171 | from the link wait on, there is exactly one connect |
| AlertClient.ConnectOnce | src/bin/client/main.rs:142-171 | a whole run connects at most once |
| AlertClient.ConnectOutcome | src/bin/client/main.rs:154-160 | a failed connect panics straight away; a successful one sets the 20 s timeout and 10 s keep-alive before any read |
| AlertClient.ExampleRun | src/bin/client/main.rs:91-171 | one failed join, one successful join, one read and then a read error give this exact log |
| Music.NotesAreTones | src/music.rs:23-27 | the five note configurations are `tone` at 1047, 1175, 1319, 1397 and 1568 Hz |
| Music.Steps | src/music.rs:150-156 | the song played in full logs five steps per note |
| Music.NoteSteps | src/music.rs:151-155 | the five steps of one note in which neither call fails |
| Music.NoteTiming | src/music.rs:151-155 | one note played in full waits for its length and then 50 ms |
| Music.PlayAt | src/music.rs:150-158 | the loop from note k: at most five steps for each note left |
| Music.Play | src/music.rs:150-158 | The loop logs exactly `PlayAt`. It ends at the first failing duty-cycle call. It reports success exactly when neither call of any note failed. |
| Music.OdeToJoy | src/music.rs:22-159 | `ode_to_joy` plays the song table in that way, over its 60 fallible calls |
| Music.PlayClean | src/music.rs:150-156 | with no failure, every note is played in full, in order |
| Music.PlayStops | src/music.rs:150-156 | A failure at call j stops the loop inside note j/2. Before it come the full steps of the earlier notes. A failure at the second call of a note comes after the note sounded. |
| Music.OdeToJoyOutcome | src/music.rs:150-158 | the song plays in full exactly when no call fails; otherwise it stops at the first failing call |
| Music.FailureExamples | src/music.rs:151-154 | a failure of the very first call plays nothing; a failure of the very last call leaves only the final gap unplayed |
| Music.StepsSound | src/music.rs:150-156 | played in full, a melody whose notes all sound emits exactly its notes, in order, and ends silent on the last tone |
| Music.NoteSound | src/music.rs:151-155 | one note sounds its tone for its duration, and the slice ends silent |
| Music.StepsTiming | src/music.rs:150-156 | playing a melody waits for the sum of its note lengths plus 50 ms per note |
| Music.Song | src/music.rs:28-149 | the tune table: thirty notes over the five tones, all 250 ms except the two 500 ms notes closing bars 4 and 8 |
| Music.SongNotes | src/music.rs:28-149 | the song has 30 notes; each is one of the five tones, audible and of positive length |
| Music.SongPhrases | src/music.rs:28-149 | the second half repeats the first twelve notes; the two halves differ only in their endings |
| Music.SongTiming | src/music.rs:28-156 | the notes last 8000 ms in total, and the song takes 9500 ms with the gaps |
| Music.SongSound | src/music.rs:28-156 | played in full, the song emits its melody note by note and ends silent on C |

## Left out

- `src/net.rs` (`init_cyw43`) is not part of this model. It is hardware bring-up with no logic: radio firmware load, PIO/SPI wiring, static cells and task spawning.
- The radio and network runner tasks (`cyw43_task`, `net_task`) are left out. They are driver loops run concurrently by the executor, in foreign code.
- The server's `pin_check_task` is left out. It only logs, and it is never spawned.
- Access-point start, the radio `init`, power management and the static IP configuration are left out. They are calls into driver code with no outcome the loops inspect.
- TCP, Wi-Fi and PWM semantics are outcomes in the input streams and entries in the log. These include timeouts, keep-alive, WPA2, partial writes inside `write_all` and the hardware effect of a duty cycle beyond on/off.
- `defmt` log lines are not actions, except the report of each failed join. That report is the only logging the model's properties talk about.
- Real time is not modelled. Waits are logged durations, and edge times are naturals in milliseconds. The tick-to-millisecond truncation of `as_millis` is not modelled.
- Pwm.Config: only `enable`, `divider`, `top` and `compare_a` are modelled. The other fields keep their defaults.
- Pwm.ToneConfig: the model computes `compare_a` as `top / 2`. This is exact for the 0.5 duty cycle both callers pass, because the f64 product is exact and the cast truncates. A general f64 duty cycle is not modelled.
- Pwm.ToneConfig: it requires a non-zero frequency whose product with 64 fits a `u64`. Rust panics on division by zero, and the overflow's behaviour depends on the build profile. The firmware only calls it with constant frequencies.
- Io.PwmStep: after `set_config`, the model counts the slice as sounding when the configuration is enabled with a non-zero compare value. This is a reading of the hardware, not something the firmware states.
- EchoServer.Connection: it requires every read to fit the 4096-byte buffer, which `socket.read` guarantees. EchoServer.Round and EchoServer.Serve have the same requires.
- AlertClient.Run: `wait_link_up` is assumed to complete once a join has succeeded. The model has no stream for it.
- AlertClient.ReadsRingOnce: it asks that no PWM call of the read loop fails. The failing case is covered by AlertClient.RingStopsAtFirstFailure and AlertClient.ReadStep.
- Music.Play, Music.PlayAt, AlertClient.RingBuzzer, AlertClient.RingLog and AlertClient.ClientLog: a failing duty-cycle call is not itself in the log; only its consequence is, a return with the error in `ode_to_joy` and a `Panic` in the client (the unwraps in `ring_buzzer` and the `expect` on the initial `set_duty_cycle(0)`). The failed call has no effect the model can name.
- SensorServer.Passes: edge times are assumed nondecreasing, as `Instant::now` produces them, and never earlier than boot. An edge earlier than `last_sent` would give a negative difference in the model and be dropped, while `duration_since` would not yield a small duration for it.
- The rx and tx buffers that the sockets reuse across connections are not modelled. They are socket internals. The echo buffer `buf` is modelled as an array.

## Notes on the code

Where the code and the natural reading of the design differ, the model follows the code. None of these is claimed as a bug:

- The sensor server sets `last_sent` to tick 0, the boot instant, on each connection. So edges in the first 5000 ms after boot are dropped (`SensorServer.DebounceExamples`), and on a later connection the first edge is sent at once.
- The alert client rings on any `Ok(_)` read, including a zero-length one, which signals end of stream (`AlertClient.EmptyReadRings`). It has no rate limiter of its own. A read error ends the run without a reconnect (`AlertClient.NoConnectInReads`), and a failed connect panics (`AlertClient.ConnectOutcome`).
- `ring_buzzer` loads each beep's configuration after that beep has sounded. So the first beep plays whatever was loaded before: tone A on the first ring and tone B on every later one (`AlertClient.FirstRingDiffers`).
- The echo server checks each read on its own. A multi-byte character split across two reads panics, even though the stream as a whole is valid UTF-8 (`EchoServer.SplitCharacterPanics`).
