# Rover MEMS agent: verified model

A Dafny model of the parts of rover-mems-ecu that keep state: the K-line session loops of the MEMS
1.x, 2J and 3 handlers, the security-access key, the background serial reader, the cover-art and
maneuver-icon stores, the log ring, the catalog framing and the 5-baud wake-up of the 1.9. Each
imperative piece is a class or a method proved against a specification function; the lemmas beside
it state what that specification means over whole runs.

## How it is laid out

| file | models |
|---|---|
| `Bytes.dfy` | bytes, padding, big-endian fields, exclusive or |
| `Line.dfy` | what one pass of a session loop sees (a *tick*), runs of a loop, and a loop played against an environment |
| `Auth.dfy` | `GenerateKey` as a shift register, and the 27 01 / 27 02 exchange of section 6.3 of ISO 14230-3 |
| `Mems1x.dfy`, `Mems1xProperties.dfy` | the 1.x loop; its runs on any bytes, and against an ECU |
| `Mems2j.dfy`, `Mems2jProperties.dfy` | the 2J loop; its poll cycle, security access and runs against an ECU |
| `Mems3.dfy`, `Mems3Properties.dfy` | the 3 loop; its frames, security access and runs against an ECU |
| `SerialReader.dfy` | the read goroutine, the channel and the consumer as interleaved steps |
| `Chunks.dfy`, `NowPlaying.dfy`, `Navigation.dfy` | chunk reassembly and the two stores |
| `LogRing.dfy` | the bounded log and its cursors |
| `HeadUnit.dfy` | catalog fragmentation and its receiver |
| `SlowInit.dfy` | the 5-baud waveform and the keyword handshake of ISO 9141-2 |

**A session loop and its environment.** A tick is one pass's share of the outside world: the time
as it starts and once its read has returned, whether the context was cancelled, a user command
posted meanwhile, the bytes a read returned and whether it failed. A list of ticks is therefore one
way to cut a byte stream into reads, with any timing, and the theorems quantify over all such lists
(a read may return any number of bytes; where the 128-byte read buffer decides what can happen, in
the bounds on a MEMS 3 backlog, reads are held to it). `Receive` gives the effect of one tick on a
session as a value; the class methods `Loop` and `ReadData` carry the source's loop and are proved to compute
`Receive` tick by tick until it stops, with silence after the script. A Go panic is the exit
`Panicked`. The recorded fields `sent`, `handled` and `taken` list every transmission, the replies
acted on and the user command pending at each.

**An ECU.** For the refinement theorems a world holds the session, the bytes on the wire that it
has not read, and every response the ECU has given. A pass may read any prefix of the wire, and a
transmission makes the ECU put a response on it. Responses are those the loops are written for: the
1.x ECU echoes each byte and sends a reply starting with it; the 2J line may pad with 0x00, may echo
or not, and replies with the service plus 0x40 or with 0x7F; the MEMS 3 line may deliver any number
of frames with our own header (echoes) or unrecognised payloads before a recognised reply.

**Where code and comments differ**, the code is followed:

- `internal/ecu/mems3/mems3.go:398-400` says that the ECU's replies carry the request header; the
  loop (lines 210-215) skips every such frame as an echo, and so does the model.
- `internal/ecu/ecu.go:111-113` says that streaming consumers cannot silently miss lines; a poller
  more than 100 lines behind does; `CompleteExactlyWhenKeepingUp` gives the exact condition and
  `OneLineTooMany` a run.
- `internal/ecu/mems1x/loop.go:481-492` guards offsets 0x16 and 0x1F with `>=`; the frame is then one
  byte too short; `ParserPanicsExactly` says exactly when the parser indexes past its end, and
  `BadFrameRun` is a run that does.
- `internal/serial/readwrite.go:10-12` says a new session cannot read the old one's bytes; a stopped
  goroutine that still holds bytes may push them; `RestartIsolation` gives the exact condition and
  `StoppedGoroutineLeaks` a run.
- `internal/ecu/mems1x/loop.go:218-225` is never effective: two bytes starting with 0xCC are taken by
  the command branch before it (an assertion in `Recognise`).
- `internal/ecu/mems1x/loop.go:79-87` describes the handshake up to D0; a user command sent before it
  skips the rest, and `ConnectsExactly` says exactly when Connected is set.

## Model

| member | source | states |
|---|---|---|
| Auth.GenerateKey | internal/ecu/auth.go:18-54 | the loop computes as many mixing rounds of the seed as its four selector bits ask for |
| Auth.RoundIsClock | internal/ecu/auth.go:36-47 | on any 16-bit word a round is one clock of a shift register fed by bits 9, 8, 2 and 1 whose bit 0 is forced, and it stays a 16-bit word |
| Auth.ClocksAreRegister | internal/ecu/auth.go:35-51 | after any number of rounds bits 1 to 15 are a window of the unforced register, and bit 0 depends on the last round only |
| Auth.KeyFromRegister | internal/ecu/auth.go:35-53 | closed form for every seed and number of rounds: clock the register, then compute the low bit once |
| Auth.RegisterKeepsSeed | internal/ecu/auth.go:36-36 | the register starts with the seed's own sixteen bits, so result bits 1 to 15-k are seed bits 1+k to 15 |
| Auth.KeyFitsTwoBytes | internal/ecu/auth.go:46-53 | every key of a 16-bit seed is 16 bits wide and survives the two bytes of a 27 02 request |
| Auth.RoundCountFromWord | internal/ecu/auth.go:25-29 | the number of rounds is one more than the number written by seed bits 0, 4, 7 and 15, the first the least |
| Auth.KeyIsRegister | internal/ecu/auth.go:18-54 | so the key of every 16-bit seed is the closed form at that number of rounds |
| Auth.SomeKeys | internal/ecu/auth.go:18-54 | three keys: 0080 gives 0005, 0002 gives 8001 and 2008 gives 1004 |
| Auth.XorIsBitwise | internal/ecu/mems3/mems3.go:465-471 | the exclusive or the MEMS 3 check byte is made with differs from zero exactly in the bits in which its operands differ |
| Bytes.StripsOnlyZeros | internal/ecu/mems2j/mems2j.go:385-388 | stripping takes leading zeros and nothing else off a buffer |
| Bytes.HighByteFirst | internal/ecu/mems3/mems3.go:262-262 | 16-bit fields are written and read high byte first |
| Mems1x.Mems1x.NextCommand | internal/ecu/mems1x/loop.go:88-120 | answers with the pending known command, else with the byte that follows the reply, and clears what was pending |
| Mems1x.Mems1x.SendByte | internal/ecu/mems1x/loop.go:128-135 | writes one byte, remembers it and arms echo tracking |
| Mems1x.Mems1x.ParseData80 | internal/ecu/mems1x/loop.go:355-425 | succeeds exactly when no offset it reads is past the frame's end |
| Mems1x.Mems1x.ParseData7D | internal/ecu/mems1x/loop.go:434-493 | the same for the 0x7D frame |
| Mems1x.Mems1x.Recognise | internal/ecu/mems1x/loop.go:187-281 | after the read a pass drops an echo, waits, or answers a complete reply and empties the buffer, as specified |
| Mems1x.Mems1x.Pass | internal/ecu/mems1x/loop.go:163-185 | one pass has exactly the specified effect, for every outcome of its read |
| Mems1x.Mems1x.Loop | internal/ecu/mems1x/loop.go:149-303 | the whole run is the specified one, tick by tick, ends with an error, and never by falling through |
| Mems1xProperties.CommandTablesAreInverse | internal/ecu/mems1x/loop.go:37-72 | the name and byte tables are inverse to each other |
| Mems1xProperties.ParserPanicsExactly | internal/ecu/mems1x/loop.go:434-492 | a frame the loop admits is indexed past its end if and only if it is a 0x7D frame of packet size 0x16 or 0x1F with nothing after it |
| Mems1xProperties.TimesOutExactly | internal/ecu/mems1x/loop.go:163-185 | after any ticks, the next pass times out if and only if the last 200 reads brought nothing, and otherwise ends on a cancelled context and then on a read error, if and only if there is one |
| Mems1xProperties.SilenceEndsTheLoop | internal/ecu/mems1x/loop.go:283-302 | any finite script followed by 201 silent passes has ended |
| Mems1xProperties.EachPostSentAtMostOnce | internal/ecu/mems1x/loop.go:88-100 | over any run the byte of a user command is sent at most as often as its name was posted |
| Mems1xProperties.StepKeepsInStep | internal/ecu/mems1x/loop.go:163-281 | every pass keeps lock step with the ECU: buffer and wire are what is left of the outstanding echo and reply |
| Mems1xProperties.LoopRefinesAutomaton | internal/ecu/mems1x/loop.go:88-282 | for every cut into reads the bytes sent are the automaton's, each reply is handled whole and once, and nothing is left over |
| Mems1xProperties.PanicsExactlyOnBadFrame | internal/ecu/mems1x/loop.go:267-276 | in step, a pass panics if and only if it completes such a 0x7D reply |
| Mems1xProperties.ReplyIsAnswered | internal/ecu/mems1x/loop.go:191-281 | once the outstanding echo and reply have arrived, this pass or the next answers, with no further byte needed |
| Mems1xProperties.SessionTrace | internal/ecu/mems1x/loop.go:79-87 | for every cut into reads and with no known command pending or posted, the bytes sent are CA 75 F4 D0 and then 80 and 7D by turns, reply by reply, and Connected is set exactly from the fourth, the D0 reply, on |
| Mems1xProperties.ConnectsExactly | internal/ecu/mems1x/loop.go:94-119 | in every state in step with the ECU, Connected is set if and only if four replies were answered and none of the first three with a known user command |
| Mems1xProperties.EarlyCommandNeverConnects | internal/ecu/mems1x/loop.go:94-119 | after a known user command sent before the D0 reply Connected is never set, whatever happens from then on |
| Mems1xProperties.EarlyCommandRun | internal/ecu/mems1x/loop.go:88-120 | one such run: the fan test posted before the first reply, sending CA 1D 80 7D 80 |
| Mems1xProperties.SentAfterACommand | internal/ecu/mems1x/loop.go:94-120 | in step, a known command goes out as the next byte, and from its reply on 80 and 7D by turns, starting with 80 whatever the command, until the next one |
| Mems1xProperties.BadFrameRun | internal/ecu/mems1x/loop.go:481-492 | one run from the start, with no command posted, that panics on a 23-byte 0x7D frame of packet size 0x16 |
| Mems1xProperties.NoEchoNoSession | internal/ecu/mems1x/loop.go:191-200 | on an adapter without echo nothing but the first 0xCA is ever sent |
| Mems2j.Mems2j.constructor | internal/ecu/mems2j/mems2j.go:30-36 | a fresh handler holds the program's command table and the table built from its poll order |
| Mems2j.BuildNextAfterPoll | internal/ecu/mems2j/mems2j.go:208-218 | the loop builds the specified table for any order |
| Mems2j.Mems2j.TakeUserCommand | internal/ecu/mems2j/mems2j.go:223-239 | returns the pending command if it is known, and clears it either way |
| Mems2j.Mems2j.SendCommand | internal/ecu/mems2j/mems2j.go:249-264 | writes and remembers length, payload and check byte |
| Mems2j.FrameChecks | internal/ecu/mems2j/mems2j.go:242-258 | for every command the last byte of its frame is the sum of all bytes before it, the length byte included |
| Mems2j.ShortFrames | internal/ecu/mems2j/mems2j.go:249-258 | the frames of all commands of one and two bytes, byte by byte, and the check byte of the init command |
| Mems2j.Mems2j.SendNextCommand | internal/ecu/mems2j/mems2j.go:276-329 | sends the frame of the request that follows the reply |
| Mems2j.Mems2j.ParseResponse | internal/ecu/mems2j/parse.go:29-265 | on a payload of at least one byte updates Connected, seed, key, sensor bytes and fault registers as specified and never indexes past its end |
| Mems2j.Mems2j.ParseData | internal/ecu/mems2j/parse.go:79-238 | of each data reply exactly the bytes at its identifier's offsets are kept, if and only if all of them are there |
| Mems2j.SensorBytes | internal/ecu/mems2j/parse.go:79-238 | which bytes each identifier's values come from and from what length on, identifier by identifier |
| Mems2j.ParseFaults | internal/ecu/mems2j/faults.go:15-188 | reads each of ten fault registers if and only if the reply is long enough for it |
| Mems2j.FaultOffsets | internal/ecu/mems2j/faults.go:15-188 | the registers read are 4, 5, 8, 9, 12, 13, 23, 25, 26 and 28, each exactly when the reply reaches it |
| Mems2j.Mems2j.FindReply | internal/ecu/mems2j/mems2j.go:385-413 | trims padding and echoes, waits for a whole packet and finds exactly its payload |
| Mems2j.Mems2j.Process | internal/ecu/mems2j/mems2j.go:385-418 | the part of a pass after the read has the specified effect |
| Mems2j.Mems2j.Pass | internal/ecu/mems2j/mems2j.go:372-418 | one pass has exactly the specified effect |
| Mems2j.Mems2j.Loop | internal/ecu/mems2j/mems2j.go:366-426 | the whole run is the specified one, tick by tick, and it ends |
| Mems2jProperties.TableFollowsOrder | internal/ecu/mems2j/mems2j.go:208-218 | with pairwise distinct second bytes each entry leads to the next and the last to ping |
| Mems2jProperties.PollCycle | internal/ecu/mems2j/mems2j.go:175-329 | in a session in step, after a pong and k granted requests the frame sent is that of entry k + 1 of the cycle, for every k and every such order |
| Mems2jProperties.CycleGoesOn | internal/ecu/mems2j/mems2j.go:276-329 | from whatever place of the cycle a frame sent stands at, k granted requests lead k places on |
| Mems2jProperties.CycleVisitsOnce | internal/ecu/mems2j/mems2j.go:171-183 | two places of the cycle hold the same request if and only if they are whole periods apart |
| Mems2jProperties.ThePollOrder | internal/ecu/mems2j/mems2j.go:175-183 | the program's 22-entry order meets the assumptions |
| Mems2jProperties.TheTables | internal/ecu/mems2j/mems2j.go:189-204 | all its requests and commands are frames the loop can tell from replies |
| Mems2jProperties.CommandPreempts | internal/ecu/mems2j/mems2j.go:223-329 | a user command goes out in place of the request due; after its reply polling starts over, at the fault list for 71 CB, at the first data request for 71 D0 and at the ping for any other, and stays on the cycle for k more granted requests |
| Mems2jProperties.CommandAbandonsTheCycle | internal/ecu/mems2j/mems2j.go:282-329 | so the rest of the interrupted period is dropped: a request follows the command if and only if its place is the one polling starts over from |
| Mems2jProperties.MidCycleCommandRun | internal/ecu/mems2j/mems2j.go:223-329 | one run from the start in which service 13, posted when 21 01 is due, is sent instead and the rest of the period is dropped, frame by frame |
| Mems2jProperties.UnknownCommandChangesNothing | internal/ecu/mems2j/mems2j.go:232-239 | two runs whose posted names stand for the same requests, unknown and empty names alike, send the same frames and end the same way |
| Mems2jProperties.SessionTrace | internal/ecu/mems2j/mems2j.go:266-329 | for every cut, padding and choice of echoing, with no known command and granted replies the frames sent are 10 A0, 27 01, 27 02 with the seed's key, and then the poll cycle from its ping on |
| Mems2jProperties.UndisturbedRun | internal/ecu/mems2j/mems2j.go:366-418 | for every n there is such a run that handles n replies, each the shortest that grants its request |
| Mems2jProperties.OneRound | internal/ecu/mems2j/mems2j.go:171-329 | its first 27 frames, byte by byte with check bytes: unlocking with seed 0080 and key 0005, and the polls once round |
| Mems2jProperties.CommandFrames | internal/ecu/mems2j/mems2j.go:98-116 | the frames of the thirteen user commands, byte by byte |
| Mems2jProperties.SecurityAccess | internal/ecu/mems2j/parse.go:42-53 | in every state reachable on any bytes the key is the seed's, and each answer to a whole seed reply is 27 02 with two bytes that decode to that seed's key |
| Mems2jProperties.ConnectsExactly | internal/ecu/mems2j/parse.go:33-37 | in every state reachable on any bytes, Connected is set if and only if C1 D5 8F has been taken for a reply |
| Mems2jProperties.AnyBytesFollowAutomaton | internal/ecu/mems2j/mems2j.go:276-329 | on any bytes at all the frames sent are the automaton's for the payloads taken for replies and the commands then pending |
| Mems2jProperties.KeysAnswerSeeds | internal/ecu/mems2j/mems2j.go:310-320 | in every reachable state the 27 02 frames not chosen by the user are exactly the answers to replies headed 67 01, and carry the key for the last whole seed |
| Mems2jProperties.ShortSeedReplySendsOldKey | internal/ecu/mems2j/mems2j.go:311-320 | in every reachable state a seed reply under four bytes was answered by 27 02 with the key of the seed before |
| Mems2jProperties.RefusedPingRecovers | internal/ecu/mems2j/mems2j.go:266-329 | after 7F 3E 10, at whatever point, the loop asks for a seed, sends its key and takes up the poll cycle from its ping, k places on after k granted requests |
| Mems2jProperties.TimesOutExactly | internal/ecu/mems2j/mems2j.go:367-382 | the next pass times out if and only if it starts 1000 ms or more after the last bytes came, and otherwise ends the run if and only if the context is cancelled |
| Mems2jProperties.EachPostSentAtMostOnce | internal/ecu/mems2j/mems2j.go:223-239 | over any run the frame of a user command is sent at most as often as it was posted |
| Mems2jProperties.OnOutstanding | internal/ecu/mems2j/mems2j.go:385-413 | of any part of padding, echo and reply in the buffer a pass finds exactly the reply, or leaves the rest outstanding; no reply is taken for an echo |
| Mems2jProperties.LoopRefinesAutomaton | internal/ecu/mems2j/mems2j.go:249-419 | for every cut, padding and choice of echoing, one reply payload is consumed per request and the requests sent are the automaton's |
| Mems2jProperties.ResponseIsAnswered | internal/ecu/mems2j/mems2j.go:385-418 | once a response has arrived in full, this pass or the next answers it |
| Mems3.ParseFaults | internal/ecu/mems3/mems3.go:422-449 | yields one record per whole three bytes after the header, in order |
| Mems3.XorAllBytes | internal/ecu/mems3/mems3.go:465-471 | the exclusive or of all bytes |
| Mems3.Mems3.TakeUserCommand | internal/ecu/mems3/mems3.go:350-365 | returns the pending command if it is known, and clears it either way |
| Mems3.Mems3.SendCommand | internal/ecu/mems3/mems3.go:401-413 | writes header, length, payload and check byte |
| Mems3.Mems3.SendNextCommand | internal/ecu/mems3/mems3.go:370-392 | sends the frame of the request that follows the canonical reply |
| Mems3.Mems3.HandleFrame | internal/ecu/mems3/mems3.go:248-344 | judges a payload as specified, updates Connected, seed, key, the fault list and the sensor bytes, and changes nothing for one it does not recognise |
| Mems3.DataReplies | internal/ecu/mems3/mems3.go:300-341 | a payload is handled as 61 xx if and only if it is headed so and xx is 00 or 06 with at least 12 bytes, 0A or 0B with at least 6, or 21 with at least 4 |
| Mems3.RecognisedExactly | internal/ecu/mems3/mems3.go:249-290 | and as any other reply if and only if it is headed 5A 9A, is a whole seed reply, is headed 58 with a byte after it, or is one of 50, 67 02, 7E and 54 00 00 |
| Mems3.SensorBytes | internal/ecu/mems3/mems3.go:300-341 | which bytes each identifier's values come from |
| Mems3.FaultsRoundTrip | internal/ecu/mems3/mems3.go:422-447 | a fault reply gives back the records written into it, for any second byte and any rest of one or two bytes |
| Mems3.Mems3.ParseData | internal/ecu/mems3/mems3.go:300-344 | of each data reply exactly the bytes at its identifier's offsets are kept, if and only if all of them are there |
| Mems3.Mems3.Process | internal/ecu/mems3/mems3.go:189-227 | the part of a pass after the read has the specified effect |
| Mems3.Mems3.Pass | internal/ecu/mems3/mems3.go:165-187 | one pass has exactly the specified effect |
| Mems3.Mems3.ReadData | internal/ecu/mems3/mems3.go:155-236 | the whole run is the specified one, tick by tick, ends with an error, and never by falling through |
| Mems3Properties.RequestChecks | internal/ecu/mems3/mems3.go:401-413 | every frame written XORs to zero |
| Mems3Properties.TimesOutExactly | internal/ecu/mems3/mems3.go:165-187 | the next pass times out if and only if the last 200 reads brought nothing, and otherwise ends on a cancelled context and then on a read error, if and only if there is one |
| Mems3Properties.SilenceEndsTheLoop | internal/ecu/mems3/mems3.go:230-235 | any finite script followed by 201 silent passes has ended |
| Mems3Properties.PanicsExactly | internal/ecu/mems3/mems3.go:165-223 | a pass panics if and only if it reads without error and then finds, at the head of the buffer, a whole foreign frame whose payload is the lone byte 58 |
| Mems3Properties.LoneFaultByteRun | internal/ecu/mems3/mems3.go:287-289 | one run from the start that panics, on the frame B8 F7 13 01 58 00 |
| Mems3Properties.SessionTrace | internal/ecu/mems3/mems3.go:150-153 | for every cut and any frames to skip, with no known command and granted replies the frames sent are init, 10 A0, 27 01, 27 02 with the seed's key unless the seed is zero, and then the cycle from its ping on |
| Mems3Properties.UndisturbedRun | internal/ecu/mems3/mems3.go:155-228 | for every n there is such a run that handles n replies, each the shortest that grants its request |
| Mems3Properties.OneRound | internal/ecu/mems3/mems3.go:54-70 | its first twelve frames, request by request, each with header, length and a check byte that makes it XOR to zero: unlocking with seed 0080 and key 0005, and once round the cycle |
| Mems3Properties.CycleGoesOn | internal/ecu/mems3/mems3.go:54-70 | from any place of ping, faults, 00, 06, 0A, 0B, 21, k granted requests lead k places on |
| Mems3Properties.CommandPreempts | internal/ecu/mems3/mems3.go:350-375 | a posted clearfaults goes out in place of the request due, and once it is granted polling starts over at the fault list |
| Mems3Properties.SecurityAccess | internal/ecu/mems3/mems3.go:261-272 | on any bytes, 27 02 answers exactly the seed replies of at least four bytes with a nonzero seed, and its two bytes decode to that seed's key |
| Mems3Properties.ConnectsExactly | internal/ecu/mems3/mems3.go:250-255 | in every state reachable on any bytes, Connected is set if and only if a payload headed 5A 9A has been handled |
| Mems3Properties.EachPostSentAtMostOnce | internal/ecu/mems3/mems3.go:350-365 | over any run the frame of the user command is sent at most as often as it was posted |
| Mems3Properties.OwnEchoIsSkippable | internal/ecu/mems3/mems3.go:210-215 | the echo of any request is a frame the loop discards |
| Mems3Properties.LookAtPacket | internal/ecu/mems3/mems3.go:193-223 | part of a packet waits, a whole one is taken off exactly |
| Mems3Properties.LoopRefinesAutomaton | internal/ecu/mems3/mems3.go:165-228 | for every cut, behind any echoes and unrecognised frames, exactly the recognised payloads are handled, one per request, and the buffer always starts on a frame boundary |
| Mems3Properties.BacklogIsWorkedOff | internal/ecu/mems3/mems3.go:165-223 | with everything arrived and fewer than 200 frames to skip the reply is handled before the loop can time out |
| Mems3Properties.LongBacklogTimesOut | internal/ecu/mems3/mems3.go:165-232 | with 200 or more, less the empty reads already counted, it times out with the reply in its buffer |
| Mems3Properties.BacklogExactly | internal/ecu/mems3/mems3.go:163-232 | for every cut of a response into reads of at most 128 bytes and silence after it, the reply is handled if and only if fewer than 200 packets are left to skip when all has been read, a number computed from packet and read lengths alone; otherwise the loop times out |
| Mems3Properties.BacklogOf200IsWorkedOff | internal/ecu/mems3/mems3.go:163-232 | behind at most 200 packets the reply is handled for every such cut |
| Mems3Properties.LongerBacklogTimesOut | internal/ecu/mems3/mems3.go:163-232 | behind at least 200 packets more than there are reads it never is |
| Mems3Properties.WaitingBacklogExactly | internal/ecu/mems3/mems3.go:163-232 | when the whole response is waiting and no packet to skip exceeds 128 bytes, it is handled if and only if fewer packets come before it than 200 plus the reads of 128 bytes needed |
| Mems3Properties.EchoBacklogRun | internal/ecu/mems3/mems3.go:163-232 | with n echoes of a ping waiting before the reply, the loop times out with the reply in its buffer if and only if n is 210 or more |
| Mems3Properties.NoReplyNoSession | internal/ecu/mems3/mems3.go:193-232 | from any state, while the line carries only echoes and unrecognised frames, however cut, nothing more is sent, and in silence the loop times out |
| Mems3Properties.RefusalIsSkippable | internal/ecu/mems3/mems3.go:287-344 | a refusal 7F and a data reply too short for its identifier are such frames |
| SerialReader.Reader.Read | internal/serial/readwrite.go:86-98 | whatever the goroutines do between two receives, it returns the bytes it took out, in order, and stops at an empty channel |
| SerialReader.Reader.StartReading | internal/serial/readwrite.go:32-45 | drains the channel and starts a goroutine with a done channel of its own |
| SerialReader.Reader.StopReading | internal/serial/readwrite.go:74-83 | closes the current done channel; a second call does nothing |
| SerialReader.StopEndsTheCurrent | internal/serial/readwrite.go:74-83 | in any state a stop reaches the goroutine of the last start and no other |
| SerialReader.StoppedReadsNoMore | internal/serial/readwrite.go:47-69 | from then on, over every interleaving, at most the one read it is in returns |
| SerialReader.StoppedCanExit | internal/serial/readwrite.go:47-69 | wherever it stands it can reach its end in at most three steps of its own, full channel or not |
| SerialReader.EndsOnlyWhenStopped | internal/serial/readwrite.go:47-69 | nothing but a stop or a failing read ends a goroutine |
| SerialReader.StepKeepsSound | internal/serial/readwrite.go:44-69 | every atomic step keeps conservation and the channel's bound |
| SerialReader.Conservation | internal/serial/readwrite.go:32-109 | over every interleaving with any number of restarts, each port's pushed, held and unread bytes are its stream in order, and the channel holds at most 1024 |
| SerialReader.RestartIsolation | internal/serial/readwrite.go:30-69 | no later interleaving delivers a foreign byte if and only if at the restart no earlier goroutine can still push one |
| SerialReader.StoppedGoroutineLeaks | internal/serial/readwrite.go:61-67 | one restart from the idle state whose session first receives a byte of the stopped goroutine's port |
| SerialReader.RestartDeliversTheNewPort | internal/serial/readwrite.go:32-98 | then what the session has received is a prefix of the new port's stream, whatever the interleaving |
| SerialReader.RestartCanDeliverAll | internal/serial/readwrite.go:32-98 | and there is always a way on by which it comes to have the whole stream |
| Chunks.AssembleChunks | internal/nowplaying/nowplaying.go:219-222 | appends the stored chunks in index order |
| Chunks.SizeAfterWrite | internal/nowplaying/nowplaying.go:200-205 | the running count stays the size of what is stored, overwrites included |
| Chunks.ArrivedSize | internal/nowplaying/nowplaying.go:207-222 | delivered chunks reach the whole's length exactly when only empty parts are missing, and then assemble to the whole |
| NowPlaying.Store.HandleArtControl | internal/nowplaying/nowplaying.go:144-165 | starts a transfer within the caps, or refuses and changes nothing |
| NowPlaying.Store.HandleArtChunk | internal/nowplaying/nowplaying.go:172-230 | stores, expires, rejects, overflows or publishes as specified, and the running count stays true |
| NowPlaying.Store.GetArt | internal/nowplaying/nowplaying.go:255-262 | returns the published art, if there is any |
| NowPlaying.TransferInvariant | internal/nowplaying/nowplaying.go:144-230 | after any writes a live transfer has fewer bytes than announced, all indices below its count, within the caps |
| NowPlaying.PublishedArt | internal/nowplaying/nowplaying.go:218-225 | art changes only when a transfer completes, to exactly its announced length, in index order, under its id |
| NowPlaying.DeliveryIndependence | internal/nowplaying/nowplaying.go:172-230 | any order and repetition of an image's chunks before expiry publishes exactly the image when the last non-empty one arrives, never overflows, and keeps the old art until then |
| NowPlaying.DeliveryFromControl | internal/nowplaying/nowplaying.go:144-230 | from the control write on: accepted if and only if within 524288 bytes and 4096 chunks, and then chunks within 30 s of it publish exactly the image under its id once they cover it, and not before |
| NowPlaying.RefusedWrite | internal/nowplaying/nowplaying.go:144-211 | a refused write changes nothing, unless it is late or overflows, which is always refused and ends the transfer but keeps the art |
| NowPlaying.ArtComesInTime | internal/nowplaying/nowplaying.go:155-225 | over every interleaving, art that changes has the id and length of the last accepted control write and is its chunks in index order, none of them more than 30 s after it |
| NowPlaying.LateChunkEnds | internal/nowplaying/nowplaying.go:191-195 | over every interleaving, from a late chunk on no transfer is live and the art stays as it was until the next accepted control write |
| Navigation.IconTransfer.Put | internal/navigation/navigation.go:159-164 | stores a chunk at any 16-bit index and keeps the count true |
| Navigation.Store.HandleNavigation | internal/navigation/navigation.go:106-117 | replaces the navigation and reports whether its icon is there |
| Navigation.Store.HandleIconControl | internal/navigation/navigation.go:121-135 | starts a transfer without any check |
| Navigation.Store.HandleIconChunk | internal/navigation/navigation.go:142-189 | stores, overflows or publishes as specified |
| Navigation.PublishedLength | internal/navigation/navigation.go:177-183 | a published icon lacks exactly the bytes stored at indices not below chunk_count |
| Navigation.AgreesWithCoverArt | internal/navigation/navigation.go:142-189 | with all indices in range an icon write does what an unexpired cover-art write does |
| Navigation.DeliveryIndependence | internal/navigation/navigation.go:142-189 | any order and repetition of an icon's chunks publishes exactly the icon when the last non-empty one arrives, and keeps the old one until then |
| Navigation.StrayChunkIsLost | internal/navigation/navigation.go:159-184 | a single chunk at an index out of range completes the transfer with an empty icon |
| Navigation.HasIconIsCurrent | internal/navigation/navigation.go:191-200 | over every interleaving an icon is reported only if it is non-empty and has the id the last navigation refers to, and it is then made of the chunks of the last transfer to complete, announced under that id |
| Navigation.HasIconExactly | internal/navigation/navigation.go:191-200 | and it is reported if and only if the last transfer to complete was announced under that id, which is not empty, and has bytes to show |
| Navigation.ShownLength | internal/navigation/navigation.go:177-183 | what is shown has the announced length less the bytes that transfer stored at indices not below its count |
| LogRing.State.AppendLog | internal/ecu/ecu.go:89-98 | the ring stays the last 100 lines of everything appended and the sequence number counts them |
| LogRing.State.LogLinesCopy | internal/ecu/ecu.go:101-105 | returns the retained lines |
| LogRing.State.LogLinesSince | internal/ecu/ecu.go:114-129 | returns the retained part of the history after the cursor, for any cursor, and the next cursor |
| LogRing.PollersSeeHistoryInOrder | internal/web/server.go:259-318 | over any interleaving each poller is given a part of the history, in order and without repetition |
| LogRing.CompleteExactlyWhenKeepingUp | internal/ecu/ecu.go:107-113 | it is complete if and only if at most 100 lines arrived before each of its polls |
| LogRing.PollerThatKeepsUpMissesNothing | internal/ecu/ecu.go:107-129 | then it is the history up to its cursor, line by line |
| LogRing.LaggingPollLosesTheOldest | internal/ecu/ecu.go:114-129 | a poll more than 100 lines behind misses exactly the lines the ring has dropped |
| LogRing.OneLineTooMany | internal/ecu/ecu.go:89-129 | one such run: 101 appends and a poll, which is given 100 lines |
| HeadUnit.BuildFrames | internal/headunit/protocol.go:131-157 | one frame per fragment, with index and count in front |
| HeadUnit.CountIsCeiling | internal/headunit/protocol.go:135-138 | the count is the least positive number of payloads that hold the document, so one when it is empty |
| HeadUnit.FragmentSizes | internal/headunit/protocol.go:140-149 | no fragment is too large and all but the last are full |
| HeadUnit.HeadersDecode | internal/headunit/protocol.go:150-153 | from its fifth byte on a frame is its fragment, and bytes 0 and 1 are its index and bytes 2 and 3 the count, high byte first, in all frames if and only if there are at most 65535 |
| HeadUnit.RoundTrip | internal/headunit/protocol.go:127-157 | reassembly by index in any arrival order, with repetitions, gives the document back if and only if there are at most 65535 frames |
| HeadUnit.SocketMessageFits | internal/web/server.go:569-569 | a catalog of one 64 KiB message needs at most 365 frames, and a whole one needs 365 |
| SlowInit.KLine.SendFrame | internal/ecu/mems19/mems19.go:308-324 | drives the maximal runs of any bit frame, or a proper prefix of them when a Break fails |
| SlowInit.KLine.Send5BaudWakeup | internal/ecu/mems19/mems19.go:294-325 | the line is high for 500 ms and then low 400, high 400, low 200, high 200, low 600, high 200, or a part of that up to the Break that fails |
| SlowInit.WakeUpRuns | internal/ecu/mems19/mems19.go:298-313 | those are the runs of start bit, address 0x16 low bit first and stop bit at 5 baud |
| SlowInit.SampledRuns | internal/ecu/mems19/mems19.go:282-284 | the runs of any bit frame, sampled per bit time, are the frame |
| SlowInit.RunsAlternate | internal/ecu/mems19/mems19.go:308-323 | levels alternate, so equal neighbours are always coalesced |
| SlowInit.RunsDuration | internal/ecu/mems19/mems19.go:313-313 | the whole lasts 200 ms per bit |
| SlowInit.UartReadsAddress | internal/ecu/mems19/mems19.go:298-303 | a UART sampling the line reads back any address, least significant bit first |
| SlowInit.KeywordFrame | internal/ecu/mems19/mems19.go:186-193 | the search finds the two bytes after the first 0x55 |
| SlowInit.KeywordsFollowSync | internal/ecu/mems19/mems19.go:186-193 | it finds a pair if and only if these are, in this order, the two bytes after the first 0x55 |
| SlowInit.Port.ReadUntil | internal/ecu/mems19/mems19.go:226-249 | accumulates, strips and matches as specified until match, error or deadline |
| SlowInit.Port.HandleWakeUpHandshake | internal/ecu/mems19/mems19.go:147-174 | sends one challenge byte unless a read failed before or the write fails, and waits for 0xE9 |
| SlowInit.KeywordIsStable | internal/ecu/mems19/mems19.go:186-193 | a keyword once found is not changed by any further bytes |
| SlowInit.HandshakeIgnoresTheCut | internal/ecu/mems19/mems19.go:147-160 | for every script of reads, failures and deadlines, keywords are found if and only if the bytes heard before the deadline have a first 0x55 with two bytes after it, and the challenge is then 255 minus the second of them, and 0x7C otherwise |
| SlowInit.EchoIgnoresTheCut | internal/ecu/mems19/mems19.go:207-219 | the link is confirmed if and only if 0xE9 is heard before the second deadline |

## Left out

- Sensor scaling and fault texts: of a data or fault reply the raw bytes are kept (2J, MEMS 3) or only the offsets read (1.x); the scaled values and the texts are left out.
- Mems2j.Mems2j.ParseResponse: keeps raw sensor bytes and fault registers, not the scaled values and the bit texts.
- Mems2j.ParseFaults: keeps the registers, not the text each of their bits stands for.
- Mems3.Mems3.HandleFrame: keeps raw sensor bytes, not the scaled values.
- Mems3.ParseFaults: keeps number and status of each record, not the texts they are looked up to.
- Sleeps, port opening, the wake-up pulse of the 2J and the capture files: timing and hardware, with no effect on the byte streams modelled.
- Failing writes of the three session loops: the source logs them and goes on as if the bytes were sent, so what is recorded as sent is what was attempted.
- Mems2j.Mems2j.Loop: once its script is used up it counts one millisecond per silent pass.
- Mems1x.Mems1x.Loop: a read that fails for good is taken to drop the bytes it returned, as the source does; the lock-step theorems let such a read return none.
- SerialReader.Reader.Read: the goroutine's steps are interleaved with the consumer's by a schedule; Start and Stop are not interleaved with each other.
- The registry and factory, Snapshot copies, alert and error sequence numbers, and the publish/subscribe fan-out: counters and copies without interplay with the rest.
- JSON decoding of the BLE payloads, HTTP, WebSocket and Bluetooth glue: the stores start from decoded fields.
- Metadata of the now-playing store and ParseCommand of the head unit: plain assignments and field checks.
- RC5 and the simulated ECU: the same loop shape with weaker framing, and random data.
- flushInput of the 1.9 wake-up: it discards bytes until a read returns none.
- The 64-bit width of counters and cursors: numbers are unbounded here.
