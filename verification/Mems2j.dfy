/** internal/ecu/mems2j: the MEMS 2J request/response loop over length-prefixed frames. */
module Mems2j {
  import opened Bytes
  import opened Line
  import opened Auth

  const IDLE_TIMEOUT: int := 1000  // milliseconds

  const INIT: seq<byte> := [0x81, 0x13, 0xF7, 0x81, 0x0C]
  const START_DIAGNOSTIC: seq<byte> := [0x10, 0xA0]
  const REQUEST_SEED: seq<byte> := [0x27, 0x01]
  const PING: seq<byte> := [0x3E]
  const REQUEST_FAULTS: seq<byte> := [0x21, 0x19]
  const REQUEST_DATA00: seq<byte> := [0x21, 0x00]

  const WOKE: seq<byte> := [0xC1, 0xD5, 0x8F]
  const DIAG_STARTED: seq<byte> := [0x50]
  const KEY_ACCEPTED: seq<byte> := [0x67, 0x02]
  const PONG: seq<byte> := [0x7E]
  const FAULTS_CLEARED: seq<byte> := [0x71, 0xCB]
  const IMMO_LEARNT: seq<byte> := [0x71, 0xD0]
  const REFUSE_PING: seq<byte> := [0x7F, 0x3E, 0x10]

  const POLL_ORDER: seq<seq<byte>> := [
    [0x21, 0x19],
    [0x21, 0x00], [0x21, 0x01], [0x21, 0x02], [0x21, 0x03], [0x21, 0x05], [0x21, 0x06], [0x21, 0x07],
    [0x21, 0x08], [0x21, 0x09], [0x21, 0x0A], [0x21, 0x0B], [0x21, 0x0C], [0x21, 0x0D], [0x21, 0x0F],
    [0x21, 0x10], [0x21, 0x11], [0x21, 0x12], [0x21, 0x13], [0x21, 0x21], [0x21, 0x25], [0x21, 0x3A]]

  /** The two tables that drive a session. */
  datatype Config = Config(commands: map<string, seq<byte>>, poll: Table)

  /** The request the loop may have outstanding: at most 17 bytes, opening with a service it uses. */
  predicate GoodRequest(req: seq<byte>)
  {
    1 <= |req| <= 17 &&
    (req[0] == 0x10 || req[0] == 0x27 || req[0] == 0x3E || req[0] == 0x31 || req[0] == 0x23
     || req[0] == 0x13 || req[0] == 0x33 || req[0] == 0x21)
  }

  const USER_COMMANDS: map<string, seq<byte>> := map[
    "clearfaults" := [0x31, 0xCB] + Zeros(15),
    "learnimmo" := [0x31, 0xD0] + Zeros(8),
    "read722" := [0x23, 0x00, 0x07, 0x22, 0x01],
    "service13" := [0x13],
    "service31_d5" := [0x31, 0xD5],
    "service33_d5" := [0x33, 0xD5],
    "service33_c0" := [0x33, 0xC0],
    "service33_c8" := [0x33, 0xC8],
    "service33_d2" := [0x33, 0xD2],
    "service33_d4" := [0x33, 0xD4],
    "service33_da" := [0x33, 0xDA],
    "service33_c1" := [0x33, 0xC1],
    "service33_d7" := [0x33, 0xD7]]

  // ---------------------------------------------------------------- the poll table

  /** From the second byte of a 61 xx reply to the request that follows it. */
  type Table = map<byte, seq<byte>>

  predicate Pollable(order: seq<seq<byte>>)
  {
    forall i :: 0 <= i < |order| ==> |order[i]| >= 2
  }

  /** The table after n turns of the building loop. */
  function PollTable(order: seq<seq<byte>>, n: nat): Table
    requires Pollable(order) && n <= |order|
  {
    if n == 0 then map[]
    else PollTable(order, n - 1)[order[n - 1][1] := if n < |order| then order[n] else PING]
  }

  method BuildNextAfterPoll(order: seq<seq<byte>>) returns (m: Table)
    requires Pollable(order)
    ensures m == PollTable(order, |order|)
  {
    m := map[];
    for i := 0 to |order|
      invariant m == PollTable(order, i)
    {
      var next := PING;
      if i + 1 < |order| {
        next := order[i + 1];
      }
      m := m[order[i][1] := next];
    }
  }

  // ---------------------------------------------------------------- one pass of the loop

  function Sum(s: seq<byte>, n: nat): nat
    requires n <= |s|
  {
    if n == 0 then 0 else Sum(s, n - 1) + s[n - 1]
  }

  /** [len][payload][checksum] */
  function Frame(command: seq<byte>): (r: seq<byte>)
    ensures |r| == |command| + 2
    ensures r[0] == |command| % 256 && r[1..|command| + 1] == command
  {
    var body: seq<byte> := [|command| % 256] + command;
    body + [Sum(body, |body|) % 256]
  }

  /** Sums add up over concatenation. */
  lemma {:induction false} SumSplits(a: seq<byte>, b: seq<byte>, n: nat)
    requires n <= |b|
    ensures Sum(a + b, |a| + n) == Sum(a, |a|) + Sum(b, n)
  {
    if n > 0 {
      SumSplits(a, b, n - 1);
    } else {
      SumOfPrefix(a, b, |a|);
    }
  }

  lemma {:induction false} SumOfPrefix(a: seq<byte>, b: seq<byte>, n: nat)
    requires n <= |a|
    ensures Sum(a + b, n) == Sum(a, n)
  {
    if n > 0 {
      SumOfPrefix(a, b, n - 1);
    }
  }

  lemma SumOfOne(x: byte)
    ensures Sum([x], 1) == x as int
  {
    assert Sum([x], 0) == 0;
  }

  /** The last byte of a frame is the sum of all the bytes before it, the length byte included. */
  lemma FrameChecks(command: seq<byte>)
    ensures var f := Frame(command);
            && f[|f| - 1] == Sum(f[..|f| - 1], |f| - 1) % 256
            && f[|f| - 1] == (|command| % 256 + Sum(command, |command|)) % 256
  {
    hide Sum;
    var head: seq<byte> := [|command| % 256];
    LastByte(head + command, Sum(head + command, |head + command|) % 256);
    SumOfBody(head, command);
  }

  lemma LastByte(body: seq<byte>, x: byte)
    ensures var f := body + [x]; |f| - 1 == |body| && f[..|f| - 1] == body && f[|f| - 1] == x
  {
  }

  lemma SumOfBody(head: seq<byte>, command: seq<byte>)
    requires |head| == 1
    ensures Sum(head + command, |head + command|) == head[0] as int + Sum(command, |command|)
  {
    SumSplits(head, command, |command|);
    SumOfOne(head[0]);
    assert head == [head[0]];
  }

  /** Frames byte by byte. The init command is checked the same way. */
  lemma ShortFrames(a: byte, b: byte)
    ensures Frame([a]) == [1, a, (1 + a as int) % 256]
    ensures Frame([a, b]) == [2, a, b, (2 + a as int + b as int) % 256]
    ensures INIT[4] == Sum(INIT[..4], 4) % 256 == 0x0C
  {
    FrameChecks([a]);
    SumOfOne(a);
    FrameChecks([a, b]);
    SumSplits([a], [b], 1);
    SumOfOne(b);
    assert [a] + [b] == [a, b];
    var i: seq<byte> := [0x81, 0x13, 0xF7, 0x81];
    assert INIT[..4] == i;
    assert Sum(i, 0) == 0;
    assert Sum(i, 1) == 0x81 && Sum(i, 2) == 0x94 && Sum(i, 3) == 0x18B && Sum(i, 4) == 0x20C;
  }

  function NextRequest(c: Config, command: string, key: nat, payload: seq<byte>): seq<byte>
  {
    var user := UserCommand(c.commands, command);
    if user.Some? then user.value
    else if payload == WOKE then START_DIAGNOSTIC
    else if payload == DIAG_STARTED then REQUEST_SEED
    else if payload == KEY_ACCEPTED then PING
    else if payload == PONG || payload == FAULTS_CLEARED then REQUEST_FAULTS
    else if payload == IMMO_LEARNT then REQUEST_DATA00
    else if payload == REFUSE_PING then REQUEST_SEED
    else if |payload| >= 2 && payload[..2] == SEED then SEND_KEY + PutUint16(key)
    else if |payload| >= 2 && payload[0] == 0x61 && payload[1] in c.poll then c.poll[payload[1]]
    else PING
  }

  // ---------------------------------------------------------------- what a payload is read for

  /** The offsets a data reply 61 xx is read at; none for one that is only logged. */
  function DataOffsets(pid: byte): seq<nat>
  {
    if pid in {0x01, 0x02, 0x03, 0x05, 0x07, 0x08, 0x09, 0x0B, 0x12, 0x21, 0x25} then [2, 3]
    else if pid in {0x0A, 0x0C, 0x3A} then [2, 3, 4, 5]
    else if pid in {0x0D, 0x0F, 0x11, 0x13} then [2]
    else if pid == 0x10 then [4, 5]
    else []
  }

  /** The sensor bytes last read for each identifier. A reply too short for any of its offsets is
      dropped whole, and every other reply leaves them alone. */
  function DataAfter(data: map<byte, seq<byte>>, payload: seq<byte>): map<byte, seq<byte>>
  {
    if |payload| >= 2 && payload[0] == 0x61 && DataOffsets(payload[1]) != [] && Within(DataOffsets(payload[1]), payload)
    then data[payload[1] := Pick(payload, DataOffsets(payload[1]))]
    else data
  }

  function FirstByte(payload: seq<byte>): (r: seq<byte>)
    requires |payload| >= 3
    ensures r == Pick(payload, [2])
  {
    [payload[2]]
  }

  function FirstWord(payload: seq<byte>): (r: seq<byte>)
    requires |payload| >= 4
    ensures r == Pick(payload, [2, 3])
  {
    [payload[2], payload[3]]
  }

  function SecondWord(payload: seq<byte>): (r: seq<byte>)
    requires |payload| >= 6
    ensures r == Pick(payload, [4, 5])
  {
    [payload[4], payload[5]]
  }

  function BothWords(payload: seq<byte>): (r: seq<byte>)
    requires |payload| >= 6
    ensures r == Pick(payload, [2, 3, 4, 5])
  {
    [payload[2], payload[3], payload[4], payload[5]]
  }

  /** The length guards admit exactly the payloads that have all the offsets read. */
  lemma GuardsFit(payload: seq<byte>)
    ensures Within([2], payload) <==> |payload| >= 3
    ensures Within([2, 3], payload) <==> |payload| >= 4
    ensures Within([4, 5], payload) <==> |payload| >= 6
    ensures Within([2, 3, 4, 5], payload) <==> |payload| >= 6
  {
    if |payload| < 3 { assert [2][0] >= |payload|; }
    if |payload| < 4 { assert [2, 3][1] >= |payload|; }
    if |payload| < 6 { assert [4, 5][1] >= |payload| && [2, 3, 4, 5][3] >= |payload|; }
  }

  /** Where the sensor bytes come from, for a payload that is long enough, and that a shorter one and
      every other identifier leave them alone. */
  lemma SensorBytes(data: map<byte, seq<byte>>, p: seq<byte>)
    requires |p| >= 2 && p[0] == 0x61
    ensures var after := DataAfter(data, p);
            match p[1]
            case 0x0A => after == if |p| >= 6 then data[0x0A := [p[2], p[3], p[4], p[5]]] else data
            case 0x0C => after == if |p| >= 6 then data[0x0C := [p[2], p[3], p[4], p[5]]] else data
            case 0x3A => after == if |p| >= 6 then data[0x3A := [p[2], p[3], p[4], p[5]]] else data
            case 0x10 => after == if |p| >= 6 then data[0x10 := [p[4], p[5]]] else data
            case 0x0D => after == if |p| >= 3 then data[0x0D := [p[2]]] else data
            case 0x0F => after == if |p| >= 3 then data[0x0F := [p[2]]] else data
            case 0x11 => after == if |p| >= 3 then data[0x11 := [p[2]]] else data
            case 0x13 => after == if |p| >= 3 then data[0x13 := [p[2]]] else data
            case pid =>
              if pid == 0x01 || pid == 0x02 || pid == 0x03 || pid == 0x05 || pid == 0x07 || pid == 0x08 || pid == 0x09
                 || pid == 0x0B || pid == 0x12 || pid == 0x21 || pid == 0x25 then
                after == if |p| >= 4 then data[pid := [p[2], p[3]]] else data
              else after == data
  {
    hide Within;
    GuardsFit(p);
    assert |p| >= 3 ==> FirstByte(p) == Pick(p, [2]);
    assert |p| >= 4 ==> FirstWord(p) == Pick(p, [2, 3]);
    assert |p| >= 6 ==> SecondWord(p) == Pick(p, [4, 5]) && BothWords(p) == Pick(p, [2, 3, 4, 5]);
  }

  const FAULTS: seq<byte> := [0x61, 0x19]
  const FAULT_OFFSETS: set<nat> := {4, 5, 8, 9, 12, 13, 23, 25, 26, 28}

  /** The registers at some offsets of a fault reply, as many as it is long enough for. */
  function Registers(offsets: set<nat>, payload: seq<byte>): map<nat, byte>
  {
    map o | o in offsets && o < |payload| :: payload[o]
  }

  function FaultsAfter(faults: map<nat, byte>, payload: seq<byte>): map<nat, byte>
  {
    if |payload| >= 2 && payload[..2] == FAULTS then Registers(FAULT_OFFSETS, payload) else faults
  }

  /** Which registers a fault reply is read for, by its length. */
  lemma FaultOffsets(p: seq<byte>)
    ensures var r := Registers(FAULT_OFFSETS, p);
            && (forall o :: o in r ==> r[o] == p[o])
            && (|p| >= 29 ==> r.Keys == {4, 5, 8, 9, 12, 13, 23, 25, 26, 28}) && (|p| <= 4 ==> r == map[])
            && forall o: nat :: o in r <==>
                 o < |p| && (4 <= o <= 5 || 8 <= o <= 9 || 12 <= o <= 13 || o == 23 || 25 <= o <= 26 || o == 28)
  {
  }

  method ParseFaults(buffer: seq<byte>) returns (faults: map<nat, byte>)
    ensures faults == Registers(FAULT_OFFSETS, buffer)
  {
    ghost var read;
    faults, read := KeepRegister(map[], {}, buffer, 4);
    hide Registers;
    faults, read := KeepRegister(faults, read, buffer, 5);
    faults, read := KeepRegister(faults, read, buffer, 8);
    faults, read := KeepRegister(faults, read, buffer, 9);
    faults, read := KeepRegister(faults, read, buffer, 12);
    faults, read := KeepRegister(faults, read, buffer, 13);
    faults, read := KeepRegister(faults, read, buffer, 23);
    faults, read := KeepRegister(faults, read, buffer, 25);
    faults, read := KeepRegister(faults, read, buffer, 26);
    faults, read := KeepRegister(faults, read, buffer, 28);
    assert read == FAULT_OFFSETS;
  }

  /** One guarded access. */
  method KeepRegister(faults: map<nat, byte>, ghost read: set<nat>, buffer: seq<byte>, o: nat)
    returns (r: map<nat, byte>, ghost all: set<nat>)
    requires faults == Registers(read, buffer)
    ensures all == read + {o} && r == Registers(all, buffer)
  {
    r, all := faults, read + {o};
    if |buffer| >= o + 1 {
      r := r[o := buffer[o]];
    }
  }

  // ---------------------------------------------------------------- the session

  /** sent records every frame written by sendCommand; handled and taken record, for each reply
      acted on, its payload and the user command then pending. */
  datatype Session = Session(
    buffer: seq<byte>, lastData: int, lastSent: seq<byte>, seed: nat, key: nat, command: string, connected: bool,
    sent: seq<seq<byte>>, handled: seq<seq<byte>>, taken: seq<string>)

  /** What parseResponse keeps of a payload besides sensor values and faults. */
  function Parsed(s: Session, payload: seq<byte>): Session
  {
    if payload == WOKE then s.(connected := true)
    else if SeedReply(payload) then s.(seed := SeedOf(payload), key := KeyFor(SeedOf(payload)))
    else s
  }

  function Send(s: Session, request: seq<byte>): Session
  {
    s.(lastSent := Frame(request), sent := s.sent + [Frame(request)])
  }

  /** Parses the payload, takes the pending command, answers and empties the buffer. */
  function Answer(c: Config, s: Session, payload: seq<byte>): (r: Session)
    ensures r.lastData == s.lastData
  {
    var p := Parsed(s, payload);
    Send(p, NextRequest(c, s.command, p.key, payload)).(
      buffer := [], command := "", handled := s.handled + [payload], taken := s.taken + [s.command])
  }

  /** Whether the packet at the head of b starts with the frame last sent. */
  predicate IsEcho(lastSent: seq<byte>, b: seq<byte>)
    requires b != []
  {
    |lastSent| > 0 && |b| >= |lastSent| && b[0] as int + 2 >= |lastSent| && b[..|lastSent|] == lastSent
  }

  /** Whether a buffer without leading padding starts with a whole packet that is no echo. */
  predicate AtReply(lastSent: seq<byte>, b: seq<byte>)
  {
    b != [] && !(|b| >= 5 && b[..5] == INIT) && |b| >= b[0] as int + 2 && !IsEcho(lastSent, b)
  }

  /** The buffer after a pass that found no reply: an echo goes, a part of a packet stays. */
  function Trim(lastSent: seq<byte>, b: seq<byte>): seq<byte>
  {
    if b == [] then []
    else if |b| >= 5 && b[..5] == INIT then b[5..]
    else if |b| < b[0] as int + 2 then b
    else if IsEcho(lastSent, b) then b[|lastSent|..]
    else b
  }

  /** What a pass does with a buffer that does not start with padding. */
  function Handle(c: Config, s: Session, b: seq<byte>): (r: Session)
    requires b != [] ==> b[0] != 0
    ensures r.lastData == s.lastData
  {
    if AtReply(s.lastSent, b) then Answer(c, s, b[1..b[0] as int + 1])
    else s.(buffer := Trim(s.lastSent, b))
  }

  function Act(c: Config, s: Session): (r: Session)
    ensures r.lastData == s.lastData
  {
    Handle(c, s, StripZeros(s.buffer))
  }

  /** The state once a pass has taken what the reader had. */
  function Received(s: Session, t: Tick): Session
  {
    s.(lastData := if t.data != [] then t.heard else s.lastData, command := Posted(t, s.command),
       buffer := s.buffer + t.data)
  }

  function Receive(c: Config, s: Session, t: Tick): Status<Session>
  {
    if t.now - s.lastData >= IDLE_TIMEOUT then Stopped(TimedOut, s)
    else if t.cancelled then Stopped(Cancelled, s)
    else Running(Act(c, Received(s, t)))
  }

  function Step(c: Config): (Session, Tick) -> Status<Session>
  {
    (s: Session, t: Tick) => Receive(c, s, t)
  }

  function Start(now: int, command: string): Session
  {
    Session([], now, [], 0, 0, command, false, [], [], [])
  }

  /** Silence lasting one more millisecond. */
  function Silent(clock: int): Tick { SILENCE.(now := clock + 1, heard := clock + 1) }

  /** The milliseconds of silence left before the loop gives up. */
  function Patience(clock: int, lastData: int): nat
  {
    if clock - lastData >= IDLE_TIMEOUT then 0 else IDLE_TIMEOUT - (clock - lastData)
  }

  function LastClock(clock: int, ticks: seq<Tick>): int
  {
    if ticks == [] then clock else ticks[|ticks| - 1].heard
  }

  /** The tick that follows others: the script's, and once it is used up silence a millisecond later. */
  function FollowingTick(clock: int, script: seq<Tick>, ticks: seq<Tick>): Tick
  {
    if |ticks| < |script| then script[|ticks|] else Silent(LastClock(clock, ticks))
  }

  predicate FedBy(clock: int, script: seq<Tick>, ticks: seq<Tick>)
  {
    forall i :: 0 <= i < |ticks| ==> ticks[i] == FollowingTick(clock, script, ticks[..i])
  }

  lemma FedByOne(clock: int, script: seq<Tick>, ticks: seq<Tick>, t: Tick)
    requires FedBy(clock, script, ticks) && t == FollowingTick(clock, script, ticks)
    ensures FedBy(clock, script, ticks + [t])
  {
    var all := ticks + [t];
    forall i | 0 <= i < |all| ensures all[i] == FollowingTick(clock, script, all[..i]) {
      assert all[..i] == ticks[..i];
      assert ticks[..|ticks|] == ticks;
    }
  }

  class Mems2j {
    // ecu.State
    var connected: bool
    var userCommand: string
    var data: map<byte, seq<byte>>
    var faults: map<nat, byte>
    // MEMS2J
    var lastSentCommand: seq<byte>
    var seed: nat
    var key: nat
    const userCommands: map<string, seq<byte>>
    const nextAfterPoll: Table
    // the reader and port: what the reads to come deliver and when, and every frame written
    var clock: int
    var script: seq<Tick>
    var written: seq<seq<byte>>
    ghost var handled: seq<seq<byte>>
    ghost var taken: seq<string>

    constructor (clock: int, script: seq<Tick>)
      ensures this.clock == clock && this.script == script && written == [] && handled == [] && taken == []
      ensures !connected && userCommand == "" && lastSentCommand == [] && seed == 0 && key == 0
      ensures data == map[] && faults == map[]
      ensures Tables() == Config(USER_COMMANDS, PollTable(POLL_ORDER, |POLL_ORDER|))
    {
      this.clock, this.script := clock, script;
      written, handled, taken := [], [], [];
      connected, userCommand, lastSentCommand, seed, key, data, faults := false, "", [], 0, 0, map[], map[];
      var table := BuildNextAfterPoll(POLL_ORDER);
      nextAfterPoll := table;
      userCommands := USER_COMMANDS;
    }

    function Tables(): Config { Config(userCommands, nextAfterPoll) }

    ghost function View(buffer: seq<byte>, lastData: int): Session
      reads this
    {
      Session(buffer, lastData, lastSentCommand, seed, key, userCommand, connected, written, handled, taken)
    }

    /** The next tick of the script; once it is used up, silence one millisecond later. A posted
        command is visible from then on. */
    method Poll() returns (t: Tick)
      modifies this`script, this`userCommand, this`clock
      ensures t == if old(script) == [] then Silent(old(clock)) else old(script)[0]
      ensures script == if old(script) == [] then [] else old(script)[1..]
      ensures clock == t.now && userCommand == old(userCommand)
    {
      t := Silent(clock);
      if script != [] {
        t, script := script[0], script[1..];
      }
      clock := t.now;
    }

    method TakeUserCommand() returns (command: Option<seq<byte>>)
      modifies this`userCommand
      ensures userCommand == "" && command == UserCommand(userCommands, old(userCommand))
    {
      var name := userCommand;
      userCommand := "";
      if name == "" {
        return None;
      }
      command := if name in userCommands then Some(userCommands[name]) else None;
    }

    method SendCommand(command: seq<byte>)
      modifies this`lastSentCommand, this`written
      ensures lastSentCommand == Frame(command) && written == old(written) + [Frame(command)]
    {
      var finalCommand: seq<byte> := [|command| % 256];
      finalCommand := finalCommand + command;
      var checksum: int := 0;
      for i := 0 to |finalCommand|
        invariant checksum == Sum(finalCommand, i)
      {
        checksum := checksum + finalCommand[i] as int;
      }
      checksum := checksum % 256;
      finalCommand := finalCommand + [checksum];
      lastSentCommand := finalCommand;
      written := written + [finalCommand];
    }

    method SendNextCommand(previousResponse: seq<byte>)
      modifies this`lastSentCommand, this`written, this`userCommand, this`taken, this`handled
      ensures userCommand == ""
      ensures taken == old(taken) + [old(userCommand)] && handled == old(handled) + [previousResponse]
      ensures lastSentCommand == Frame(NextRequest(Tables(), old(userCommand), key, previousResponse))
      ensures written == old(written) + [lastSentCommand]
    {
      taken, handled := taken + [userCommand], handled + [previousResponse];
      var user := TakeUserCommand();
      if user.Some? {
        SendCommand(user.value);
      } else if previousResponse == WOKE {
        SendCommand(START_DIAGNOSTIC);
      } else if previousResponse == DIAG_STARTED {
        SendCommand(REQUEST_SEED);
      } else if previousResponse == KEY_ACCEPTED {
        SendCommand(PING);
      } else if previousResponse == PONG || previousResponse == FAULTS_CLEARED {
        SendCommand(REQUEST_FAULTS);
      } else if previousResponse == IMMO_LEARNT {
        SendCommand(REQUEST_DATA00);
      } else if previousResponse == REFUSE_PING {
        SendCommand(REQUEST_SEED);
      } else {
        if |previousResponse| >= 2 {
          if previousResponse[0..2] == SEED {
            SendCommand(SEND_KEY + PutUint16(key));
            return;
          }
          if previousResponse[0] == 0x61 && previousResponse[1] in nextAfterPoll {
            SendCommand(nextAfterPoll[previousResponse[1]]);
            return;
          }
        }
        SendCommand(PING);
      }
    }

    /** The data replies, each with its own length guard. */
    method ParseData(payload: seq<byte>)
      requires |payload| >= 2 && payload[0] == 0x61
      modifies this`data
      ensures data == DataAfter(old(data), payload)
    {
      GuardsFit(payload);
      hide Within;
      match payload[1]
      case 0x01 => if |payload| >= 4 { data := data[0x01 := FirstWord(payload)]; }
      case 0x02 => if |payload| >= 4 { data := data[0x02 := FirstWord(payload)]; }
      case 0x03 => if |payload| >= 4 { data := data[0x03 := FirstWord(payload)]; }
      case 0x05 => if |payload| >= 4 { data := data[0x05 := FirstWord(payload)]; }
      case 0x07 => if |payload| >= 4 { data := data[0x07 := FirstWord(payload)]; }
      case 0x08 => if |payload| >= 4 { data := data[0x08 := FirstWord(payload)]; }
      case 0x09 => if |payload| >= 4 { data := data[0x09 := FirstWord(payload)]; }
      case 0x0A => if |payload| >= 6 { data := data[0x0A := BothWords(payload)]; }
      case 0x0B => if |payload| >= 4 { data := data[0x0B := FirstWord(payload)]; }
      case 0x0C => if |payload| >= 6 { data := data[0x0C := BothWords(payload)]; }
      case 0x0D => if |payload| >= 3 { data := data[0x0D := FirstByte(payload)]; }
      case 0x0F => if |payload| >= 3 { data := data[0x0F := FirstByte(payload)]; }
      case 0x10 => if |payload| >= 6 { data := data[0x10 := SecondWord(payload)]; }
      case 0x11 => if |payload| >= 3 { data := data[0x11 := FirstByte(payload)]; }
      case 0x12 => if |payload| >= 4 { data := data[0x12 := FirstWord(payload)]; }
      case 0x13 => if |payload| >= 3 { data := data[0x13 := FirstByte(payload)]; }
      case 0x21 => if |payload| >= 4 { data := data[0x21 := FirstWord(payload)]; }
      case 0x25 => if |payload| >= 4 { data := data[0x25 := FirstWord(payload)]; }
      case 0x3A => if |payload| >= 6 { data := data[0x3A := BothWords(payload)]; }
      case _ =>
    }

    /** parseResponse, without the scaling of the sensor bytes and the fault texts. Its last tests
        index the payload unguarded; the loop only passes payloads of at least one byte. */
    method ParseResponse(actualData: seq<byte>) returns (negative: bool)
      requires |actualData| > 0
      modifies this`connected, this`seed, this`key, this`data, this`faults
      ensures forall b, d :: View(b, d) == Parsed(old(View(b, d)), actualData)
      ensures data == DataAfter(old(data), actualData) && faults == FaultsAfter(old(faults), actualData)
      ensures negative <==> actualData[0] == 0x7F
    {
      hide Key, Registers;
      negative := false;
      if actualData == WOKE {
        connected := true;
        return;
      }
      if actualData == DIAG_STARTED {
        return;
      }
      if |actualData| >= 4 && actualData[0..2] == SEED {
        seed := actualData[2] as int * 256;
        seed := seed + actualData[3] as int;
        if seed == 0 {
          key := 0;
        } else {
          key := GenerateKey(seed);
        }
        return;
      }
      if actualData == KEY_ACCEPTED || actualData == PONG || actualData == FAULTS_CLEARED || actualData == IMMO_LEARNT {
        return;
      }
      if |actualData| >= 2 && actualData[0..2] == FAULTS {
        faults := ParseFaults(actualData);
        return;
      }
      if |actualData| >= 2 && actualData[0] == 0x61 {
        ParseData(actualData);
        return;
      }
      negative := actualData[0] == 0x7F;
    }

    /** Parses a reply's payload and sends what follows it. */
    method Consume(actualData: seq<byte>, ghost s: Session)
      requires |actualData| > 0 && View(s.buffer, s.lastData) == s
      modifies this`connected, this`seed, this`key, this`lastSentCommand, this`written, this`userCommand,
               this`taken, this`handled, this`data, this`faults
      ensures View([], s.lastData) == Answer(Tables(), s, actualData)
    {
      var _ := ParseResponse(actualData);
      assert View(s.buffer, s.lastData) == Parsed(s, actualData);
      SendNextCommand(actualData);
    }

    /** Trims padding and echoes off what was received, and finds the payload of a whole reply. */
    method FindReply(received: seq<byte>) returns (buffer: seq<byte>, payload: Option<seq<byte>>)
      ensures var b := StripZeros(received);
              if AtReply(lastSentCommand, b) then payload == Some(b[1..b[0] as int + 1])
              else payload.None? && buffer == Trim(lastSentCommand, b)
    {
      payload := None;
      buffer := StripLeadingZeros(received);
      if |buffer| == 0 {
        return;
      }
      if |buffer| >= 5 && buffer[0..|INIT|] == INIT {
        buffer := buffer[|INIT|..];
        return;
      }
      var packetSize := buffer[0] as int;
      if |buffer| < packetSize + 2 {
        return;
      }
      var actualData := buffer[1..packetSize + 1];
      var fullPacket := buffer[0..packetSize + 2];
      if |lastSentCommand| > 0 && |fullPacket| >= |lastSentCommand| {
        assert fullPacket[0..|lastSentCommand|] == buffer[..|lastSentCommand|];
        if fullPacket[0..|lastSentCommand|] == lastSentCommand {
          buffer := buffer[|lastSentCommand|..];
          return;
        }
      }
      payload := Some(actualData);
    }

    /** The part of a pass after the read. */
    method Process(received: seq<byte>, ghost lastData: int) returns (buffer: seq<byte>)
      modifies this`connected, this`seed, this`key, this`lastSentCommand, this`written, this`userCommand,
               this`taken, this`handled, this`data, this`faults
      ensures View(buffer, lastData) == Act(Tables(), old(View(received, lastData)))
    {
      ghost var s := View(received, lastData);
      var payload;
      buffer, payload := FindReply(received);
      if payload.Some? {
        assert Act(Tables(), s) == Answer(Tables(), s, payload.value);
        Consume(payload.value, s);
        buffer := [];
      } else {
        assert Act(Tables(), s) == s.(buffer := buffer);
      }
    }

    /** One pass of the loop below. */
    method Pass(received: seq<byte>, lastData: int)
      returns (exit: Option<Exit>, buffer: seq<byte>, lastReceivedData: int, ghost tick: Tick)
      modifies this
      ensures tick == if old(script) == [] then Silent(old(clock)) else old(script)[0]
      ensures script == (if old(script) == [] then [] else old(script)[1..]) && (exit.None? ==> clock == tick.heard)
      ensures Receive(Tables(), old(View(received, lastData)), tick) ==
              if exit.Some? then Stopped(exit.value, View(buffer, lastReceivedData))
              else Running(View(buffer, lastReceivedData))
      ensures exit.None? && tick.data == [] ==> lastReceivedData == lastData && tick.now - lastData < IDLE_TIMEOUT
    {
      buffer, lastReceivedData := received, lastData;
      var t := Poll();
      tick := t;
      if clock - lastReceivedData >= IDLE_TIMEOUT {
        return Some(TimedOut), buffer, lastReceivedData, tick;
      }
      if t.cancelled {
        return Some(Cancelled), buffer, lastReceivedData, tick;
      }
      if t.command.Some? {
        userCommand := t.command.value;
      }
      clock := t.heard;
      if |t.data| > 0 {
        lastReceivedData := clock;
      }
      exit := None;
      buffer := Process(buffer + t.data, lastReceivedData);
    }

    /** Runs until it times out or is cancelled; ticks are the ticks it took, the last one ending it. */
    method Loop() returns (exit: Exit, ghost final: Session, ghost ticks: seq<Tick>)
      requires written == [] && handled == [] && taken == [] && !connected
      requires lastSentCommand == [] && seed == 0 && key == 0
      modifies this
      ensures After(Step(Tables()), Start(old(clock), old(userCommand)), ticks) == Stopped(exit, final)
      ensures FedBy(old(clock), old(script), ticks) && final == View(final.buffer, final.lastData)
    {
      var buffer: seq<byte> := [];
      var lastReceivedData := clock;
      ticks := [];
      ghost var start := View(buffer, lastReceivedData);
      while true
        invariant After(Step(Tables()), start, ticks) == Running(View(buffer, lastReceivedData))
        invariant FedBy(old(clock), old(script), ticks) && clock == LastClock(old(clock), ticks)
        invariant script == if |ticks| < |old(script)| then old(script)[|ticks|..] else []
        decreases |script|, Patience(clock, lastReceivedData)
      {
        var ended;
        ghost var tick;
        ended, buffer, lastReceivedData, tick := Pass(buffer, lastReceivedData);
        AfterOne(Step(Tables()), start, ticks, tick);
        FedByOne(old(clock), old(script), ticks, tick);
        ticks := ticks + [tick];
        if ended.Some? {
          return ended.value, View(buffer, lastReceivedData), ticks;
        }
      }
    }
  }
}
