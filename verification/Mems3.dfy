/** internal/ecu/mems3/mems3.go: the MEMS 3 request/response loop over addressed frames. */
module Mems3 {
  import opened Bytes
  import opened Line
  import opened Auth

  const READ_LOOPS_LIMIT: nat := 200
  const READ_SIZE: nat := 128  // the most one read returns; only the bounds on a backlog depend on it

  const REQUEST_HEADER: seq<byte> := [0xB8, 0x13, 0xF7]
  const INIT: seq<byte> := [0x1A, 0x9A]
  const INIT_ACCEPTED: seq<byte> := [0x5A, 0x9A]
  const START_DIAGNOSTIC: seq<byte> := [0x10, 0xA0]
  const DIAG_STARTED: seq<byte> := [0x50]
  const REQUEST_SEED: seq<byte> := [0x27, 0x01]
  const KEY_ACCEPTED: seq<byte> := [0x67, 0x02]
  const PING: seq<byte> := [0x3E]
  const PONG: seq<byte> := [0x7E]
  const FAULTS_CLEARED: seq<byte> := [0x54, 0x00, 0x00]
  const REQUEST_FAULTS: seq<byte> := [0x18, 0x00, 0x00, 0x00]
  const FAULTS: seq<byte> := [0x58]
  const USER_COMMANDS: map<string, seq<byte>> := map["clearfaults" := [0x14, 0x00, 0x00]]

  // ---------------------------------------------------------------- payloads

  /** The canonical reply a payload stands for; none for one the loop discards; or a panic. */
  datatype Verdict = Handled(reply: seq<byte>) | Unknown | Panics

  /** The payload length each data reply 61 xx needs. */
  function DataLength(pid: byte): Option<nat>
  {
    if pid == 0x00 || pid == 0x06 then Some(12)
    else if pid == 0x0A || pid == 0x0B then Some(6)
    else if pid == 0x21 then Some(4)
    else None
  }

  /** The offsets each data reply is read at, in the order of the values they make up. */
  function DataOffsets(pid: byte): seq<nat>
  {
    if pid == 0x00 then [2, 3, 6, 7, 10, 11]
    else if pid == 0x06 then [2, 3, 8, 9, 10, 11]
    else if pid == 0x0A || pid == 0x0B then [2, 3, 4, 5]
    else if pid == 0x21 then [2, 3]
    else []
  }

  /** The sensor bytes last read for each identifier. A reply too short for any of its offsets is
      dropped whole, and every other reply leaves them alone. */
  function DataAfter(data: map<byte, seq<byte>>, payload: seq<byte>): map<byte, seq<byte>>
  {
    if |payload| >= 2 && payload[0] == 0x61 && DataOffsets(payload[1]) != [] && Within(DataOffsets(payload[1]), payload)
    then data[payload[1] := Pick(payload, DataOffsets(payload[1]))]
    else data
  }

  function Judge(payload: seq<byte>): Verdict
  {
    if |payload| >= 2 && payload[..2] == INIT_ACCEPTED then Handled(INIT_ACCEPTED)
    else if payload == DIAG_STARTED then Handled(DIAG_STARTED)
    else if SeedReply(payload) then Handled(if SeedOf(payload) == 0 then [] else SEED)
    else if payload == KEY_ACCEPTED then Handled(KEY_ACCEPTED)
    else if payload == PONG then Handled(PONG)
    else if payload == FAULTS_CLEARED then Handled(FAULTS_CLEARED)
    else if |payload| >= 1 && payload[0] == 0x58 then if |payload| < 2 then Panics else Handled(FAULTS)
    else if |payload| < 2 then Unknown
    else if payload[0] == 0x61 && DataLength(payload[1]).Some? && |payload| >= DataLength(payload[1]).value then
      Handled([0x61, payload[1]])
    else Unknown
  }

  /** The data replies recognised, and how long each must be. */
  lemma DataReplies(p: seq<byte>, pid: byte)
    ensures Judge(p) == Handled([0x61, pid]) <==>
            && |p| >= 2 && p[0] == 0x61 && p[1] == pid
            && (|| ((pid == 0x00 || pid == 0x06) && |p| >= 12)
                || ((pid == 0x0A || pid == 0x0B) && |p| >= 6)
                || (pid == 0x21 && |p| >= 4))
  {
    if |p| >= 2 {
      assert p[..2] == [p[0], p[1]];
    }
  }

  /** Every other payload recognised, and the reply it stands for. */
  lemma RecognisedExactly(p: seq<byte>, reply: seq<byte>)
    requires reply == [] || reply[0] != 0x61
    ensures Judge(p) == Handled(reply) <==>
            || (|p| >= 2 && p[..2] == [0x5A, 0x9A] && reply == [0x5A, 0x9A])
            || (|p| >= 4 && p[..2] == [0x67, 0x01] && reply == if p[2..4] == [0, 0] then [] else [0x67, 0x01])
            || (|p| >= 2 && p[0] == 0x58 && reply == [0x58])
            || (p in [[0x50], [0x67, 0x02], [0x7E], [0x54, 0x00, 0x00]] && reply == p)
  {
    if |p| >= 2 {
      assert p[..2] == [p[0], p[1]];
    }
    if |p| >= 4 {
      assert p[2..4] == [p[2], p[3]];
    }
  }

  /** Which bytes the sensor values come from: two each, at these places. */
  lemma SensorBytes(data: map<byte, seq<byte>>, p: seq<byte>)
    requires |p| >= 2 && p[0] == 0x61
    ensures p[1] == 0x00 && |p| >= 12 ==>
              DataAfter(data, p) == data[0x00 := [p[2], p[3], p[6], p[7], p[10], p[11]]]
    ensures p[1] == 0x06 && |p| >= 12 ==>
              DataAfter(data, p) == data[0x06 := [p[2], p[3], p[8], p[9], p[10], p[11]]]
    ensures p[1] in {0x0A, 0x0B} && |p| >= 6 ==> DataAfter(data, p) == data[p[1] := [p[2], p[3], p[4], p[5]]]
    ensures p[1] == 0x21 && |p| >= 4 ==> DataAfter(data, p) == data[0x21 := [p[2], p[3]]]
    ensures !Judge(p).Handled? ==> DataAfter(data, p) == data
  {
    GuardsFit(p);
    hide Within, Pick;
    assert p[..2] == [p[0], p[1]];
    var n := |p|;
    if n >= 12 {
      assert Fields00(p) == [p[2], p[3], p[6], p[7], p[10], p[11]];
      assert Fields06(p) == [p[2], p[3], p[8], p[9], p[10], p[11]];
    }
    assert n >= 6 ==> TwoWords(p) == [p[2], p[3], p[4], p[5]];
    assert n >= 4 ==> OneWord(p) == [p[2], p[3]];
  }

  function Fields00(p: seq<byte>): (r: seq<byte>)
    requires |p| >= 12
    ensures r == Pick(p, [2, 3, 6, 7, 10, 11])
  {
    [p[2], p[3], p[6], p[7], p[10], p[11]]
  }

  function Fields06(p: seq<byte>): (r: seq<byte>)
    requires |p| >= 12
    ensures r == Pick(p, [2, 3, 8, 9, 10, 11])
  {
    [p[2], p[3], p[8], p[9], p[10], p[11]]
  }

  function TwoWords(p: seq<byte>): (r: seq<byte>)
    requires |p| >= 6
    ensures r == Pick(p, [2, 3, 4, 5])
  {
    [p[2], p[3], p[4], p[5]]
  }

  function OneWord(p: seq<byte>): (r: seq<byte>)
    requires |p| >= 4
    ensures r == Pick(p, [2, 3])
  {
    [p[2], p[3]]
  }

  /** The length guards admit exactly the payloads that have all the offsets read. */
  lemma GuardsFit(p: seq<byte>)
    ensures Within([2, 3, 6, 7, 10, 11], p) <==> |p| >= 12
    ensures Within([2, 3, 8, 9, 10, 11], p) <==> |p| >= 12
    ensures Within([2, 3, 4, 5], p) <==> |p| >= 6
    ensures Within([2, 3], p) <==> |p| >= 4
  {
    if |p| < 12 { assert [2, 3, 6, 7, 10, 11][5] >= |p| && [2, 3, 8, 9, 10, 11][5] >= |p|; }
    if |p| < 6 { assert [2, 3, 4, 5][3] >= |p|; }
    if |p| < 4 { assert [2, 3][1] >= |p|; }
  }

  /** The nextAfterResponse table, with its fallback to ping. */
  function NextAfterResponse(reply: seq<byte>): seq<byte>
  {
    if reply == INIT_ACCEPTED then START_DIAGNOSTIC
    else if reply == DIAG_STARTED then REQUEST_SEED
    else if reply == KEY_ACCEPTED then PING
    else if reply == PONG || reply == FAULTS_CLEARED then REQUEST_FAULTS
    else if reply == FAULTS then [0x21, 0x00]
    else if reply == [0x61, 0x00] then [0x21, 0x06]
    else if reply == [0x61, 0x06] then [0x21, 0x0A]
    else if reply == [0x61, 0x0A] then [0x21, 0x0B]
    else if reply == [0x61, 0x0B] then [0x21, 0x21]
    else PING
  }

  function NextRequest(commands: map<string, seq<byte>>, command: string, key: nat, reply: seq<byte>): seq<byte>
  {
    var user := UserCommand(commands, command);
    if user.Some? then user.value
    else if reply == SEED then SEND_KEY + PutUint16(key)
    else NextAfterResponse(reply)
  }

  /** A fault record: the number's two bytes and the status byte. */
  datatype Fault = Fault(number: nat, status: byte)

  /** The 3-byte records after the two header bytes of a fault reply; a rest of one or two bytes
      is ignored. */
  function FaultRecords(payload: seq<byte>): (r: seq<Fault>)
    requires |payload| >= 2
    ensures |r| == (|payload| - 2) / 3
  {
    seq((|payload| - 2) / 3, i requires 0 <= i < (|payload| - 2) / 3 =>
      Fault(Uint16(payload[2 + 3 * i], payload[3 + 3 * i]), payload[4 + 3 * i]))
  }

  /** The bytes of a list of records. */
  function FaultBytes(faults: seq<Fault>): (r: seq<byte>)
    ensures |r| == 3 * |faults|
  {
    if faults == [] then []
    else PutUint16(faults[0].number) + [faults[0].status] + FaultBytes(faults[1..])
  }

  lemma {:induction false} FaultBytesAt(faults: seq<Fault>, i: nat)
    requires i < |faults|
    ensures var b := FaultBytes(faults);
            [b[3 * i], b[3 * i + 1]] == PutUint16(faults[i].number) && b[3 * i + 2] == faults[i].status
  {
    if i > 0 {
      FaultBytesAt(faults[1..], i - 1);
    }
  }

  /** A fault reply gives back the records put into it, whatever its second byte and its rest. */
  lemma FaultsRoundTrip(count: byte, faults: seq<Fault>, rest: seq<byte>)
    requires |rest| < 3 && forall i :: 0 <= i < |faults| ==> faults[i].number < 65536
    ensures FaultRecords([0x58, count] + FaultBytes(faults) + rest) == faults
  {
    hide FaultBytes, FaultRecords, Uint16;
    var b := FaultBytes(faults);
    var p := [0x58, count] + b + rest;
    WholeRecords(|faults|, |rest|);
    forall i | 0 <= i < |faults| ensures FaultRecords(p)[i] == faults[i] {
      RecordAt(p, b, i);
      FaultAt(b, faults, i);
    }
  }

  lemma WholeRecords(n: nat, rest: nat)
    requires rest < 3
    ensures (3 * n + rest) / 3 == n
  {
  }

  lemma RecordAt(p: seq<byte>, b: seq<byte>, i: nat)
    requires |p| >= 2 + |b| && p[2..2 + |b|] == b && 3 * i + 3 <= |b|
    ensures FaultRecords(p)[i] == Fault(Uint16(b[3 * i], b[3 * i + 1]), b[3 * i + 2])
  {
    var c := p[2..2 + |b|];
    assert c[3 * i] == p[2 + 3 * i] && c[3 * i + 1] == p[3 + 3 * i] && c[3 * i + 2] == p[4 + 3 * i];
  }

  lemma FaultAt(b: seq<byte>, faults: seq<Fault>, i: nat)
    requires b == FaultBytes(faults) && i < |faults| && faults[i].number < 65536
    ensures Fault(Uint16(b[3 * i], b[3 * i + 1]), b[3 * i + 2]) == faults[i]
  {
    FaultBytesAt(faults, i);
    Uint16Fits(faults[i].number);
  }

  method ParseFaults(payload: seq<byte>) returns (faults: seq<Fault>)
    requires |payload| >= 2
    ensures faults == FaultRecords(payload)
  {
    faults := [];
    var buffer := payload[2..];
    while |buffer| >= 3
      invariant 2 + 3 * |faults| <= |payload| && buffer == payload[2 + 3 * |faults|..]
      invariant forall i :: 0 <= i < |faults| ==>
                  faults[i] == Fault(Uint16(payload[2 + 3 * i], payload[3 + 3 * i]), payload[4 + 3 * i])
      decreases |buffer|
    {
      faults := faults + [Fault(Uint16(buffer[0], buffer[1]), buffer[2])];
      if |buffer| > 3 {
        buffer := buffer[3..];
      } else {
        buffer := [];
      }
    }
  }

  // ---------------------------------------------------------------- frames

  function XorAll(data: seq<byte>, n: nat): byte
    requires n <= |data|
  {
    if n == 0 then 0 else XorByte(XorAll(data, n - 1), data[n - 1])
  }

  method XorAllBytes(data: seq<byte>) returns (result: byte)
    ensures result == XorAll(data, |data|)
  {
    result := 0;
    for i := 0 to |data|
      invariant result == XorAll(data, i)
    {
      result := XorByte(result, data[i]);
    }
  }

  /** A frame on the wire: three address bytes, a length byte, the payload and a check byte. */
  datatype Packet = Packet(header: seq<byte>, payload: seq<byte>, check: byte)

  function Encode(p: Packet): (r: seq<byte>)
    requires |p.header| == 3
    ensures |r| == |p.payload| + 5 && r[..3] == p.header && r[3] == |p.payload| % 256
    ensures r[4..4 + |p.payload|] == p.payload
  {
    p.header + [|p.payload| % 256] + p.payload + [p.check]
  }

  /** The packet sendCommand writes: its check byte is the XOR of every byte before it. */
  function Request(data: seq<byte>): Packet
  {
    var body := REQUEST_HEADER + [|data| % 256] + data;
    Packet(REQUEST_HEADER, data, XorAll(body, |body|))
  }

  /** The two bytes of the bare init command, or a whole frame to discard, or a frame to act on. */
  datatype Found = Wait | Skip(n: nat) | Reply(payload: seq<byte>)

  function Look(b: seq<byte>): (r: Found)
    ensures r.Skip? ==> 0 < r.n <= |b|
  {
    if |b| >= 2 && b[..2] == INIT then Skip(2)
    else if |b| < 4 || |b| < b[3] as int + 5 then Wait
    else
      var payload := b[4..4 + b[3] as int];
      if b[..3] == REQUEST_HEADER || Judge(payload).Unknown? then Skip(b[3] as int + 5) else Reply(payload)
  }

  // ---------------------------------------------------------------- one pass of the loop

  /** sent records every frame written; handled and taken record, for each reply acted on, its
      payload and the user command then pending. */
  datatype Session = Session(buffer: seq<byte>, readLoops: nat, seed: nat, key: nat, command: string, connected: bool,
                             sent: seq<seq<byte>>, handled: seq<seq<byte>>, taken: seq<string>)

  /** What handleFrame keeps of a payload besides sensor values and faults. */
  function Parsed(s: Session, payload: seq<byte>): Session
  {
    if |payload| >= 2 && payload[..2] == INIT_ACCEPTED then s.(connected := true)
    else if SeedReply(payload) then s.(seed := SeedOf(payload), key := KeyFor(SeedOf(payload)))
    else s
  }

  function Answer(commands: map<string, seq<byte>>, s: Session, payload: seq<byte>, reply: seq<byte>): Session
  {
    var p := Parsed(s, payload);
    p.(buffer := [], command := "", sent := s.sent + [Encode(Request(NextRequest(commands, s.command, p.key, reply)))],
       handled := s.handled + [payload], taken := s.taken + [s.command])
  }

  function Act(commands: map<string, seq<byte>>, s: Session): Status<Session>
  {
    match Look(s.buffer)
    case Wait => Running(s)
    case Skip(n) => Running(s.(buffer := s.buffer[n..]))
    case Reply(payload) =>
      var verdict := Judge(payload);
      if verdict.Handled? then Running(Answer(commands, s, payload, verdict.reply)) else Stopped(Panicked, s)
  }

  /** The state once a pass has read its bytes. */
  function Received(s: Session, t: Tick): Session
  {
    s.(readLoops := if t.data != [] then 0 else s.readLoops + 1, command := Posted(t, s.command),
       buffer := s.buffer + t.data)
  }

  function Receive(commands: map<string, seq<byte>>, s: Session, t: Tick): Status<Session>
  {
    if s.readLoops >= READ_LOOPS_LIMIT then Stopped(TimedOut, s)
    else if t.cancelled then Stopped(Cancelled, s)
    else if t.failure.Broken? then
      Stopped(ReadFailed, s.(readLoops := s.readLoops + 1, command := Posted(t, s.command)))
    else Act(commands, Received(s, t))
  }

  function Step(commands: map<string, seq<byte>>): (Session, Tick) -> Status<Session>
  {
    (s: Session, t: Tick) => Receive(commands, s, t)
  }

  function Start(command: string): Session
  {
    Session([], 0, 0, 0, command, false, [Encode(Request(INIT))], [], [])
  }

  class Mems3 {
    // ecu.State
    var connected: bool
    var userCommand: string
    var faults: seq<Fault>
    var data: map<byte, seq<byte>>
    // MEMS3
    var seed: nat
    var key: nat
    const userCommands: map<string, seq<byte>>
    // the serial port: outcomes of the reads to come and every frame written
    var script: seq<Tick>
    var written: seq<seq<byte>>
    ghost var handled: seq<seq<byte>>
    ghost var taken: seq<string>

    constructor (script: seq<Tick>)
      ensures this.script == script && written == [] && handled == [] && taken == []
      ensures !connected && userCommand == "" && seed == 0 && key == 0 && userCommands == USER_COMMANDS
      ensures data == map[] && faults == []
    {
      this.script := script;
      written, handled, taken := [], [], [];
      connected, userCommand, faults, data, seed, key := false, "", [], map[], 0, 0;
      userCommands := USER_COMMANDS;
    }

    ghost function View(buffer: seq<byte>, readLoops: nat): Session
      reads this
    {
      Session(buffer, readLoops, seed, key, userCommand, connected, written, handled, taken)
    }

    /** The next tick of the script; silence once it is used up. */
    method Poll() returns (t: Tick)
      modifies this`script
      ensures t == if old(script) == [] then SILENCE else old(script)[0]
      ensures script == if old(script) == [] then [] else old(script)[1..]
    {
      t := SILENCE;
      if script != [] {
        t, script := script[0], script[1..];
      }
    }

    method TakeUserCommand() returns (command: Option<seq<byte>>)
      modifies this`userCommand
      ensures userCommand == "" && command == UserCommand(userCommands, old(userCommand))
    {
      var name := userCommand;
      userCommand := "";
      if name == "" {
        return None;
      }
      command := if name in userCommands then Some(userCommands[name]) else None;
    }

    method SendCommand(data: seq<byte>)
      modifies this`written
      ensures written == old(written) + [Encode(Request(data))]
    {
      var output: seq<byte> := REQUEST_HEADER;
      output := output + [|data| % 256];
      output := output + data;
      var check := XorAllBytes(output);
      output := output + [check];
      written := written + [output];
    }

    method SendNextCommand(previousResponse: seq<byte>)
      modifies this`written, this`userCommand
      ensures userCommand == ""
      ensures written == old(written) +
              [Encode(Request(NextRequest(userCommands, old(userCommand), key, previousResponse)))]
    {
      var user := TakeUserCommand();
      if user.Some? {
        SendCommand(user.value);
        return;
      }
      if previousResponse == SEED {
        SendCommand(SEND_KEY + PutUint16(key));
        return;
      }
      SendCommand(NextAfterResponse(previousResponse));
    }

    /** Interprets one payload. A fault reply of one byte is sliced past its end. */
    method HandleFrame(actualData: seq<byte>) returns (verdict: Verdict)
      modifies this`connected, this`seed, this`key, this`faults, this`data
      ensures verdict == Judge(actualData)
      ensures verdict.Handled? ==> forall b, n :: View(b, n) == Parsed(old(View(b, n)), actualData)
      ensures !verdict.Handled? ==> forall b, n :: View(b, n) == old(View(b, n))
      ensures faults == if verdict == Handled(FAULTS) then FaultRecords(actualData) else old(faults)
      ensures data == DataAfter(old(data), actualData)
    {
      if |actualData| >= 2 && actualData[0..2] == INIT_ACCEPTED {
        connected := true;
        return Handled(INIT_ACCEPTED);
      }
      if actualData == DIAG_STARTED {
        return Handled(DIAG_STARTED);
      }
      if |actualData| >= 4 && actualData[0..2] == SEED {
        seed := actualData[2] as int * 256 + actualData[3] as int;
        if seed == 0 {
          key := 0;
          return Handled([]);
        }
        key := GenerateKey(seed);
        return Handled(SEED);
      }
      if actualData == KEY_ACCEPTED {
        return Handled(KEY_ACCEPTED);
      }
      if actualData == PONG {
        return Handled(PONG);
      }
      if actualData == FAULTS_CLEARED {
        return Handled(FAULTS_CLEARED);
      }
      if |actualData| >= 1 && actualData[0] == 0x58 {
        if |actualData| < 2 {
          return Panics;
        }
        faults := ParseFaults(actualData);
        return Handled(FAULTS);
      }
      if |actualData| < 2 {
        return Unknown;
      }
      if actualData[0] == 0x61 {
        verdict := ParseData(actualData);
        return;
      }
      return Unknown;
    }

    /** The data replies, each with its own length guard. */
    method ParseData(p: seq<byte>) returns (verdict: Verdict)
      requires |p| >= 2 && p[0] == 0x61
      modifies this`data
      ensures verdict == Judge(p) && data == DataAfter(old(data), p)
    {
      GuardsFit(p);
      hide Within;
      verdict := Unknown;
      match p[1]
      case 0x00 =>
        if |p| >= 12 {
          data := data[0x00 := Fields00(p)];
          return Handled([0x61, 0x00]);
        }
      case 0x06 =>
        if |p| >= 12 {
          data := data[0x06 := Fields06(p)];
          return Handled([0x61, 0x06]);
        }
      case 0x0A =>
        if |p| >= 6 {
          data := data[0x0A := TwoWords(p)];
          return Handled([0x61, 0x0A]);
        }
      case 0x0B =>
        if |p| >= 6 {
          data := data[0x0B := TwoWords(p)];
          return Handled([0x61, 0x0B]);
        }
      case 0x21 =>
        if |p| >= 4 {
          data := data[0x21 := OneWord(p)];
          return Handled([0x61, 0x21]);
        }
      case _ =>
    }

    /** Handles a recognised payload: records it and sends what follows. */
    method Respond(actualData: seq<byte>, reply: seq<byte>, ghost s: Session)
      requires View(s.buffer, s.readLoops) == Parsed(s, actualData)
      modifies this`written, this`userCommand, this`taken, this`handled
      ensures View([], s.readLoops) == Answer(userCommands, s, actualData, reply)
    {
      handled, taken := handled + [actualData], taken + [userCommand];
      SendNextCommand(reply);
    }

    /** The part of a pass after the read. */
    method Process(received: seq<byte>, ghost readLoops: nat) returns (buffer: seq<byte>, panicked: bool)
      modifies this`connected, this`seed, this`key, this`faults, this`data, this`written, this`userCommand,
               this`taken, this`handled
      ensures Act(userCommands, old(View(received, readLoops))) ==
              if panicked then Stopped(Panicked, View(buffer, readLoops)) else Running(View(buffer, readLoops))
    {
      buffer, panicked := received, false;
      ghost var s := View(received, readLoops);
      if |buffer| == 0 {
        return;
      }
      if |buffer| >= 2 && buffer[0..2] == INIT {
        assert Look(received) == Skip(2);
        buffer := buffer[2..];
        return;
      }
      if |buffer| < 4 {
        assert Look(received) == Wait;
        return;
      }
      var dataLength := buffer[3] as int;
      var totalLength := 3 + 1 + dataLength + 1;
      if |buffer| < totalLength {
        assert Look(received) == Wait;
        return;
      }
      var actualData := buffer[4..4 + dataLength];
      if buffer[0..3] == REQUEST_HEADER {
        assert Look(received) == Skip(totalLength);
        buffer := buffer[totalLength..];
        return;
      }
      var verdict := HandleFrame(actualData);
      assert Look(received) == if verdict.Unknown? then Skip(totalLength) else Reply(actualData);
      if verdict.Panics? {
        return buffer, true;
      }
      if verdict.Unknown? {
        buffer := buffer[totalLength..];
        return;
      }
      buffer := [];
      Respond(actualData, verdict.reply, s);
    }

    /** One pass of the loop below. */
    method Pass(received: seq<byte>, loops: nat)
      returns (exit: Option<Exit>, buffer: seq<byte>, readLoops: nat, ghost tick: Tick)
      requires loops < READ_LOOPS_LIMIT
      modifies this
      ensures tick == if old(script) == [] then SILENCE else old(script)[0]
      ensures script == if old(script) == [] then [] else old(script)[1..]
      ensures Receive(userCommands, old(View(received, loops)), tick) ==
              if exit.Some? then Stopped(exit.value, View(buffer, readLoops)) else Running(View(buffer, readLoops))
      ensures readLoops == if tick.cancelled then loops
                           else if tick.failure.Broken? || tick.data == [] then loops + 1 else 0
      ensures exit != Some(Normal)
    {
      buffer, readLoops, exit := received, loops, None;
      var t := Poll();
      tick := t;
      if t.cancelled {
        exit := Some(Cancelled);
        return;
      }
      readLoops := readLoops + 1;
      if t.command.Some? {
        userCommand := t.command.value;
      }
      if t.failure.Broken? {
        exit := Some(ReadFailed);
        return;
      }
      buffer := buffer + t.data;
      if |t.data| > 0 {
        readLoops := 0;
      }
      var panicked;
      buffer, panicked := Process(buffer, readLoops);
      if panicked {
        exit := Some(Panicked);
      }
    }

    /** Runs until it errors or times out; ticks are the ticks it took, the last one ending it. */
    method ReadData() returns (exit: Exit, ghost final: Session, ghost ticks: seq<Tick>)
      requires written == [] && handled == [] && taken == [] && !connected && seed == 0 && key == 0
      modifies this
      ensures After(Step(userCommands), Start(old(userCommand)), ticks) == Stopped(exit, final)
      ensures Fed(old(script), ticks) && final == View(final.buffer, final.readLoops)
      ensures exit != Normal
    {
      ghost var start := Start(userCommand);
      SendCommand(INIT);
      var buffer: seq<byte> := [];
      var readLoops: nat := 0;
      ticks := [];
      assert View(buffer, readLoops) == start;
      while readLoops < READ_LOOPS_LIMIT
        invariant readLoops <= READ_LOOPS_LIMIT
        invariant After(Step(userCommands), start, ticks) == Running(View(buffer, readLoops))
        invariant Fed(old(script), ticks)
        invariant script == if |ticks| < |old(script)| then old(script)[|ticks|..] else []
        decreases |script|, READ_LOOPS_LIMIT - readLoops
      {
        var ended;
        ghost var tick;
        ended, buffer, readLoops, tick := Pass(buffer, readLoops);
        AfterOne(Step(userCommands), start, ticks, tick);
        ticks := ticks + [tick];
        if ended.Some? {
          return ended.value, View(buffer, readLoops), ticks;
        }
      }
      exit, final := Normal, View(buffer, readLoops);
      if readLoops >= READ_LOOPS_LIMIT {
        exit := TimedOut;
        ghost var tick := if script == [] then SILENCE else script[0];
        AfterOne(Step(userCommands), start, ticks, tick);
        ticks := ticks + [tick];
      }
    }
  }
}
