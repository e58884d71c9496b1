/** internal/ecu/mems1x/loop.go: the MEMS 1.x request/response loop. */
module Mems1x {
  import opened Bytes
  import opened Line

  const READ_LOOPS_LIMIT: nat := 200

  /** The byte of a user command, if the name is known. */
  function CommandByte(name: string): (r: Option<byte>)
    ensures r.Some? ==> IsCommand(r.value)
  {
    match name
    case "clearfaults" => Some(0xCC)
    case "startTestRpmGauge" => Some(0x6B)
    case "startTestLambdaHeater" => Some(0x19)
    case "stopTestLambdaHeater" => Some(0x09)
    case "startTestACClutch" => Some(0x13)
    case "stopTestACClutch" => Some(0x03)
    case "startTestFuelPump" => Some(0x11)
    case "stopTestFuelPump" => Some(0x01)
    case "startTestFan1" => Some(0x1D)
    case "stopTestFan1" => Some(0x0D)
    case "startTestPurgeValve" => Some(0x18)
    case "stopTestPurgeValve" => Some(0x08)
    case "increaseIdleDecay" => Some(0x89)
    case "decreaseIdleDecay" => Some(0x8A)
    case "increaseIdleSpeed" => Some(0x91)
    case "decreaseIdleSpeed" => Some(0x92)
    case "increaseIgnitionAdvanceOffset" => Some(0x93)
    case "decreaseIgnitionAdvanceOffset" => Some(0x94)
    case "increaseFuelTrim1" => Some(0x79)
    case "decreaseFuelTrim1" => Some(0x7A)
    case "increaseFuelTrim2" => Some(0x7B)
    case "decreaseFuelTrim2" => Some(0x7C)
    case _ => None
  }

  /** The keys of commandNames. */
  predicate IsCommand(b: byte)
  {
    || b == 0xCC || b == 0x6B || b == 0x19 || b == 0x09 || b == 0x13 || b == 0x03 || b == 0x11 || b == 0x01
    || b == 0x1D || b == 0x0D || b == 0x18 || b == 0x08 || b == 0x89 || b == 0x8A || b == 0x91 || b == 0x92
    || b == 0x93 || b == 0x94 || b == 0x79 || b == 0x7A || b == 0x7B || b == 0x7C
  }

  /** commandNames: the name of a command byte. */
  function CommandName(b: byte): Option<string>
  {
    match b
    case 0xCC => Some("clearfaults")
    case 0x6B => Some("startTestRpmGauge")
    case 0x19 => Some("startTestLambdaHeater")
    case 0x09 => Some("stopTestLambdaHeater")
    case 0x13 => Some("startTestACClutch")
    case 0x03 => Some("stopTestACClutch")
    case 0x11 => Some("startTestFuelPump")
    case 0x01 => Some("stopTestFuelPump")
    case 0x1D => Some("startTestFan1")
    case 0x0D => Some("stopTestFan1")
    case 0x18 => Some("startTestPurgeValve")
    case 0x08 => Some("stopTestPurgeValve")
    case 0x89 => Some("increaseIdleDecay")
    case 0x8A => Some("decreaseIdleDecay")
    case 0x91 => Some("increaseIdleSpeed")
    case 0x92 => Some("decreaseIdleSpeed")
    case 0x93 => Some("increaseIgnitionAdvanceOffset")
    case 0x94 => Some("decreaseIgnitionAdvanceOffset")
    case 0x79 => Some("increaseFuelTrim1")
    case 0x7A => Some("decreaseFuelTrim1")
    case 0x7B => Some("increaseFuelTrim2")
    case 0x7C => Some("decreaseFuelTrim2")
    case _ => None
  }

  /** The byte sent after a reply starting with previous, when command is pending. */
  function NextByte(command: string, previous: byte): byte
  {
    var user := CommandByte(command);
    if user.Some? then user.value
    else if previous == 0xCA then 0x75
    else if previous == 0x75 then 0xF4
    else if previous == 0xF4 then 0xD0
    else if previous == 0x80 then 0x7D
    else 0x80
  }

  // ---------------------------------------------------------------- frame parsers

  /** Whether parseData80 reads this offset of a frame without its echo byte, for a packet size. */
  predicate Reads80(packetSize: byte, o: nat)
  {
    || o in {1, 2, 3, 4, 5, 6, 7, 8, 9, 10, 12, 13, 14}
    || (packetSize > 15 && o == 15)
    || (packetSize > 16 && o == 16)
    || (packetSize > 0x12 && o == 0x12)
    || (packetSize > 0x14 && o in {0x13, 0x14})
    || (packetSize > 0x15 && o == 0x15)
    || (packetSize > 0x16 && o == 0x16)
    || (packetSize > 0x18 && o in {0x17, 0x18})
  }

  /** Whether parseData7D reads this offset. */
  predicate Reads7D(packetSize: byte, o: nat)
  {
    || o in {1, 2, 4, 5, 6, 7, 8, 9, 10, 11, 12, 13, 14}
    || (packetSize >= 16 && o == 15)
    || (packetSize >= 21 && o == 20)
    || (packetSize >= 0x16 && o == 0x16)
    || (packetSize >= 0x1F && o == 0x1F)
  }

  /** Whether the frame's parser indexes past its end. Frames of fewer than 15 bytes are skipped. */
  predicate ParserPanics(frame: seq<byte>)
    requires |frame| >= 2
  {
    var data := frame[1..];
    |data| >= 15 &&
    if frame[0] == 0x7D then exists o :: 0 <= o < 0x20 && Reads7D(data[0], o) && o >= |data|
    else exists o :: 0 <= o < 0x20 && Reads80(data[0], o) && o >= |data|
  }

  // ---------------------------------------------------------------- one pass of the loop

  /** The loop's state. handled and taken record, for each reply acted on, the buffer it was
      recognised in and the user command then pending; sent records every byte written. */
  datatype Session = Session(buffer: seq<byte>, readLoops: nat, gotEcho: bool, last: byte, command: string,
                             connected: bool, sent: seq<byte>, handled: seq<seq<byte>>, taken: seq<string>)

  /** A buffer that starts with a reply the loop answers. */
  predicate Complete(b: seq<byte>)
  {
    b != [] &&
    ((IsCommand(b[0]) && |b| >= 2)
     || b[0] in {0xCA, 0x75}
     || (b[0] == 0xF4 && |b| >= 2 && b[1] == 0)
     || (b[0] == 0xD0 && |b| >= 5)
     || (b[0] in {0x80, 0x7D} && |b| >= 2 && |b| >= b[1] as int + 1))
  }

  function Send(s: Session, b: byte): Session
  {
    s.(gotEcho := false, last := b, sent := s.sent + [b])
  }

  /** Takes the pending command, answers the reply in the buffer and empties the buffer. */
  function Answer(s: Session): Session
    requires s.buffer != []
  {
    Send(s, NextByte(s.command, s.buffer[0])).(
      buffer := [], command := "", connected := s.connected || s.buffer[0] == 0xD0,
      handled := s.handled + [s.buffer], taken := s.taken + [s.command])
  }

  function Act(kline: bool, s: Session): Status<Session>
  {
    if s.buffer == [] then Running(s)
    else if kline && !s.gotEcho && s.buffer[0] == s.last then Running(s.(gotEcho := true, buffer := s.buffer[1..]))
    else if !Complete(s.buffer) then Running(s)
    else if s.buffer[0] in {0x80, 0x7D} && ParserPanics(s.buffer) then Stopped(Panicked, s)
    else Running(Answer(s))
  }

  /** The state once a pass has read its bytes. */
  function Received(s: Session, t: Tick): Session
  {
    s.(readLoops := if t.data != [] then 0 else s.readLoops + 1, command := Posted(t, s.command),
       buffer := s.buffer + t.data)
  }

  function Receive(kline: bool, s: Session, t: Tick): Status<Session>
  {
    if s.readLoops >= READ_LOOPS_LIMIT then Stopped(TimedOut, s)
    else if t.cancelled then Stopped(Cancelled, s)
    else if t.failure.Broken? then
      Stopped(ReadFailed, s.(readLoops := s.readLoops + 1, command := Posted(t, s.command)))
    else Act(kline, Received(s, t))
  }

  function Step(kline: bool): (Session, Tick) -> Status<Session>
  {
    (s: Session, t: Tick) => Receive(kline, s, t)
  }

  function Start(command: string): Session
  {
    Send(Session([], 0, false, 0, command, false, [], [], []), 0xCA)
  }

  class Mems1x {
    // ecu.State
    var connected: bool
    var userCommand: string
    // MEMS1x
    var gotKlineEcho: bool
    var lastKlineByte: byte
    // the serial port: outcomes of the reads to come and every byte written
    var script: seq<Tick>
    var written: seq<byte>
    ghost var handled: seq<seq<byte>>
    ghost var taken: seq<string>

    constructor (script: seq<Tick>)
      ensures this.script == script && written == [] && handled == [] && taken == []
      ensures !connected && userCommand == ""
    {
      this.script := script;
      written, handled, taken := [], [], [];
      connected, userCommand := false, "";
      gotKlineEcho, lastKlineByte := false, 0;
    }

    ghost function View(buffer: seq<byte>, readLoops: nat): Session
      reads this
    {
      Session(buffer, readLoops, gotKlineEcho, lastKlineByte, userCommand, connected, written, handled, taken)
    }

    /** The next tick of the script; silence once it is used up. A posted command is visible from then on. */
    method Poll() returns (t: Tick)
      modifies this`script, this`userCommand
      ensures t == if old(script) == [] then SILENCE else old(script)[0]
      ensures script == if old(script) == [] then [] else old(script)[1..]
      ensures userCommand == if t.cancelled then old(userCommand) else Posted(t, old(userCommand))
    {
      t := SILENCE;
      if script != [] {
        t, script := script[0], script[1..];
      }
      if !t.cancelled && t.command.Some? {
        userCommand := t.command.value;
      }
    }

    method SendByte(data: byte)
      modifies this`gotKlineEcho, this`lastKlineByte, this`written
      ensures !gotKlineEcho && lastKlineByte == data && written == old(written) + [data]
    {
      written := written + [data];
      gotKlineEcho := false;
      lastKlineByte := data;
    }

    method NextCommand(previousResponse: byte) returns (next: byte)
      modifies this`userCommand
      ensures next == NextByte(old(userCommand), previousResponse) && userCommand == ""
    {
      var cmd := userCommand;
      userCommand := "";
      if cmd != "" {
        var command := CommandByte(cmd);
        if command.Some? {
          return command.value;
        }
      }
      match previousResponse
      case 0xCC => next := 0x80;
      case 0xCA => next := 0x75;
      case 0x75 => next := 0xF4;
      case 0xF4 => next := 0xD0;
      case 0xD0 => next := 0x80;
      case 0x80 => next := 0x7D;
      case 0x7D => next := 0x80;
      case _ => next := 0x80;
    }

    /** Sends the answer to the reply at the head of buffer. */
    method Reply(buffer: seq<byte>)
      requires buffer != []
      modifies this`userCommand, this`gotKlineEcho, this`lastKlineByte, this`written, this`handled, this`taken
      ensures userCommand == "" && !gotKlineEcho
      ensures lastKlineByte == NextByte(old(userCommand), buffer[0])
      ensures written == old(written) + [lastKlineByte]
      ensures handled == old(handled) + [buffer] && taken == old(taken) + [old(userCommand)]
    {
      handled, taken := handled + [buffer], taken + [userCommand];
      var next := NextCommand(buffer[0]);
      SendByte(next);
    }

    /** parseData80, reduced to the offsets it reads. */
    method ParseData80(frame: seq<byte>) returns (ok: bool)
      requires |frame| >= 2 && frame[0] == 0x80
      ensures ok == !ParserPanics(frame)
    {
      var data := frame[1..];
      var packetSize := data[0];
      if |data| < 15 {
        return true;
      }
      if packetSize > 15 && |data| <= 15 { assert Reads80(packetSize, 15); return false; }
      if packetSize > 16 && |data| <= 16 { assert Reads80(packetSize, 16); return false; }
      if packetSize > 0x12 && |data| <= 0x12 { assert Reads80(packetSize, 0x12); return false; }
      if packetSize > 0x14 && |data| <= 0x14 { assert Reads80(packetSize, 0x14); return false; }
      if packetSize > 0x15 && |data| <= 0x15 { assert Reads80(packetSize, 0x15); return false; }
      if packetSize > 0x16 && |data| <= 0x16 { assert Reads80(packetSize, 0x16); return false; }
      if packetSize > 0x18 && |data| <= 0x18 { assert Reads80(packetSize, 0x18); return false; }
      return true;
    }

    /** parseData7D, reduced to the offsets it reads. */
    method ParseData7D(frame: seq<byte>) returns (ok: bool)
      requires |frame| >= 2 && frame[0] == 0x7D
      ensures ok == !ParserPanics(frame)
    {
      var data := frame[1..];
      var packetSize := data[0];
      if |data| < 15 {
        return true;
      }
      if packetSize >= 16 && |data| <= 15 { assert Reads7D(packetSize, 15); return false; }
      if packetSize >= 21 && |data| <= 20 { assert Reads7D(packetSize, 20); return false; }
      if packetSize >= 0x16 && |data| <= 0x16 { assert Reads7D(packetSize, 0x16); return false; }
      if packetSize >= 0x1F && |data| <= 0x1F { assert Reads7D(packetSize, 0x1F); return false; }
      return true;
    }

    /** The part of a pass after the read: consumes an echo, or answers a complete reply. */
    method Recognise(kline: bool, received: seq<byte>, ghost readLoops: nat) returns (buffer: seq<byte>, panicked: bool)
      modifies this
      ensures script == old(script)
      ensures Act(kline, old(View(received, readLoops))) ==
              if panicked then Stopped(Panicked, View(buffer, readLoops)) else Running(View(buffer, readLoops))
    {
      buffer, panicked := received, false;
      if |buffer| == 0 {
        return;
      }
      if kline && !gotKlineEcho {
        if buffer[0] == lastKlineByte {
          gotKlineEcho := true;
          buffer := buffer[1..];
          return;
        }
      }
      if |buffer| >= 2 {
        if IsCommand(buffer[0]) {
          Reply(buffer);
          return [], false;
        }
      }
      match buffer[0]
      case 0xCC =>
        assert |buffer| < 2;  // two bytes starting with a command were answered above
      case 0xCA =>
        Reply(buffer);
        buffer := [];
      case 0x75 =>
        Reply(buffer);
        buffer := [];
      case 0xF4 =>
        if |buffer| >= 2 && buffer[1] == 0 {
          Reply(buffer);
          buffer := [];
        }
      case 0xD0 =>
        if |buffer| >= 5 {
          connected := true;
          Reply(buffer);
          buffer := [];
        }
      case 0x80 =>
        if |buffer| >= 2 && |buffer| >= buffer[1] as int + 1 {
          var ok := ParseData80(buffer);
          if !ok {
            return buffer, true;
          }
          Reply(buffer);
          buffer := [];
        }
      case 0x7D =>
        if |buffer| >= 2 && |buffer| >= buffer[1] as int + 1 {
          var ok := ParseData7D(buffer);
          if !ok {
            return buffer, true;
          }
          Reply(buffer);
          buffer := [];
        }
      case _ =>
    }

    /** One pass of the loop below. */
    method Pass(kline: bool, received: seq<byte>, loops: nat)
      returns (exit: Option<Exit>, buffer: seq<byte>, readLoops: nat, ghost tick: Tick)
      requires loops < READ_LOOPS_LIMIT
      modifies this
      ensures tick == if old(script) == [] then SILENCE else old(script)[0]
      ensures script == if old(script) == [] then [] else old(script)[1..]
      ensures Receive(kline, old(View(received, loops)), tick) ==
              if exit.Some? then Stopped(exit.value, View(buffer, readLoops)) else Running(View(buffer, readLoops))
      ensures readLoops == if tick.cancelled then loops
                           else if tick.failure.Broken? || tick.data == [] then loops + 1 else 0
      ensures exit != Some(Normal)
    {
      buffer, readLoops, exit := received, loops, None;
      var t := Poll();
      tick := t;
      if t.cancelled {
        exit := Some(Cancelled);
        return;
      }
      readLoops := readLoops + 1;
      if t.failure.Broken? {
        exit := Some(ReadFailed);
        return;
      }
      buffer := buffer + t.data;
      if |t.data| > 0 {
        readLoops := 0;
      }
      var panicked;
      buffer, panicked := Recognise(kline, buffer, readLoops);
      if panicked {
        exit := Some(Panicked);
      }
    }

    /** Runs until it errors or times out; ticks are the ticks it took, the last one ending it. */
    method Loop(kline: bool) returns (exit: Exit, ghost final: Session, ghost ticks: seq<Tick>)
      requires written == [] && handled == [] && taken == [] && !connected
      modifies this
      ensures After(Step(kline), Start(old(userCommand)), ticks) == Stopped(exit, final)
      ensures Fed(old(script), ticks) && final == View(final.buffer, final.readLoops)
      ensures exit != Normal
    {
      ghost var start := Start(userCommand);
      SendByte(0xCA);
      var buffer: seq<byte> := [];
      var readLoops: nat := 0;
      ticks := [];
      assert View(buffer, readLoops) == start;
      while readLoops < READ_LOOPS_LIMIT
        invariant readLoops <= READ_LOOPS_LIMIT
        invariant After(Step(kline), start, ticks) == Running(View(buffer, readLoops))
        invariant Fed(old(script), ticks)
        invariant script == if |ticks| < |old(script)| then old(script)[|ticks|..] else []
        decreases |script|, READ_LOOPS_LIMIT - readLoops
      {
        var ended;
        ghost var tick;
        ended, buffer, readLoops, tick := Pass(kline, buffer, readLoops);
        AfterOne(Step(kline), start, ticks, tick);
        ticks := ticks + [tick];
        if ended.Some? {
          return ended.value, View(buffer, readLoops), ticks;
        }
      }
      exit, final := Normal, View(buffer, readLoops);
      if readLoops >= READ_LOOPS_LIMIT {
        exit := TimedOut;
        ghost var tick := if script == [] then SILENCE else script[0];
        AfterOne(Step(kline), start, ticks, tick);
        ticks := ticks + [tick];
      }
    }
  }
}
