/** What the MEMS 3 loop does over whole runs: frame alignment, the reply it finds behind any backlog
    of frames it discards, and the key it sends. */
module Mems3Properties {
  import opened Bytes
  import opened Line
  import opened Mems3
  import opened Auth

  type Commands = map<string, seq<byte>>

  // ---------------------------------------------------------------- any bytes

  lemma {:induction false} XorAllAppend(a: seq<byte>, b: seq<byte>, n: nat)
    requires n <= |a|
    ensures XorAll(a + b, n) == XorAll(a, n)
  {
    if n > 0 {
      XorAllAppend(a, b, n - 1);
    }
  }

  /** A frame written checks: all its bytes XOR to zero. */
  lemma RequestChecks(data: seq<byte>)
    ensures var f := Encode(Request(data)); XorAll(f, |f|) == 0
  {
    var p := Request(data);
    var body := REQUEST_HEADER + [|data| % 256] + data;
    assert Encode(p) == body + [p.check];
    XorAllAppend(body, [p.check], |body|);
    XorSelf(8, p.check);
  }

  lemma PassCounts(commands: Commands, s: Session, t: Tick)
    ensures s.readLoops >= READ_LOOPS_LIMIT ==> Receive(commands, s, t).Stopped?
    ensures Receive(commands, s, t).Running? ==>
              Receive(commands, s, t).s.readLoops == if t.data == [] then s.readLoops + 1 else 0
    ensures Receive(commands, s, t).Stopped? && Receive(commands, s, t).exit == TimedOut <==>
              s.readLoops >= READ_LOOPS_LIMIT
    ensures Receive(commands, s, t).Stopped? && Receive(commands, s, t).exit == Cancelled <==>
              s.readLoops < READ_LOOPS_LIMIT && t.cancelled
    ensures Receive(commands, s, t).Stopped? && Receive(commands, s, t).exit == ReadFailed <==>
              s.readLoops < READ_LOOPS_LIMIT && !t.cancelled && t.failure.Broken?
  {
    hide Look, Judge, NextRequest, Encode, Request;
    var r := Received(s, t);
  }

  lemma SilenceEndsAnyRun(commands: Commands, s: Session, script: seq<Tick>)
    ensures After(Step(commands), s, script + Silence(READ_LOOPS_LIMIT + 1)).Stopped?
  {
    var step := Step(commands);
    AfterAppend(step, s, script, Silence(READ_LOOPS_LIMIT + 1));
    var st := After(step, s, script);
    if st.Running? {
      forall s: Session
        ensures s.readLoops >= READ_LOOPS_LIMIT ==> step(s, SILENCE).Stopped?
        ensures step(s, SILENCE).Running? ==> step(s, SILENCE).s.readLoops == s.readLoops + 1
      {
        PassCounts(commands, s, SILENCE);
      }
      SilenceRunsOut(step, (s: Session) => s.readLoops, READ_LOOPS_LIMIT, st.s, READ_LOOPS_LIMIT + 1);
    }
  }

  /** Any finite script followed by silence ends within 201 silent passes. */
  lemma SilenceEndsTheLoop(commands: Commands, command: string, script: seq<Tick>)
    ensures After(Step(commands), Start(command), script + Silence(201)).Stopped?
  {
    SilenceEndsAnyRun(commands, Start(command), script);
  }

  /** The next pass times out exactly when 200 reads in a row have brought nothing; otherwise it ends
      the run on a cancelled context, and after that on a read error. */
  lemma TimesOutExactly(commands: Commands, command: string, ticks: seq<Tick>, next: Tick)
    requires After(Step(commands), Start(command), ticks).Running?
    ensures var st := Receive(commands, After(Step(commands), Start(command), ticks).s, next);
            && (st.Stopped? && st.exit == TimedOut <==> Quiet(ticks) >= 200)
            && (st.Stopped? && st.exit == Cancelled <==> Quiet(ticks) < 200 && next.cancelled)
            && (st.Stopped? && st.exit == ReadFailed <==>
                  Quiet(ticks) < 200 && !next.cancelled && next.failure.Broken?)
  {
    hide Receive;
    forall s, t | Step(commands)(s, t).Running?
      ensures Step(commands)(s, t).s.readLoops == if t.data == [] then s.readLoops + 1 else 0
    {
      PassCounts(commands, s, t);
    }
    CounterIsQuiet(Step(commands), (s: Session) => s.readLoops, Start(command), ticks);
    PassCounts(commands, After(Step(commands), Start(command), ticks).s, next);
  }

  /** What makes the loop panic: at the head of the buffer a whole frame, not with our own header and
      not the bare init command, whose payload is the lone byte 58. */
  predicate LoneFaultByte(b: seq<byte>)
  {
    |b| >= 6 && b[..2] != [0x1A, 0x9A] && b[..3] != [0xB8, 0x13, 0xF7] && b[3] == 1 && b[4] == 0x58
  }

  /** A pass panics exactly when it reads without error and then finds that frame: fault parsing
      slices two bytes off a payload of one. */
  lemma PanicsExactly(commands: Commands, s: Session, t: Tick)
    ensures var st := Receive(commands, s, t);
            (st.Stopped? && st.exit == Panicked) <==> Goes(s, t) && LoneFaultByte(s.buffer + t.data)
  {
    hide Answer, Judge;
    var b := s.buffer + t.data;
    if |b| >= 4 && |b| >= b[3] as int + 5 {
      var payload := b[4..4 + b[3] as int];
      OnlyLone58Panics(payload);
      assert |payload| == 1 ==> payload == [b[4]];
    }
  }

  lemma OnlyLone58Panics(payload: seq<byte>)
    ensures Judge(payload).Panics? <==> payload == [0x58]
  {
  }

  /** One run that panics: the frame comes first. */
  lemma LoneFaultByteRun()
    ensures var st := After(Step(USER_COMMANDS), Start(""), [SILENCE.(data := LONE_FAULT_BYTE)]);
            st.Stopped? && st.exit == Panicked
  {
    hide Receive, Encode, Request;
    var b, t := LONE_FAULT_BYTE, SILENCE.(data := LONE_FAULT_BYTE);
    assert Start("").buffer + b == b;
    assert b[..2][0] == 0xB8 && b[..3][1] == 0xF7;
    PanicsExactly(USER_COMMANDS, Start(""), t);
  }

  const LONE_FAULT_BYTE: seq<byte> := [0xB8, 0xF7, 0x13, 0x01, 0x58, 0x00]

  /** A pass that reaches its read and reads without error. */
  predicate Goes(s: Session, t: Tick)
  {
    s.readLoops < READ_LOOPS_LIMIT && !t.cancelled && !t.failure.Broken?
  }

  /** Key and seed agree; and among requests not chosen by the user, those of service 27 02 are
      exactly the answers to seed replies of at least four bytes and a seed other than zero, and
      each carries two bytes that decode to the key for that seed. */
  predicate Secure(commands: Commands, s: Session)
  {
    && s.seed < 65536 && s.key == KeyFor(s.seed)
    && |s.sent| == |s.handled| + 1 == |s.taken| + 1
    && forall i :: 0 <= i < |s.handled| && UserCommand(commands, s.taken[i]).None? ==>
         SecureAnswer(s.handled[i], s.sent[i + 1])
  }

  predicate SecureAnswer(payload: seq<byte>, frame: seq<byte>)
  {
    && |frame| >= 6
    && (SeedReply(payload) && SeedOf(payload) != 0 <==> frame[4..6] == [0x27, 0x02])
    && (SeedReply(payload) && SeedOf(payload) != 0 ==>
          |frame| == 9 && Uint16(frame[6], frame[7]) == KeyFor(SeedOf(payload)))
  }

  lemma AnswerIsSecure(commands: Commands, payload: seq<byte>, key: nat)
    requires Judge(payload).Handled?
    requires SeedReply(payload) ==> key == KeyFor(SeedOf(payload))
    ensures SecureAnswer(payload, Encode(Request(NextRequest(commands, "", key, Judge(payload).reply))))
  {
    var next := NextRequest(commands, "", key, Judge(payload).reply);
    var frame := Encode(Request(next));
    assert frame[4..4 + |next|] == next;
    if SeedReply(payload) {
      if SeedOf(payload) != 0 {
        KeyForFitsTwoBytes(SeedOf(payload));
        assert next == SEND_KEY + PutUint16(key);
        assert frame[6] == next[2] && frame[7] == next[3];
        assert frame[4..6] == next[..2];
      }
    }
    assert frame[4] == next[0];
  }

  lemma UnknownIsNone(commands: Commands, command: string, key: nat, reply: seq<byte>)
    requires UserCommand(commands, command).None?
    ensures NextRequest(commands, command, key, reply) == NextRequest(commands, "", key, reply)
  {
  }

  lemma AnswerKeepsSecure(commands: Commands, s: Session, payload: seq<byte>)
    requires Secure(commands, s) && Judge(payload).Handled?
    ensures Secure(commands, Answer(commands, s, payload, Judge(payload).reply))
  {
    hide NextRequest, Judge, SecureAnswer, Encode, Request;
    var key := Parsed(s, payload).key;
    assert !(|payload| >= 2 && payload[..2] == INIT_ACCEPTED && SeedReply(payload));
    if UserCommand(commands, s.command).None? {
      AnswerIsSecure(commands, payload, key);
      UnknownIsNone(commands, s.command, key, Judge(payload).reply);
    }
  }

  lemma StepKeepsSecure(commands: Commands, s: Session, t: Tick)
    requires Secure(commands, s)
    ensures Secure(commands, Receive(commands, s, t).s)
  {
    var r := Received(s, t);
    assert Secure(commands, r);
    match Look(r.buffer)
    case Wait =>
    case Skip(n) =>
    case Reply(payload) =>
      if Judge(payload).Handled? {
        AnswerKeepsSecure(commands, r, payload);
      }
  }

  /** In every reachable state, whatever bytes arrived. */
  lemma SecurityAccess(commands: Commands, command: string, ticks: seq<Tick>)
    ensures Secure(commands, After(Step(commands), Start(command), ticks).s)
  {
    forall s, t | Secure(commands, s) ensures Secure(commands, Step(commands)(s, t).s) {
      StepKeepsSecure(commands, s, t);
    }
    AfterKeeps(Step(commands), (s: Session) => Secure(commands, s), Start(command), ticks);
  }

  // ---------------------------------------------------------------- user commands, any bytes

  function FrameOf(request: seq<byte>): seq<byte> { Encode(Request(request)) }

  lemma FramesDiffer(a: seq<byte>, b: seq<byte>)
    ensures FrameOf(a) == FrameOf(b) <==> a == b
  {
    assert FrameOf(a)[4..4 + |a|] == a && FrameOf(b)[4..4 + |b|] == b;
  }

  /** The one user command's request goes out exactly when it was pending. */
  lemma NextIsCommand(command: string, key: nat, reply: seq<byte>, name: string)
    requires name in USER_COMMANDS
    ensures NextRequest(USER_COMMANDS, command, key, reply) == USER_COMMANDS[name] <==> command == name
  {
    assert command != name ==> UserCommand(USER_COMMANDS, command).None?;
    assert NextAfterResponse(reply)[0] != 0x14;
  }

  predicate SentAsTaken(s: Session, name: string)
    requires name in USER_COMMANDS
  {
    multiset(s.sent)[FrameOf(USER_COMMANDS[name])] == multiset(s.taken)[name]
  }

  lemma StepSendsAsTaken(s: Session, t: Tick, name: string)
    requires name in USER_COMMANDS && SentAsTaken(s, name)
    ensures SentAsTaken(Receive(USER_COMMANDS, s, t).s, name)
  {
    hide Encode, Request, NextRequest, Judge;
    var r := Received(s, t);
    if Look(r.buffer).Reply? {
      var payload := Look(r.buffer).payload;
      if Judge(payload).Handled? {
        var key, reply := Parsed(r, payload).key, Judge(payload).reply;
        NextIsCommand(r.command, key, reply, name);
        FramesDiffer(NextRequest(USER_COMMANDS, r.command, key, reply), USER_COMMANDS[name]);
      }
    }
  }

  lemma StepTakesPending(commands: Commands)
    ensures forall s: Session, t: Tick ::
              TakesPending(s.command, s.taken, t, Step(commands)(s, t).s.command, Step(commands)(s, t).s.taken)
  {
    forall s: Session, t: Tick
      ensures TakesPending(s.command, s.taken, t, Step(commands)(s, t).s.command, Step(commands)(s, t).s.taken)
    {
      hide Look, Judge, Parsed, NextRequest, Encode, Request;
      var r := Received(s, t);
    }
  }

  /** The frame of the user command goes out at most as often as the command was posted. */
  lemma EachPostSentAtMostOnce(command: string, ticks: seq<Tick>, name: string)
    requires name in USER_COMMANDS
    ensures multiset(After(Step(USER_COMMANDS), Start(command), ticks).s.sent)[FrameOf(USER_COMMANDS[name])] <=
            multiset(Posts(ticks))[name] + if command == name then 1 else 0
  {
    var start := Start(command);
    FramesDiffer(INIT, USER_COMMANDS[name]);
    assert SentAsTaken(start, name) && start.taken == [] && start.command == command;
    hide Receive;
    forall s: Session, t: Tick | SentAsTaken(s, name) ensures SentAsTaken(Step(USER_COMMANDS)(s, t).s, name) {
      StepSendsAsTaken(s, t, name);
    }
    AfterKeeps(Step(USER_COMMANDS), (s: Session) => SentAsTaken(s, name), start, ticks);
    StepTakesPending(USER_COMMANDS);
    PostsTakenAtMostOnce(
      Step(USER_COMMANDS), (s: Session) => s.command, (s: Session) => s.taken, start, ticks, name);
  }

  // ---------------------------------------------------------------- against an ECU

  /** A packet that cannot be read as the bare init command. */
  predicate Aligned(p: Packet)
  {
    |p.header| == 3 && |p.payload| <= 255 && p.header[..2] != [0x1A, 0x9A]
  }

  /** An echo of our own header, or a frame the loop does not recognise. */
  predicate Skippable(p: Packet)
  {
    Aligned(p) && (p.header == [0xB8, 0x13, 0xF7] || Judge(p.payload).Unknown?)
  }

  predicate Recognised(p: Packet)
  {
    Aligned(p) && p.header != [0xB8, 0x13, 0xF7] && Judge(p.payload).Handled?
  }

  /** Every request the loop writes comes back, if the line echoes, as a packet to be skipped. */
  lemma OwnEchoIsSkippable(data: seq<byte>)
    requires |data| <= 255
    ensures Skippable(Request(data))
  {
    assert REQUEST_HEADER[..2][0] != INIT[0];
  }

  /** What answers one request: packets to skip, echoes among them, and then a recognised reply. */
  datatype Response = Response(junk: seq<Packet>, reply: Packet)

  predicate ValidResponse(r: Response)
  {
    Recognised(r.reply) && forall i :: 0 <= i < |r.junk| ==> Skippable(r.junk[i])
  }

  /** The bytes of a run of packets followed by one more. */
  function Stream(junk: seq<Packet>, reply: Packet): seq<byte>
    requires |reply.header| == 3 && forall i :: 0 <= i < |junk| ==> |junk[i].header| == 3
  {
    if junk == [] then Encode(reply) else Encode(junk[0]) + Stream(junk[1..], reply)
  }

  /** The loop, the bytes not read, the packets still to skip before the outstanding reply, the
      responses given and whether the loop has ended. */
  datatype World = World(s: Session, wire: seq<byte>, left: seq<Packet>, given: seq<Response>, over: bool)

  datatype Move = Move(tick: Tick, response: Response)

  predicate Possible(commands: Commands, w: World, m: Move)
  {
    var st := Receive(commands, w.s, m.tick);
    !w.over ==>
      && m.tick.data <= w.wire && (!Goes(w.s, m.tick) ==> m.tick.data == [])
      && (|st.s.sent| > |w.s.sent| ==> ValidResponse(m.response))
  }

  /** A frame sent puts its response on the wire; a frame skipped leaves one less to skip. */
  function Settle(w: World, st: Status<Session>, skipped: bool, r: Response): World
    requires |st.s.sent| > |w.s.sent| ==> ValidResponse(r)
  {
    if |st.s.sent| > |w.s.sent| then
      World(st.s, w.wire + Stream(r.junk, r.reply), r.junk, w.given + [r], false)
    else World(st.s, w.wire, if skipped && w.left != [] then w.left[1..] else w.left, w.given, st.Stopped?)
  }

  function Next(commands: Commands, w: World, m: Move): World
  {
    if w.over || !Possible(commands, w, m) then w
    else if !Goes(w.s, m.tick) then w.(s := Receive(commands, w.s, m.tick).s, over := true)
    else
      Settle(w.(wire := w.wire[|m.tick.data|..]), Receive(commands, w.s, m.tick),
             Look(Received(w.s, m.tick).buffer).Skip?, m.response)
  }

  function Begin(command: string, r: Response): World
    requires ValidResponse(r)
  {
    World(Start(command), Stream(r.junk, r.reply), r.junk, [r], false)
  }

  function NextIn(commands: Commands): (World, Move) -> World { (w: World, m: Move) => Next(commands, w, m) }

  function PossibleIn(commands: Commands): (World, Move) -> bool
  {
    (w: World, m: Move) => Possible(commands, w, m)
  }

  function TickOf(m: Move): Tick { m.tick }

  function TicksOf(moves: seq<Move>): seq<Tick> { Ticks(TickOf, moves) }

  /** The moves are ones the environment can make, and the world they lead to. */
  predicate CanPlay(commands: Commands, command: string, first: Response, moves: seq<Move>)
  {
    ValidResponse(first) && AllPossible(NextIn(commands), PossibleIn(commands), Begin(command, first), moves)
  }

  function Played(commands: Commands, command: string, first: Response, moves: seq<Move>): World
    requires ValidResponse(first)
  {
    Play(NextIn(commands), Begin(command, first), moves)
  }

  function Payloads(given: seq<Response>): (r: seq<seq<byte>>)
    ensures |r| == |given| && forall i :: 0 <= i < |given| ==> r[i] == given[i].reply.payload
  {
    seq(|given|, i requires 0 <= i < |given| => given[i].reply.payload)
  }

  /** The frames a session sends: a function of the payloads handled and the commands pending. */
  function Requests(commands: Commands, handled: seq<seq<byte>>, taken: seq<string>): (r: seq<seq<byte>>)
    requires |handled| == |taken| && forall i :: 0 <= i < |handled| ==> Judge(handled[i]).Handled?
    ensures |r| == |handled| + 1
  {
    if handled == [] then [FrameOf(INIT)]
    else
      var n := |handled| - 1;
      Requests(commands, handled[..n], taken[..n]) +
      [FrameOf(NextRequest(commands, taken[n], KeyAfter(handled), Judge(handled[n]).reply))]
  }

  predicate FollowsAutomaton(commands: Commands, s: Session)
  {
    && |s.handled| == |s.taken|
    && (forall i :: 0 <= i < |s.handled| ==> Judge(s.handled[i]).Handled?)
    && s.sent == Requests(commands, s.handled, s.taken) && s.key == KeyAfter(s.handled)
  }

  /** Every response but the last was handled, its recognised payload exactly, once; and the buffer
      followed by the unread wire is the packets still to skip and the outstanding reply, so the
      buffer starts on a packet boundary. */
  predicate Synced(w: World)
  {
    && |w.given| == |w.s.sent| > 0 && w.s.handled == Payloads(w.given)[..|w.given| - 1]
    && Recognised(w.given[|w.given| - 1].reply)
    && (forall i :: 0 <= i < |w.left| ==> Skippable(w.left[i]))
    && w.s.buffer + w.wire == Stream(w.left, w.given[|w.given| - 1].reply)
  }

  predicate InStep(commands: Commands, w: World)
  {
    FollowsAutomaton(commands, w.s) && Synced(w)
  }

  lemma PartOfPacket(b: seq<byte>, wire: seq<byte>, p: Packet, rest: seq<byte>)
    requires Aligned(p) && b + wire == Encode(p) + rest && |b| < |Encode(p)|
    ensures Look(b) == Wait
  {
    var e := Encode(p);
    assert b == (b + wire)[..|b|] == e[..|b|];
    if |b| >= 2 {
      assert b[..2] == e[..3][..2] == p.header[..2];
    }
  }

  lemma WholePacket(b: seq<byte>, wire: seq<byte>, p: Packet, rest: seq<byte>)
    requires Aligned(p) && b + wire == Encode(p) + rest && |b| >= |Encode(p)|
    ensures Look(b) == (if Skippable(p) then Skip(|Encode(p)|) else Reply(p.payload))
    ensures b[|Encode(p)|..] + wire == rest
  {
    hide Judge;
    var e := Encode(p);
    assert b[..|e|] == (b + wire)[..|e|] == e;
    assert b[..3] == e[..3] && b[..2] == e[..3][..2] && b[3] == e[3];
    assert b[4..4 + |p.payload|] == b[..|e|][4..4 + |p.payload|] == p.payload;
    assert b[|e|..] + wire == (b + wire)[|e|..];
  }

  /** A part of a packet waits; a whole packet is taken off exactly. */
  lemma LookAtPacket(b: seq<byte>, wire: seq<byte>, p: Packet, rest: seq<byte>)
    requires Aligned(p) && b + wire == Encode(p) + rest
    ensures if |b| < |Encode(p)| then Look(b) == Wait
            else
              && Look(b) == (if Skippable(p) then Skip(|Encode(p)|) else Reply(p.payload))
              && b[|Encode(p)|..] + wire == rest
  {
    if |b| < |Encode(p)| {
      PartOfPacket(b, wire, p, rest);
    } else {
      WholePacket(b, wire, p, rest);
    }
  }

  /** What a pass does with the outstanding stream. */
  predicate Outcome(commands: Commands, w: World, st: Status<Session>)
    requires Synced(w)
  {
    var reply := w.given[|w.given| - 1].reply;
    match Look(w.s.buffer)
    case Wait => st == Running(w.s)
    case Skip(n) =>
      && w.left != [] && st == Running(w.s.(buffer := w.s.buffer[n..]))
      && w.s.buffer[n..] + w.wire == Stream(w.left[1..], reply)
    case Reply(payload) =>
      && w.left == [] && w.wire == [] && payload == reply.payload
      && st == Running(Answer(commands, w.s, payload, Judge(payload).reply))
  }

  lemma ActOnStream(commands: Commands, w: World)
    requires Synced(w)
    ensures Outcome(commands, w, Act(commands, w.s))
  {
    var reply := w.given[|w.given| - 1].reply;
    if w.left == [] {
      assert Encode(reply) + [] == Encode(reply);
      LookAtPacket(w.s.buffer, w.wire, reply, []);
    } else {
      LookAtPacket(w.s.buffer, w.wire, w.left[0], Stream(w.left[1..], reply));
    }
  }

  lemma AnswerKeepsAutomaton(commands: Commands, s: Session, payload: seq<byte>)
    requires FollowsAutomaton(commands, s) && Judge(payload).Handled?
    ensures FollowsAutomaton(commands, Answer(commands, s, payload, Judge(payload).reply))
  {
    var s', n := Answer(commands, s, payload, Judge(payload).reply), |s.handled|;
    assert s'.handled[..n] == s.handled && s'.taken[..n] == s.taken;
    assert s'.key == KeyAfter(s'.handled);
  }

  lemma AnswerKeepsSynced(w: World, s': Session, r: Response)
    requires Synced(w) && w.wire == [] && s'.buffer == [] && ValidResponse(r)
    requires |s'.sent| == |w.s.sent| + 1 && s'.handled == w.s.handled + [w.given[|w.given| - 1].reply.payload]
    ensures Synced(Settle(w, Running(s'), false, r))
  {
    var w' := Settle(w, Running(s'), false, r);
    assert w'.s.buffer + w'.wire == Stream(r.junk, r.reply);
    assert w'.s.handled == Payloads(w'.given)[..|w'.given| - 1];
  }

  lemma SkipKeepsSynced(w: World, buffer: seq<byte>, r: Response)
    requires Synced(w) && w.left != []
    requires buffer + w.wire == Stream(w.left[1..], w.given[|w.given| - 1].reply)
    ensures Synced(Settle(w, Running(w.s.(buffer := buffer)), true, r))
  {
  }

  lemma OutcomeKeepsSynced(commands: Commands, w: World, st: Status<Session>, r: Response)
    requires Synced(w) && Outcome(commands, w, st)
    requires |st.s.sent| > |w.s.sent| ==> ValidResponse(r)
    ensures Synced(Settle(w, st, Look(w.s.buffer).Skip?, r))
  {
    match Look(w.s.buffer)
    case Wait =>
    case Skip(n) => SkipKeepsSynced(w, w.s.buffer[n..], r);
    case Reply(payload) => AnswerKeepsSynced(w, st.s, r);
  }

  lemma ReadKeepsSynced(w: World, t: Tick)
    requires Synced(w) && t.data <= w.wire
    ensures Synced(w.(s := Received(w.s, t), wire := w.wire[|t.data|..]))
  {
    assert w.s.buffer + t.data + w.wire[|t.data|..] == w.s.buffer + w.wire;
  }

  lemma ActKeepsInStep(commands: Commands, w: World, r: Response)
    requires InStep(commands, w)
    requires |Act(commands, w.s).s.sent| > |w.s.sent| ==> ValidResponse(r)
    ensures InStep(commands, Settle(w, Act(commands, w.s), Look(w.s.buffer).Skip?, r))
  {
    var st := Act(commands, w.s);
    ActOnStream(commands, w);
    OutcomeKeepsSynced(commands, w, st, r);
    if Look(w.s.buffer).Reply? {
      AnswerKeepsAutomaton(commands, w.s, Look(w.s.buffer).payload);
    }
  }

  lemma EarlyStopKeepsInStep(commands: Commands, w: World, m: Move)
    requires InStep(commands, w) && Possible(commands, w, m) && !w.over && !Goes(w.s, m.tick)
    ensures InStep(commands, Next(commands, w, m))
  {
  }

  lemma StepKeepsInStep(commands: Commands, w: World, m: Move)
    requires InStep(commands, w) && Possible(commands, w, m)
    ensures InStep(commands, Next(commands, w, m))
  {
    if !w.over {
      if Goes(w.s, m.tick) {
        var read := w.(s := Received(w.s, m.tick), wire := w.wire[|m.tick.data|..]);
        ReadKeepsSynced(w, m.tick);
        assert FollowsAutomaton(commands, read.s);
        ActKeepsInStep(commands, read, m.response);
      } else {
        EarlyStopKeepsInStep(commands, w, m);
      }
    }
  }

  lemma NextIsStep(commands: Commands, w: World, m: Move)
    requires !w.over && Possible(commands, w, m)
    ensures Next(commands, w, m).s == Receive(commands, w.s, m.tick).s
    ensures Next(commands, w, m).over == Receive(commands, w.s, m.tick).Stopped?
  {
  }

  lemma BeginsInStep(commands: Commands, command: string, first: Response)
    requires ValidResponse(first)
    ensures InStep(commands, Begin(command, first)) && Begin(command, first).s == Start(command)
    ensures !Begin(command, first).over
  {
    hide Judge, NextRequest, Encode, Request;
    var begin := Begin(command, first);
    assert begin.s.buffer + begin.wire == begin.wire;
  }

  lemma StaysInStep(commands: Commands, w: World, moves: seq<Move>)
    requires InStep(commands, w) && AllPossible(NextIn(commands), PossibleIn(commands), w, moves)
    ensures InStep(commands, Play(NextIn(commands), w, moves))
  {
    var next, possible := NextIn(commands), PossibleIn(commands);
    hide InStep, Possible, Next;
    forall w, m | InStep(commands, w) && possible(w, m) ensures InStep(commands, next(w, m)) {
      StepKeepsInStep(commands, w, m);
    }
    PlayKeeps(next, possible, (w: World) => InStep(commands, w), w, moves);
  }

  lemma PlaysTheLoop(commands: Commands, w: World, moves: seq<Move>)
    requires !w.over && AllPossible(NextIn(commands), PossibleIn(commands), w, moves)
    ensures var f, st := Play(NextIn(commands), w, moves), After(Step(commands), w.s, TicksOf(moves));
            f.s == st.s && f.over == st.Stopped?
  {
    var next, possible := NextIn(commands), PossibleIn(commands);
    assert forall w: World, m: Move :: w.over ==> next(w, m) == w;
    hide Possible, Next, Receive;
    forall w: World, m: Move | !w.over && possible(w, m)
      ensures next(w, m).s == Step(commands)(w.s, m.tick).s && next(w, m).over == Step(commands)(w.s, m.tick).Stopped?
    {
      NextIsStep(commands, w, m);
    }
    PlayIsAfter(Step(commands), TickOf, next, possible, (w: World) => w.s, (w: World) => w.over, w, moves);
  }

  /** The realignment theorem: for every cut of the stream into reads, and any number of echoes and
      unrecognised frames before each recognised reply, exactly the recognised payloads are
      handled, one for each request sent, and the buffer always starts on a packet boundary. */
  lemma LoopRefinesAutomaton(commands: Commands, command: string, first: Response, moves: seq<Move>)
    requires CanPlay(commands, command, first, moves)
    ensures var w := Played(commands, command, first, moves);
            var st := After(Step(commands), Start(command), TicksOf(moves));
            InStep(commands, w) && st.s == w.s && st.Stopped? == w.over
  {
    BeginsInStep(commands, command, first);
    hide InStep, Possible, Next, Receive, Begin, ValidResponse;
    StaysInStep(commands, Begin(command, first), moves);
    PlaysTheLoop(commands, Begin(command, first), moves);
  }

  /** The bytes of an encoded packet. */
  function Size(p: Packet): nat { |p.payload| + 5 }

  lemma TakesPacket(commands: Commands, w: World)
    requires Synced(w) && w.left != []
    ensures var st, n := Act(commands, w.s), Size(w.left[0]);
            && st.Running? && st.s == w.s.(buffer := st.s.buffer)
            && |st.s.buffer| == (if n <= |w.s.buffer| then |w.s.buffer| - n else |w.s.buffer|)
            && Synced(World(st.s, w.wire, if n <= |w.s.buffer| then w.left[1..] else w.left, w.given, false))
  {
    hide Judge, NextRequest, Request, Parsed, Answer;
    LookAtPacket(w.s.buffer, w.wire, w.left[0], Stream(w.left[1..], w.given[|w.given| - 1].reply));
  }

  lemma TakesReply(commands: Commands, w: World)
    requires Synced(w) && w.left == []
    ensures var st, payload := Act(commands, w.s), w.given[|w.given| - 1].reply.payload;
            && st.Running? && st.s.readLoops == w.s.readLoops
            && if w.wire == [] then st.s.handled == w.s.handled + [payload] else st.s == w.s
  {
    hide NextRequest, Request, Look, Encode, Skippable;
    var reply := w.given[|w.given| - 1].reply;
    assert Encode(reply) + [] == Encode(reply);
    assert |w.s.buffer| + |w.wire| == |Encode(reply)|;
    RepliesAreKept(reply);
    LookAtPacket(w.s.buffer, w.wire, reply, []);
  }

  lemma RepliesAreKept(p: Packet)
    requires Recognised(p)
    ensures !Skippable(p)
  {
  }

  /** What a pass does with the stream, by sizes alone: it takes off the packet to skip at the head if
      all of it is there, answers a reply once all of that is, and otherwise waits. */
  lemma PassTakes(commands: Commands, w: World, t: Tick)
    requires Synced(w) && t.data <= w.wire && Goes(w.s, t)
    ensures var st, held, rest := Receive(commands, w.s, t), |w.s.buffer| + |t.data|, w.wire[|t.data|..];
            && st.Running? && st.s.readLoops == Received(w.s, t).readLoops
            && if w.left != [] && Size(w.left[0]) <= held then
                 && Synced(World(st.s, rest, w.left[1..], w.given, false)) && st.s.handled == w.s.handled
                 && |st.s.buffer| == held - Size(w.left[0])
               else if w.left == [] && rest == [] then
                 st.s.handled == w.s.handled + [w.given[|w.given| - 1].reply.payload]
               else
                 && Synced(World(st.s, rest, w.left, w.given, false)) && st.s.handled == w.s.handled
                 && |st.s.buffer| == held
  {
    hide Act, Encode, Synced;
    var read := w.(s := Received(w.s, t), wire := w.wire[|t.data|..]);
    ReadKeepsSynced(w, t);
    if w.left != [] {
      TakesPacket(commands, read);
    } else {
      TakesReply(commands, read);
      NotOver(read);
    }
  }

  lemma NotOver(w: World)
    requires Synced(w)
    ensures Synced(World(w.s, w.wire, w.left, w.given, false)) && |w.given| > 0
  {
  }

  /** A pass that takes all there is on the wire takes one packet off. */
  lemma PassSkips(commands: Commands, w: World, t: Tick)
    requires Synced(w) && t.data == w.wire && w.left != [] && Goes(w.s, t)
    ensures var st := Receive(commands, w.s, t);
            && st.Running? && st.s.handled == w.s.handled && st.s.readLoops == Received(w.s, t).readLoops
            && Synced(w.(s := st.s, wire := [], left := w.left[1..], over := false))
  {
    hide Receive, Judge;
    assert |w.s.buffer + w.wire| >= |Encode(w.left[0])|;
    assert w.wire[|t.data|..] == [];
    PassTakes(commands, w, t);
  }

  /** Everything has arrived, and the packets to skip are few enough for the counter. */
  predicate Arrived(w: World, handled: seq<seq<byte>>, given: seq<Response>)
  {
    && Synced(w) && w.wire == [] && w.s.readLoops + |w.left| < READ_LOOPS_LIMIT
    && w.s.handled == handled && w.given == given
  }

  function AfterSkip(commands: Commands, w: World): World
  {
    w.(s := Receive(commands, w.s, SILENCE).s, left := if w.left == [] then [] else w.left[1..])
  }

  lemma EachSilentPassSkips(commands: Commands, handled: seq<seq<byte>>, given: seq<Response>)
    ensures forall w: World :: Arrived(w, handled, given) && |w.left| > 0 ==>
              && Step(commands)(w.s, SILENCE) == Running(AfterSkip(commands, w).s)
              && Arrived(AfterSkip(commands, w), handled, given) && |AfterSkip(commands, w).left| == |w.left| - 1
  {
    forall w: World | Arrived(w, handled, given) && |w.left| > 0
      ensures Step(commands)(w.s, SILENCE) == Running(AfterSkip(commands, w).s)
      ensures Arrived(AfterSkip(commands, w), handled, given) && |AfterSkip(commands, w).left| == |w.left| - 1
    {
      PassSkips(commands, w, SILENCE);
    }
  }

  lemma SkipsCountDown(commands: Commands, w: World) returns (end: World)
    requires Arrived(w, w.s.handled, w.given)
    ensures Arrived(end, w.s.handled, w.given) && end.left == []
    ensures After(Step(commands), w.s, Silence(|w.left|)) == Running(end.s)
  {
    var handled, given := w.s.handled, w.given;
    EachSilentPassSkips(commands, handled, given);
    end := Countdown(Step(commands), (w: World) => w.s, (w: World) => |w.left|,
                     (w: World) => Arrived(w, handled, given), (w: World) => AfterSkip(commands, w), w);
  }

  /** A backlog is worked off: with everything arrived and fewer than 200 packets to skip, one
      silent pass per packet leaves only the reply, and the next one handles it; the loop does not
      time out first. */
  lemma BacklogIsWorkedOff(commands: Commands, w: World)
    requires Arrived(w, w.s.handled, w.given)
    ensures var st := After(Step(commands), w.s, Silence(|w.left| + 1));
            st.Running? && st.s.handled == w.s.handled + [w.given[|w.given| - 1].reply.payload]
  {
    var end := SkipsCountDown(commands, w);
    PassTakes(commands, end, SILENCE);
    OneMoreSilence(Step(commands), w.s, |w.left|, end.s);
  }

  /** Everything has arrived, but the packets to skip are too many for the counter. */
  predicate Overdue(w: World, handled: seq<seq<byte>>)
  {
    && Synced(w) && w.wire == [] && w.s.handled == handled
    && w.s.readLoops <= READ_LOOPS_LIMIT <= w.s.readLoops + |w.left|
  }

  lemma SilentPassTicks(commands: Commands, w: World, handled: seq<seq<byte>>)
    requires Overdue(w, handled) && w.s.readLoops < READ_LOOPS_LIMIT
    ensures var next := AfterSkip(commands, w);
            && Receive(commands, w.s, SILENCE) == Running(next.s) && Overdue(next, handled)
            && next.s.readLoops == w.s.readLoops + 1
  {
    hide Receive, Judge, Encode, Stream;
    PassSkips(commands, w, SILENCE);
  }

  lemma EachSilentPassTicks(commands: Commands, handled: seq<seq<byte>>)
    ensures forall w: World :: Overdue(w, handled) && READ_LOOPS_LIMIT - w.s.readLoops > 0 ==>
              && Step(commands)(w.s, SILENCE) == Running(AfterSkip(commands, w).s)
              && Overdue(AfterSkip(commands, w), handled)
              && AfterSkip(commands, w).s.readLoops == w.s.readLoops + 1
  {
    forall w: World | Overdue(w, handled) && READ_LOOPS_LIMIT - w.s.readLoops > 0
      ensures Step(commands)(w.s, SILENCE) == Running(AfterSkip(commands, w).s)
      ensures Overdue(AfterSkip(commands, w), handled) && AfterSkip(commands, w).s.readLoops == w.s.readLoops + 1
    {
      hide Receive, Overdue, AfterSkip;
      SilentPassTicks(commands, w, handled);
    }
  }

  lemma CountsUp(commands: Commands, w: World) returns (end: World)
    requires Overdue(w, w.s.handled)
    ensures Overdue(end, w.s.handled) && end.s.readLoops == READ_LOOPS_LIMIT
    ensures After(Step(commands), w.s, Silence(READ_LOOPS_LIMIT - w.s.readLoops)) == Running(end.s)
  {
    var handled := w.s.handled;
    EachSilentPassTicks(commands, handled);
    var left := (w: World) => if w.s.readLoops > READ_LOOPS_LIMIT then 0 else READ_LOOPS_LIMIT - w.s.readLoops;
    end := Countdown(Step(commands), (w: World) => w.s, left,
                     (w: World) => Overdue(w, handled), (w: World) => AfterSkip(commands, w), w);
  }

  /** The bound is sharp: behind 200 packets or more, less the passes already counted, the reply has
      arrived in full and the loop still times out without handling it. */
  lemma LongBacklogTimesOut(commands: Commands, w: World)
    requires Overdue(w, w.s.handled)
    ensures var st := After(Step(commands), w.s, Silence(READ_LOOPS_LIMIT - w.s.readLoops + 1));
            st.Stopped? && st.exit == TimedOut && st.s.handled == w.s.handled
  {
    var end := CountsUp(commands, w);
    OneMoreSilence(Step(commands), w.s, READ_LOOPS_LIMIT - w.s.readLoops, end.s);
    CounterStops(commands, end.s);
  }

  lemma CounterStops(commands: Commands, s: Session)
    requires s.readLoops >= READ_LOOPS_LIMIT
    ensures Receive(commands, s, SILENCE) == Stopped(TimedOut, s)
  {
  }

  // ---------------------------------------------------------------- a backlog and the cut into reads

  /** The ticks read the wire to its end, each some bytes and no more than the read buffer holds. */
  predicate Cuts(wire: seq<byte>, ticks: seq<Tick>)
  {
    if ticks == [] then wire == []
    else
      && ticks[0].data <= wire && 0 < |ticks[0].data| <= READ_SIZE
      && !ticks[0].cancelled && !ticks[0].failure.Broken?
      && Cuts(wire[|ticks[0].data|..], ticks[1..])
  }

  function Lengths(ticks: seq<Tick>): (r: seq<nat>)
    ensures |r| == |ticks|
  {
    if ticks == [] then [] else [|ticks[0].data|] + Lengths(ticks[1..])
  }

  function Sizes(packets: seq<Packet>): (r: seq<nat>)
    ensures |r| == |packets| && forall i :: 0 <= i < |packets| ==> r[i] == Size(packets[i])
  {
    seq(|packets|, i requires 0 <= i < |packets| => Size(packets[i]))
  }

  /** How many packets of these sizes are left when reads of these lengths each let at most one be
      taken off, the one at the head, if enough bytes are held. */
  function Remaining(sizes: seq<nat>, held: nat, lengths: seq<nat>): (n: nat)
    ensures n <= |sizes|
    decreases |lengths|
  {
    if lengths == [] then |sizes|
    else if sizes != [] && sizes[0] <= held + lengths[0] then
      Remaining(sizes[1..], held + lengths[0] - sizes[0], lengths[1..])
    else Remaining(sizes, held + lengths[0], lengths[1..])
  }

  /** Where reading the whole wire leaves a session: with the outstanding reply handled, or with n
      packets still to skip, this counter and nothing handled. */
  predicate AfterReading(w: World, reply: seq<byte>, n: nat, loops: nat, st: Status<Session>, end: World)
  {
    && st.Running?
    && (|| (n == 0 && st.s.handled == w.s.handled + [reply])
        || (&& st.s == end.s && Synced(end) && end.wire == [] && end.given == w.given && |end.left| == n
            && end.s.handled == w.s.handled && end.s.readLoops == loops))
  }

  lemma {:induction false} ReadingTakesOff(commands: Commands, w: World, reply: seq<byte>, ticks: seq<Tick>)
    returns (end: World)
    requires Synced(w) && Cuts(w.wire, ticks) && w.s.readLoops < READ_LOOPS_LIMIT
    requires reply == w.given[|w.given| - 1].reply.payload
    ensures AfterReading(w, reply, Remaining(Sizes(w.left), |w.s.buffer|, Lengths(ticks)),
                         if ticks == [] then w.s.readLoops else 0, After(Step(commands), w.s, ticks), end)
    decreases |ticks|
  {
    hide Receive, Synced, Size;
    end := w;
    if ticks != [] {
      var t := ticks[0];
      var st, rest := Receive(commands, w.s, t), w.wire[|t.data|..];
      PassTakes(commands, w, t);
      if w.left != [] && Size(w.left[0]) <= |w.s.buffer| + |t.data| {
        assert Sizes(w.left)[1..] == Sizes(w.left[1..]);
        end := ReadingTakesOff(commands, World(st.s, rest, w.left[1..], w.given, false), reply, ticks[1..]);
      } else if w.left == [] && rest == [] {
        assert ticks[1..] == [];
      } else {
        end := ReadingTakesOff(commands, World(st.s, rest, w.left, w.given, false), reply, ticks[1..]);
      }
    }
  }

  /** The exact bound: for every cut of a response into reads, and silence after it, the reply is
      handled if fewer than 200 packets are left to skip once all has been read, and otherwise the
      loop times out without handling it. */
  lemma BacklogExactly(commands: Commands, command: string, r: Response, ticks: seq<Tick>)
    requires ValidResponse(r) && Cuts(Stream(r.junk, r.reply), ticks)
    ensures var st := After(Step(commands), Start(command), ticks + Silence(READ_LOOPS_LIMIT + 1));
            if Remaining(Sizes(r.junk), 0, Lengths(ticks)) < READ_LOOPS_LIMIT then
              st.s.handled != [] && st.s.handled[0] == r.reply.payload
            else st.Stopped? && st.exit == TimedOut && st.s.handled == []
  {
    hide Receive, Judge, Encode, Synced, Cuts, Remaining, After, Silence;
    BeginsInStep(commands, command, r);
    var begin, step := Begin(command, r), Step(commands);
    var end := ReadingTakesOff(commands, begin, r.reply.payload, ticks);
    AfterAppend(step, Start(command), ticks, Silence(READ_LOOPS_LIMIT + 1));
    SilenceAfterReading(commands, begin, r.reply.payload, Remaining(Sizes(r.junk), 0, Lengths(ticks)),
                        After(step, Start(command), ticks), end);
  }

  lemma SilenceAfterReading(
    commands: Commands, w: World, reply: seq<byte>, n: nat, st: Status<Session>, end: World)
    requires Synced(w) && w.s.handled == [] && reply == w.given[|w.given| - 1].reply.payload
    requires AfterReading(w, reply, n, 0, st, end)
    ensures var f := After(Step(commands), st.s, Silence(READ_LOOPS_LIMIT + 1));
            if n < READ_LOOPS_LIMIT then f.s.handled != [] && f.s.handled[0] == reply
            else f.Stopped? && f.exit == TimedOut && f.s.handled == []
  {
    hide Receive, Judge, Encode, After, Silence, Stream;
    if st.s.handled != [] {
      StaysHandled(commands, st.s, reply, Silence(READ_LOOPS_LIMIT + 1));
    } else if n < READ_LOOPS_LIMIT {
      BacklogIsWorkedOff(commands, end);
      HandledAndThen(commands, st.s, reply, n + 1);
    } else {
      LongBacklogTimesOut(commands, end);
    }
  }

  /** A payload once handled stays the first. */
  lemma StaysHandled(commands: Commands, s: Session, payload: seq<byte>, ticks: seq<Tick>)
    requires s.handled != [] && s.handled[0] == payload
    ensures var f := After(Step(commands), s, ticks).s; f.handled != [] && f.handled[0] == payload
  {
    hide Look, Judge, NextRequest, Encode, Request;
    AfterKeeps(Step(commands), (s: Session) => s.handled != [] && s.handled[0] == payload, s, ticks);
  }

  lemma HandledAndThen(commands: Commands, s: Session, payload: seq<byte>, n: nat)
    requires n <= READ_LOOPS_LIMIT
    requires var st := After(Step(commands), s, Silence(n));
             st.Running? && st.s.handled != [] && st.s.handled[0] == payload
    ensures var f := After(Step(commands), s, Silence(READ_LOOPS_LIMIT + 1)).s;
            f.handled != [] && f.handled[0] == payload
  {
    hide Receive;
    var rest := Silence(READ_LOOPS_LIMIT + 1 - n);
    assert Silence(READ_LOOPS_LIMIT + 1) == Silence(n) + rest;
    AfterAppend(Step(commands), s, Silence(n), rest);
    StaysHandled(commands, After(Step(commands), s, Silence(n)).s, payload, rest);
  }

  function Total(sizes: seq<nat>): nat
  {
    if sizes == [] then 0 else sizes[0] + Total(sizes[1..])
  }

  /** Each read takes off one packet at most. */
  lemma {:induction false} OneAtMostEachRead(sizes: seq<nat>, held: nat, lengths: seq<nat>)
    ensures Remaining(sizes, held, lengths) >= |sizes| - |lengths|
    decreases |lengths|
  {
    if lengths != [] {
      if sizes != [] && sizes[0] <= held + lengths[0] {
        OneAtMostEachRead(sizes[1..], held + lengths[0] - sizes[0], lengths[1..]);
      } else {
        OneAtMostEachRead(sizes, held + lengths[0], lengths[1..]);
      }
    }
  }

  /** The last read, if none before it, takes one off. */
  lemma {:induction false} LastReadTakesOne(sizes: seq<nat>, held: nat, lengths: seq<nat>)
    requires lengths != [] && sizes != [] && held + Total(lengths) >= Total(sizes)
    ensures Remaining(sizes, held, lengths) < |sizes|
    decreases |lengths|
  {
    if sizes[0] > held + lengths[0] {
      if lengths[1..] == [] {
        assert Total(lengths) == lengths[0] + Total(lengths[1..]);
      } else {
        LastReadTakesOne(sizes, held + lengths[0], lengths[1..]);
      }
    }
  }

  /** Every read but the last fills the buffer. */
  predicate Full(lengths: seq<nat>)
  {
    forall i :: 0 <= i < |lengths| - 1 ==> lengths[i] == READ_SIZE
  }

  /** Behind packets no larger than the read buffer, full reads take off one each while there are any. */
  lemma {:induction false} FullReadsTakeOneEach(sizes: seq<nat>, held: nat, lengths: seq<nat>)
    requires Full(lengths) && held + Total(lengths) >= Total(sizes)
    requires forall i :: 0 <= i < |sizes| ==> sizes[i] <= READ_SIZE
    ensures Remaining(sizes, held, lengths) == if |sizes| > |lengths| then |sizes| - |lengths| else 0
    decreases |lengths|
  {
    if lengths == [] {
    } else if sizes == [] {
      FullReadsTakeOneEach(sizes, held + lengths[0], lengths[1..]);
    } else {
      if |lengths| == 1 {
        assert Total(lengths) == lengths[0] + Total(lengths[1..]);
      }
      FullReadsTakeOneEach(sizes[1..], held + lengths[0] - sizes[0], lengths[1..]);
    }
  }

  lemma {:induction false} CutsReadAll(wire: seq<byte>, ticks: seq<Tick>)
    requires Cuts(wire, ticks)
    ensures Total(Lengths(ticks)) == |wire|
    decreases |ticks|
  {
    if ticks != [] {
      CutsReadAll(wire[|ticks[0].data|..], ticks[1..]);
    }
  }

  lemma {:induction false} StreamSize(junk: seq<Packet>, reply: Packet)
    requires |reply.header| == 3 && forall i :: 0 <= i < |junk| ==> |junk[i].header| == 3
    ensures |Stream(junk, reply)| == Total(Sizes(junk)) + Size(reply)
  {
    if junk != [] {
      StreamSize(junk[1..], reply);
      assert Sizes(junk)[1..] == Sizes(junk[1..]);
    }
  }

  /** With at most 200 packets before it the reply is handled, for every cut into reads. */
  lemma BacklogOf200IsWorkedOff(commands: Commands, command: string, r: Response, ticks: seq<Tick>)
    requires ValidResponse(r) && Cuts(Stream(r.junk, r.reply), ticks) && |r.junk| <= READ_LOOPS_LIMIT
    ensures var s := After(Step(commands), Start(command), ticks + Silence(READ_LOOPS_LIMIT + 1)).s;
            s.handled != [] && s.handled[0] == r.reply.payload
  {
    hide Judge, Receive, After;
    BacklogExactly(commands, command, r, ticks);
    CutsReadAll(Stream(r.junk, r.reply), ticks);
    StreamSize(r.junk, r.reply);
    if r.junk != [] {
      LastReadTakesOne(Sizes(r.junk), 0, Lengths(ticks));
    }
  }

  /** With at least 200 more packets before it than there are reads, it never is. */
  lemma LongerBacklogTimesOut(commands: Commands, command: string, r: Response, ticks: seq<Tick>)
    requires ValidResponse(r) && Cuts(Stream(r.junk, r.reply), ticks) && |r.junk| >= READ_LOOPS_LIMIT + |ticks|
    ensures var st := After(Step(commands), Start(command), ticks + Silence(READ_LOOPS_LIMIT + 1));
            st.Stopped? && st.exit == TimedOut && st.s.handled == []
  {
    hide Judge, Receive, After, Remaining;
    BacklogExactly(commands, command, r, ticks);
    OneAtMostEachRead(Sizes(r.junk), 0, Lengths(ticks));
  }

  /** The reads that find a whole wire waiting: the buffer is filled until less than that is left. */
  function FullReads(wire: seq<byte>): seq<Tick>
    decreases |wire|
  {
    if wire == [] then []
    else if |wire| <= READ_SIZE then [SILENCE.(data := wire)]
    else [SILENCE.(data := wire[..READ_SIZE])] + FullReads(wire[READ_SIZE..])
  }

  lemma {:induction false} FullReadsAreCuts(wire: seq<byte>)
    ensures Cuts(wire, FullReads(wire)) && Full(Lengths(FullReads(wire)))
    ensures |FullReads(wire)| == (|wire| + READ_SIZE - 1) / READ_SIZE
    decreases |wire|
  {
    if |wire| > READ_SIZE {
      var ticks := FullReads(wire);
      FullReadsAreCuts(wire[READ_SIZE..]);
      assert ticks[1..] == FullReads(wire[READ_SIZE..]);
    } else if wire != [] {
      assert FullReads(wire)[1..] == [] && wire[|wire|..] == [];
    }
  }

  /** When the whole response is waiting and no packet is larger than the read buffer, the reply is
      handled exactly when fewer packets come before it than 200 more than there are reads: each full
      read takes one off, and 199 may be left. */
  lemma WaitingBacklogExactly(commands: Commands, command: string, r: Response)
    requires ValidResponse(r) && forall i :: 0 <= i < |r.junk| ==> Size(r.junk[i]) <= READ_SIZE
    ensures var wire := Stream(r.junk, r.reply);
            var st := After(Step(commands), Start(command), FullReads(wire) + Silence(READ_LOOPS_LIMIT + 1));
            if |r.junk| < READ_LOOPS_LIMIT + (|wire| + READ_SIZE - 1) / READ_SIZE then
              st.s.handled != [] && st.s.handled[0] == r.reply.payload
            else st.Stopped? && st.exit == TimedOut && st.s.handled == []
  {
    hide Judge, Receive, After, Encode, Cuts, Remaining;
    var wire := Stream(r.junk, r.reply);
    FullReadsAreCuts(wire);
    BacklogExactly(commands, command, r, FullReads(wire));
    CutsReadAll(wire, FullReads(wire));
    StreamSize(r.junk, r.reply);
    FullReadsTakeOneEach(Sizes(r.junk), 0, Lengths(FullReads(wire)));
  }

  /** Echoes of our own ping, and the ECU's first reply behind them. */
  function BehindEchoes(n: nat): Response
  {
    Response(seq(n, i => Request(PING)), Packet([0xB8, 0xF7, 0x13], INIT_ACCEPTED, 0))
  }

  /** The runs that time out with their reply in the buffer: those with 210 echoes or more before it,
      all waiting to be read from the start. */
  lemma EchoBacklogRun(n: nat)
    ensures ValidResponse(BehindEchoes(n))
    ensures var r := BehindEchoes(n);
            var wire := Stream(r.junk, r.reply);
            var st := After(Step(USER_COMMANDS), Start(""), FullReads(wire) + Silence(READ_LOOPS_LIMIT + 1));
            && |wire| == 6 * n + 7
            && if n <= 209 then st.s.handled != [] && st.s.handled[0] == INIT_ACCEPTED
               else st.Stopped? && st.exit == TimedOut && st.s.handled == []
  {
    EchoesAreValid(n);
    var r := BehindEchoes(n);
    EchoSizes(n);
    hide Judge, Receive, After, BehindEchoes, Stream;
    WaitingBacklogExactly(USER_COMMANDS, "", r);
  }

  lemma EchoesAreValid(n: nat)
    ensures ValidResponse(BehindEchoes(n))
  {
    OwnEchoIsSkippable(PING);
    var r := BehindEchoes(n).reply;
    assert r.header[..2][0] != INIT[0] && r.header[1] != REQUEST_HEADER[1];
  }

  lemma {:induction false} EchoSizes(n: nat)
    ensures var r := BehindEchoes(n);
            && |r.junk| == n && r.reply.payload == INIT_ACCEPTED && |Stream(r.junk, r.reply)| == 6 * n + 7
            && forall i :: 0 <= i < n ==> Size(r.junk[i]) <= READ_SIZE
  {
    if n > 0 {
      EchoSizes(n - 1);
      assert BehindEchoes(n).junk[1..] == BehindEchoes(n - 1).junk;
    }
  }

  // ---------------------------------------------------------------- a line without a recognised reply

  function Packets(packets: seq<Packet>): seq<byte>
    requires forall i :: 0 <= i < |packets| ==> |packets[i].header| == 3
  {
    if packets == [] then [] else Encode(packets[0]) + Packets(packets[1..])
  }

  /** The buffer and the unread wire are packets to skip and nothing else. */
  predicate Deaf(s: Session, wire: seq<byte>, left: seq<Packet>)
  {
    (forall i :: 0 <= i < |left| ==> Skippable(left[i])) && s.buffer + wire == Packets(left)
  }

  /** The ticks read parts of the wire, in order and without error. */
  predicate Reads(wire: seq<byte>, ticks: seq<Tick>)
  {
    ticks == [] ||
    (&& ticks[0].data <= wire && !ticks[0].cancelled && !ticks[0].failure.Broken?
     && Reads(wire[|ticks[0].data|..], ticks[1..]))
  }

  lemma {:induction false} ReadsThenSilence(wire: seq<byte>, script: seq<Tick>, n: nat)
    requires Reads(wire, script)
    ensures Reads(wire, script + Silence(n))
    decreases |script| + n
  {
    if script != [] {
      assert (script + Silence(n))[1..] == script[1..] + Silence(n);
      ReadsThenSilence(wire[|script[0].data|..], script[1..], n);
    } else if n > 0 {
      assert script + Silence(n) == Silence(n) && Silence(n)[1..] == [] + Silence(n - 1);
      assert wire[0..] == wire;
      ReadsThenSilence(wire, [], n - 1);
    }
  }

  lemma DeafAct(commands: Commands, s: Session, wire: seq<byte>, left: seq<Packet>) returns (rest: seq<Packet>)
    requires Deaf(s, wire, left)
    ensures var st := Act(commands, s);
            st.Running? && st.s == s.(buffer := st.s.buffer) && Deaf(st.s, wire, rest)
  {
    hide Judge, NextRequest, Request, Parsed, Answer;
    rest := left;
    if left == [] {
      assert s.buffer == [];
    } else {
      LookAtPacket(s.buffer, wire, left[0], Packets(left[1..]));
      if |s.buffer| >= |Encode(left[0])| {
        rest := left[1..];
      }
    }
  }

  lemma DeafPass(commands: Commands, s: Session, wire: seq<byte>, left: seq<Packet>, t: Tick)
    returns (rest: seq<Packet>)
    requires Deaf(s, wire, left) && t.data <= wire && !t.cancelled && !t.failure.Broken?
    ensures var st := Receive(commands, s, t);
            && st.s.sent == s.sent && st.s.handled == s.handled
            && if st.Stopped? then st.exit == TimedOut else Deaf(st.s, wire[|t.data|..], rest)
  {
    hide Act, Skippable, Packets;
    rest := left;
    assert s.buffer + t.data + wire[|t.data|..] == s.buffer + wire;
    if Goes(s, t) {
      rest := DeafAct(commands, Received(s, t), wire[|t.data|..], left);
    }
  }

  lemma {:induction false} DeafRun(
    commands: Commands, s: Session, wire: seq<byte>, left: seq<Packet>, ticks: seq<Tick>)
    requires Deaf(s, wire, left) && Reads(wire, ticks)
    ensures var st := After(Step(commands), s, ticks);
            st.s.sent == s.sent && st.s.handled == s.handled && (st.Stopped? ==> st.exit == TimedOut)
    decreases |ticks|
  {
    hide Receive, Deaf;
    if ticks != [] {
      var rest := DeafPass(commands, s, wire, left, ticks[0]);
      var st := Receive(commands, s, ticks[0]);
      if st.Running? {
        DeafRun(commands, st.s, wire[|ticks[0].data|..], rest, ticks[1..]);
      }
    }
  }

  /** No reply, no session: while the line carries nothing but echoes and frames the loop does not
      recognise, however it is cut, nothing more is sent, and once it falls silent the loop times out. */
  lemma NoReplyNoSession(commands: Commands, s: Session, wire: seq<byte>, left: seq<Packet>, script: seq<Tick>)
    requires Deaf(s, wire, left) && Reads(wire, script)
    ensures var st := After(Step(commands), s, script + Silence(READ_LOOPS_LIMIT + 1));
            st.Stopped? && st.exit == TimedOut && st.s.sent == s.sent && st.s.handled == s.handled
  {
    hide Receive, Deaf, Reads, After, Silence;
    ReadsThenSilence(wire, script, READ_LOOPS_LIMIT + 1);
    DeafRun(commands, s, wire, left, script + Silence(READ_LOOPS_LIMIT + 1));
    SilenceEndsAnyRun(commands, s, script);
  }

  /** A refusal, and a data reply too short for its identifier, are such frames: a session that is
      refused a request never sends another. */
  lemma RefusalIsSkippable(p: Packet)
    requires Aligned(p) && p.payload != []
    requires || p.payload[0] == 0x7F
             || (|p.payload| >= 2 && p.payload[0] == 0x61 && !LongEnough(p.payload[1], |p.payload|))
    ensures Skippable(p)
  {
    if |p.payload| >= 2 {
      assert p.payload[..2][0] == p.payload[0];
      DataReplies(p.payload, p.payload[1]);
    }
  }

  // ---------------------------------------------------------------- what is sent

  /** Each frame follows from the reply, the command pending and the seed so far. */
  lemma {:induction false} RequestAt(commands: Commands, handled: seq<seq<byte>>, taken: seq<string>, i: nat)
    requires |handled| == |taken| && i < |handled|
    requires forall k :: 0 <= k < |handled| ==> Judge(handled[k]).Handled?
    ensures Requests(commands, handled, taken)[0] == FrameOf(INIT)
    ensures Requests(commands, handled, taken)[i + 1] ==
            FrameOf(NextRequest(commands, taken[i], KeyAfter(handled[..i + 1]), Judge(handled[i]).reply))
  {
    hide NextRequest, FrameOf, KeyAfter, Judge;
    var n := |handled| - 1;
    if i < n {
      RequestAt(commands, handled[..n], taken[..n], i);
      assert handled[..n][..i + 1] == handled[..i + 1];
    } else {
      assert handled[..i + 1] == handled;
      if n > 0 {
        RequestAt(commands, handled[..n], taken[..n], 0);
      }
    }
  }

  /** The request a frame carries. */
  function Body(frame: seq<byte>): seq<byte>
  {
    if |frame| < 5 then [] else frame[4..|frame| - 1]
  }

  predicate Unasked(commands: Commands, s: Session, i: nat)
    requires i < |s.taken|
  {
    UserCommand(commands, s.taken[i]).None?
  }

  lemma InitComesFirst(commands: Commands, s: Session)
    requires FollowsAutomaton(commands, s)
    ensures |s.sent| == |s.handled| + 1 && s.sent[0] == FrameOf(INIT)
  {
    hide FrameOf, KeyAfter, Judge, NextRequest;
    if s.handled != [] {
      RequestAt(commands, s.handled, s.taken, 0);
    }
  }

  lemma SentWhenUnasked(commands: Commands, s: Session, i: nat)
    requires FollowsAutomaton(commands, s) && i < |s.handled| && Unasked(commands, s, i)
    ensures |s.sent| == |s.handled| + 1
    ensures s.sent[i + 1] ==
            FrameOf(NextRequest(commands, "", KeyAfter(s.handled[..i + 1]), Judge(s.handled[i]).reply))
  {
    hide FrameOf, KeyAfter, Requests, Judge;
    RequestAt(commands, s.handled, s.taken, i);
  }

  /** The requests issued by turns once the session is unlocked. */
  const CYCLE: seq<seq<byte>> := [
    [0x3E], [0x18, 0x00, 0x00, 0x00], [0x21, 0x00], [0x21, 0x06], [0x21, 0x0A], [0x21, 0x0B], [0x21, 0x21]]

  function CycleAt(k: nat): (r: seq<byte>)
    ensures r != []
  {
    CYCLE[k % 7]
  }

  lemma CycleStarts()
    ensures CycleAt(0) == [0x3E] && CycleAt(1) == [0x18, 0x00, 0x00, 0x00]
  {
  }

  /** How long a data reply must be to be taken for one. */
  predicate LongEnough(pid: byte, length: nat)
  {
    || (pid in {0x00, 0x06} && length >= 12)
    || (pid in {0x0A, 0x0B} && length >= 6)
    || (pid == 0x21 && length >= 4)
  }

  /** A payload that grants a request of the cycle: the service plus 40, the same identifier, and
      long enough. */
  predicate Grants(request: seq<byte>, payload: seq<byte>)
  {
    if request == [0x3E] then payload == [0x7E]
    else if request == [0x18, 0x00, 0x00, 0x00] then |payload| >= 2 && payload[0] == 0x58
    else
      && |request| == 2 && request[0] == 0x21 && |payload| >= 2 && payload[0] == 0x61 && payload[1] == request[1]
      && LongEnough(request[1], |payload|)
  }

  /** Granted requests go round the cycle. */
  lemma PollStep(commands: Commands, k: nat, key: nat, payload: seq<byte>)
    requires Grants(CycleAt(k), payload) && Judge(payload).Handled?
    ensures NextRequest(commands, "", key, Judge(payload).reply) == CycleAt(k + 1)
  {
    assert (k + 1) % 7 == if k % 7 == 6 then 0 else k % 7 + 1;
    if |payload| >= 2 {
      assert payload[..2][0] == payload[0];
    }
  }

  /** Reply i grants the request sent before it, and no known command was pending. */
  predicate Granted(commands: Commands, s: Session, i: nat)
    requires i < |s.handled| == |s.taken| && |s.sent| == |s.handled| + 1
  {
    Unasked(commands, s, i) && Grants(Body(s.sent[i]), s.handled[i])
  }

  /** Once at some place of the cycle, k granted requests lead k places on, for every k. */
  lemma {:induction false} CycleGoesOn(commands: Commands, s: Session, n: nat, place: nat, k: nat)
    requires FollowsAutomaton(commands, s) && |s.sent| == |s.handled| + 1 && n + k < |s.sent|
    requires s.sent[n] == FrameOf(CycleAt(place))
    requires forall i :: n <= i < n + k ==> Granted(commands, s, i)
    ensures s.sent[n + k] == FrameOf(CycleAt(place + k))
  {
    hide Requests, KeyAfter, NextRequest, Grants, CycleAt, UserCommand, Judge;
    if k > 0 {
      CycleGoesOn(commands, s, n, place, k - 1);
      var i := n + k - 1;
      assert Granted(commands, s, i);
      assert Body(FrameOf(CycleAt(place + k - 1))) == CycleAt(place + k - 1);
      SentWhenUnasked(commands, s, i);
      PollStep(commands, place + k - 1, KeyAfter(s.handled[..i + 1]), s.handled[i]);
    }
  }

  /** A user command pre-empts the request due; once faults are reported cleared, polling starts over
      at the fault list and stays on the cycle from there. */
  lemma CommandPreempts(s: Session, j: nat, k: nat)
    requires FollowsAutomaton(USER_COMMANDS, s) && |s.sent| == |s.handled| + 1 && j + 2 + k < |s.sent|
    requires s.taken[j] == "clearfaults" && Unasked(USER_COMMANDS, s, j + 1) && s.handled[j + 1] == [0x54, 0x00, 0x00]
    requires forall i :: j + 2 <= i < j + 2 + k ==> Granted(USER_COMMANDS, s, i)
    ensures s.sent[j + 1] == FrameOf([0x14, 0x00, 0x00])
    ensures s.sent[j + 2 + k] == FrameOf(CycleAt(1 + k))
  {
    hide Requests, KeyAfter, Grants, FrameOf;
    RequestAt(USER_COMMANDS, s.handled, s.taken, j);
    SentWhenUnasked(USER_COMMANDS, s, j + 1);
    assert Judge(FAULTS_CLEARED) == Handled(FAULTS_CLEARED) && CycleAt(1) == REQUEST_FAULTS;
    CycleGoesOn(USER_COMMANDS, s, j + 2, 1, k);
  }

  /** The replies to the init command and to the requests that open a session. */
  predicate Opens(i: nat, payload: seq<byte>)
  {
    if i == 0 then |payload| >= 2 && payload[..2] == [0x5A, 0x9A] else if i == 1 then payload == [0x50]
    else if i == 2 then |payload| >= 4 && payload[..2] == [0x67, 0x01] else payload == [0x67, 0x02]
  }

  /** How many replies open the session: no key is asked for when the seed is zero. */
  function Opening(handled: seq<seq<byte>>): (n: nat)
    ensures 3 <= n <= 4
  {
    if |handled| > 2 && SeedReply(handled[2]) && SeedOf(handled[2]) == 0 then 3 else 4
  }

  /** What an undisturbed session sends: init, the diagnostic session, the seed request, the key for
      that seed unless it is zero, and then the poll cycle from its ping on. */
  function Script(handled: seq<seq<byte>>, i: nat): seq<byte>
    requires i >= 3 ==> |handled| > 2 && SeedReply(handled[2])
  {
    if i == 0 then [0x1A, 0x9A] else if i == 1 then [0x10, 0xA0] else if i == 2 then [0x27, 0x01]
    else if i < Opening(handled) then [0x27, 0x02] + PutUint16(KeyFor(SeedOf(handled[2])))
    else CycleAt(i - Opening(handled))
  }

  /** The first replies open the session and every later one grants the request before it. */
  predicate AllGranted(s: Session)
  {
    |s.sent| == |s.handled| + 1 &&
    forall i :: 0 <= i < |s.handled| ==>
      if i < Opening(s.handled) then Opens(i, s.handled[i]) else Grants(Body(s.sent[i]), s.handled[i])
  }

  predicate SendsScript(s: Session)
  {
    && (|s.sent| > 3 ==> |s.handled| > 2 && SeedReply(s.handled[2]))
    && forall i :: 0 <= i < |s.sent| ==> s.sent[i] == FrameOf(Script(s.handled, i))
  }

  lemma OpeningRequest(commands: Commands, handled: seq<seq<byte>>, i: nat)
    requires i < Opening(handled) && i < |handled| && Opens(i, handled[i]) && Judge(handled[i]).Handled?
    ensures NextRequest(commands, "", KeyAfter(handled[..i + 1]), Judge(handled[i]).reply) ==
            if i == 0 then START_DIAGNOSTIC else if i == 1 then REQUEST_SEED
            else if i == 2 && SeedOf(handled[2]) != 0 then SEND_KEY + PutUint16(KeyFor(SeedOf(handled[2])))
            else PING
  {
    hide Judge, KeyAfter;
    var p := handled[i];
    if i == 0 {
      RecognisedExactly(p, [0x5A, 0x9A]);
    } else if i == 1 {
      RecognisedExactly(p, [0x50]);
    } else if i == 2 {
      assert p[2..4] == [p[2], p[3]];
      RecognisedExactly(p, if SeedOf(p) == 0 then [] else [0x67, 0x01]);
      KeyAfterSeed(handled, 2);
    } else {
      RecognisedExactly(p, [0x67, 0x02]);
    }
  }

  lemma SentFollowsScript(commands: Commands, s: Session, i: nat)
    requires FollowsAutomaton(commands, s) && AllGranted(s) && i < |s.sent|
    requires forall k :: 0 <= k < |s.taken| ==> Unasked(commands, s, k)
    ensures i >= 3 ==> |s.handled| > 2 && SeedReply(s.handled[2])
    ensures s.sent[i] == FrameOf(Script(s.handled, i))
  {
    hide Requests, KeyAfter, NextRequest, Grants, Judge, FrameOf, CycleAt;
    assert CycleAt(0) == PING by { CycleStarts(); }
    var o := Opening(s.handled);
    assert i >= 3 ==> Opens(2, s.handled[2]);
    InitComesFirst(commands, s);
    if i > 0 {
      var before := if i <= o then i - 1 else o - 1;
      SentWhenUnasked(commands, s, before);
      OpeningRequest(commands, s.handled, before);
      if i >= o {
        CycleGoesOn(commands, s, o, 0, i - o);
      }
    }
  }

  /** No known command is pending at the start or posted. */
  predicate NeverAsked(commands: Commands, command: string, moves: seq<Move>)
  {
    && UserCommand(commands, command).None?
    && forall i :: 0 <= i < |moves| && moves[i].tick.command.Some? ==>
         UserCommand(commands, moves[i].tick.command.value).None?
  }

  /** The session trace: with no known command and granted replies the frames sent are that script,
      for any number of replies, every cut into reads and any frames to skip. */
  lemma SessionTrace(commands: Commands, command: string, first: Response, moves: seq<Move>)
    requires CanPlay(commands, command, first, moves) && NeverAsked(commands, command, moves)
    requires AllGranted(Played(commands, command, first, moves).s)
    ensures Synced(Played(commands, command, first, moves))
    ensures SendsScript(Played(commands, command, first, moves).s)
  {
    LoopRefinesAutomaton(commands, command, first, moves);
    NothingAsked(commands, command, TicksOf(moves));
    hide Played;
    ScriptSent(commands, Played(commands, command, first, moves).s);
  }

  lemma ScriptSent(commands: Commands, s: Session)
    requires FollowsAutomaton(commands, s) && AllGranted(s)
    requires forall name :: name in s.taken ==> UserCommand(commands, name).None?
    ensures SendsScript(s)
  {
    hide AllGranted, FollowsAutomaton, Script, FrameOf;
    forall k | 0 <= k < |s.taken| ensures Unasked(commands, s, k) {
      assert s.taken[k] in s.taken;
    }
    if |s.sent| > 3 {
      SentFollowsScript(commands, s, 3);
    }
    forall i | 0 <= i < |s.sent| ensures s.sent[i] == FrameOf(Script(s.handled, i)) {
      SentFollowsScript(commands, s, i);
    }
  }

  function PendingOf(s: Session): string { s.command }

  function TakenOf(s: Session): seq<string> { s.taken }

  function Known(commands: Commands): string -> bool { (name: string) => UserCommand(commands, name).Some? }

  lemma NothingAsked(commands: Commands, command: string, ticks: seq<Tick>)
    requires UserCommand(commands, command).None?
    requires forall i :: 0 <= i < |ticks| && ticks[i].command.Some? ==>
               UserCommand(commands, ticks[i].command.value).None?
    ensures var s := After(Step(commands), Start(command), ticks).s;
            forall name :: name in s.taken ==> UserCommand(commands, name).None?
  {
    var start := Start(command);
    assert TakenOf(start) == [] && PendingOf(start) == command;
    assert !Known(commands)("") && !Known(commands)(command);
    assert forall i :: 0 <= i < |ticks| && ticks[i].command.Some? ==> !Known(commands)(ticks[i].command.value);
    var s := After(Step(commands), start, ticks).s;
    assert forall name :: name in s.taken ==> !Known(commands)(name) by {
      StepTakesPending(commands);
      hide Known, Receive, After, Start;
      OnlyPostsAreTaken(Step(commands), PendingOf, TakenOf, start, ticks, Known(commands));
    }
  }

  /** Connected is set when, and only when, an init reply has been handled. */
  predicate ConnectedOnInit(s: Session)
  {
    s.connected <==> exists i :: 0 <= i < |s.handled| && |s.handled[i]| >= 2 && s.handled[i][..2] == [0x5A, 0x9A]
  }

  lemma AnswerKeepsConnected(commands: Commands, s: Session, payload: seq<byte>, reply: seq<byte>)
    requires ConnectedOnInit(s)
    ensures ConnectedOnInit(Answer(commands, s, payload, reply))
  {
    hide NextRequest, Encode, Request;
    var s' := Answer(commands, s, payload, reply);
    assert s'.handled == s.handled + [payload];
    assert forall i :: 0 <= i < |s.handled| ==> s'.handled[i] == s.handled[i];
    assert s'.handled[|s.handled|] == payload;
  }

  lemma StepKeepsConnected(commands: Commands, s: Session, t: Tick)
    requires ConnectedOnInit(s)
    ensures ConnectedOnInit(Receive(commands, s, t).s)
  {
    hide Answer, Judge;
    var r := Received(s, t);
    assert ConnectedOnInit(r);
    if Look(r.buffer).Reply? {
      var payload := Look(r.buffer).payload;
      if Judge(payload).Handled? {
        AnswerKeepsConnected(commands, r, payload, Judge(payload).reply);
      }
    }
  }

  /** In every reachable state, whatever bytes arrived. */
  lemma ConnectsExactly(commands: Commands, command: string, ticks: seq<Tick>)
    ensures ConnectedOnInit(After(Step(commands), Start(command), ticks).s)
  {
    hide Receive;
    forall s, t | ConnectedOnInit(s) ensures ConnectedOnInit(Step(commands)(s, t).s) {
      StepKeepsConnected(commands, s, t);
    }
    AfterKeeps(Step(commands), ConnectedOnInit, Start(command), ticks);
  }

  // ---------------------------------------------------------------- runs of the program, byte by byte

  /** A response with nothing to skip before it. */
  function Plain(payload: seq<byte>): Response { Response([], Packet([0xB8, 0xF7, 0x13], payload, 0)) }

  lemma PlainIsValid(payload: seq<byte>)
    requires |payload| <= 255 && Judge(payload).Handled?
    ensures ValidResponse(Plain(payload)) && !Skippable(Plain(payload).reply)
    ensures Stream([], Plain(payload).reply) == Encode(Plain(payload).reply)
  {
    var h := Plain(payload).reply.header;
    assert h[..2][0] == 0xB8 && h[1] != 0x13;
  }

  /** Between exchanges: the whole response is waiting, unread. */
  predicate Rested(commands: Commands, w: World, payload: seq<byte>)
  {
    && InStep(commands, w) && !w.over && w.s.buffer == [] && w.s.readLoops == 0 && w.s.command == ""
    && w.given[|w.given| - 1] == Plain(payload) && |payload| <= 255 && w.left == []
    && w.wire == Encode(Plain(payload).reply)
  }

  /** A pass that reads the response and finds this command posted. */
  function ReadAll(w: World, command: string): Tick
  {
    Tick(0, 0, false, Some(command), w.wire, Timeout)
  }

  lemma ReadAllAnswers(commands: Commands, w: World, payload: seq<byte>, command: string)
    requires Rested(commands, w, payload)
    ensures var t := ReadAll(w, command);
            && Goes(w.s, t) && w.wire[|t.data|..] == [] && Judge(payload).Handled?
            && Receive(commands, w.s, t) == Running(Answer(commands, Received(w.s, t), payload, Judge(payload).reply))
            && Look(Received(w.s, t).buffer) == Reply(payload)
  {
    hide NextRequest, Requests, KeyAfter, Answer, Judge, Look, Encode;
    assert w.s.buffer + w.wire == w.wire;
    PlainIsValid(payload);
    LookAtPacket(w.wire, [], Plain(payload).reply, []);
  }

  /** One more exchange: the waiting reply is read, with a command posted or none, and answered. */
  lemma Exchange(
    commands: Commands, begin: World, moves: seq<Move>, payload: seq<byte>, command: string, reply: seq<byte>)
    returns (more: seq<Move>)
    requires AllPossible(NextIn(commands), PossibleIn(commands), begin, moves)
    requires Rested(commands, Play(NextIn(commands), begin, moves), payload)
    requires |reply| <= 255 && Judge(reply).Handled?
    ensures AllPossible(NextIn(commands), PossibleIn(commands), begin, more)
    ensures var w, f := Play(NextIn(commands), begin, moves), Play(NextIn(commands), begin, more);
            && Rested(commands, f, reply)
            && f.s.handled == w.s.handled + [payload] && f.s.taken == w.s.taken + [command]
  {
    hide Receive, Look, Judge, Encode, InStep, AllPossible, Play, Answer;
    var w := Play(NextIn(commands), begin, moves);
    var m := Move(ReadAll(w, command), Plain(reply));
    ReadAllAnswers(commands, w, payload, command);
    AnsweredBy(commands, w, payload, command);
    PlainIsValid(reply);
    StepKeepsInStep(commands, w, m);
    more := moves + [m];
    OneMoreMove(NextIn(commands), PossibleIn(commands), begin, moves, m);
  }

  lemma AnsweredBy(commands: Commands, w: World, payload: seq<byte>, command: string)
    requires Rested(commands, w, payload)
    ensures var s := Answer(commands, Received(w.s, ReadAll(w, command)), payload, Judge(payload).reply);
            && |s.sent| == |w.s.sent| + 1 && s.buffer == [] && s.readLoops == 0 && s.command == ""
            && s.handled == w.s.handled + [payload] && s.taken == w.s.taken + [command]
  {
  }

  /** The shortest replies that open a session, with seed 0080, and then grant poll after poll. */
  function ShortReply(i: nat): seq<byte>
  {
    if i == 0 then [0x5A, 0x9A] else if i == 1 then [0x50] else if i == 2 then [0x67, 0x01, 0x00, 0x80]
    else if i == 3 then [0x67, 0x02]
    else ShortGrant((i - 4) % 7)
  }

  function ShortGrant(place: nat): seq<byte>
    requires place < 7
  {
    if place == 0 then [0x7E] else if place == 1 then [0x58, 0x00]
    else if place == 2 then [0x61, 0x00] + Zeros(10) else if place == 3 then [0x61, 0x06] + Zeros(10)
    else if place == 4 then [0x61, 0x0A] + Zeros(4) else if place == 5 then [0x61, 0x0B] + Zeros(4)
    else [0x61, 0x21] + Zeros(2)
  }

  lemma ShortGrantGrants(k: nat)
    ensures Grants(CycleAt(k), ShortGrant(k % 7)) && |ShortGrant(k % 7)| <= 12
  {
  }

  lemma GrantsAreHandled(request: seq<byte>, payload: seq<byte>)
    requires Grants(request, payload)
    ensures Judge(payload).Handled?
  {
    hide Judge;
    if request == [0x3E] {
      RecognisedExactly(payload, [0x7E]);
    } else if request == [0x18, 0x00, 0x00, 0x00] {
      RecognisedExactly(payload, [0x58]);
    } else {
      DataReplies(payload, payload[1]);
    }
  }

  lemma ShortIsHandled(i: nat)
    ensures Judge(ShortReply(i)).Handled? && |ShortReply(i)| <= 12
  {
    if i < 4 {
      hide ShortGrant;
      assert ShortReply(i) != [] && SEED == [0x67, 0x01];
    } else {
      hide Judge, ShortGrant, CycleAt, Grants;
      ShortGrantGrants(i - 4);
      GrantsAreHandled(CycleAt(i - 4), ShortGrant((i - 4) % 7));
    }
  }

  lemma RequestAfterShort(key: nat, i: nat)
    ensures Judge(ShortReply(i)).Handled?
    ensures NextRequest(USER_COMMANDS, "", key, Judge(ShortReply(i)).reply) ==
            if i == 0 then [0x10, 0xA0] else if i == 1 then [0x27, 0x01]
            else if i == 2 then [0x27, 0x02] + PutUint16(key) else CycleAt(i - 3)
  {
    if i < 4 {
      hide ShortGrant, PutUint16;
      assert [0x5A, 0x9A][..2] == [0x5A, 0x9A] && [0x67, 0x01, 0x00, 0x80][..2] == [0x67, 0x01];
      assert [0x67, 0x02][..2][0] == 0x67;
    } else {
      hide Judge, ShortGrant, CycleAt, Grants, NextRequest;
      ShortGrantGrants(i - 4);
      ShortIsHandled(i);
      PollStep(USER_COMMANDS, i - 4, key, ShortGrant((i - 4) % 7));
    }
  }

  /** The first n short replies have been handled, with no command pending at any. */
  predicate HandledShort(s: Session, n: nat)
  {
    && |s.handled| == |s.taken| == n
    && forall i :: 0 <= i < n ==> s.handled[i] == ShortReply(i) && s.taken[i] == ""
  }

  lemma OneMoreShort(s: Session, s': Session, n: nat)
    requires n > 0 && HandledShort(s, n - 1)
    requires s'.handled == s.handled + [ShortReply(n - 1)] && s'.taken == s.taken + [""]
    ensures HandledShort(s', n)
  {
    hide ShortReply;
  }

  /** For every n there is a run of the program that goes on for n replies. */
  lemma {:induction false} UndisturbedRun(n: nat) returns (moves: seq<Move>)
    ensures CanPlay(USER_COMMANDS, "", Plain(ShortReply(0)), moves)
    ensures var w := Played(USER_COMMANDS, "", Plain(ShortReply(0)), moves);
            Rested(USER_COMMANDS, w, ShortReply(n)) && HandledShort(w.s, n)
  {
    hide Judge, ShortReply, Rested, HandledShort;
    BeginsShort();
    if n == 0 {
      moves := [];
    } else {
      moves := UndisturbedRun(n - 1);
      ShortIsHandled(n);
      var s := Played(USER_COMMANDS, "", Plain(ShortReply(0)), moves).s;
      moves := Exchange(USER_COMMANDS, Begin("", Plain(ShortReply(0))), moves, ShortReply(n - 1), "", ShortReply(n));
      OneMoreShort(s, Played(USER_COMMANDS, "", Plain(ShortReply(0)), moves).s, n);
    }
  }

  lemma BeginsShort()
    ensures ValidResponse(Plain(ShortReply(0)))
    ensures var w := Played(USER_COMMANDS, "", Plain(ShortReply(0)), []);
            Rested(USER_COMMANDS, w, ShortReply(0)) && HandledShort(w.s, 0)
    ensures CanPlay(USER_COMMANDS, "", Plain(ShortReply(0)), [])
  {
    hide Judge, ShortReply;
    ShortIsHandled(0);
    PlainIsValid(ShortReply(0));
    BeginsInStep(USER_COMMANDS, "", Plain(ShortReply(0)));
  }

  /** A frame that carries a request: the address, the length, the request itself and one more byte,
      with which all of them XOR to zero. */
  predicate Carries(frame: seq<byte>, request: seq<byte>)
  {
    && |frame| == |request| + 5 && frame[..3] == [0xB8, 0x13, 0xF7] && frame[3] == |request| % 256
    && frame[4..4 + |request|] == request && XorAll(frame, |frame|) == 0
  }

  lemma EveryFrameCarries(request: seq<byte>)
    ensures Carries(FrameOf(request), request)
  {
    RequestChecks(request);
    hide XorAll;
  }

  /** What a session sends up to its second ping: the key for seed 0080 is 0005, and the polls go
      once round. */
  const ONE_ROUND: seq<seq<byte>> := [
    [0x1A, 0x9A], [0x10, 0xA0], [0x27, 0x01], [0x27, 0x02, 0x00, 0x05], [0x3E], [0x18, 0x00, 0x00, 0x00],
    [0x21, 0x00], [0x21, 0x06], [0x21, 0x0A], [0x21, 0x0B], [0x21, 0x21], [0x3E]]

  lemma RequestInRound(key: nat, i: nat)
    requires i < 11 && (i == 2 ==> key == 0x0005)
    ensures |ONE_ROUND| == 12 && Judge(ShortReply(i)).Handled?
    ensures NextRequest(USER_COMMANDS, "", key, Judge(ShortReply(i)).reply) == ONE_ROUND[i + 1]
  {
    ShortIsHandled(i);
    hide Judge, ShortReply, NextRequest;
    RequestAfterShort(key, i);
  }

  /** The transcript: with the shortest replies there are, such a run sends exactly these requests. */
  lemma OneRound() returns (moves: seq<Move>)
    ensures CanPlay(USER_COMMANDS, "", Plain(ShortReply(0)), moves)
    ensures var s := Played(USER_COMMANDS, "", Plain(ShortReply(0)), moves).s;
            && HandledShort(s, 11) && |s.sent| == |ONE_ROUND| == 12
            && forall i :: 0 <= i < 12 ==> Carries(s.sent[i], ONE_ROUND[i])
  {
    moves := UndisturbedRun(11);
    ShortSessionSends(Played(USER_COMMANDS, "", Plain(ShortReply(0)), moves).s);
  }

  lemma ShortSessionSends(s: Session)
    requires FollowsAutomaton(USER_COMMANDS, s) && HandledShort(s, 11)
    ensures |s.sent| == |ONE_ROUND| == 12
    ensures forall i :: 0 <= i < 12 ==> Carries(s.sent[i], ONE_ROUND[i])
  {
    hide NextRequest, FrameOf, Judge, ShortReply, Requests, Carries, KeyAfter;
    InitComesFirst(USER_COMMANDS, s);
    ShortKey(s.handled);
    forall i | 0 <= i < 12 ensures Carries(s.sent[i], ONE_ROUND[i]) {
      EveryFrameCarries(ONE_ROUND[i]);
      if i > 0 {
        SentWhenUnasked(USER_COMMANDS, s, i - 1);
        RequestInRound(KeyAfter(s.handled[..i]), i - 1);
      }
    }
  }

  lemma ShortKey(handled: seq<seq<byte>>)
    requires |handled| > 2 && handled[2] == ShortReply(2)
    ensures KeyAfter(handled[..3]) == 0x0005
  {
    hide Key, KeyAfter;
    assert [0x67, 0x01, 0x00, 0x80][..2] == [0x67, 0x01];
    SomeKeys();
    KeyAfterSeed(handled, 2);
  }
}
