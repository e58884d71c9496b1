/** What the MEMS 1.x loop does over whole runs: against any bytes at all, and against an ECU that
    echoes each byte and then answers it. */
module Mems1xProperties {
  import opened Bytes
  import opened Line
  import opened Mems1x

  // ---------------------------------------------------------------- any bytes at all

  /** The two tables are inverse to each other, so no two names share a byte. */
  lemma CommandTablesAreInverse(name: string, b: byte)
    ensures CommandByte(name) == Some(b) <==> CommandName(b) == Some(name)
    ensures IsCommand(b) <==> CommandName(b).Some?
  {
    if CommandByte(name).Some? {
      NameOfByte(name);
    }
  }

  lemma NameOfByte(name: string)
    requires CommandByte(name).Some?
    ensures CommandName(CommandByte(name).value) == Some(name)
  {
  }

  /** A frame the loop admits makes its parser index past the end exactly when it is a 0x7D frame
      of packet size 0x16 or 0x1F with nothing after it: those guards use >= where > is meant. */
  lemma ParserPanicsExactly(frame: seq<byte>)
    requires |frame| >= 2 && frame[0] in {0x80, 0x7D} && |frame| >= frame[1] as int + 1
    ensures ParserPanics(frame) <==>
            frame[0] == 0x7D && |frame| == frame[1] as int + 1 && frame[1] in {0x16, 0x1F}
  {
    var n := frame[1];
    if frame[0] == 0x7D && |frame| == n as int + 1 && n in {0x16, 0x1F} {
      assert Reads7D(n, n as int);
    }
  }

  /** A running loop's counter is the number of empty reads since the last byte, so the next pass
      times out exactly when that number has reached 200; otherwise it ends the run on a cancelled
      context, and after that on a read error. */
  lemma TimesOutExactly(kline: bool, command: string, ticks: seq<Tick>, next: Tick)
    requires After(Step(kline), Start(command), ticks).Running?
    ensures var st := Receive(kline, After(Step(kline), Start(command), ticks).s, next);
            && (st.Stopped? && st.exit == TimedOut <==> Quiet(ticks) >= 200)
            && (st.Stopped? && st.exit == Cancelled <==> Quiet(ticks) < 200 && next.cancelled)
            && (st.Stopped? && st.exit == ReadFailed <==>
                  Quiet(ticks) < 200 && !next.cancelled && next.failure.Broken?)
  {
    forall s: Session, t: Tick | Step(kline)(s, t).Running?
      ensures Step(kline)(s, t).s.readLoops == if t.data == [] then s.readLoops + 1 else 0
    {
      PassCounts(kline, s, t);
    }
    CounterIsQuiet(Step(kline), (s: Session) => s.readLoops, Start(command), ticks);
  }

  lemma PassCounts(kline: bool, s: Session, t: Tick)
    ensures s.readLoops >= READ_LOOPS_LIMIT ==> Receive(kline, s, t).Stopped?
    ensures Receive(kline, s, t).Running? ==>
              Receive(kline, s, t).s.readLoops == if t.data == [] then s.readLoops + 1 else 0
    ensures Receive(kline, s, t).Stopped? ==> Receive(kline, s, t).exit != Normal
  {
    var r := Received(s, t);
  }

  /** Any finite script followed by silence ends within 201 silent passes. */
  lemma SilenceEndsTheLoop(kline: bool, command: string, script: seq<Tick>)
    ensures After(Step(kline), Start(command), script + Silence(201)).Stopped?
  {
    var step := Step(kline);
    AfterAppend(step, Start(command), script, Silence(READ_LOOPS_LIMIT + 1));
    var st := After(step, Start(command), script);
    if st.Running? {
      forall s: Session
        ensures s.readLoops >= READ_LOOPS_LIMIT ==> step(s, SILENCE).Stopped?
        ensures step(s, SILENCE).Running? ==> step(s, SILENCE).s.readLoops == s.readLoops + 1
      {
        PassCounts(kline, s, SILENCE);
      }
      SilenceRunsOut(step, (s: Session) => s.readLoops, READ_LOOPS_LIMIT, st.s, READ_LOOPS_LIMIT + 1);
    }
  }

  /** The byte of a command is on the wire as often as its name was taken. */
  predicate SentAsTaken(s: Session, name: string, b: byte)
  {
    multiset(s.sent)[b] == multiset(s.taken)[name]
  }

  lemma AnswerSendsAsTaken(s: Session, name: string, b: byte)
    requires CommandByte(name) == Some(b) && SentAsTaken(s, name, b) && s.buffer != []
    ensures SentAsTaken(Answer(s), name, b)
  {
    hide CommandByte, IsCommand;
    CommandTablesAreInverse(name, b);
    CommandTablesAreInverse(s.command, b);
    assert NextByte(s.command, s.buffer[0]) == b <==> s.command == name;
  }

  lemma StepSendsAsTaken(kline: bool, s: Session, t: Tick, name: string, b: byte)
    requires CommandByte(name) == Some(b) && SentAsTaken(s, name, b)
    ensures SentAsTaken(Receive(kline, s, t).s, name, b)
  {
    hide CommandByte, IsCommand, ParserPanics;
    var r := Received(s, t);
    if r.buffer != [] {
      AnswerSendsAsTaken(r, name, b);
    }
  }

  lemma StepTakesPending(kline: bool)
    ensures forall s: Session, t: Tick ::
              TakesPending(s.command, s.taken, t, Step(kline)(s, t).s.command, Step(kline)(s, t).s.taken)
  {
    forall s: Session, t: Tick
      ensures TakesPending(s.command, s.taken, t, Step(kline)(s, t).s.command, Step(kline)(s, t).s.taken)
    {
      hide CommandByte, IsCommand, ParserPanics, Complete, NextByte;
      var r := Received(s, t);
    }
  }

  /** A user command goes out at most as often as it was posted: no byte of its is sent unasked. */
  lemma EachPostSentAtMostOnce(kline: bool, command: string, ticks: seq<Tick>, name: string, b: byte)
    requires CommandByte(name) == Some(b)
    ensures multiset(After(Step(kline), Start(command), ticks).s.sent)[b] <=
            multiset(Posts(ticks))[name] + if command == name then 1 else 0
  {
    var start := Start(command);
    assert SentAsTaken(start, name, b) && start.taken == [] && start.command == command && name != "";
    hide CommandByte, Receive;
    forall s: Session, t: Tick | SentAsTaken(s, name, b) ensures SentAsTaken(Step(kline)(s, t).s, name, b) {
      StepSendsAsTaken(kline, s, t, name, b);
    }
    AfterKeeps(Step(kline), (s: Session) => SentAsTaken(s, name, b), start, ticks);
    StepTakesPending(kline);
    PostsTakenAtMostOnce(Step(kline), (s: Session) => s.command, (s: Session) => s.taken, start, ticks, name);
  }

  // ---------------------------------------------------------------- against an ECU

  /** The replies a MEMS 1.x ECU gives to a request byte. Each starts with that byte. */
  predicate ValidReply(request: byte, reply: seq<byte>)
  {
    reply != [] && reply[0] == request &&
    if IsCommand(request) then |reply| == 2
    else if request in {0xCA, 0x75} then |reply| == 1
    else if request == 0xF4 then reply == [0xF4, 0]
    else if request == 0xD0 then |reply| == 5
    else request in {0x80, 0x7D} && |reply| >= 2 && |reply| == reply[1] as int + 1
  }

  /** The bytes a session sends, given the command pending at each reply: nothing else matters. */
  function Requests(taken: seq<string>): (r: seq<byte>)
    ensures |r| == |taken| + 1
  {
    if taken == [] then [0xCA]
    else
      var r := Requests(taken[..|taken| - 1]);
      r + [NextByte(taken[|taken| - 1], r[|r| - 1])]
  }

  /** The loop, the bytes on the wire it has not read, every reply the ECU has issued, and whether
      the loop has ended. */
  datatype World = World(s: Session, wire: seq<byte>, issued: seq<seq<byte>>, over: bool)

  /** One pass of the loop, and what the ECU answers if the pass sends a byte. */
  datatype Move = Move(tick: Tick, answer: seq<byte>)

  /** A pass reads some prefix of the wire, none if it ends at or before its read, and the ECU
      answers correctly. */
  predicate Possible(w: World, m: Move)
  {
    var st := Receive(true, w.s, m.tick);
    !w.over ==>
      && m.tick.data <= w.wire && (st.Stopped? && st.exit != Panicked ==> m.tick.data == [])
      && (|st.s.sent| > |w.s.sent| ==> ValidReply(st.s.last, m.answer))
  }

  /** A byte sent puts its echo and its reply on the wire. */
  function Settle(w: World, st: Status<Session>, answer: seq<byte>): World
  {
    if |st.s.sent| > |w.s.sent| then World(st.s, w.wire + [st.s.last] + answer, w.issued + [answer], false)
    else World(st.s, w.wire, w.issued, st.Stopped?)
  }

  function Next(w: World, m: Move): World
  {
    if w.over || !(m.tick.data <= w.wire) then w
    else Settle(w.(wire := w.wire[|m.tick.data|..]), Receive(true, w.s, m.tick), m.answer)
  }

  /** The ECU has echoed 0xCA and issued its first reply. */
  function Begin(command: string, reply: seq<byte>): World
  {
    World(Start(command), [0xCA] + reply, [reply], false)
  }

  predicate BadFrame(reply: seq<byte>)
  {
    |reply| >= 2 && reply[0] == 0x7D && reply[1] in {0x16, 0x1F}
  }

  /** The refinement: the bytes sent are those of the automaton, every reply but the outstanding
      one was handled whole and once, and the buffer followed by the unread wire is exactly what
      is left of the outstanding echo and reply. */
  predicate InStep(w: World)
  {
    var n := |w.issued|;
    && n == |w.s.sent| && n > 0
    && w.s.sent == Requests(w.s.taken) && w.s.last == w.s.sent[n - 1]
    && (forall i :: 0 <= i < n ==> ValidReply(w.s.sent[i], w.issued[i]))
    && w.s.handled == w.issued[..n - 1]
    && (forall i :: 0 <= i < n - 1 ==> !BadFrame(w.issued[i]))
    && (w.s.connected <==> 0xD0 in w.s.sent[..n - 1])
    && w.s.buffer + w.wire == (if w.s.gotEcho then [] else [w.s.last]) + w.issued[n - 1]
  }

  /** Any proper part of a reply is waited on, and the whole is recognised. */
  lemma ReplyRecognisedWhole(request: byte, reply: seq<byte>, part: seq<byte>)
    requires ValidReply(request, reply) && part <= reply && part != []
    ensures Complete(part) <==> part == reply
  {
    assert part == reply[..|part|];
  }

  /** What a pass does with a part of the outstanding echo and reply in the buffer and the rest of
      it still on the wire. */
  predicate Outcome(s: Session, rest: seq<byte>, reply: seq<byte>, st: Status<Session>)
  {
    if s.buffer == [] then st == Running(s)
    else if !s.gotEcho then
      st == Running(s.(gotEcho := true, buffer := s.buffer[1..])) && s.buffer[1..] + rest == reply
    else if s.buffer != reply then st == Running(s)
    else rest == [] && st == if BadFrame(reply) then Stopped(Panicked, s) else Running(Answer(s))
  }

  lemma ActOnReply(s: Session, rest: seq<byte>, reply: seq<byte>)
    requires ValidReply(s.last, reply)
    requires s.buffer + rest == (if s.gotEcho then [] else [s.last]) + reply
    ensures Outcome(s, rest, reply, Act(true, s))
  {
    var b := s.buffer;
    if b != [] {
      if !s.gotEcho {
        assert b[0] == (b + rest)[0] == s.last;
        assert b[1..] + rest == (b + rest)[1..] == reply;
      } else {
        assert b + rest == reply;
        ReplyRecognisedWhole(s.last, reply, b);
        if b == reply && b[0] in {0x80, 0x7D} {
          ParserPanicsExactly(b);
        }
      }
    }
  }

  lemma AnswerKeepsInStep(w: World, answer: seq<byte>)
    requires InStep(w) && w.s.gotEcho && w.wire == [] && w.s.buffer == w.issued[|w.issued| - 1]
    requires !BadFrame(w.s.buffer) && ValidReply(Answer(w.s).last, answer)
    ensures InStep(Settle(w, Running(Answer(w.s)), answer))
  {
    hide NextByte, IsCommand;
    var s' := Answer(w.s);
    assert s'.taken[..|s'.taken| - 1] == w.s.taken;
    assert s'.sent[..|w.issued|] == w.s.sent == w.s.sent[..|w.issued| - 1] + [w.s.last];
  }

  lemma OutcomeKeepsInStep(w: World, st: Status<Session>, answer: seq<byte>)
    requires InStep(w) && Outcome(w.s, w.wire, w.issued[|w.issued| - 1], st)
    requires |st.s.sent| > |w.s.sent| ==> ValidReply(st.s.last, answer)
    ensures InStep(Settle(w, st, answer))
  {
    if w.s.buffer != [] && w.s.gotEcho && w.s.buffer == w.issued[|w.issued| - 1] && st.Running? {
      AnswerKeepsInStep(w, answer);
    }
  }

  lemma ReadKeepsInStep(w: World, t: Tick)
    requires InStep(w) && t.data <= w.wire
    ensures InStep(World(Received(w.s, t), w.wire[|t.data|..], w.issued, false))
  {
    assert w.s.buffer + t.data + w.wire[|t.data|..] == w.s.buffer + w.wire;
  }

  lemma EarlyStopKeepsInStep(w: World, m: Move)
    requires InStep(w) && Possible(w, m) && !w.over
    requires w.s.readLoops >= READ_LOOPS_LIMIT || m.tick.cancelled || m.tick.failure.Broken?
    ensures InStep(Next(w, m))
  {
    assert w.wire[0..] == w.wire;
  }

  /** Every pass keeps lock step. */
  lemma StepKeepsInStep(w: World, m: Move)
    requires InStep(w) && Possible(w, m)
    ensures InStep(Next(w, m))
  {
    if !w.over {
      var read := World(Received(w.s, m.tick), w.wire[|m.tick.data|..], w.issued, false);
      ReadKeepsInStep(w, m.tick);
      if w.s.readLoops >= READ_LOOPS_LIMIT || m.tick.cancelled || m.tick.failure.Broken? {
        EarlyStopKeepsInStep(w, m);
      } else {
        ActOnReply(read.s, read.wire, w.issued[|w.issued| - 1]);
        OutcomeKeepsInStep(read, Act(true, read.s), m.answer);
      }
    }
  }

  function TickOf(m: Move): Tick { m.tick }

  function TicksOf(moves: seq<Move>): seq<Tick> { Ticks(TickOf, moves) }

  lemma NextIsStep(w: World, m: Move)
    requires !w.over && Possible(w, m)
    ensures Next(w, m).s == Receive(true, w.s, m.tick).s
    ensures Next(w, m).over == Receive(true, w.s, m.tick).Stopped?
  {
  }

  /** The refinement theorem: against an ECU that echoes and answers each byte, and for every way
      its bytes are cut into reads, the loop stays in step with the automaton for ever. */
  lemma LoopRefinesAutomaton(command: string, reply: seq<byte>, moves: seq<Move>)
    requires ValidReply(0xCA, reply) && AllPossible(Next, Possible, Begin(command, reply), moves)
    ensures var w, st := Play(Next, Begin(command, reply), moves), After(Step(true), Start(command), TicksOf(moves));
            InStep(w) && st.s == w.s && st.Stopped? == w.over
  {
    forall w, m | InStep(w) && Possible(w, m) ensures InStep(Next(w, m)) {
      StepKeepsInStep(w, m);
    }
    PlayKeeps(Next, Possible, InStep, Begin(command, reply), moves);
    forall w: World, m: Move | !w.over && Possible(w, m)
      ensures Next(w, m).s == Step(true)(w.s, m.tick).s
      ensures Next(w, m).over == Step(true)(w.s, m.tick).Stopped?
    {
      NextIsStep(w, m);
    }
    PlayIsAfter(Step(true), TickOf, Next, Possible, (w: World) => w.s, (w: World) => w.over,
                Begin(command, reply), moves);
  }

  /** In step, a pass panics exactly when it completes a 0x7D reply of packet size 0x16 or 0x1F. */
  lemma PanicsExactlyOnBadFrame(w: World, t: Tick)
    requires InStep(w) && t.data <= w.wire
    requires w.s.readLoops < READ_LOOPS_LIMIT && !t.cancelled && !t.failure.Broken?
    ensures var reply := w.issued[|w.issued| - 1];
            (Receive(true, w.s, t).Stopped? && Receive(true, w.s, t).exit == Panicked)
            <==> (w.s.gotEcho && w.s.buffer + t.data == reply && BadFrame(reply))
  {
    ReadKeepsInStep(w, t);
    ActOnReply(Received(w.s, t), w.wire[|t.data|..], w.issued[|w.issued| - 1]);
  }

  lemma WholeReplyIsAnswered(w: World, t: Tick)
    requires InStep(w) && w.s.gotEcho && t.data == w.wire && !BadFrame(w.issued[|w.issued| - 1])
    requires w.s.readLoops < READ_LOOPS_LIMIT && !t.cancelled && !t.failure.Broken?
    ensures Receive(true, w.s, t) == Running(Answer(Received(w.s, t)))
    ensures Received(w.s, t).buffer == w.issued[|w.issued| - 1]
  {
    ReadKeepsInStep(w, t);
    assert w.wire[|t.data|..] == [];
    ActOnReply(Received(w.s, t), [], w.issued[|w.issued| - 1]);
  }

  /** Nothing is left waiting: once the outstanding echo and reply have all arrived, this pass or
      the next one answers, even if no further byte comes. */
  lemma ReplyIsAnswered(w: World, t: Tick)
    requires InStep(w) && t.data == w.wire && !BadFrame(w.issued[|w.issued| - 1])
    requires w.s.readLoops < READ_LOOPS_LIMIT - 1 && !t.cancelled && !t.failure.Broken?
    ensures var s := Receive(true, w.s, t).s;
            var s' := if w.s.gotEcho then s else Receive(true, s, SILENCE).s;
            s'.handled == w.issued && |s'.sent| == |w.s.sent| + 1
  {
    hide CommandByte, IsCommand, InStep, Complete, ParserPanics;
    if w.s.gotEcho {
      WholeReplyIsAnswered(w, t);
      AnswerHandlesAll(w, Received(w.s, t));
    } else {
      EchoIsDropped(w, t);
      var e := World(Receive(true, w.s, t).s, [], w.issued, false);
      WholeReplyIsAnswered(e, SILENCE);
      AnswerHandlesAll(e, Received(e.s, SILENCE));
    }
  }

  lemma AnswerHandlesAll(w: World, s: Session)
    requires InStep(w) && s.buffer == w.issued[|w.issued| - 1] && s.buffer != []
    requires s.handled == w.s.handled && s.sent == w.s.sent
    ensures Answer(s).handled == w.issued && |Answer(s).sent| == |w.s.sent| + 1
  {
    hide CommandByte, IsCommand, NextByte, ValidReply;
  }

  /** With everything on the wire read before the echo is seen, the pass drops the echo. */
  lemma EchoIsDropped(w: World, t: Tick)
    requires InStep(w) && !w.s.gotEcho && t.data == w.wire
    requires w.s.readLoops < READ_LOOPS_LIMIT && !t.cancelled && !t.failure.Broken?
    ensures var st, r := Receive(true, w.s, t), Received(w.s, t);
            && st == Running(r.(gotEcho := true, buffer := r.buffer[1..])) && r.buffer != []
            && InStep(World(st.s, [], w.issued, false))
  {
    hide CommandByte, IsCommand, ParserPanics, Complete;
    var r, reply := Received(w.s, t), w.issued[|w.issued| - 1];
    assert w.wire[|t.data|..] == [];
    ReadKeepsInStep(w, t);
    ActOnReply(r, [], reply);
    assert r.buffer + [] == [w.s.last] + reply;
    assert r.buffer[1..] + [] == reply;
  }

  // ---------------------------------------------------------------- what is sent

  /** Each request follows from the one before it and the command pending. */
  lemma {:induction false} RequestAt(taken: seq<string>, i: nat)
    requires i <= |taken|
    ensures Requests(taken)[i] == if i == 0 then 0xCA else NextByte(taken[i - 1], Requests(taken)[i - 1])
  {
    hide NextByte;
    if i < |taken| {
      RequestAt(taken[..|taken| - 1], i);
    }
  }

  /** With no user command, what is sent is CA 75 F4 D0 and then 80 and 7D by turns. */
  function Script(i: nat): byte
  {
    if i < 4 then [0xCA, 0x75, 0xF4, 0xD0][i] else if i % 2 == 0 then 0x80 else 0x7D
  }

  predicate KnownCommand(name: string) { CommandByte(name).Some? }

  lemma {:induction false} RequestsWithoutCommands(taken: seq<string>, i: nat)
    requires i <= |taken| && forall k :: 0 <= k < i ==> !KnownCommand(taken[k])
    ensures Requests(taken)[i] == Script(i)
  {
    hide CommandByte;
    RequestAt(taken, i);
    if i > 0 {
      RequestsWithoutCommands(taken, i - 1);
    }
  }

  /** When a request is one of the handshake bytes. */
  predicate FollowsInHandshake(command: string, previous: byte, next: byte)
  {
    && next != 0xCA
    && (next == 0x75 <==> !KnownCommand(command) && previous == 0xCA)
    && (next == 0xF4 <==> !KnownCommand(command) && previous == 0x75)
    && (next == 0xD0 <==> !KnownCommand(command) && previous == 0xF4)
  }

  lemma HandshakeBytesAreNoCommands(b: byte)
    ensures IsCommand(b) ==> b != 0xCA && b != 0x75 && b != 0xF4 && b != 0xD0 && b != 0x80 && b != 0x7D
  {
  }

  lemma InHandshake(taken: seq<string>, i: nat)
    requires i <= |taken|
    ensures i == 0 ==> Requests(taken)[i] == 0xCA
    ensures i > 0 ==> FollowsInHandshake(taken[i - 1], Requests(taken)[i - 1], Requests(taken)[i])
  {
    hide CommandByte, IsCommand, Requests;
    RequestAt(taken, i);
    HandshakeBytesAreNoCommands(Requests(taken)[i]);
    assert i > 0 && KnownCommand(taken[i - 1]) ==> IsCommand(Requests(taken)[i]);
  }

  /** D0 goes out as the fourth byte or never. */
  lemma OnlyFourthIsD0(taken: seq<string>, i: nat)
    requires i <= |taken|
    ensures Requests(taken)[i] == 0xD0 <==> i == 3 && forall k :: 0 <= k < 3 ==> !KnownCommand(taken[k])
  {
    hide CommandByte, NextByte, KnownCommand, Requests;
    InHandshake(taken, i);
    if i > 0 { InHandshake(taken, i - 1); }
    if i > 1 { InHandshake(taken, i - 2); }
    if i > 2 { InHandshake(taken, i - 3); }
    if i == 3 {
      assert !KnownCommand(taken[0]) && !KnownCommand(taken[1]) && !KnownCommand(taken[2])
        <==> forall k :: 0 <= k < 3 ==> !KnownCommand(taken[k]);
    }
  }

  /** Connected is set exactly when four replies have been answered and none of the first three
      found a known user command pending. */
  lemma ConnectsExactly(w: World)
    requires InStep(w)
    ensures w.s.connected <==>
            |w.s.taken| >= 4 && forall k :: 0 <= k < 3 ==> !KnownCommand(w.s.taken[k])
  {
    var before := w.s.sent[..|w.s.taken|];
    if w.s.connected {
      var i :| 0 <= i < |before| && before[i] == 0xD0;
      OnlyFourthIsD0(w.s.taken, i);
    } else if |w.s.taken| >= 4 {
      assert before[3] != 0xD0;
      OnlyFourthIsD0(w.s.taken, 3);
    }
  }

  /** A known command goes out as the answer to the reply that found it pending, and from there on, up
      to the next one, 80 and 7D go out by turns, starting with 80 whatever the command was. */
  lemma {:induction false} PollsAfterACommand(taken: seq<string>, k: nat, i: nat)
    requires k < i <= |taken| && KnownCommand(taken[k]) && forall m :: k < m < i ==> !KnownCommand(taken[m])
    ensures Some(Requests(taken)[k + 1]) == CommandByte(taken[k])
    ensures i > k + 1 ==> Requests(taken)[i] == if (i - k) % 2 == 0 then 0x80 else 0x7D
  {
    hide CommandByte, IsCommand, Requests;
    RequestAt(taken, k + 1);
    if i > k + 1 {
      PollsAfterACommand(taken, k, i - 1);
      RequestAt(taken, i);
      HandshakeBytesAreNoCommands(Requests(taken)[k + 1]);
    }
  }

  /** The same of a session in step: the byte it sends after the reply to a known command is 80. */
  lemma SentAfterACommand(w: World, k: nat, i: nat)
    requires InStep(w) && k < i < |w.s.sent|
    requires KnownCommand(w.s.taken[k]) && forall m :: k < m < i ==> !KnownCommand(w.s.taken[m])
    ensures Some(w.s.sent[k + 1]) == CommandByte(w.s.taken[k])
    ensures i == k + 2 ==> w.s.sent[i] == 0x80
    ensures i > k + 1 ==> w.s.sent[i] == if (i - k) % 2 == 0 then 0x80 else 0x7D
  {
    hide CommandByte;
    PollsAfterACommand(w.s.taken, k, i);
  }

  /** What has been taken stays taken. */
  lemma TakenGrows(w: World, m: Move)
    ensures w.s.taken <= Next(w, m).s.taken
  {
    hide CommandByte, IsCommand, ParserPanics;
  }

  /** A known user command that goes out before the D0 reply makes the loop skip the rest of the
      handshake: whatever happens from then on, Connected is never set. */
  lemma EarlyCommandNeverConnects(w: World, moves: seq<Move>, k: nat)
    requires InStep(w) && AllPossible(Next, Possible, w, moves)
    requires k < 3 && k < |w.s.taken| && KnownCommand(w.s.taken[k])
    ensures !Play(Next, w, moves).s.connected
  {
    var kept := (v: World) => InStep(v) && w.s.taken <= v.s.taken;
    forall v, m | kept(v) && Possible(v, m) ensures kept(Next(v, m)) {
      StepKeepsInStep(v, m);
      TakenGrows(v, m);
    }
    PlayKeeps(Next, Possible, kept, w, moves);
    ConnectsExactly(Play(Next, w, moves));
  }

  /** The session trace: with no known command pending at the start or posted, and for every cut
      into reads, the bytes sent are a prefix of that script, reply by reply, so no data frame is
      handled before the fourth, the D0 reply, has set Connected. */
  lemma SessionTrace(command: string, reply: seq<byte>, moves: seq<Move>)
    requires ValidReply(0xCA, reply) && AllPossible(Next, Possible, Begin(command, reply), moves)
    requires !KnownCommand(command)
    requires forall i :: 0 <= i < |moves| && moves[i].tick.command.Some? ==> !KnownCommand(moves[i].tick.command.value)
    ensures var s := Play(Next, Begin(command, reply), moves).s;
            && (forall i :: 0 <= i < |s.sent| ==> s.sent[i] == Script(i))
            && (forall i :: 0 <= i < |s.handled| ==> s.handled[i] != [] && s.handled[i][0] == Script(i))
            && (s.connected <==> |s.handled| >= 4)
  {
    hide CommandByte, Receive, InStep, Possible, Next;
    var w, start := Play(Next, Begin(command, reply), moves), Start(command);
    LoopRefinesAutomaton(command, reply, moves);
    StepTakesPending(true);
    NoCommandWithoutName();
    assert start.taken == [] && start.command == command;
    OnlyPostsAreTaken(
      Step(true), (s: Session) => s.command, (s: Session) => s.taken, start, TicksOf(moves), KnownCommand);
    HandledFollowScript(w);
  }

  lemma NoCommandWithoutName()
    ensures !KnownCommand("")
  {
  }

  lemma HandledFollowScript(w: World)
    requires InStep(w) && forall name :: name in w.s.taken ==> !KnownCommand(name)
    ensures forall i :: 0 <= i < |w.s.sent| ==> w.s.sent[i] == Script(i)
    ensures forall i :: 0 <= i < |w.s.handled| ==> w.s.handled[i] != [] && w.s.handled[i][0] == Script(i)
    ensures w.s.connected <==> |w.s.handled| >= 4
  {
    hide CommandByte;
    ConnectsExactly(w);
    forall i | 0 <= i < |w.s.sent| ensures w.s.sent[i] == Script(i) {
      RequestsWithoutCommands(w.s.taken, i);
    }
    forall i | 0 <= i < |w.s.handled| ensures w.s.handled[i] != [] && w.s.handled[i][0] == Script(i) {
      assert w.s.handled[i] == w.issued[i] && ValidReply(w.s.sent[i], w.issued[i]);
    }
  }

  // ---------------------------------------------------------------- two runs that fail

  /** Between exchanges: nothing read of the outstanding echo and reply. */
  predicate Rested(w: World)
  {
    InStep(w) && !w.over && w.s.buffer == [] && !w.s.gotEcho && w.s.readLoops <= 1
  }

  /** One more exchange: the echo and the reply are read at once, the echo is dropped, and a silent
      pass answers. */
  lemma Exchange(begin: World, moves: seq<Move>, answer: seq<byte>) returns (more: seq<Move>)
    requires AllPossible(Next, Possible, begin, moves) && Rested(Play(Next, begin, moves))
    requires var w := Play(Next, begin, moves);
             var reply := w.issued[|w.issued| - 1];
             !BadFrame(reply) && ValidReply(NextByte(w.s.command, reply[0]), answer)
    ensures AllPossible(Next, Possible, begin, more)
    ensures var w, w' := Play(Next, begin, moves), Play(Next, begin, more);
            && Rested(w') && w'.s.command == "" && w'.s.taken == w.s.taken + [w.s.command]
            && w'.issued == w.issued + [answer]
  {
    hide CommandByte, IsCommand;
    var w := Play(Next, begin, moves);
    var echo, echoed := ReadEcho(begin, moves);
    var e := Play(Next, begin, echo);
    var last := Move(SILENCE, answer);
    WholeReplyIsAnswered(e, SILENCE);
    assert e.wire[0..] == [];
    more := echo + [last];
    OneMoreMove(Next, Possible, begin, echo, last);
    StepKeepsInStep(e, last);
  }

  lemma ReadEcho(begin: World, moves: seq<Move>) returns (more: seq<Move>, e: World)
    requires AllPossible(Next, Possible, begin, moves) && Rested(Play(Next, begin, moves))
    ensures AllPossible(Next, Possible, begin, more) && e == Play(Next, begin, more)
    ensures var w := Play(Next, begin, moves);
            && InStep(e) && !e.over && e.wire == [] && e.s.gotEcho && e.issued == w.issued && e.s.readLoops == 0
            && e.s.taken == w.s.taken && e.s.command == w.s.command
  {
    hide InStep, Receive, ValidReply;
    var w := Play(Next, begin, moves);
    var m := Move(SILENCE.(data := w.wire), []);
    assert w.s.buffer + w.wire == w.wire;
    assert w.wire[|w.wire|..] == [];
    EchoIsDropped(w, m.tick);
    e := Next(w, m);
    more := moves + [m];
    OneMoreMove(Next, Possible, begin, moves, m);
  }

  lemma BeginsRested(command: string, reply: seq<byte>)
    requires ValidReply(0xCA, reply)
    ensures Rested(Begin(command, reply)) && Play(Next, Begin(command, reply), []) == Begin(command, reply)
  {
  }

  /** One such session: the fan test, posted before the first reply, goes out second. Four replies
      are answered and Connected is not set. */
  lemma EarlyCommandRun() returns (moves: seq<Move>)
    ensures AllPossible(Next, Possible, Begin("startTestFan1", [0xCA]), moves)
    ensures var s := Play(Next, Begin("startTestFan1", [0xCA]), moves).s;
            && s.taken == ["startTestFan1", "", "", ""] && !s.connected
            && s.sent == [0xCA, 0x1D, 0x80, 0x7D, 0x80]
  {
    hide InStep, Next, Possible, CommandByte, IsCommand;
    NoCommandWithoutName();
    HandshakeBytesAreNoCommands(0xCA);
    HandshakeBytesAreNoCommands(0x80);
    HandshakeBytesAreNoCommands(0x7D);
    TheFanTest();
    var begin := Begin("startTestFan1", [0xCA]);
    BeginsRested("startTestFan1", [0xCA]);
    moves := Exchange(begin, [], [0x1D, 0x00]);
    moves := Exchange(begin, moves, [0x80, 0x01]);
    moves := Exchange(begin, moves, [0x7D, 0x01]);
    moves := Exchange(begin, moves, [0x80, 0x01]);
    var w := Play(Next, begin, moves);
    FanTestFirst(w.s.taken);
    SentIsRequests(w);
    ConnectsExactly(w);
  }

  lemma TheFanTest()
    ensures CommandByte("startTestFan1") == Some(0x1D) && IsCommand(0x1D)
  {
  }

  lemma SentIsRequests(w: World)
    requires InStep(w)
    ensures w.s.sent == Requests(w.s.taken)
  {
  }

  lemma FanTestFirst(taken: seq<string>)
    requires taken == ["startTestFan1", "", "", ""]
    ensures Requests(taken) == [0xCA, 0x1D, 0x80, 0x7D, 0x80] && KnownCommand(taken[0])
  {
    hide CommandByte;
    NoCommandWithoutName();
    TheFanTest();
    RequestAt(taken, 0);
    RequestAt(taken, 1);
    RequestAt(taken, 2);
    RequestAt(taken, 3);
    RequestAt(taken, 4);
  }

  const BAD_FRAME: seq<byte> := [0x7D, 0x16] + Zeros(21)

  /** One session that panics: with no command posted the ECU answers the first 0x7D request with a
      23-byte frame of packet size 0x16. */
  lemma BadFrameRun() returns (moves: seq<Move>)
    ensures AllPossible(Next, Possible, Begin("", [0xCA]), moves)
    ensures var st := After(Step(true), Start(""), TicksOf(moves) + [SILENCE]);
            st.Stopped? && st.exit == Panicked && st.s.buffer == BAD_FRAME && |BAD_FRAME| == 23
  {
    hide InStep, Next, Possible, CommandByte, IsCommand;
    NoCommandWithoutName();
    HandshakeBytesAreNoCommands(0xCA);
    HandshakeBytesAreNoCommands(0x75);
    HandshakeBytesAreNoCommands(0xF4);
    HandshakeBytesAreNoCommands(0xD0);
    HandshakeBytesAreNoCommands(0x80);
    HandshakeBytesAreNoCommands(0x7D);
    var begin := Begin("", [0xCA]);
    BeginsRested("", [0xCA]);
    moves := Exchange(begin, [], [0x75]);
    moves := Exchange(begin, moves, [0xF4, 0x00]);
    moves := Exchange(begin, moves, [0xD0, 0x00, 0x00, 0x00, 0x00]);
    moves := Exchange(begin, moves, [0x80, 0x01]);
    moves := Exchange(begin, moves, BAD_FRAME);
    var e;
    moves, e := ReadEcho(begin, moves);
    LoopRefinesAutomaton("", [0xCA], moves);
    AfterOne(Step(true), Start(""), TicksOf(moves), SILENCE);
    BadFramePanics(e);
  }

  lemma BadFramePanics(e: World)
    requires InStep(e) && e.s.gotEcho && e.wire == [] && e.issued[|e.issued| - 1] == BAD_FRAME && e.s.readLoops == 0
    ensures var st := Receive(true, e.s, SILENCE);
            st.Stopped? && st.exit == Panicked && st.s.buffer == BAD_FRAME
  {
    hide CommandByte, IsCommand;
    assert e.s.buffer + [] == e.s.buffer;
    PanicsExactlyOnBadFrame(e, SILENCE);
  }

  /** On an adapter that does not echo, the first reply is taken for the echo of 0xCA and nothing
      more is ever sent. */
  predicate Stuck(s: Session, wire: seq<byte>)
  {
    s.sent == [0xCA] && s.last == 0xCA && s.handled == [] &&
    s.buffer + wire == if s.gotEcho then [] else [0xCA]
  }

  /** The ticks read the wire piece by piece. */
  predicate Reads(wire: seq<byte>, ticks: seq<Tick>)
  {
    ticks == [] || (ticks[0].data <= wire && Reads(wire[|ticks[0].data|..], ticks[1..]))
  }

  lemma StaysStuck(s: Session, wire: seq<byte>, t: Tick)
    requires Stuck(s, wire) && t.data <= wire
    ensures var st := Receive(true, s, t);
            st.s.sent == [0xCA] && (st.Running? ==> Stuck(st.s, wire[|t.data|..]))
  {
    var b, rest := s.buffer + t.data, wire[|t.data|..];
    assert b + rest == s.buffer + wire;
    if b != [] {
      assert b[0] == (b + rest)[0];
      assert b == [0xCA] && rest == [];
    }
  }

  lemma {:induction false} NoEchoNoSession(s: Session, wire: seq<byte>, ticks: seq<Tick>)
    requires Stuck(s, wire) && Reads(wire, ticks)
    ensures After(Step(true), s, ticks).s.sent == [0xCA]
    decreases |ticks|
  {
    if ticks != [] {
      StaysStuck(s, wire, ticks[0]);
      var st := Receive(true, s, ticks[0]);
      if st.Running? {
        NoEchoNoSession(st.s, wire[|ticks[0].data|..], ticks[1..]);
      }
    }
  }
}
