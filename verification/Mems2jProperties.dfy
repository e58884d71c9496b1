/** What the MEMS 2J loop does over whole runs: its poll cycle, the key it sends, and lock step with
    an ECU however the stream is cut, padded or echoed. */
module Mems2jProperties {
  import opened Bytes
  import opened Line
  import opened Mems2j
  import opened Auth

  // ---------------------------------------------------------------- the poll cycle

  predicate DistinctPids(order: seq<seq<byte>>)
    requires Pollable(order)
  {
    forall i, j :: 0 <= i < j < |order| ==> order[i][1] != order[j][1]
  }

  /** With distinct second bytes no entry of the table overwrites another. */
  lemma {:induction false} TableFollowsOrder(order: seq<seq<byte>>, n: nat, i: nat)
    requires Pollable(order) && DistinctPids(order) && i < n <= |order|
    ensures order[i][1] in PollTable(order, n)
    ensures PollTable(order, n)[order[i][1]] == if i + 1 < |order| then order[i + 1] else PING
  {
    if i < n - 1 {
      TableFollowsOrder(order, n - 1, i);
    }
  }

  /** A ping, then the order, then a ping again, and so on for ever. */
  function CycleAt(order: seq<seq<byte>>, k: nat): seq<byte>
  {
    var i := k % (|order| + 1);
    if i == 0 then [0x3E] else order[i - 1]
  }

  /** A reply that grants a poll request: 7E to a ping, 61 xx ... to 21 xx. */
  predicate Grants(request: seq<byte>, reply: seq<byte>)
  {
    if request == [0x3E] then reply == [0x7E]
    else |request| >= 2 && |reply| >= 2 && reply[0] == 0x61 && reply[1] == request[1]
  }

  predicate PollOrder(order: seq<seq<byte>>)
  {
    Pollable(order) && DistinctPids(order) && |order| > 0 && order[0] == [0x21, 0x19]
  }

  /** The tables of a program with these user commands and this poll order. */
  function Tables(commands: map<string, seq<byte>>, order: seq<seq<byte>>): Config
    requires Pollable(order)
  {
    Config(commands, PollTable(order, |order|))
  }

  /** The poll table is the one built from this order. */
  predicate Polls(c: Config, order: seq<seq<byte>>)
  {
    PollOrder(order) && c.poll == PollTable(order, |order|)
  }

  lemma PollStep(c: Config, order: seq<seq<byte>>, k: nat, key: nat, reply: seq<byte>)
    requires Polls(c, order) && Grants(CycleAt(order, k), reply)
    ensures NextRequest(c, "", key, reply) == CycleAt(order, k + 1)
  {
    var i := k % (|order| + 1);
    NextInCycle(k, |order| + 1);
    if i > 0 {
      TableFollowsOrder(order, |order|, i - 1);
      DataReplyFollowsTable(c, key, reply);
    }
  }

  lemma Multiples(d: int, m: int)
    requires m > 0
    ensures d >= 2 ==> d * m >= 2 * m
    ensures d <= -1 ==> d * m <= -m
    ensures d >= 1 ==> d * m >= m
    ensures d <= 0 ==> d * m <= 0
  {
    if d >= 2 {
      assert (d - 2) * m >= 0;
    } else if d <= -1 {
      assert (-1 - d) * m >= 0;
    }
  }

  lemma NextInCycle(k: nat, m: nat)
    requires m > 0
    ensures (k + 1) % m == if k % m + 1 == m then 0 else k % m + 1
  {
    var d := (k + 1) / m - k / m;
    assert d * m == (k + 1) / m * m - k / m * m == k % m + 1 - (k + 1) % m;
    Multiples(d, m);
  }

  lemma DataReplyFollowsTable(c: Config, key: nat, reply: seq<byte>)
    requires |reply| >= 2 && reply[0] == 0x61 && reply[1] in c.poll
    ensures NextRequest(c, "", key, reply) == c.poll[reply[1]]
  {
    assert reply[..2][0] != SEED[0];
  }

  /** Two places hold the same request exactly when they are whole periods apart: one period holds
      no request twice. */
  lemma CycleVisitsOnce(order: seq<seq<byte>>, i: nat, j: nat)
    requires PollOrder(order)
    ensures CycleAt(order, i) == CycleAt(order, j) <==> i % (|order| + 1) == j % (|order| + 1)
  {
    var a, b := i % (|order| + 1), j % (|order| + 1);
    if a > 0 && b > 0 {
      if a < b {
        assert order[a - 1][1] != order[b - 1][1];
      } else if b < a {
        assert order[b - 1][1] != order[a - 1][1];
      }
    }
  }

  /** The table's requests are ones the loop can have outstanding. */
  predicate GoodTable(table: Table)
  {
    forall b :: b in table ==> GoodRequest(table[b])
  }

  /** They are pings and data requests. */
  predicate PollsOnly(table: Table)
  {
    forall b :: b in table ==> table[b] == PING || (table[b] != [] && table[b][0] == 0x21)
  }

  lemma {:induction false} GoodOrderGoodTable(order: seq<seq<byte>>, n: nat)
    requires Pollable(order) && n <= |order| && forall i :: 0 <= i < |order| ==> GoodRequest(order[i])
    ensures GoodTable(PollTable(order, n))
    ensures (forall i :: 0 <= i < |order| ==> order[i][0] == 0x21) ==> PollsOnly(PollTable(order, n))
  {
    if n > 0 {
      GoodOrderGoodTable(order, n - 1);
    }
  }

  predicate GoodConfig(c: Config)
  {
    GoodTable(c.poll) && forall name :: name in c.commands ==> GoodRequest(c.commands[name])
  }

  lemma ThePollOrderIncreases()
    ensures |POLL_ORDER| == 22 && POLL_ORDER[0] == REQUEST_FAULTS && POLL_ORDER[1] == REQUEST_DATA00
    ensures forall i :: 0 <= i < |POLL_ORDER| ==> |POLL_ORDER[i]| == 2 && POLL_ORDER[i][0] == 0x21
    ensures forall i :: 1 <= i < |POLL_ORDER| ==> POLL_ORDER[i][1] != 0x19
    ensures forall i :: 1 <= i < |POLL_ORDER| - 1 ==> POLL_ORDER[i][1] < POLL_ORDER[i + 1][1]
  {
  }

  lemma ThePollOrder()
    ensures PollOrder(POLL_ORDER) && |POLL_ORDER| == 22 && POLL_ORDER[1] == REQUEST_DATA00
    ensures GoodTable(PollTable(POLL_ORDER, |POLL_ORDER|)) && PollsOnly(PollTable(POLL_ORDER, |POLL_ORDER|))
  {
    ThePollOrderIncreases();
    IncreasingIsDistinct(POLL_ORDER, 0x19);
    GoodOrderGoodTable(POLL_ORDER, |POLL_ORDER|);
  }

  lemma IncreasingIsDistinct(o: seq<seq<byte>>, first: byte)
    requires Pollable(o) && |o| > 0 && o[0][1] == first && forall i :: 1 <= i < |o| ==> o[i][1] != first
    requires forall i :: 1 <= i < |o| - 1 ==> o[i][1] < o[i + 1][1]
    ensures DistinctPids(o)
  {
    forall i, j | 0 <= i < j < |o| ensures o[i][1] != o[j][1] {
      if i > 0 {
        IncreasingBetween(o, i, j);
      }
    }
  }

  lemma TheCommands(name: string)
    requires name in USER_COMMANDS
    ensures GoodRequest(USER_COMMANDS[name]) && USER_COMMANDS[name][0] in {0x31, 0x23, 0x13, 0x33} && name != ""
  {
  }

  /** The tables the program uses meet all of this. */
  lemma TheTables()
    ensures GoodConfig(Tables(USER_COMMANDS, POLL_ORDER)) && PollsOnly(Tables(USER_COMMANDS, POLL_ORDER).poll)
  {
    ThePollOrder();
    forall name | name in USER_COMMANDS ensures GoodRequest(USER_COMMANDS[name]) {
      TheCommands(name);
    }
  }

  lemma {:induction false} IncreasingBetween(o: seq<seq<byte>>, i: nat, j: nat)
    requires Pollable(o) && 1 <= i < j < |o| && forall i :: 1 <= i < |o| - 1 ==> o[i][1] < o[i + 1][1]
    ensures o[i][1] < o[j][1]
  {
    if i + 1 < j {
      IncreasingBetween(o, i, j - 1);
    }
  }

  // ---------------------------------------------------------------- security access, any bytes

  /** The key always belongs to the seed, and every request that answers a whole seed reply is
      27 02 with two bytes that decode to the key for that very seed. */
  predicate Secure(c: Config, s: Session)
  {
    && s.seed < 65536 && s.key == KeyFor(s.seed) && s.key < 65536
    && |s.sent| == |s.handled| == |s.taken|
    && forall i :: 0 <= i < |s.handled| && SeedReply(s.handled[i]) && UserCommand(c.commands, s.taken[i]).None? ==>
         KeySent(s.sent[i], SeedOf(s.handled[i]))
  }

  predicate KeySent(frame: seq<byte>, seed: nat)
  {
    && |frame| == 6 && frame == Frame(frame[1..5]) && frame[1..3] == SEND_KEY
    && Uint16(frame[3], frame[4]) == KeyFor(seed)
  }

  lemma AnswerKeepsSecure(c: Config, s: Session, payload: seq<byte>)
    requires Secure(c, s)
    ensures Secure(c, Answer(c, s, payload))
  {
    if SeedReply(payload) {
      KeyForFitsTwoBytes(SeedOf(payload));
      if UserCommand(c.commands, s.command).None? {
        var key := KeyFor(SeedOf(payload));
        assert payload[1] == 0x01;
        assert NextRequest(c, s.command, key, payload) == SEND_KEY + PutUint16(key);
        assert KeySent(Frame(SEND_KEY + PutUint16(key)), SeedOf(payload));
      }
    }
  }

  lemma StepKeepsSecure(c: Config, s: Session, t: Tick)
    requires Secure(c, s)
    ensures Secure(c, Receive(c, s, t).s)
  {
    var r := Received(s, t);
    var b := StripZeros(r.buffer);
    if AtReply(r.lastSent, b) {
      AnswerKeepsSecure(c, r, b[1..b[0] as int + 1]);
    }
  }

  /** In every reachable state, whatever bytes arrived. */
  lemma SecurityAccess(c: Config, now: int, command: string, ticks: seq<Tick>)
    ensures Secure(c, After(Step(c), Start(now, command), ticks).s)
  {
    forall s, t | Secure(c, s) ensures Secure(c, Step(c)(s, t).s) {
      StepKeepsSecure(c, s, t);
    }
    AfterKeeps(Step(c), (s: Session) => Secure(c, s), Start(now, command), ticks);
  }

  /** A pass after others times out exactly when it starts a second or more after the last bytes came;
      otherwise it ends the run exactly when the context is cancelled. */
  lemma TimesOutExactly(c: Config, now: int, command: string, ticks: seq<Tick>, next: Tick)
    requires After(Step(c), Start(now, command), ticks).Running?
    ensures var st := Receive(c, After(Step(c), Start(now, command), ticks).s, next);
            && (st.Stopped? && st.exit == TimedOut <==> next.now - LastHeard(now, ticks) >= 1000)
            && (st.Stopped? && st.exit == Cancelled <==> next.now - LastHeard(now, ticks) < 1000 && next.cancelled)
            && (st.Stopped? <==> next.now - LastHeard(now, ticks) >= 1000 || next.cancelled)
  {
    forall s: Session, t: Tick | Step(c)(s, t).Running?
      ensures Step(c)(s, t).s.lastData == if t.data != [] then t.heard else s.lastData
    {
      assert Receive(c, s, t) == Running(Act(c, Received(s, t)));
    }
    StampIsLastHeard(Step(c), (s: Session) => s.lastData, Start(now, command), ticks);
  }

  // ---------------------------------------------------------------- user commands, any bytes

  /** No two commands are the same request. */
  lemma CommandsDiffer(a: string, b: string)
    requires a in USER_COMMANDS && b in USER_COMMANDS && USER_COMMANDS[a] == USER_COMMANDS[b]
    ensures a == b
  {
    assert USER_COMMANDS[a][0] == USER_COMMANDS[b][0];
    assert |USER_COMMANDS[a]| > 1 ==> USER_COMMANDS[a][1] == USER_COMMANDS[b][1];
  }

  lemma FramesDiffer(a: seq<byte>, b: seq<byte>)
    ensures Frame(a) == Frame(b) <==> a == b
  {
    assert Frame(a)[1..|a| + 1] == a && Frame(b)[1..|b| + 1] == b;
  }

  /** A command's request goes out exactly when that command was pending. */
  lemma NextIsCommand(c: Config, command: string, key: nat, payload: seq<byte>, name: string)
    requires c.commands == USER_COMMANDS && PollsOnly(c.poll) && name in USER_COMMANDS
    ensures NextRequest(c, command, key, payload) == USER_COMMANDS[name] <==> command == name
  {
    TheCommands(name);
    if UserCommand(c.commands, command).Some? {
      if USER_COMMANDS[command] == USER_COMMANDS[name] {
        CommandsDiffer(command, name);
      }
    } else {
      assert NextRequest(c, command, key, payload)[0] in {0x10, 0x27, 0x3E, 0x21};
    }
  }

  predicate SentAsTaken(s: Session, name: string)
    requires name in USER_COMMANDS
  {
    multiset(s.sent)[Frame(USER_COMMANDS[name])] == multiset(s.taken)[name]
  }

  lemma AnswerSendsAsTaken(c: Config, s: Session, payload: seq<byte>, name: string)
    requires c.commands == USER_COMMANDS && PollsOnly(c.poll) && name in USER_COMMANDS && SentAsTaken(s, name)
    ensures SentAsTaken(Answer(c, s, payload), name)
  {
    hide NextRequest, Frame, PollsOnly;
    var key := Parsed(s, payload).key;
    NextIsCommand(c, s.command, key, payload, name);
    FramesDiffer(NextRequest(c, s.command, key, payload), USER_COMMANDS[name]);
  }

  lemma StepSendsAsTaken(c: Config, s: Session, t: Tick, name: string)
    requires c.commands == USER_COMMANDS && PollsOnly(c.poll) && name in USER_COMMANDS && SentAsTaken(s, name)
    ensures SentAsTaken(Receive(c, s, t).s, name)
  {
    hide Answer, PollsOnly;
    var r := Received(s, t);
    var b := StripZeros(r.buffer);
    assert SentAsTaken(r, name);
    if AtReply(r.lastSent, b) {
      AnswerSendsAsTaken(c, r, b[1..b[0] as int + 1], name);
    }
  }

  lemma StepTakesPending(c: Config)
    ensures forall s: Session, t: Tick ::
              TakesPending(s.command, s.taken, t, Step(c)(s, t).s.command, Step(c)(s, t).s.taken)
  {
    forall s: Session, t: Tick
      ensures TakesPending(s.command, s.taken, t, Step(c)(s, t).s.command, Step(c)(s, t).s.taken)
    {
      hide NextRequest, Frame, StripZeros, AtReply, Trim, Parsed;
      var r := Received(s, t);
    }
  }

  /** The frame of a user command goes out at most as often as the command was posted. */
  lemma EachPostSentAtMostOnce(c: Config, now: int, command: string, ticks: seq<Tick>, name: string)
    requires c.commands == USER_COMMANDS && PollsOnly(c.poll) && name in USER_COMMANDS
    ensures multiset(After(Step(c), Start(now, command), ticks).s.sent)[Frame(USER_COMMANDS[name])] <=
            multiset(Posts(ticks))[name] + if command == name then 1 else 0
  {
    var start := Start(now, command);
    TheCommands(name);
    assert SentAsTaken(start, name) && start.taken == [] && start.command == command;
    hide Receive, PollsOnly;
    forall s: Session, t: Tick | SentAsTaken(s, name) ensures SentAsTaken(Step(c)(s, t).s, name) {
      StepSendsAsTaken(c, s, t, name);
    }
    AfterKeeps(Step(c), (s: Session) => SentAsTaken(s, name), start, ticks);
    StepTakesPending(c);
    PostsTakenAtMostOnce(Step(c), (s: Session) => s.command, (s: Session) => s.taken, start, ticks, name);
  }

  /** Two names that stand for the same request, or both for none. */
  predicate SameUse(c: Config, a: string, b: string)
  {
    UserCommand(c.commands, a) == UserCommand(c.commands, b)
  }

  /** Two ticks that differ in the name posted at most, and those names do the same. */
  predicate AsGood(c: Config, t: Tick, u: Tick)
  {
    && u == t.(command := u.command) && t.command.Some? == u.command.Some?
    && (t.command.Some? ==> SameUse(c, t.command.value, u.command.value))
  }

  predicate Alike(c: Config, s: Session, r: Session)
  {
    r == s.(command := r.command, taken := r.taken) && SameUse(c, s.command, r.command)
  }

  lemma AnswerKeepsAlike(c: Config, s: Session, r: Session, payload: seq<byte>)
    requires Alike(c, s, r)
    ensures Alike(c, Answer(c, s, payload), Answer(c, r, payload))
  {
    hide Frame;
    var key := Parsed(s, payload).key;
    assert NextRequest(c, s.command, key, payload) == NextRequest(c, r.command, key, payload);
  }

  lemma StepKeepsAlike(c: Config, s: Session, r: Session, t: Tick, u: Tick)
    requires Alike(c, s, r) && AsGood(c, t, u)
    ensures var x, y := Receive(c, s, t), Receive(c, r, u);
            Alike(c, x.s, y.s) && x.Stopped? == y.Stopped? && (x.Stopped? ==> x.exit == y.exit)
  {
    hide Frame, StripZeros, Trim, Answer;
    var x, y := Received(s, t), Received(r, u);
    var b := StripZeros(x.buffer);
    if AtReply(x.lastSent, b) {
      AnswerKeepsAlike(c, x, y, b[1..b[0] as int + 1]);
    }
  }

  /** An unknown name is as good as the empty one: posting names that stand for the same requests
      gives the same frames sent, replies handled, key, buffer and end of the run. */
  lemma {:induction false} UnknownCommandChangesNothing(
    c: Config, s: Session, r: Session, ticks: seq<Tick>, others: seq<Tick>)
    requires Alike(c, s, r) && |ticks| == |others|
    requires forall i :: 0 <= i < |ticks| ==> AsGood(c, ticks[i], others[i])
    ensures var x, y := After(Step(c), s, ticks), After(Step(c), r, others);
            Alike(c, x.s, y.s) && x.Stopped? == y.Stopped? && (x.Stopped? ==> x.exit == y.exit)
    decreases |ticks|
  {
    hide Receive, Alike, AsGood;
    if ticks != [] {
      StepKeepsAlike(c, s, r, ticks[0], others[0]);
      if Receive(c, s, ticks[0]).Running? {
        UnknownCommandChangesNothing(c, Receive(c, s, ticks[0]).s, Receive(c, r, others[0]).s, ticks[1..], others[1..]);
      }
    }
  }

  // ---------------------------------------------------------------- against an ECU

  function Service(lastSent: seq<byte>): byte
  {
    if |lastSent| < 2 then 0x81 else lastSent[1]
  }

  /** A positive or negative answer to a request of this service. */
  predicate ValidReply(service: byte, reply: seq<byte>)
  {
    1 <= |reply| <= 255 && (reply[0] as int == service as int + 0x40 || reply[0] == 0x7F)
  }

  /** How the ECU and the line answer one request: padding, the echo or not, more padding, and the
      reply with a checksum byte, which the loop does not look at. */
  datatype Response = Response(pad: nat, echo: bool, gap: nat, reply: seq<byte>, check: byte)

  function ReplyFrame(r: Response): seq<byte>
    requires |r.reply| <= 255
  {
    [|r.reply|] + r.reply + [r.check]
  }

  /** What the echo of the last transmission looks like: the init command's, before the first request. */
  function EchoOf(lastSent: seq<byte>): seq<byte>
  {
    if lastSent == [] then INIT else lastSent
  }

  /** The echo, the padding after it, and the reply. */
  function EchoAndReply(lastSent: seq<byte>, r: Response): seq<byte>
    requires |r.reply| <= 255
  {
    EchoOf(lastSent) + (Zeros(r.gap) + ReplyFrame(r))
  }

  function OnWire(lastSent: seq<byte>, r: Response): seq<byte>
    requires |r.reply| <= 255
  {
    Zeros(r.pad) + if r.echo then EchoAndReply(lastSent, r) else ReplyFrame(r)
  }

  /** The last transmission is the init command or the frame of a request the loop may send. */
  predicate GoodFrame(frame: seq<byte>)
  {
    frame == [] || (|frame| >= 2 && GoodRequest(frame[1..|frame| - 1]) && frame == Frame(frame[1..|frame| - 1]))
  }

  /** The requests a session sends: a function of the replies and the commands pending at each. */
  function Requests(c: Config, replies: seq<seq<byte>>, taken: seq<string>): (r: seq<seq<byte>>)
    requires |replies| == |taken|
    ensures |r| == |replies|
  {
    if replies == [] then []
    else
      var n := |replies| - 1;
      Requests(c, replies[..n], taken[..n]) + [Frame(NextRequest(c, taken[n], KeyAfter(replies), replies[n]))]
  }

  /** The loop, the bytes not read, the responses given and whether the loop has ended. */
  datatype World = World(s: Session, wire: seq<byte>, given: seq<Response>, over: bool)

  datatype Move = Move(tick: Tick, response: Response)

  function Replies(given: seq<Response>): (r: seq<seq<byte>>)
    ensures |r| == |given| && forall i :: 0 <= i < |given| ==> r[i] == given[i].reply
  {
    seq(|given|, i requires 0 <= i < |given| => given[i].reply)
  }

  function TickOf(m: Move): Tick { m.tick }

  function TicksOf(moves: seq<Move>): seq<Tick> { Ticks(TickOf, moves) }

  predicate Possible(c: Config, w: World, m: Move)
  {
    var st := Receive(c, w.s, m.tick);
    !w.over ==>
      && m.tick.data <= w.wire && (st.Stopped? ==> m.tick.data == [])
      && (|st.s.sent| > |w.s.sent| ==> ValidReply(Service(st.s.lastSent), m.response.reply))
  }

  function Settle(w: World, st: Status<Session>, r: Response): World
    requires |st.s.sent| > |w.s.sent| ==> |r.reply| <= 255
  {
    if |st.s.sent| > |w.s.sent| then World(st.s, w.wire + OnWire(st.s.lastSent, r), w.given + [r], false)
    else World(st.s, w.wire, w.given, st.Stopped?)
  }

  function Next(c: Config, w: World, m: Move): World
  {
    if w.over || !Possible(c, w, m) then w
    else Settle(w.(wire := w.wire[|m.tick.data|..]), Receive(c, w.s, m.tick), m.response)
  }

  /** After the wake-up the init command is on the line. */
  function Begin(now: int, command: string, r: Response): World
    requires |r.reply| <= 255
  {
    World(Start(now, command), OnWire([], r), [r], false)
  }

  function NextIn(c: Config): (World, Move) -> World { (w: World, m: Move) => Next(c, w, m) }

  function PossibleIn(c: Config): (World, Move) -> bool { (w: World, m: Move) => Possible(c, w, m) }

  /** The moves are ones the environment can make, and the world they lead to. */
  predicate CanPlay(c: Config, now: int, command: string, first: Response, moves: seq<Move>)
  {
    |first.reply| <= 255 && AllPossible(NextIn(c), PossibleIn(c), Begin(now, command, first), moves)
  }

  function Played(c: Config, now: int, command: string, first: Response, moves: seq<Move>): World
    requires |first.reply| <= 255
  {
    Play(NextIn(c), Begin(now, command, first), moves)
  }

  /** What is left of the outstanding response, padding aside: the reply, or the echo before it. */
  predicate Outstanding(lastSent: seq<byte>, r: Response, left: seq<byte>)
    requires |r.reply| <= 255
  {
    StripZeros(left) == ReplyFrame(r) || StripZeros(left) == EchoAndReply(lastSent, r)
  }

  /** The requests are the automaton's, the key is the one for the last seed, and the last frame
      sent is remembered. */
  predicate FollowsAutomaton(c: Config, s: Session)
  {
    && |s.sent| == |s.handled| == |s.taken|
    && s.sent == Requests(c, s.handled, s.taken) && s.key == KeyAfter(s.handled)
    && s.lastSent == (if s.sent == [] then [] else s.sent[|s.sent| - 1]) && GoodFrame(s.lastSent)
  }

  /** Every response but the last was handled, its payload whole and once; the last one answers
      the last request, and the buffer followed by the unread wire is what is left of it. */
  predicate Synced(w: World)
  {
    && |w.given| == |w.s.sent| + 1 && w.s.handled == Replies(w.given)[..|w.s.sent|]
    && ValidReply(Service(w.s.lastSent), w.given[|w.s.sent|].reply)
    && Outstanding(w.s.lastSent, w.given[|w.s.sent|], w.s.buffer + w.wire)
  }

  predicate InStep(c: Config, w: World)
  {
    FollowsAutomaton(c, w.s) && Synced(w)
  }

  lemma StripNonempty(a: seq<byte>, b: seq<byte>)
    requires StripZeros(a) != []
    ensures StripZeros(a + b) == StripZeros(a) + b
  {
    StripZerosAppend(a, b);
  }

  lemma OnWireIsOutstanding(lastSent: seq<byte>, r: Response)
    requires 1 <= |r.reply| <= 255 && GoodFrame(lastSent)
    ensures Outstanding(lastSent, r, OnWire(lastSent, r))
  {
    var body := if r.echo then EchoAndReply(lastSent, r) else ReplyFrame(r);
    assert body[0] != 0;
    StripZerosPadding(r.pad, body);
  }

  /** A part of the reply waits; the whole reply is never taken for an echo or for the init echo. */
  lemma OnReply(lastSent: seq<byte>, r: Response, b: seq<byte>)
    requires GoodFrame(lastSent) && ValidReply(Service(lastSent), r.reply) && b != [] && b <= ReplyFrame(r)
    ensures AtReply(lastSent, b) <==> b == ReplyFrame(r)
    ensures b == ReplyFrame(r) ==> b[1..b[0] as int + 1] == r.reply
    ensures b != ReplyFrame(r) ==> Trim(lastSent, b) == b
  {
    var f := ReplyFrame(r);
    assert b == f[..|b|];
    assert f[1] == r.reply[0] != 0x13;
    if |b| >= 5 {
      assert b[..5][1] != INIT[1];
    }
    if |lastSent| >= 2 && |b| >= |lastSent| {
      assert b[..|lastSent|][1] == f[1] != lastSent[1];
    }
  }

  /** A part of the echo waits; the whole echo is dropped and nothing with it. */
  lemma OnEcho(lastSent: seq<byte>, rest: seq<byte>, b: seq<byte>)
    requires GoodFrame(lastSent) && b != [] && b <= EchoOf(lastSent) + rest
    ensures !AtReply(lastSent, b)
    ensures Trim(lastSent, b) == if |b| < |EchoOf(lastSent)| then b else b[|EchoOf(lastSent)|..]
  {
    var e := EchoOf(lastSent);
    assert b == (e + rest)[..|b|];
    if |b| >= |e| {
      assert b[..|e|] == e;
    }
    if lastSent != [] && |b| >= 5 {
      assert b[..5][0] != INIT[0];
    }
  }

  lemma NextIsGood(c: Config, command: string, key: nat, payload: seq<byte>)
    requires GoodConfig(c)
    ensures var req := NextRequest(c, command, key, payload); GoodRequest(req) && GoodFrame(Frame(req))
  {
    var req := NextRequest(c, command, key, payload);
    assert Frame(req)[1..|Frame(req)| - 1] == req;
  }

  lemma PartOfReply(last: seq<byte>, r: Response, b: seq<byte>, wire: seq<byte>)
    requires GoodFrame(last) && ValidReply(Service(last), r.reply) && b != [] && b + wire == ReplyFrame(r)
    ensures if AtReply(last, b) then wire == [] && b[1..b[0] as int + 1] == r.reply else Trim(last, b) == b
  {
    assert (b + wire)[..|b|] == b;
    OnReply(last, r, b);
    assert |b| == |ReplyFrame(r)| ==> wire == [];
  }

  lemma PartOfEcho(last: seq<byte>, e: seq<byte>, rest: seq<byte>, b: seq<byte>, wire: seq<byte>)
    requires GoodFrame(last) && e == EchoOf(last) && b != [] && b + wire == e + rest
    ensures !AtReply(last, b) && Trim(last, b) + wire == if |b| < |e| then e + rest else rest
  {
    assert (b + wire)[..|b|] == b;
    OnEcho(last, rest, b);
    assert (b + wire)[|e|..] == rest;
    if |b| >= |e| {
      assert b[|e|..] + wire == (b + wire)[|e|..];
    }
  }

  /** The buffer holds part of what is outstanding and the wire the rest: a pass finds exactly the
      reply, or leaves something still outstanding. */
  lemma OnOutstanding(last: seq<byte>, r: Response, buffer: seq<byte>, wire: seq<byte>)
    requires GoodFrame(last) && ValidReply(Service(last), r.reply) && Outstanding(last, r, buffer + wire)
    ensures var b := StripZeros(buffer);
            if AtReply(last, b) then wire == [] && b[1..b[0] as int + 1] == r.reply
            else Outstanding(last, r, Trim(last, b) + wire)
  {
    var b := StripZeros(buffer);
    if b == [] {
      StripZerosAppend(buffer, wire);
      assert b + wire == wire;
    } else {
      StripNonempty(buffer, wire);
      StripAgain(b, wire);
      if b + wire == ReplyFrame(r) {
        PartOfReply(last, r, b, wire);
      } else {
        EchoLeavesReply(last, r, b, wire);
      }
    }
  }

  lemma PaddedReply(r: Response)
    requires 1 <= |r.reply| <= 255
    ensures StripZeros(Zeros(r.gap) + ReplyFrame(r)) == ReplyFrame(r)
  {
    StripZerosPadding(r.gap, ReplyFrame(r));
  }

  lemma EchoLeavesReply(last: seq<byte>, r: Response, b: seq<byte>, wire: seq<byte>)
    requires GoodFrame(last) && ValidReply(Service(last), r.reply)
    requires b != [] && b[0] != 0 && b + wire == EchoAndReply(last, r)
    ensures !AtReply(last, b) && Outstanding(last, r, Trim(last, b) + wire)
  {
    var rest := Zeros(r.gap) + ReplyFrame(r);
    PartOfEcho(last, EchoOf(last), rest, b, wire);
    if |b| < |EchoOf(last)| {
      StripAgain(b, wire);
    } else {
      PaddedReply(r);
    }
  }

  /** Padding stripped once stays stripped. */
  lemma StripAgain(b: seq<byte>, rest: seq<byte>)
    requires b != [] && b[0] != 0
    ensures StripZeros(b + rest) == b + rest
  {
  }

  lemma AnswerKeepsAutomaton(c: Config, s: Session, payload: seq<byte>)
    requires FollowsAutomaton(c, s) && GoodConfig(c)
    ensures FollowsAutomaton(c, Answer(c, s, payload))
  {
    hide NextRequest, Frame, GoodFrame, GoodConfig;
    var s', n := Answer(c, s, payload), |s.handled|;
    assert s'.handled[..n] == s.handled && s'.taken[..n] == s.taken;
    assert s'.key == KeyAfter(s'.handled);
    NextIsGood(c, s.command, s'.key, payload);
  }

  lemma AnswerKeepsSynced(c: Config, w: World, s': Session, r: Response)
    requires Synced(w) && w.wire == [] && GoodFrame(s'.lastSent) && s'.buffer == []
    requires |s'.sent| == |w.s.sent| + 1 && s'.handled == w.s.handled + [w.given[|w.s.sent|].reply]
    requires ValidReply(Service(s'.lastSent), r.reply)
    ensures Synced(Settle(w, Running(s'), r))
  {
    OnWireIsOutstanding(s'.lastSent, r);
    assert s'.buffer + (w.wire + OnWire(s'.lastSent, r)) == OnWire(s'.lastSent, r);
    assert s'.handled == Replies(w.given + [r])[..|s'.sent|];
  }

  lemma TrimKeepsSynced(w: World, buffer: seq<byte>, r: Response)
    requires Synced(w) && !w.over && Outstanding(w.s.lastSent, w.given[|w.s.sent|], buffer + w.wire)
    ensures Synced(Settle(w, Running(w.s.(buffer := buffer)), r))
  {
  }

  lemma ActKeepsInStep(c: Config, w: World, r: Response)
    requires InStep(c, w) && GoodConfig(c) && !w.over
    requires |Act(c, w.s).sent| > |w.s.sent| ==> ValidReply(Service(Act(c, w.s).lastSent), r.reply)
    ensures InStep(c, Settle(w, Running(Act(c, w.s)), r))
  {
    var b, payload := StripZeros(w.s.buffer), w.given[|w.s.sent|].reply;
    OnOutstanding(w.s.lastSent, w.given[|w.s.sent|], w.s.buffer, w.wire);
    if AtReply(w.s.lastSent, b) {
      var s' := Answer(c, w.s, payload);
      assert Act(c, w.s) == s';
      AnswerKeepsAutomaton(c, w.s, payload);
      AnswerKeepsSynced(c, w, s', r);
    } else {
      assert Act(c, w.s) == w.s.(buffer := Trim(w.s.lastSent, b));
      TrimKeepsSynced(w, Trim(w.s.lastSent, b), r);
    }
  }

  lemma ReadKeepsSynced(w: World, t: Tick)
    requires Synced(w) && t.data <= w.wire
    ensures Synced(World(Received(w.s, t), w.wire[|t.data|..], w.given, false))
  {
    assert w.s.buffer + t.data + w.wire[|t.data|..] == w.s.buffer + w.wire;
  }

  lemma StepKeepsInStep(c: Config, w: World, m: Move)
    requires InStep(c, w) && GoodConfig(c) && Possible(c, w, m)
    ensures InStep(c, Next(c, w, m))
  {
    hide NextRequest, Frame, Requests, KeyAfter, StripZeros, AtReply, Trim, GoodFrame, GoodConfig, Outstanding;
    if !w.over {
      var read := World(Received(w.s, m.tick), w.wire[|m.tick.data|..], w.given, false);
      if m.tick.now - w.s.lastData >= IDLE_TIMEOUT || m.tick.cancelled {
        assert w.wire[0..] == w.wire;
      } else {
        ReadKeepsSynced(w, m.tick);
        assert FollowsAutomaton(c, read.s);
        ActKeepsInStep(c, read, m.response);
      }
    }
  }

  /** The refinement theorem: against an ECU that answers each request once, and for every cut of
      the stream into reads, any padding and any choice of echoing, exactly one reply payload is
      consumed for each request, none is mistaken for an echo, and the requests sent are the
      automaton's. */
  lemma LoopRefinesAutomaton(c: Config, now: int, command: string, first: Response, moves: seq<Move>)
    requires GoodConfig(c) && ValidReply(0x81, first.reply) && CanPlay(c, now, command, first, moves)
    ensures var w := Played(c, now, command, first, moves);
            var st := After(Step(c), Start(now, command), TicksOf(moves));
            InStep(c, w) && st.s == w.s && st.Stopped? == w.over
  {
    var next, possible := NextIn(c), PossibleIn(c);
    var begin := Begin(now, command, first);
    BeginsInStep(c, now, command, first);
    forall w, m | InStep(c, w) && possible(w, m) ensures InStep(c, next(w, m)) {
      StepKeepsInStep(c, w, m);
    }
    PlayKeeps(next, possible, (w: World) => InStep(c, w), begin, moves);
    forall w: World, m: Move | !w.over && possible(w, m)
      ensures next(w, m).s == Step(c)(w.s, m.tick).s && next(w, m).over == Step(c)(w.s, m.tick).Stopped?
    {
      NextIsStep(c, w, m);
    }
    PlayIsAfter(Step(c), TickOf, next, possible, (w: World) => w.s, (w: World) => w.over, begin, moves);
  }

  lemma BeginsInStep(c: Config, now: int, command: string, first: Response)
    requires ValidReply(0x81, first.reply)
    ensures InStep(c, Begin(now, command, first))
  {
    var w := Begin(now, command, first);
    OnWireIsOutstanding([], first);
    assert w.s.buffer + w.wire == OnWire([], first);
    assert Synced(w);
    assert FollowsAutomaton(c, w.s);
  }

  lemma NextIsStep(c: Config, w: World, m: Move)
    requires !w.over && Possible(c, w, m)
    ensures Next(c, w, m).s == Receive(c, w.s, m.tick).s
    ensures Next(c, w, m).over == Receive(c, w.s, m.tick).Stopped?
  {
  }

  lemma AllArrived(last: seq<byte>, r: Response, buffer: seq<byte>)
    requires GoodFrame(last) && ValidReply(Service(last), r.reply) && Outstanding(last, r, buffer)
    ensures var b := StripZeros(buffer);
            AtReply(last, b) || AtReply(last, StripZeros(Trim(last, b)))
  {
    var b, f := StripZeros(buffer), ReplyFrame(r);
    if b == f {
      OnReply(last, r, b);
    } else {
      assert b + [] == b;
      PartOfEcho(last, EchoOf(last), Zeros(r.gap) + f, b, []);
      assert Trim(last, b) + [] == Trim(last, b);
      PaddedReply(r);
      OnReply(last, r, f);
    }
  }

  /** A pass that is not the last sends one frame if it has a reply, and none otherwise. */
  lemma PassSends(c: Config, s: Session, t: Tick)
    requires t.now - s.lastData < IDLE_TIMEOUT && !t.cancelled
    ensures var b, st := StripZeros(s.buffer + t.data), Receive(c, s, t);
            && st.Running?
            && |st.s.sent| == |s.sent| + (if AtReply(s.lastSent, b) then 1 else 0)
            && (!AtReply(s.lastSent, b) ==> st.s == Received(s, t).(buffer := Trim(s.lastSent, b)))
  {
    var b, r := StripZeros(s.buffer + t.data), Received(s, t);
    assert Receive(c, s, t) == Running(Act(c, r));
    if AtReply(s.lastSent, b) {
      assert Act(c, r) == Answer(c, r, b[1..b[0] as int + 1]);
    } else {
      assert Act(c, r) == r.(buffer := Trim(s.lastSent, b));
    }
  }

  /** Nothing is left waiting: once the whole outstanding response has arrived, this pass or the
      next one answers it, even if no further byte comes. */
  lemma ResponseIsAnswered(c: Config, w: World, t: Tick, later: Tick)
    requires InStep(c, w) && t.data == w.wire && later.data == []
    requires t.now - w.s.lastData < IDLE_TIMEOUT && !t.cancelled
    requires later.now - Received(w.s, t).lastData < IDLE_TIMEOUT && !later.cancelled
    ensures var s := Receive(c, w.s, t).s;
            |s.sent| == |w.s.sent| + 1 || |Receive(c, s, later).s.sent| == |w.s.sent| + 1
  {
    AllArrived(w.s.lastSent, w.given[|w.s.sent|], w.s.buffer + t.data);
    PassSends(c, w.s, t);
    var s := Receive(c, w.s, t).s;
    if |s.sent| == |w.s.sent| {
      PassSends(c, s, later);
      assert s.buffer + later.data == s.buffer;
    }
  }

  // ---------------------------------------------------------------- what is sent

  /** Each request follows from the reply, the command pending and the seed so far. */
  lemma {:induction false} RequestAt(c: Config, replies: seq<seq<byte>>, taken: seq<string>, i: nat)
    requires |replies| == |taken| && i < |replies|
    ensures Requests(c, replies, taken)[i] ==
            Frame(NextRequest(c, taken[i], KeyAfter(replies[..i + 1]), replies[i]))
  {
    hide NextRequest, Frame, KeyAfter;
    var n := |replies| - 1;
    if i < n {
      RequestAt(c, replies[..n], taken[..n], i);
      assert replies[..n][..i + 1] == replies[..i + 1];
    } else {
      assert replies[..i + 1] == replies;
    }
  }

  /** The request a frame carries. */
  function Body(frame: seq<byte>): seq<byte>
  {
    if |frame| < 2 then [] else frame[1..|frame| - 1]
  }

  /** No known command was pending at reply i. */
  predicate Unasked(c: Config, s: Session, i: nat)
    requires i < |s.taken|
  {
    UserCommand(c.commands, s.taken[i]).None?
  }

  /** Reply i grants the request sent before it, and no known command was pending. */
  predicate Granted(c: Config, s: Session, i: nat)
    requires 0 < i < |s.handled| == |s.taken| == |s.sent|
  {
    Unasked(c, s, i) && Grants(Body(s.sent[i - 1]), s.handled[i])
  }

  lemma SentWhenUnasked(c: Config, s: Session, i: nat)
    requires FollowsAutomaton(c, s) && i < |s.sent| && Unasked(c, s, i)
    ensures s.sent[i] == Frame(NextRequest(c, "", KeyAfter(s.handled[..i + 1]), s.handled[i]))
  {
    hide Frame, KeyAfter, Requests;
    RequestAt(c, s.handled, s.taken, i);
  }

  /** Once at some place of the cycle, k granted requests lead k places on, for every k: every entry
      is visited once, in order, before the next ping. */
  lemma {:induction false} CycleGoesOn(
    c: Config, order: seq<seq<byte>>, s: Session, n: nat, place: nat, k: nat)
    requires Polls(c, order) && FollowsAutomaton(c, s) && n + k < |s.sent|
    requires s.sent[n] == Frame(CycleAt(order, place))
    requires forall i :: n < i <= n + k ==> Granted(c, s, i)
    ensures s.sent[n + k] == Frame(CycleAt(order, place + k))
  {
    hide GoodFrame, Requests, KeyAfter, NextRequest, Grants, CycleAt, PollOrder, PollTable, UserCommand;
    if k > 0 {
      CycleGoesOn(c, order, s, n, place, k - 1);
      assert Granted(c, s, n + k);
      assert Body(Frame(CycleAt(order, place + k - 1))) == CycleAt(order, place + k - 1);
      SentWhenUnasked(c, s, n + k);
      PollStep(c, order, place + k - 1, KeyAfter(s.handled[..n + k + 1]), s.handled[n + k]);
    }
  }

  lemma NextAfterPong(c: Config, key: nat)
    ensures NextRequest(c, "", key, PONG) == REQUEST_FAULTS
  {
  }

  /** The poll cycle: after a pong, k granted requests lead to entry k + 1 of the cycle. */
  lemma PollCycle(c: Config, order: seq<seq<byte>>, s: Session, n: nat, k: nat)
    requires Polls(c, order) && FollowsAutomaton(c, s) && n + k < |s.sent|
    requires s.handled[n] == [0x7E] && Unasked(c, s, n)
    requires forall i :: n < i <= n + k ==> Granted(c, s, i)
    ensures s.sent[n + k] == Frame(CycleAt(order, k + 1))
  {
    hide GoodFrame, Requests, KeyAfter, Grants, PollTable, NextRequest, CycleAt, Frame, UserCommand;
    SentWhenUnasked(c, s, n);
    NextAfterPong(c, KeyAfter(s.handled[..n + 1]));
    FirstPlaces(order);
    CycleGoesOn(c, order, s, n, 1, k);
  }

  /** The place polling goes on from after a user command: that of the fault list when the reply
      says faults were cleared, that of the first data request when it says the immobiliser learns,
      and the ping for every other reply. */
  function ResumesAt(reply: seq<byte>): nat
  {
    if reply == [0x71, 0xCB] then 1 else if reply == [0x71, 0xD0] then 2 else 0
  }

  /** The reply to a user command: granted, or refused in a way that is not about a ping. */
  predicate AnswersCommand(request: seq<byte>, reply: seq<byte>)
    requires request != []
  {
    reply != [] && (reply[0] as int == request[0] as int + 0x40 || (reply[0] == 0x7F && reply != [0x7F, 0x3E, 0x10]))
  }

  lemma NextAfterCommand(c: Config, key: nat, name: string, reply: seq<byte>)
    requires name in USER_COMMANDS && USER_COMMANDS[name] != [] && AnswersCommand(USER_COMMANDS[name], reply)
    ensures NextRequest(c, "", key, reply) ==
            if reply == FAULTS_CLEARED then REQUEST_FAULTS else if reply == IMMO_LEARNT then REQUEST_DATA00 else PING
  {
    TheCommands(name);
    assert reply[0] in {0x71, 0x63, 0x53, 0x73, 0x7F};
    if |reply| >= 2 {
      assert reply[..2][0] != SEED[0];
    }
  }

  /** A user command pre-empts the request due: its frame goes out instead, and after its reply
      polling starts over at one of three places and stays on the cycle from there. */
  lemma CommandPreempts(c: Config, order: seq<seq<byte>>, s: Session, j: nat, k: nat)
    requires c.commands == USER_COMMANDS && Polls(c, order) && |order| > 1 && order[1] == REQUEST_DATA00
    requires FollowsAutomaton(c, s) && j + 1 + k < |s.sent|
    requires s.taken[j] in USER_COMMANDS && s.taken[j] != "" && Unasked(c, s, j + 1)
    requires USER_COMMANDS[s.taken[j]] != [] && AnswersCommand(USER_COMMANDS[s.taken[j]], s.handled[j + 1])
    requires forall i :: j + 1 < i <= j + 1 + k ==> Granted(c, s, i)
    ensures s.sent[j] == Frame(USER_COMMANDS[s.taken[j]])
    ensures s.sent[j + 1 + k] == Frame(CycleAt(order, ResumesAt(s.handled[j + 1]) + k))
  {
    hide GoodFrame, Requests, KeyAfter, Grants, AnswersCommand, PollTable, NextRequest, CycleAt;
    FirstPlaces(order);
    SentWhenAsked(c, s, j);
    SentWhenUnasked(c, s, j + 1);
    NextAfterCommand(c, KeyAfter(s.handled[..j + 2]), s.taken[j], s.handled[j + 1]);
    CycleGoesOn(c, order, s, j + 1, ResumesAt(s.handled[j + 1]), k);
  }

  /** The first three places of the cycle. */
  lemma FirstPlaces(order: seq<seq<byte>>)
    requires PollOrder(order)
    ensures CycleAt(order, 0) == PING && CycleAt(order, 1) == REQUEST_FAULTS
    ensures |order| > 1 ==> CycleAt(order, 2) == order[1]
  {
  }

  lemma SentWhenAsked(c: Config, s: Session, j: nat)
    requires FollowsAutomaton(c, s) && j < |s.sent| && !Unasked(c, s, j)
    ensures s.sent[j] == Frame(c.commands[s.taken[j]])
  {
    RequestAt(c, s.handled, s.taken, j);
  }

  /** So the rest of the interrupted cycle is lost: the request the command displaced, at place p,
      goes out right after the command exactly when it is the one polling starts over from. */
  lemma CommandAbandonsTheCycle(c: Config, order: seq<seq<byte>>, s: Session, j: nat, p: nat)
    requires c.commands == USER_COMMANDS && Polls(c, order) && |order| > 1 && order[1] == REQUEST_DATA00
    requires FollowsAutomaton(c, s) && j + 1 < |s.sent|
    requires s.taken[j] in USER_COMMANDS && s.taken[j] != "" && Unasked(c, s, j + 1)
    requires USER_COMMANDS[s.taken[j]] != [] && AnswersCommand(USER_COMMANDS[s.taken[j]], s.handled[j + 1])
    ensures s.sent[j + 1] == Frame(CycleAt(order, p)) <==> p % (|order| + 1) == ResumesAt(s.handled[j + 1])
  {
    hide GoodFrame, Requests, KeyAfter, AnswersCommand, PollTable, NextRequest, CycleAt, Frame;
    var r := ResumesAt(s.handled[j + 1]);
    CommandPreempts(c, order, s, j, 0);
    FramesDiffer(CycleAt(order, r), CycleAt(order, p));
    CycleVisitsOnce(order, r, p);
    SmallRemainder(r, |order| + 1);
  }

  /** The replies to the wake-up and to the three requests that open a session. */
  predicate Opens(i: nat, reply: seq<byte>)
  {
    if i == 0 then reply == [0xC1, 0xD5, 0x8F] else if i == 1 then reply == [0x50]
    else if i == 2 then SeedReply(reply) else reply == [0x67, 0x02]
  }

  /** What an undisturbed session sends: the diagnostic session, the seed request, the key for that
      seed, and then the poll cycle from its ping on. */
  function Script(order: seq<seq<byte>>, replies: seq<seq<byte>>, i: nat): seq<byte>
    requires i >= 2 ==> |replies| > 2 && SeedReply(replies[2])
  {
    if i == 0 then [0x10, 0xA0] else if i == 1 then [0x27, 0x01]
    else if i == 2 then [0x27, 0x02] + PutUint16(KeyFor(SeedOf(replies[2])))
    else CycleAt(order, i - 3)
  }

  /** The first four replies open the session, every later one grants the request before it, and
      no known command was pending at any. */
  predicate Undisturbed(c: Config, s: Session)
    requires |s.handled| == |s.taken| == |s.sent|
  {
    forall i :: 0 <= i < |s.handled| ==>
      if i < 4 then Opens(i, s.handled[i]) && Unasked(c, s, i) else Granted(c, s, i)
  }

  lemma OpeningRequest(c: Config, replies: seq<seq<byte>>, i: nat)
    requires i < 4 && i < |replies| && Opens(i, replies[i])
    ensures NextRequest(c, "", KeyAfter(replies[..i + 1]), replies[i]) ==
            if i == 0 then START_DIAGNOSTIC else if i == 1 then REQUEST_SEED
            else if i == 2 then SEND_KEY + PutUint16(KeyFor(SeedOf(replies[2]))) else PING
  {
    if i == 2 {
      assert replies[..3][2] == replies[2];
      assert replies[2][0] == SEED[0] && replies[2][1] == SEED[1];
    } else if i == 3 {
      assert KEY_ACCEPTED[1] != SEED[1];
    }
  }

  lemma SentFollowsScript(c: Config, order: seq<seq<byte>>, s: Session, i: nat)
    requires Polls(c, order) && FollowsAutomaton(c, s) && i < |s.sent|
    requires Undisturbed(c, s)
    ensures i >= 2 ==> |s.handled| > 2 && SeedReply(s.handled[2])
    ensures s.sent[i] == Frame(Script(order, s.handled, i))
  {
    hide GoodFrame, Requests, KeyAfter, NextRequest, Grants, PollOrder, PollTable, CycleAt;
    var first := if i < 3 then i else 3;
    SentWhenUnasked(c, s, first);
    OpeningRequest(c, s.handled, first);
    assert i >= 2 ==> Opens(2, s.handled[2]);
    FirstPlaces(order);
    if i > 3 {
      CycleGoesOn(c, order, s, 3, 0, i - 3);
    }
  }

  /** The first four replies open the session and every later one grants the request before it. */
  predicate AllGranted(s: Session)
  {
    |s.handled| == |s.sent| &&
    forall i :: 0 <= i < |s.handled| ==>
      if i < 4 then Opens(i, s.handled[i]) else Grants(Body(s.sent[i - 1]), s.handled[i])
  }

  predicate SendsScript(order: seq<seq<byte>>, s: Session)
  {
    && (|s.sent| > 2 ==> |s.handled| > 2 && SeedReply(s.handled[2]))
    && forall i :: 0 <= i < |s.sent| ==> s.sent[i] == Frame(Script(order, s.handled, i))
  }

  /** No known command is pending at the start or posted. */
  predicate NeverAsked(c: Config, command: string, moves: seq<Move>)
  {
    && UserCommand(c.commands, command).None?
    && forall i :: 0 <= i < |moves| && moves[i].tick.command.Some? ==>
         UserCommand(c.commands, moves[i].tick.command.value).None?
  }

  /** The session trace: with no known command and granted replies the frames sent are that script,
      for any number of replies and every cut into reads, padding and choice of echoing. */
  lemma SessionTrace(
    c: Config, order: seq<seq<byte>>, now: int, command: string, first: Response, moves: seq<Move>)
    requires Polls(c, order) && GoodConfig(c) && ValidReply(0x81, first.reply)
    requires CanPlay(c, now, command, first, moves) && NeverAsked(c, command, moves)
    requires AllGranted(Played(c, now, command, first, moves).s)
    ensures Synced(Played(c, now, command, first, moves))
    ensures SendsScript(order, Played(c, now, command, first, moves).s)
  {
    LoopRefinesAutomaton(c, now, command, first, moves);
    NothingAsked(c, now, command, TicksOf(moves));
    hide Played;
    ScriptSent(c, order, Played(c, now, command, first, moves).s);
  }

  lemma ScriptSent(c: Config, order: seq<seq<byte>>, s: Session)
    requires Polls(c, order) && FollowsAutomaton(c, s) && AllGranted(s)
    requires forall name :: name in s.taken ==> UserCommand(c.commands, name).None?
    ensures SendsScript(order, s)
  {
    hide Polls, Grants, Opens, GoodFrame, Requests, KeyAfter, Script, Frame;
    assert Undisturbed(c, s);
    if |s.sent| > 2 {
      SentFollowsScript(c, order, s, 2);
    }
    forall i | 0 <= i < |s.sent| ensures s.sent[i] == Frame(Script(order, s.handled, i)) {
      SentFollowsScript(c, order, s, i);
    }
  }

  function PendingOf(s: Session): string { s.command }

  function TakenOf(s: Session): seq<string> { s.taken }

  function Known(c: Config): string -> bool { (name: string) => UserCommand(c.commands, name).Some? }

  lemma NothingAsked(c: Config, now: int, command: string, ticks: seq<Tick>)
    requires UserCommand(c.commands, command).None?
    requires forall i :: 0 <= i < |ticks| && ticks[i].command.Some? ==>
               UserCommand(c.commands, ticks[i].command.value).None?
    ensures var s := After(Step(c), Start(now, command), ticks).s;
            forall name :: name in s.taken ==> UserCommand(c.commands, name).None?
  {
    var start := Start(now, command);
    assert TakenOf(start) == [] && PendingOf(start) == command && !Known(c)("") && !Known(c)(command);
    assert forall i :: 0 <= i < |ticks| && ticks[i].command.Some? ==> !Known(c)(ticks[i].command.value);
    var s := After(Step(c), start, ticks).s;
    assert forall name :: name in s.taken ==> !Known(c)(name) by {
      StepTakesPending(c);
      hide Known, Receive, After, Start;
      OnlyPostsAreTaken(Step(c), PendingOf, TakenOf, start, ticks, Known(c));
    }
  }

  // ---------------------------------------------------------------- security access over whole sessions

  lemma StepKeepsAutomaton(c: Config, s: Session, t: Tick)
    requires FollowsAutomaton(c, s) && GoodConfig(c)
    ensures FollowsAutomaton(c, Receive(c, s, t).s)
  {
    hide NextRequest, Frame, Requests, KeyAfter, GoodFrame, GoodConfig, Parsed, Answer;
    var r := Received(s, t);
    var b := StripZeros(r.buffer);
    assert FollowsAutomaton(c, r);
    if AtReply(r.lastSent, b) {
      AnswerKeepsAutomaton(c, r, b[1..b[0] as int + 1]);
    }
  }

  /** On any bytes at all, what is sent follows from what was taken for replies and the commands then
      pending: all that is said above of sessions that follow the automaton holds in every reachable
      state. */
  lemma AnyBytesFollowAutomaton(c: Config, now: int, command: string, ticks: seq<Tick>)
    requires GoodConfig(c)
    ensures FollowsAutomaton(c, After(Step(c), Start(now, command), ticks).s)
  {
    assert FollowsAutomaton(c, Start(now, command));
    hide Receive, FollowsAutomaton, GoodConfig;
    forall s, t | FollowsAutomaton(c, s) ensures FollowsAutomaton(c, Step(c)(s, t).s) {
      StepKeepsAutomaton(c, s, t);
    }
    AfterKeeps(Step(c), (s: Session) => FollowsAutomaton(c, s), Start(now, command), ticks);
  }

  predicate HeadedBy(b: seq<byte>, head: seq<byte>)
  {
    |b| >= |head| && b[..|head|] == head
  }

  lemma OnlySeedDrawsKey(c: Config, key: nat, payload: seq<byte>)
    requires PollsOnly(c.poll)
    ensures HeadedBy(NextRequest(c, "", key, payload), SEND_KEY) <==> HeadedBy(payload, SEED)
    ensures HeadedBy(payload, SEED) ==> NextRequest(c, "", key, payload) == SEND_KEY + PutUint16(key)
  {
    var next := NextRequest(c, "", key, payload);
    if HeadedBy(payload, SEED) {
      assert payload[0] == SEED[0] && payload[1] == SEED[1];
      assert KEY_ACCEPTED[1] != SEED[1];
    } else {
      assert next[0] != 0x27 || next == REQUEST_SEED;
      assert REQUEST_SEED[1] != SEND_KEY[1];
      assert |next| >= 2 ==> next[..2][0] == next[0] && next[..2][1] == next[1];
    }
  }

  /** Among requests not chosen by the user, those of service 27 02 are exactly the answers to replies
      headed 67 01, in every reachable state; each carries the key for the last whole seed so far. */
  lemma KeysAnswerSeeds(c: Config, now: int, command: string, ticks: seq<Tick>, i: nat)
    requires GoodConfig(c) && PollsOnly(c.poll)
    requires var s := After(Step(c), Start(now, command), ticks).s;
             i < |s.sent| && i < |s.taken| && Unasked(c, s, i)
    ensures var s := After(Step(c), Start(now, command), ticks).s;
            && |s.handled| == |s.sent|
            && (HeadedBy(Body(s.sent[i]), SEND_KEY) <==> HeadedBy(s.handled[i], SEED))
            && (HeadedBy(s.handled[i], SEED) ==>
                  s.sent[i] == Frame(SEND_KEY + PutUint16(KeyAfter(s.handled[..i + 1]))))
  {
    hide After, GoodConfig, PollsOnly, NextRequest, KeyAfter, Requests, GoodFrame;
    AnyBytesFollowAutomaton(c, now, command, ticks);
    var s := After(Step(c), Start(now, command), ticks).s;
    SentWhenUnasked(c, s, i);
    OnlySeedDrawsKey(c, KeyAfter(s.handled[..i + 1]), s.handled[i]);
  }

  /** A seed reply cut short draws a 27 02 all the same, with the key of the seed before it. */
  lemma ShortSeedReplySendsOldKey(c: Config, now: int, command: string, ticks: seq<Tick>, i: nat)
    requires GoodConfig(c) && PollsOnly(c.poll)
    requires var s := After(Step(c), Start(now, command), ticks).s;
             && i < |s.sent| && i < |s.taken| && Unasked(c, s, i)
             && i < |s.handled| && HeadedBy(s.handled[i], SEED) && |s.handled[i]| < 4
    ensures var s := After(Step(c), Start(now, command), ticks).s;
            s.sent[i] == Frame(SEND_KEY + PutUint16(KeyAfter(s.handled[..i])))
  {
    var s := After(Step(c), Start(now, command), ticks).s;
    hide After, GoodConfig, PollsOnly;
    KeysAnswerSeeds(c, now, command, ticks, i);
    assert s.handled[..i + 1][..i] == s.handled[..i];
  }

  lemma NextAfterUnlock(c: Config, key: nat, seed: seq<byte>)
    requires SeedReply(seed)
    ensures NextRequest(c, "", key, REFUSE_PING) == REQUEST_SEED
    ensures NextRequest(c, "", key, seed) == SEND_KEY + PutUint16(key)
    ensures NextRequest(c, "", key, KEY_ACCEPTED) == PING
  {
    assert seed[0] == SEED[0] && seed[1] == SEED[1];
    assert KEY_ACCEPTED[1] != SEED[1];
  }

  /** The recovery: a ping refused with 7F 3E 10, at whatever point of a session and after whatever
      request, makes the loop ask for a seed again, send the key for that seed, and take up the poll
      cycle from its ping, where k more granted requests lead k places on. */
  lemma RefusedPingRecovers(c: Config, order: seq<seq<byte>>, s: Session, n: nat, k: nat)
    requires Polls(c, order) && FollowsAutomaton(c, s) && n + 2 + k < |s.sent|
    requires forall i :: n <= i <= n + 2 ==> Unasked(c, s, i)
    requires s.handled[n] == [0x7F, 0x3E, 0x10] && SeedReply(s.handled[n + 1]) && s.handled[n + 2] == [0x67, 0x02]
    requires forall i :: n + 2 < i <= n + 2 + k ==> Granted(c, s, i)
    ensures s.sent[n] == Frame(REQUEST_SEED)
    ensures s.sent[n + 1] == Frame(SEND_KEY + PutUint16(KeyFor(SeedOf(s.handled[n + 1]))))
    ensures s.sent[n + 2 + k] == Frame(CycleAt(order, k))
  {
    hide Unasked, Requests, KeyAfter, GoodFrame, PollOrder, PollTable, CycleAt, Frame, SeedReply, Granted;
    SentAfterRefusal(c, s, n);
    KeyAfterSeed(s.handled, n + 1);
    PingComesFirst(order);
    CycleGoesOn(c, order, s, n + 2, 0, k);
  }

  lemma PingComesFirst(order: seq<seq<byte>>)
    requires PollOrder(order)
    ensures CycleAt(order, 0) == PING
  {
  }

  lemma SentAfterRefusal(c: Config, s: Session, n: nat)
    requires FollowsAutomaton(c, s) && n + 2 < |s.sent| && forall i :: n <= i <= n + 2 ==> Unasked(c, s, i)
    requires s.handled[n] == [0x7F, 0x3E, 0x10] && SeedReply(s.handled[n + 1]) && s.handled[n + 2] == [0x67, 0x02]
    ensures s.sent[n] == Frame(REQUEST_SEED) && s.sent[n + 2] == Frame(PING)
    ensures s.sent[n + 1] == Frame(SEND_KEY + PutUint16(KeyAfter(s.handled[..n + 2])))
  {
    hide GoodFrame, Requests, KeyAfter, NextRequest, Frame, UserCommand, SeedReply;
    var seed := s.handled[n + 1];
    SentWhenUnasked(c, s, n);
    SentWhenUnasked(c, s, n + 1);
    SentWhenUnasked(c, s, n + 2);
    NextAfterUnlock(c, KeyAfter(s.handled[..n + 1]), seed);
    NextAfterUnlock(c, KeyAfter(s.handled[..n + 2]), seed);
    NextAfterUnlock(c, KeyAfter(s.handled[..n + 3]), seed);
  }

  /** Connected is set when, and only when, the wake-up reply has been taken for one. */
  predicate ConnectedOnWaking(s: Session)
  {
    s.connected <==> [0xC1, 0xD5, 0x8F] in s.handled
  }

  lemma StepKeepsConnected(c: Config, s: Session, t: Tick)
    requires ConnectedOnWaking(s)
    ensures ConnectedOnWaking(Receive(c, s, t).s)
  {
    hide NextRequest, Frame, StripZeros, Trim;
    var r := Received(s, t);
    var b := StripZeros(r.buffer);
    assert ConnectedOnWaking(r);
    if AtReply(r.lastSent, b) {
      var payload := b[1..b[0] as int + 1];
      assert Answer(c, r, payload).handled == r.handled + [payload];
    }
  }

  /** In every reachable state, whatever bytes arrived. */
  lemma ConnectsExactly(c: Config, now: int, command: string, ticks: seq<Tick>)
    ensures ConnectedOnWaking(After(Step(c), Start(now, command), ticks).s)
  {
    hide Receive;
    forall s, t | ConnectedOnWaking(s) ensures ConnectedOnWaking(Step(c)(s, t).s) {
      StepKeepsConnected(c, s, t);
    }
    AfterKeeps(Step(c), ConnectedOnWaking, Start(now, command), ticks);
  }

  // ---------------------------------------------------------------- runs of the program, byte by byte

  /** A response without padding or echo. */
  function Plain(reply: seq<byte>): Response { Response(0, false, 0, reply, 0) }

  /** Between exchanges: the whole response is waiting, unread. */
  predicate Rested(c: Config, w: World, payload: seq<byte>)
  {
    && InStep(c, w) && !w.over && w.s.buffer == [] && w.s.lastData == 0 && w.s.command == ""
    && w.given[|w.given| - 1] == Plain(payload) && |payload| <= 255 && w.wire == ReplyFrame(Plain(payload))
  }

  /** A pass that reads the response and finds this command posted. */
  function ReadAll(w: World, command: string): Tick
  {
    Tick(0, 0, false, Some(command), w.wire, Timeout)
  }

  lemma ReadAllAnswers(c: Config, w: World, payload: seq<byte>, command: string)
    requires Rested(c, w, payload)
    ensures var t := ReadAll(w, command);
            Receive(c, w.s, t) == Running(Answer(c, Received(w.s, t), payload)) && w.wire[|t.data|..] == []
  {
    hide NextRequest, Requests, KeyAfter, Answer;
    var f := ReplyFrame(Plain(payload));
    assert w.s.buffer + w.wire == f;
    OnReply(w.s.lastSent, Plain(payload), f);
  }

  /** One more exchange: the waiting reply is read, with a command posted or none, and answered. */
  lemma Exchange(c: Config, begin: World, moves: seq<Move>, payload: seq<byte>, command: string, reply: seq<byte>)
    returns (more: seq<Move>)
    requires GoodConfig(c) && AllPossible(NextIn(c), PossibleIn(c), begin, moves)
    requires Rested(c, Play(NextIn(c), begin, moves), payload)
    requires var s := Play(NextIn(c), begin, moves).s;
             var next := NextRequest(c, command, KeyAfter(s.handled + [payload]), payload);
             next != [] && ValidReply(next[0], reply)
    ensures AllPossible(NextIn(c), PossibleIn(c), begin, more)
    ensures var w, f := Play(NextIn(c), begin, moves), Play(NextIn(c), begin, more);
            Rested(c, f, reply) && f.s.handled == w.s.handled + [payload] && f.s.taken == w.s.taken + [command]
  {
    hide Receive, NextRequest, GoodConfig, Requests, AllPossible, Play;
    var w := Play(NextIn(c), begin, moves);
    var m := Move(ReadAll(w, command), Plain(reply));
    ReadAllAnswers(c, w, payload, command);
    AnsweredBy(c, w, payload, command, reply);
    StepKeepsInStep(c, w, m);
    more := moves + [m];
    OneMoreMove(NextIn(c), PossibleIn(c), begin, moves, m);
  }

  lemma AnsweredBy(c: Config, w: World, payload: seq<byte>, command: string, reply: seq<byte>)
    requires Rested(c, w, payload) && GoodConfig(c)
    requires var next := NextRequest(c, command, KeyAfter(w.s.handled + [payload]), payload);
             next != [] && ValidReply(next[0], reply)
    ensures var s := Answer(c, Received(w.s, ReadAll(w, command)), payload);
            && |s.sent| == |w.s.sent| + 1 && ValidReply(Service(s.lastSent), reply)
            && s.buffer == [] && s.lastData == 0 && s.command == ""
            && s.handled == w.s.handled + [payload] && s.taken == w.s.taken + [command]
            && [] + OnWire(s.lastSent, Plain(reply)) == ReplyFrame(Plain(reply))
  {
    hide NextRequest, Requests;
    var r := Received(w.s, ReadAll(w, command));
    assert (w.s.handled + [payload])[..|w.s.handled|] == w.s.handled;
    assert Parsed(r, payload).key == KeyAfter(w.s.handled + [payload]);
    assert Zeros(0) == [];
  }

  function TheConfig(): Config
  {
    Tables(USER_COMMANDS, POLL_ORDER)
  }

  /** The shortest replies that open a session, with seed 0080, and then grant poll after poll. */
  function ShortReply(i: nat): seq<byte>
  {
    if i == 0 then [0xC1, 0xD5, 0x8F] else if i == 1 then [0x50] else if i == 2 then [0x67, 0x01, 0x00, 0x80]
    else if i == 3 then [0x67, 0x02]
    else
      var request := CycleAt(POLL_ORDER, i - 4);
      if |request| < 2 then [0x7E] else [0x61, request[1]]
  }

  lemma PollsAre21(k: nat)
    ensures |POLL_ORDER| == 22
    ensures var r := CycleAt(POLL_ORDER, k); r == [0x3E] || (|r| == 2 && r[0] == 0x21)
  {
    ThePollOrderIncreases();
  }

  lemma RequestAfterShort(key: nat, i: nat)
    ensures NextRequest(TheConfig(), "", key, ShortReply(i)) ==
            if i == 0 then [0x10, 0xA0] else if i == 1 then [0x27, 0x01]
            else if i == 2 then [0x27, 0x02] + PutUint16(key) else CycleAt(POLL_ORDER, i - 3)
  {
    hide PollTable, PutUint16;
    if i < 4 {
      NextAfterUnlock(TheConfig(), key, [0x67, 0x01, 0x00, 0x80]);
      PollsAre21(0);
    } else {
      hide NextRequest, CycleAt;
      ThePollOrder();
      PollsAre21(i - 4);
      PollStep(TheConfig(), POLL_ORDER, i - 4, key, ShortReply(i));
    }
  }

  lemma ShortReplyIsValid(key: nat, i: nat)
    ensures var next := NextRequest(TheConfig(), "", key, ShortReply(i));
            next != [] && ValidReply(next[0], ShortReply(i + 1))
  {
    hide NextRequest, PollTable, PutUint16, CycleAt;
    RequestAfterShort(key, i);
    if i >= 3 {
      PollsAre21(i - 3);
    }
  }

  /** The first n short replies have been handled, with no command pending at any. */
  predicate HandledShort(s: Session, n: nat)
  {
    && |s.handled| == |s.taken| == n
    && forall i :: 0 <= i < n ==> s.handled[i] == ShortReply(i) && s.taken[i] == ""
  }

  lemma OneMoreShort(s: Session, s': Session, n: nat)
    requires n > 0 && HandledShort(s, n - 1)
    requires s'.handled == s.handled + [ShortReply(n - 1)] && s'.taken == s.taken + [""]
    ensures HandledShort(s', n)
  {
    hide ShortReply;
  }

  /** For every n there is a run of the program that goes on for n replies. */
  lemma {:induction false} UndisturbedRun(n: nat) returns (moves: seq<Move>)
    ensures CanPlay(TheConfig(), 0, "", Plain(ShortReply(0)), moves)
    ensures var w := Played(TheConfig(), 0, "", Plain(ShortReply(0)), moves);
            Rested(TheConfig(), w, ShortReply(n)) && HandledShort(w.s, n)
  {
    hide NextRequest, PollTable, ShortReply, Rested, GoodConfig, KeyAfter, ValidReply, HandledShort;
    var c := TheConfig();
    BeginsShort();
    if n == 0 {
      moves := [];
    } else {
      moves := UndisturbedRun(n - 1);
      var s := Played(c, 0, "", Plain(ShortReply(0)), moves).s;
      TheTables();
      ShortReplyIsValid(KeyAfter(s.handled + [ShortReply(n - 1)]), n - 1);
      moves := Exchange(c, Begin(0, "", Plain(ShortReply(0))), moves, ShortReply(n - 1), "", ShortReply(n));
      OneMoreShort(s, Played(c, 0, "", Plain(ShortReply(0)), moves).s, n);
    }
  }

  lemma BeginsShort()
    ensures |ShortReply(0)| <= 255
    ensures var w := Played(TheConfig(), 0, "", Plain(ShortReply(0)), []);
            Rested(TheConfig(), w, ShortReply(0)) && HandledShort(w.s, 0)
    ensures CanPlay(TheConfig(), 0, "", Plain(ShortReply(0)), [])
  {
    hide PollTable;
    BeginsRested(TheConfig(), ShortReply(0));
  }

  /** Every frame of a session up to its second ping: the key for seed 0080 is 0005, and the polls go
      once round. */
  const ONE_ROUND: seq<seq<byte>> := [
    [0x02, 0x10, 0xA0, 0xB2], [0x02, 0x27, 0x01, 0x2A], [0x04, 0x27, 0x02, 0x00, 0x05, 0x32], [0x01, 0x3E, 0x3F],
    [0x02, 0x21, 0x19, 0x3C], [0x02, 0x21, 0x00, 0x23], [0x02, 0x21, 0x01, 0x24], [0x02, 0x21, 0x02, 0x25],
    [0x02, 0x21, 0x03, 0x26], [0x02, 0x21, 0x05, 0x28], [0x02, 0x21, 0x06, 0x29], [0x02, 0x21, 0x07, 0x2A],
    [0x02, 0x21, 0x08, 0x2B], [0x02, 0x21, 0x09, 0x2C], [0x02, 0x21, 0x0A, 0x2D], [0x02, 0x21, 0x0B, 0x2E],
    [0x02, 0x21, 0x0C, 0x2F], [0x02, 0x21, 0x0D, 0x30], [0x02, 0x21, 0x0F, 0x32], [0x02, 0x21, 0x10, 0x33],
    [0x02, 0x21, 0x11, 0x34], [0x02, 0x21, 0x12, 0x35], [0x02, 0x21, 0x13, 0x36], [0x02, 0x21, 0x21, 0x44],
    [0x02, 0x21, 0x25, 0x48], [0x02, 0x21, 0x3A, 0x5D], [0x01, 0x3E, 0x3F]]

  lemma PollFrames(i: nat)
    requires 4 <= i < 26
    ensures |ONE_ROUND| == 27 && |POLL_ORDER| == 22 && |POLL_ORDER[i - 4]| == 2
    ensures var p := POLL_ORDER[i - 4]; ONE_ROUND[i] == [2, p[0], p[1], (2 + p[0] as int + p[1] as int) % 256]
  {
  }

  lemma FrameOfPoll(key: nat, i: nat)
    requires 4 <= i < 26
    ensures |ONE_ROUND| == 27 && Frame(NextRequest(TheConfig(), "", key, ShortReply(i))) == ONE_ROUND[i]
  {
    hide NextRequest, PollTable, Frame, ShortReply;
    RequestAfterShort(key, i);
    PollFrames(i);
    var p := POLL_ORDER[i - 4];
    PlaceOf(POLL_ORDER, i - 3);
    ShortFrames(p[0], p[1]);
    assert p == [p[0], p[1]];
  }

  lemma PlaceOf(order: seq<seq<byte>>, k: nat)
    requires 1 <= k <= |order|
    ensures CycleAt(order, k) == order[k - 1]
  {
    SmallRemainder(k, |order| + 1);
  }

  lemma PingPlaces()
    ensures CycleAt(POLL_ORDER, 0) == [0x3E] == CycleAt(POLL_ORDER, 23)
  {
    PollFrames(4);
    assert 23 % 23 == 0;
  }

  lemma FrameInRound(key: nat, i: nat)
    requires i < 27 && (i == 2 ==> key == 0x0005)
    ensures |ONE_ROUND| == 27
    ensures Frame(NextRequest(TheConfig(), "", key, ShortReply(i))) == ONE_ROUND[i]
  {
    if 4 <= i < 26 {
      hide *;
      FrameOfPoll(key, i);
    } else {
      hide NextRequest, PollTable, Frame, ShortReply;
      RequestAfterShort(key, i);
      if i == 2 {
        KeyFrame();
      } else if i < 2 {
        ShortFrames(0x10, 0xA0);
        ShortFrames(0x27, 0x01);
      } else {
        PingPlaces();
        ShortFrames(0x3E, 0);
      }
    }
  }

  lemma KeyFrame()
    ensures Frame([0x27, 0x02] + PutUint16(0x0005)) == [0x04, 0x27, 0x02, 0x00, 0x05, 0x32]
  {
    var c: seq<byte> := [0x27, 0x02, 0x00, 0x05];
    assert [0x27, 0x02] + PutUint16(0x0005) == c;
    FrameChecks(c);
    assert Sum(c, 0) == 0 && Sum(c, 1) == 0x27 && Sum(c, 2) == 0x29 && Sum(c, 3) == 0x29 && Sum(c, 4) == 0x2E;
  }

  /** The transcript: such a run sends exactly these bytes. */
  lemma OneRound() returns (moves: seq<Move>)
    ensures CanPlay(TheConfig(), 0, "", Plain(ShortReply(0)), moves)
    ensures var w := Played(TheConfig(), 0, "", Plain(ShortReply(0)), moves);
            HandledShort(w.s, 27) && w.s.sent == ONE_ROUND
  {
    moves := UndisturbedRun(27);
    ShortSessionSends(Played(TheConfig(), 0, "", Plain(ShortReply(0)), moves));
  }

  lemma ShortSessionSends(w: World)
    requires InStep(TheConfig(), w) && HandledShort(w.s, 27)
    ensures w.s.sent == ONE_ROUND
  {
    hide NextRequest, PollTable, Frame, ShortReply, Requests, GoodFrame, Synced, KeyAfter;
    var c, s := TheConfig(), w.s;
    PollFrames(4);
    ShortKey(s.handled);
    forall i | 0 <= i < 27 ensures s.sent[i] == ONE_ROUND[i] {
      SentWhenUnasked(c, s, i);
      FrameInRound(KeyAfter(s.handled[..i + 1]), i);
    }
  }

  lemma ShortKey(handled: seq<seq<byte>>)
    requires |handled| > 2 && handled[2] == ShortReply(2)
    ensures KeyAfter(handled[..3]) == 0x0005
  {
    hide Key, KeyAfter;
    SomeKeys();
    KeyAfterSeed(handled, 2);
  }

  lemma BeginsRested(c: Config, payload: seq<byte>)
    requires ValidReply(0x81, payload)
    ensures var begin := Begin(0, "", Plain(payload));
            && Rested(c, begin, payload) && Play(NextIn(c), begin, []) == begin
            && begin.s.handled == [] && begin.s.taken == []
  {
    BeginsInStep(c, 0, "", Plain(payload));
    assert Zeros(0) == [];
  }

  /** A run that drops most of a period: service 13 is posted when 21 01 is due, goes out instead, and
      after its reply the loop pings, so 21 01 and the 19 requests behind it wait for the next period. */
  lemma MidCycleCommandRun() returns (moves: seq<Move>)
    ensures CanPlay(TheConfig(), 0, "", Plain(ShortReply(0)), moves)
    ensures var s := Played(TheConfig(), 0, "", Plain(ShortReply(0)), moves).s;
            && s.taken == ["", "", "", "", "", "", "service13", ""] && |s.sent| == 8
            && s.sent[5] == [0x02, 0x21, 0x00, 0x23] && s.sent[6] == [0x01, 0x13, 0x14]
            && s.sent[7] == [0x01, 0x3E, 0x3F] && CycleAt(POLL_ORDER, 3) == [0x21, 0x01]
  {
    hide NextRequest, PollTable, KeyAfter, GoodConfig, Rested, ShortReply, HandledShort, Begin;
    TheTables();
    moves := UndisturbedRun(6);
    SixShort(Played(TheConfig(), 0, "", Plain(ShortReply(0)), moves).s);
    var c, begin := TheConfig(), Begin(0, "", Plain(ShortReply(0)));
    forall key: nat
      ensures NextRequest(c, "service13", key, ShortReply(6)) == [0x13] && NextRequest(c, "", key, [0x53]) == PING
    {
      CommandRequests(key);
    }
    moves := Exchange(c, begin, moves, ShortReply(6), "service13", [0x53]);
    moves := Exchange(c, begin, moves, [0x53], "", PONG);
    SentInMidCycle(c, Played(c, 0, "", Plain(ShortReply(0)), moves));
  }

  lemma SixShort(s: Session)
    requires HandledShort(s, 6)
    ensures s.taken == ["", "", "", "", "", ""] && |s.handled| == 6 && s.handled[5] == ShortReply(5)
  {
    hide ShortReply;
  }

  lemma CommandRequests(key: nat)
    ensures NextRequest(TheConfig(), "service13", key, ShortReply(6)) == [0x13]
    ensures NextRequest(TheConfig(), "", key, [0x53]) == PING
  {
    hide PollTable, ShortReply;
  }

  lemma SentInMidCycle(c: Config, w: World)
    requires c == TheConfig() && Rested(c, w, PONG) && |w.s.handled| == 8
    requires w.s.taken == ["", "", "", "", "", "", "service13", ""]
    requires w.s.handled[5] == ShortReply(5) && w.s.handled[6] == ShortReply(6) && w.s.handled[7] == [0x53]
    ensures |w.s.sent| == 8 && w.s.sent[5] == [0x02, 0x21, 0x00, 0x23] && w.s.sent[6] == [0x01, 0x13, 0x14]
    ensures w.s.sent[7] == [0x01, 0x3E, 0x3F] && CycleAt(POLL_ORDER, 3) == [0x21, 0x01]
  {
    hide NextRequest, PollTable, KeyAfter, Requests, GoodFrame, Frame, Synced, ShortReply;
    var s := w.s;
    RequestAt(c, s.handled, s.taken, 5);
    RequestAt(c, s.handled, s.taken, 6);
    RequestAt(c, s.handled, s.taken, 7);
    FrameInRound(KeyAfter(s.handled[..6]), 5);
    CommandRequests(KeyAfter(s.handled[..7]));
    CommandRequests(KeyAfter(s.handled[..8]));
    ShortFrames(0x13, 0);
    ShortFrames(0x3E, 0);
    SecondDataRequest();
  }

  lemma SecondDataRequest()
    ensures |POLL_ORDER| == 22 && CycleAt(POLL_ORDER, 3) == [0x21, 0x01]
  {
  }

  lemma {:induction false} SumOfZeros(n: nat)
    ensures Sum(Zeros(n), n) == 0
  {
    if n > 0 {
      assert Zeros(n) == Zeros(n - 1) + [0];
      SumOfPrefix(Zeros(n - 1), [0], n - 1);
      SumOfZeros(n - 1);
    }
  }

  lemma PaddedFrame(a: byte, b: byte, n: nat)
    requires n < 200
    ensures var f := Frame([a, b] + Zeros(n));
            f == [n + 2, a, b] + Zeros(n) + [(n + 2 + a as int + b as int) % 256]
  {
    var command := [a, b] + Zeros(n);
    FrameChecks(command);
    SumSplits([a, b], Zeros(n), n);
    SumOfZeros(n);
    SumSplits([a], [b], 1);
    SumOfOne(a);
    SumOfOne(b);
    assert [a] + [b] == [a, b];
    hide Sum;
    var f := Frame(command);
    assert f == [f[0]] + f[1..|command| + 1] + [f[|f| - 1]];
    assert [n + 2] + ([a, b] + Zeros(n)) == [n + 2, a, b] + Zeros(n);
  }

  /** The frames of the user commands, check bytes included. */
  lemma CommandFrames()
    ensures Frame(USER_COMMANDS["clearfaults"]) == [0x11, 0x31, 0xCB] + Zeros(15) + [0x0D]
    ensures Frame(USER_COMMANDS["learnimmo"]) == [0x0A, 0x31, 0xD0] + Zeros(8) + [0x0B]
    ensures Frame(USER_COMMANDS["read722"]) == [0x05, 0x23, 0x00, 0x07, 0x22, 0x01, 0x52]
    ensures Frame(USER_COMMANDS["service13"]) == [0x01, 0x13, 0x14]
    ensures Frame(USER_COMMANDS["service31_d5"]) == [0x02, 0x31, 0xD5, 0x08]
    ensures Frame(USER_COMMANDS["service33_d5"]) == [0x02, 0x33, 0xD5, 0x0A]
    ensures Frame(USER_COMMANDS["service33_c0"]) == [0x02, 0x33, 0xC0, 0xF5]
    ensures Frame(USER_COMMANDS["service33_c8"]) == [0x02, 0x33, 0xC8, 0xFD]
    ensures Frame(USER_COMMANDS["service33_d2"]) == [0x02, 0x33, 0xD2, 0x07]
    ensures Frame(USER_COMMANDS["service33_d4"]) == [0x02, 0x33, 0xD4, 0x09]
    ensures Frame(USER_COMMANDS["service33_da"]) == [0x02, 0x33, 0xDA, 0x0F]
    ensures Frame(USER_COMMANDS["service33_c1"]) == [0x02, 0x33, 0xC1, 0xF6]
    ensures Frame(USER_COMMANDS["service33_d7"]) == [0x02, 0x33, 0xD7, 0x0C]
  {
    hide Frame;
    PaddedFrame(0x31, 0xCB, 15);
    PaddedFrame(0x31, 0xD0, 8);
    Read722Frame();
    ShortFrames(0x13, 0);
    ShortFrames(0x31, 0xD5);
    ShortFrames(0x33, 0xD5);
    ShortFrames(0x33, 0xC0);
    ShortFrames(0x33, 0xC8);
    ShortFrames(0x33, 0xD2);
    ShortFrames(0x33, 0xD4);
    ShortFrames(0x33, 0xDA);
    ShortFrames(0x33, 0xC1);
    ShortFrames(0x33, 0xD7);
  }

  lemma Read722Frame()
    ensures Frame([0x23, 0x00, 0x07, 0x22, 0x01]) == [0x05, 0x23, 0x00, 0x07, 0x22, 0x01, 0x52]
  {
    var c: seq<byte> := [0x23, 0x00, 0x07, 0x22, 0x01];
    FrameChecks(c);
    assert Sum(c, 0) == 0 && Sum(c, 1) == 0x23 && Sum(c, 2) == 0x23 && Sum(c, 3) == 0x2A;
    assert Sum(c, 4) == 0x4C && Sum(c, 5) == 0x4D;
  }
}
