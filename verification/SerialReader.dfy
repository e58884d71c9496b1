/** internal/serial/readwrite.go: a goroutine that feeds a bounded channel, and its consumer, as a
    state machine over their atomic steps. */
module SerialReader {
  import opened Bytes
  import Line

  const CAPACITY: nat := 1024
  const READ_SIZE: nat := 256

  /** Where a read goroutine stands: before its check of done, in a Read, pushing, or gone. */
  datatype Pc = Top | Reading | Pushing | Exited

  /** A read goroutine: everything its port will deliver, what of it is unread, what has been read
      and not pushed, and whether its own done channel is closed. */
  datatype Worker = Worker(stream: seq<byte>, unread: seq<byte>, tail: seq<byte>, pc: Pc, stopped: bool)

  /** A byte in the channel, with the goroutine that pushed it. */
  datatype Item = Item(value: byte, owner: nat)

  /** Every goroutine started so far, the last one for the current port; the channel; every item
      taken out of it, in order; and how many had been taken when the last Start returned. */
  datatype System = System(workers: seq<Worker>, channel: seq<Item>, taken: seq<Item>, mark: nat)

  const IDLE := System([], [], [], 0)

  datatype Act =
    | Check(w: nat)                               // select on done at the top of the loop
    | ReadReturns(w: nat, n: nat, fatal: bool)    // n bytes, and an error other than a timeout or not
    | Push(w: nat)                                // the channel accepts the next byte
    | AbortPush(w: nat)                           // done is closed while pushing
    | Again(w: nat)                               // all bytes pushed
    | Recv                                        // the consumer takes a byte
    | Stop
    | Start(stream: seq<byte>)

  predicate WorkerAct(a: Act) { a.Check? || a.ReadReturns? || a.Push? || a.AbortPush? || a.Again? }

  predicate Enabled(s: System, a: Act)
  {
    match a
    case Check(w) => w < |s.workers| && s.workers[w].pc.Top?
    case ReadReturns(w, n, fatal) =>
      w < |s.workers| && s.workers[w].pc.Reading? && n <= READ_SIZE && n <= |s.workers[w].unread|
    case Push(w) =>
      w < |s.workers| && s.workers[w].pc.Pushing? && s.workers[w].tail != [] && |s.channel| < CAPACITY
    case AbortPush(w) =>
      w < |s.workers| && s.workers[w].pc.Pushing? && s.workers[w].tail != [] && s.workers[w].stopped
    case Again(w) => w < |s.workers| && s.workers[w].pc.Pushing? && s.workers[w].tail == []
    case Recv => s.channel != []
    case Stop => true
    case Start(_) => true
  }

  function Do(s: System, a: Act): System
    requires Enabled(s, a)
  {
    match a
    case Check(w) =>
      s.(workers := s.workers[w := s.workers[w].(pc := if s.workers[w].stopped then Exited else Reading)])
    case ReadReturns(w, n, fatal) =>
      var k := s.workers[w];
      var after := if fatal then Exited else Pushing;
      s.(workers := s.workers[w := k.(tail := k.unread[..n], unread := k.unread[n..], pc := after)])
    case Push(w) =>
      var k := s.workers[w];
      s.(workers := s.workers[w := k.(tail := k.tail[1..])], channel := s.channel + [Item(k.tail[0], w)])
    case AbortPush(w) => s.(workers := s.workers[w := s.workers[w].(pc := Exited)])
    case Again(w) => s.(workers := s.workers[w := s.workers[w].(pc := Top)])
    case Recv => s.(channel := s.channel[1..], taken := s.taken + [s.channel[0]])
    case Stop =>
      if s.workers == [] then s
      else
        var w := |s.workers| - 1;
        s.(workers := s.workers[w := s.workers[w].(stopped := true)])
    case Start(stream) =>
      System(s.workers + [Worker(stream, stream, [], Top, false)], [], s.taken + s.channel, |s.taken| + |s.channel|)
  }

  function Next(s: System, a: Act): System
  {
    if Enabled(s, a) then Do(s, a) else s
  }

  // ---------------------------------------------------------------- conservation

  /** The bytes one goroutine pushed among some items, in order. */
  function Owned(items: seq<Item>, w: nat): seq<byte>
  {
    if items == [] then []
    else
      var last := items[|items| - 1];
      Owned(items[..|items| - 1], w) + if last.owner == w then [last.value] else []
  }

  lemma {:induction false} OwnedAppend(a: seq<Item>, b: seq<Item>, w: nat)
    ensures Owned(a + b, w) == Owned(a, w) + Owned(b, w)
  {
    if b == [] {
      assert a + b == a;
    } else {
      assert (a + b)[..|a + b| - 1] == a + b[..|b| - 1];
      OwnedAppend(a, b[..|b| - 1], w);
    }
  }

  /** What a goroutine pushed, taken or still in the channel, then what it read and did not push,
      then what it did not read, is its port's stream. */
  predicate Conserved(s: System, w: nat)
    requires w < |s.workers|
  {
    (s.workers[w].pc in {Top, Reading} ==> s.workers[w].tail == []) &&
    Owned(s.taken + s.channel, w) + s.workers[w].tail + s.workers[w].unread == s.workers[w].stream
  }

  /** The channel's bound, and that every item has an owner. */
  predicate Bounded(s: System)
  {
    && |s.channel| <= CAPACITY && s.mark <= |s.taken|
    && (forall i :: 0 <= i < |s.taken| ==> s.taken[i].owner < |s.workers|)
    && (forall i :: 0 <= i < |s.channel| ==> s.channel[i].owner < |s.workers|)
  }

  predicate Sound(s: System)
  {
    Bounded(s) && forall w :: 0 <= w < |s.workers| ==> Conserved(s, w)
  }

  lemma {:induction false} OwnedByOthers(items: seq<Item>, w: nat)
    requires forall i :: 0 <= i < |items| ==> items[i].owner != w
    ensures Owned(items, w) == []
  {
    if items != [] {
      OwnedByOthers(items[..|items| - 1], w);
    }
  }

  lemma OwnedPush(taken: seq<Item>, channel: seq<Item>, item: Item, w: nat)
    ensures Owned(taken + (channel + [item]), w) ==
            Owned(taken + channel, w) + if item.owner == w then [item.value] else []
  {
    assert taken + (channel + [item]) == (taken + channel) + [item];
    assert ((taken + channel) + [item])[..|taken + channel|] == taken + channel;
  }

  lemma PushKeepsConserved(s: System, k: nat, w: nat)
    requires Enabled(s, Push(k)) && w < |s.workers| && Conserved(s, w)
    ensures Conserved(Do(s, Push(k)), w)
  {
    var tail := s.workers[k].tail;
    OwnedPush(s.taken, s.channel, Item(tail[0], k), w);
    if k == w {
      var before := Owned(s.taken + s.channel, w);
      assert tail == [tail[0]] + tail[1..];
      assert before + [tail[0]] + tail[1..] == before + tail;
    }
  }

  lemma ActKeepsConserved(s: System, a: Act, w: nat)
    requires Enabled(s, a) && w < |s.workers| && Conserved(s, w)
    ensures Conserved(Do(s, a), w)
  {
    hide Owned;
    match a
    case Push(k) => PushKeepsConserved(s, k, w);
    case ReadReturns(k, n, fatal) =>
      if k == w {
        ReadMovesBytes(s, w, n, fatal);
      }
    case Recv => assert s.taken + [s.channel[0]] + s.channel[1..] == s.taken + s.channel;
    case Start(stream) => assert s.taken + s.channel + [] == s.taken + s.channel;
    case _ =>
  }

  /** A Read moves bytes from the unread part to the tail; the tail is empty before it. */
  lemma ReadMovesBytes(s: System, w: nat, n: nat, fatal: bool)
    requires Enabled(s, ReadReturns(w, n, fatal)) && Conserved(s, w)
    ensures Conserved(Do(s, ReadReturns(w, n, fatal)), w)
  {
    var k := s.workers[w];
    assert k.unread[..n] + k.unread[n..] == k.unread;
  }

  lemma StepKeepsBounded(s: System, a: Act)
    requires Bounded(s) && Enabled(s, a)
    ensures Bounded(Do(s, a))
    ensures |Do(s, a).workers| == |s.workers| + if a.Start? then 1 else 0
  {
  }

  lemma NewcomerIsConserved(s: System, a: Act)
    requires Bounded(s) && a.Start?
    ensures Conserved(Do(s, a), |s.workers|)
  {
    OwnedByOthers(s.taken + s.channel, |s.workers|);
    assert s.taken + s.channel + [] == s.taken + s.channel;
  }

  lemma StepKeepsSound(s: System, a: Act)
    requires Sound(s)
    ensures Sound(Next(s, a))
  {
    hide Enabled, Do, Conserved;
    if Enabled(s, a) {
      StepKeepsBounded(s, a);
      forall w | 0 <= w < |Do(s, a).workers| ensures Conserved(Do(s, a), w) {
        if w < |s.workers| {
          ActKeepsConserved(s, a, w);
        } else {
          NewcomerIsConserved(s, a);
        }
      }
    }
  }

  /** Over every interleaving of reads, pushes, receives, stops and restarts: no byte of any port is
      lost, duplicated or reordered, and the channel never holds more than 1024. */
  lemma Conservation(acts: seq<Act>)
    ensures Sound(Line.Play(Next, IDLE, acts)) && |Line.Play(Next, IDLE, acts).channel| <= 1024
  {
    forall s: System, a: Act | Sound(s) ensures Sound(Next(s, a)) {
      StepKeepsSound(s, a);
    }
    AnyAct(IDLE, acts);
    Line.PlayKeeps(Next, (s: System, a: Act) => true, Sound, IDLE, acts);
  }

  lemma {:induction false} AnyAct(s: System, acts: seq<Act>)
    ensures Line.AllPossible(Next, (s: System, a: Act) => true, s, acts)
    decreases |acts|
  {
    if acts != [] {
      AnyAct(Next(s, acts[0]), acts[1..]);
    }
  }

  // ---------------------------------------------------------------- restart

  /** Whether a goroutine can still push a byte: it holds one, or can come to read one. */
  predicate CanPush(k: Worker)
  {
    match k.pc
    case Exited => false
    case Reading => k.unread != []
    case Pushing => k.tail != [] || (!k.stopped && k.unread != [])
    case Top => !k.stopped && k.unread != []
  }

  /** Since the last Start the consumer has taken, and the channel holds, only bytes of the goroutine
      it started. */
  predicate Isolated(s: System)
  {
    && s.workers != [] && s.mark <= |s.taken|
    && (forall i :: 0 <= i < s.mark ==> s.taken[i].owner < |s.workers| - 1)
    && (forall i :: s.mark <= i < |s.taken| ==> s.taken[i].owner == |s.workers| - 1)
    && (forall i :: 0 <= i < |s.channel| ==> s.channel[i].owner == |s.workers| - 1)
  }

  predicate OldAreDone(s: System)
  {
    forall w :: 0 <= w < |s.workers| - 1 ==>
      !CanPush(s.workers[w]) && (s.workers[w].pc in {Top, Reading} ==> s.workers[w].tail == [])
  }

  predicate NoStart(a: Act) { !a.Start? }

  lemma StepKeepsIsolated(s: System, a: Act)
    requires Isolated(s) && OldAreDone(s) && NoStart(a)
    ensures Isolated(Next(s, a)) && OldAreDone(Next(s, a))
  {
  }

  lemma {:induction false} Allowed(s: System, acts: seq<Act>)
    requires forall i :: 0 <= i < |acts| ==> NoStart(acts[i])
    ensures Line.AllPossible(Next, (s: System, a: Act) => NoStart(a), s, acts)
    decreases |acts|
  {
    if acts != [] {
      Allowed(Next(s, acts[0]), acts[1..]);
    }
  }

  lemma StaysIsolated(s: System, acts: seq<Act>)
    requires Isolated(s) && OldAreDone(s) && forall i :: 0 <= i < |acts| ==> NoStart(acts[i])
    ensures Isolated(Line.Play(Next, s, acts))
  {
    forall s: System, a: Act | Isolated(s) && OldAreDone(s) && NoStart(a)
      ensures Isolated(Next(s, a)) && OldAreDone(Next(s, a))
    {
      StepKeepsIsolated(s, a);
    }
    Allowed(s, acts);
    Line.PlayKeeps(Next, (s: System, a: Act) => NoStart(a), (s: System) => Isolated(s) && OldAreDone(s), s, acts);
  }

  /** What a goroutine that can still push does to get a byte into the channel. */
  function Leak(k: Worker, w: nat): seq<Act>
  {
    match k.pc
    case Pushing => if k.tail != [] then [Push(w)] else [Again(w), Check(w), ReadReturns(w, 1, false), Push(w)]
    case Top => [Check(w), ReadReturns(w, 1, false), Push(w)]
    case _ => [ReadReturns(w, 1, false), Push(w)]
  }

  lemma LeakReaches(s: System, w: nat)
    requires w < |s.workers| && CanPush(s.workers[w]) && s.channel == []
    ensures var s' := Line.Play(Next, s, Leak(s.workers[w], w));
            |s'.channel| == 1 && s'.channel[0].owner == w && |s'.workers| == |s.workers|
    ensures forall i :: 0 <= i < |Leak(s.workers[w], w)| ==> NoStart(Leak(s.workers[w], w)[i])
    decreases match s.workers[w].pc case Pushing => 3 case Top => 2 case _ => 1
  {
    var acts := Leak(s.workers[w], w);
    var s1 := Next(s, acts[0]);
    if s.workers[w].pc.Reading? {
      assert acts[1..] == [Push(w)];
      assert Line.Play(Next, s1, [Push(w)]) == Next(s1, Push(w));
    } else if |acts| > 1 {
      assert acts[1..] == Leak(s1.workers[w], w);
      LeakReaches(s1, w);
    } else {
      assert Line.Play(Next, s, acts) == s1;
    }
  }

  /** After a restart the new session sees only its own port's bytes, whatever happens next, exactly
      when no earlier goroutine can still push: each has exited, or holds nothing and will read
      nothing more. Stopping it is not enough. */
  lemma RestartIsolation(s: System, stream: seq<byte>)
    requires Sound(s)
    ensures (forall acts: seq<Act> :: (forall i :: 0 <= i < |acts| ==> NoStart(acts[i])) ==>
               Isolated(Line.Play(Next, Next(s, Start(stream)), acts)))
            <==> (forall w :: 0 <= w < |s.workers| ==> !CanPush(s.workers[w]))
  {
    var s' := Next(s, Start(stream));
    if w :| 0 <= w < |s.workers| && CanPush(s.workers[w]) {
      var acts := Leak(s'.workers[w], w);
      LeakReaches(s', w);
      assert !Isolated(Line.Play(Next, s', acts));
    } else {
      forall w | 0 <= w < |s'.workers| - 1
        ensures !CanPush(s'.workers[w]) && (s'.workers[w].pc in {Top, Reading} ==> s'.workers[w].tail == [])
      {
        assert Conserved(s, w);
      }
      forall acts: seq<Act> | forall i :: 0 <= i < |acts| ==> NoStart(acts[i])
        ensures Isolated(Line.Play(Next, s', acts))
      {
        StaysIsolated(s', acts);
      }
    }
  }

  /** A session that is stopped while its goroutine holds a byte. */
  const STOPPED_WHILE_HOLDING: seq<Act> := [Start([7]), Check(0), ReadReturns(0, 1, false), Stop]

  /** One such restart: the goroutine has been told to stop, yet its byte is what the next session
      receives first. */
  lemma StoppedGoroutineLeaks(stream: seq<byte>)
    ensures var s := Line.Play(Next, IDLE, STOPPED_WHILE_HOLDING);
            && Sound(s) && |s.workers| == 1 && s.workers[0].stopped && CanPush(s.workers[0])
            && var f := Line.Play(Next, Next(s, Start(stream)), [Push(0), Recv]);
               f.taken[f.mark..] == [Item(7, 0)] && |f.workers| == 2
  {
    Conservation(STOPPED_WHILE_HOLDING);
    var s1 := System([Worker([7], [7], [], Top, false)], [], [], 0);
    assert Next(IDLE, Start([7])) == s1;
    var s3 := System([Worker([7], [], [7], Pushing, false)], [], [], 0);
    var s2 := System([Worker([7], [7], [], Reading, false)], [], [], 0);
    assert Next(s1, Check(0)) == s2;
    var seven: seq<byte> := [7];
    assert seven[..1] == seven && seven[1..] == [];
    assert Next(s2, ReadReturns(0, 1, false)) == s3;
    var s := System([Worker([7], [], [7], Pushing, true)], [], [], 0);
    assert Next(s3, Stop) == s;
    hide Next, Sound;
    Line.PlayFirst(Next, IDLE, STOPPED_WHILE_HOLDING);
    Line.PlayFirst(Next, s1, [Check(0), ReadReturns(0, 1, false), Stop]);
    Line.PlayFirst(Next, Next(s1, Check(0)), [ReadReturns(0, 1, false), Stop]);
    Line.PlayFirst(Next, s3, [Stop]);
    LeakIsReceived(s, stream);
  }

  lemma LeakIsReceived(s: System, stream: seq<byte>)
    requires s == System([Worker([7], [], [7], Pushing, true)], [], [], 0)
    ensures var f := Line.Play(Next, Next(s, Start(stream)), [Push(0), Recv]);
            f.taken[f.mark..] == [Item(7, 0)] && |f.workers| == 2
  {
    var s' := Next(s, Start(stream));
    Line.PlayFirst(Next, s', [Push(0), Recv]);
    Line.PlayFirst(Next, Next(s', Push(0)), [Recv]);
  }

  function Values(items: seq<Item>): (r: seq<byte>)
    ensures |r| == |items| && forall i :: 0 <= i < |items| ==> r[i] == items[i].value
  {
    seq(|items|, i requires 0 <= i < |items| => items[i].value)
  }

  lemma {:induction false} OwnedByOne(items: seq<Item>, w: nat)
    requires forall i :: 0 <= i < |items| ==> items[i].owner == w
    ensures Owned(items, w) == Values(items)
  {
    if items != [] {
      OwnedByOne(items[..|items| - 1], w);
    }
  }

  lemma ValuesAppend(a: seq<Item>, b: seq<Item>)
    ensures Values(a + b) == Values(a) + Values(b)
  {
  }

  /** While isolated, what the session has received, then the channel, then the unpushed and the
      unread bytes, are the new port's stream. */
  lemma SessionSeesItsPort(s: System)
    requires Sound(s) && Isolated(s)
    ensures var k := s.workers[|s.workers| - 1];
            Values(s.taken[s.mark..]) + Values(s.channel) + k.tail + k.unread == k.stream
  {
    var w, before, since := |s.workers| - 1, s.taken[..s.mark], s.taken[s.mark..];
    assert Conserved(s, w);
    OwnedOfSession(before, since, s.channel, w);
    assert s.taken == before + since;
  }

  predicate Current(s: System, stream: seq<byte>)
  {
    Sound(s) && Isolated(s) && OldAreDone(s) && s.workers[|s.workers| - 1].stream == stream
  }

  lemma BeginsCurrent(s: System, stream: seq<byte>)
    requires Sound(s) && forall w :: 0 <= w < |s.workers| ==> !CanPush(s.workers[w])
    ensures Current(Next(s, Start(stream)), stream)
  {
    var s' := Next(s, Start(stream));
    StepKeepsSound(s, Start(stream));
    forall w | 0 <= w < |s'.workers| - 1
      ensures !CanPush(s'.workers[w]) && (s'.workers[w].pc in {Top, Reading} ==> s'.workers[w].tail == [])
    {
      assert Conserved(s, w);
    }
  }

  lemma StepKeepsCurrent(s: System, stream: seq<byte>, a: Act)
    requires Current(s, stream) && NoStart(a)
    ensures Current(Next(s, a), stream)
  {
    StepKeepsSound(s, a);
    StepKeepsIsolated(s, a);
  }

  lemma StaysCurrent(s: System, stream: seq<byte>, acts: seq<Act>)
    requires Current(s, stream) && forall i :: 0 <= i < |acts| ==> NoStart(acts[i])
    ensures Current(Line.Play(Next, s, acts), stream)
  {
    forall q: System, a: Act | Current(q, stream) && NoStart(a) ensures Current(Next(q, a), stream) {
      StepKeepsCurrent(q, stream, a);
    }
    Allowed(s, acts);
    Line.PlayKeeps(Next, (s: System, a: Act) => NoStart(a), (s: System) => Current(s, stream), s, acts);
  }

  /** The restart theorem: when no earlier goroutine can push any more, then for every interleaving
      after the restart the session has received the new port's bytes, in order and from the first. */
  lemma RestartDeliversTheNewPort(s: System, stream: seq<byte>, acts: seq<Act>)
    requires Sound(s) && forall w :: 0 <= w < |s.workers| ==> !CanPush(s.workers[w])
    requires forall i :: 0 <= i < |acts| ==> NoStart(acts[i])
    ensures var f := Line.Play(Next, Next(s, Start(stream)), acts);
            && f.workers != [] && f.mark <= |f.taken|
            && Values(f.taken[f.mark..]) <= stream
            && var k := f.workers[|f.workers| - 1];
               Values(f.taken[f.mark..]) + Values(f.channel) + k.tail + k.unread == stream
  {
    BeginsCurrent(s, stream);
    StaysCurrent(Next(s, Start(stream)), stream, acts);
    var f := Line.Play(Next, Next(s, Start(stream)), acts);
    SessionSeesItsPort(f);
    var k, got := f.workers[|f.workers| - 1], Values(f.taken[f.mark..]);
    assert got + Values(f.channel) + k.tail + k.unread == got + (Values(f.channel) + k.tail + k.unread);
  }

  lemma OwnedOfSession(before: seq<Item>, since: seq<Item>, channel: seq<Item>, w: nat)
    requires forall i :: 0 <= i < |before| ==> before[i].owner != w
    requires forall i :: 0 <= i < |since| ==> since[i].owner == w
    requires forall i :: 0 <= i < |channel| ==> channel[i].owner == w
    ensures Owned(before + since + channel, w) == Values(since) + Values(channel)
  {
    OwnedAppend(before + since, channel, w);
    OwnedAppend(before, since, w);
    OwnedByOthers(before, w);
    OwnedByOne(since, w);
    OwnedByOne(channel, w);
  }

  // ---------------------------------------------------------------- stopping, and going on until then

  /** Stop tells the goroutine of the last Start, and no other, to end. */
  lemma StopEndsTheCurrent(s: System)
    ensures var s', n := Next(s, Stop), |s.workers|;
            && |s'.workers| == n && s'.channel == s.channel && s'.taken == s.taken && s'.mark == s.mark
            && (forall w :: 0 <= w < n - 1 ==> s'.workers[w] == s.workers[w])
            && (n > 0 ==> s'.workers[n - 1] == s.workers[n - 1].(stopped := true))
  {
  }

  /** How often goroutine w's Read returns in a run. */
  function ReadsBy(s: System, acts: seq<Act>, w: nat): nat
    decreases |acts|
  {
    if acts == [] then 0
    else (if Enabled(s, acts[0]) && acts[0].ReadReturns? && acts[0].w == w then 1 else 0)
         + ReadsBy(Next(s, acts[0]), acts[1..], w)
  }

  /** Told to stop, a goroutine begins no further Read: at most the one it is in returns, whatever
      the interleaving, restarts included. */
  lemma {:induction false} StoppedReadsNoMore(s: System, acts: seq<Act>, w: nat)
    requires w < |s.workers| && s.workers[w].stopped
    ensures ReadsBy(s, acts, w) <= if s.workers[w].pc.Reading? then 1 else 0
    decreases |acts|
  {
    if acts != [] {
      StoppedStep(s, acts[0], w);
      StoppedReadsNoMore(Next(s, acts[0]), acts[1..], w);
    }
  }

  lemma StoppedStep(s: System, a: Act, w: nat)
    requires w < |s.workers| && s.workers[w].stopped
    ensures var s' := Next(s, a);
            && w < |s'.workers| && s'.workers[w].stopped
            && (s'.workers[w].pc.Reading? ==> s.workers[w].pc.Reading?)
            && (Enabled(s, a) && a.ReadReturns? && a.w == w ==>
                  s.workers[w].pc.Reading? && !s'.workers[w].pc.Reading?)
  {
  }

  /** What takes a goroutine that was told to stop to its end, and how far that is. */
  function ExitAct(k: Worker, w: nat): Act
  {
    match k.pc
    case Reading => ReadReturns(w, 0, false)
    case Pushing => if k.tail != [] then AbortPush(w) else Again(w)
    case _ => Check(w)
  }

  function Distance(pc: Pc): nat
  {
    match pc
    case Reading => 3
    case Pushing => 2
    case Top => 1
    case Exited => 0
  }

  /** Wherever it stands it can come to its end, whether or not the channel has room. */
  lemma StoppedCanExit(s: System, w: nat) returns (acts: seq<Act>)
    requires w < |s.workers| && s.workers[w].stopped
    ensures |acts| <= 3 && forall i :: 0 <= i < |acts| ==> WorkerAct(acts[i]) && acts[i].w == w
    ensures |acts| <= Distance(s.workers[w].pc)
    ensures var f := Line.Play(Next, s, acts); w < |f.workers| && f.workers[w].pc.Exited?
    decreases Distance(s.workers[w].pc)
  {
    acts := [];
    if !s.workers[w].pc.Exited? {
      var a := ExitAct(s.workers[w], w);
      var rest := StoppedCanExit(Next(s, a), w);
      acts := [a] + rest;
      Line.PlayFirst(Next, s, acts);
    }
  }

  /** Only being stopped or a failing Read ends a goroutine. */
  lemma EndsOnlyWhenStopped(s: System, a: Act, w: nat)
    requires w < |s.workers| && !s.workers[w].pc.Exited?
    requires w < |Next(s, a).workers| && Next(s, a).workers[w].pc.Exited?
    ensures s.workers[w].stopped || (a.ReadReturns? && a.w == w && a.fatal)
  {
  }

  /** Until then nothing is held back: from any state of a session, with its goroutine alive, there
      is a way on by which the consumer comes to have the port's whole stream. */
  lemma CanDeliverAll(s: System, stream: seq<byte>) returns (acts: seq<Act>)
    requires Current(s, stream)
    requires !s.workers[|s.workers| - 1].stopped && !s.workers[|s.workers| - 1].pc.Exited?
    ensures forall i :: 0 <= i < |acts| ==> NoStart(acts[i])
    ensures var f := Line.Play(Next, s, acts); f.mark <= |f.taken| && Values(f.taken[f.mark..]) == stream
    decreases |s.workers[|s.workers| - 1].unread|, |s.workers[|s.workers| - 1].tail|, |s.channel|,
              Awaits(s.workers[|s.workers| - 1].pc)
  {
    var k := s.workers[|s.workers| - 1];
    assert Conserved(s, |s.workers| - 1);
    acts := [];
    if s.channel == [] && k.tail == [] && k.unread == [] {
      SessionSeesItsPort(s);
      assert Values(s.taken[s.mark..]) + Values(s.channel) + k.tail + k.unread == Values(s.taken[s.mark..]);
    } else {
      var a := Due(s);
      StepKeepsCurrent(s, stream, a);
      DueDecreases(s);
      var rest := CanDeliverAll(Next(s, a), stream);
      acts := [a] + rest;
      Line.PlayFirst(Next, s, acts);
    }
  }

  /** The act that brings the next byte nearer to the consumer. */
  function Due(s: System): Act
    requires s.workers != []
  {
    var w, k := |s.workers| - 1, s.workers[|s.workers| - 1];
    if s.channel != [] then Recv
    else if k.tail != [] then Push(w)
    else match k.pc
      case Pushing => Again(w)
      case Reading => ReadReturns(w, 1, false)
      case _ => Check(w)
  }

  function Awaits(pc: Pc): nat
  {
    match pc
    case Pushing => 3
    case Top => 2
    case _ => 1
  }

  lemma DueDecreases(s: System)
    requires Sound(s) && s.workers != []
    requires var k := s.workers[|s.workers| - 1];
             && !k.stopped && !k.pc.Exited? && (s.channel != [] || k.tail != [] || k.unread != [])
    ensures var s', k := Next(s, Due(s)), s.workers[|s.workers| - 1];
            && |s'.workers| == |s.workers| && NoStart(Due(s))
            && var k' := s'.workers[|s.workers| - 1];
               && !k'.stopped && !k'.pc.Exited?
               && (|| |k'.unread| < |k.unread|
                   || (k'.unread == k.unread
                       && (|| |k'.tail| < |k.tail|
                           || (k'.tail == k.tail
                               && (|| |s'.channel| < |s.channel|
                                   || (s'.channel == s.channel && Awaits(k'.pc) < Awaits(k.pc)))))))
  {
    assert Conserved(s, |s.workers| - 1);
  }

  /** So a restart that finds the earlier goroutines done can deliver the new port's whole stream. */
  lemma RestartCanDeliverAll(s: System, stream: seq<byte>) returns (acts: seq<Act>)
    requires Sound(s) && forall w :: 0 <= w < |s.workers| ==> !CanPush(s.workers[w])
    ensures forall i :: 0 <= i < |acts| ==> NoStart(acts[i])
    ensures var f := Line.Play(Next, Next(s, Start(stream)), acts);
            f.mark <= |f.taken| && Values(f.taken[f.mark..]) == stream
  {
    BeginsCurrent(s, stream);
    acts := CanDeliverAll(Next(s, Start(stream)), stream);
  }

  // ---------------------------------------------------------------- the consumer's loops

  class Reader {
    var system: System

    constructor ()
      ensures system == IDLE
    {
      system := IDLE;
    }

    /** The goroutines run for a while. */
    method Interfere(acts: seq<Act>)
      modifies this
      ensures system == Line.Play(Next, old(system), acts)
    {
      var i := 0;
      ghost var all := Line.Play(Next, system, acts);
      assert acts[0..] == acts;
      while i < |acts|
        invariant 0 <= i <= |acts| && Line.Play(Next, system, acts[i..]) == all
      {
        assert acts[i..][1..] == acts[i + 1..];
        system := Next(system, acts[i]);
        i := i + 1;
      }
    }

    /** Drains what the last session left and starts a goroutine on a new port. */
    method StartReading(stream: seq<byte>)
      modifies this
      ensures system == Next(old(system), Start(stream))
    {
      while system.channel != []
        invariant system.workers == old(system.workers) && system.mark == old(system.mark)
        invariant system.taken + system.channel == old(system.taken) + old(system.channel)
        decreases |system.channel|
      {
        assert system.taken + [system.channel[0]] + system.channel[1..] == system.taken + system.channel;
        system := Next(system, Recv);
      }
      assert system.taken + [] == system.taken;
      system := System(system.workers + [Worker(stream, stream, [], Top, false)], [], system.taken, |system.taken|);
    }

    /** Closes the current done channel; closing it again does nothing. */
    method StopReading()
      modifies this
      ensures system == Next(old(system), Stop) == Next(Next(old(system), Stop), Stop)
    {
      if system.workers == [] {
        return;
      }
      var w := |system.workers| - 1;
      if !system.workers[w].stopped {
        system := system.(workers := system.workers[w := system.workers[w].(stopped := true)]);
      }
    }

    /** Takes bytes until it finds the channel empty, while the goroutines go on between any two:
        what it returns is what it took out, in order. */
    method Read(schedule: seq<seq<Act>>) returns (buffer: seq<byte>, ghost got: seq<Item>)
      requires forall i, j :: 0 <= i < |schedule| && 0 <= j < |schedule[i]| ==> WorkerAct(schedule[i][j])
      modifies this
      ensures system.channel == [] && system.mark == old(system.mark)
      ensures system.taken == old(system.taken) + got && buffer == Values(got)
      ensures schedule == [] ==> got == old(system.channel)
    {
      buffer, got := [], [];
      var round := 0;
      while true
        invariant 0 <= round <= |schedule| && system.mark == old(system.mark)
        invariant system.taken == old(system.taken) + got && buffer == Values(got)
        invariant schedule == [] ==> got + system.channel == old(system.channel)
        decreases |schedule| - round, |system.channel|
      {
        if round < |schedule| {
          WorkersTakeNothing(system, schedule[round]);
          Interfere(schedule[round]);
          round := round + 1;
        }
        if system.channel == [] {
          return;
        }
        var item := system.channel[0];
        system := Next(system, Recv);
        buffer := buffer + [item.value];
        ValuesAppend(got, [item]);
        got := got + [item];
      }
    }
  }

  lemma {:induction false} WorkersTakeNothing(s: System, acts: seq<Act>)
    requires forall i :: 0 <= i < |acts| ==> WorkerAct(acts[i])
    ensures Line.Play(Next, s, acts).taken == s.taken && Line.Play(Next, s, acts).mark == s.mark
    decreases |acts|
  {
    if acts != [] {
      WorkersTakeNothing(Next(s, acts[0]), acts[1..]);
    }
  }
}
