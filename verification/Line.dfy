/** What a session loop sees of the world on one pass: whether its context was cancelled, a user
    command posted meanwhile, and the outcome of the serial read. A list of ticks is one way a
    byte stream can be cut into reads, with every timing and every posted command. */
module Line {
  import opened Bytes

  /** A read that timed out is not an error to the loops; any other failure ends them. */
  datatype Failure = Fine | Timeout | Broken

  /** now is the clock as the pass starts, heard the clock once its read has returned. */
  datatype Tick = Tick(now: int, heard: int, cancelled: bool, command: Option<string>, data: seq<byte>,
                       failure: Failure)

  datatype Exit = Cancelled | ReadFailed | TimedOut | Panicked | Normal

  /** A loop still running in state s, or ended with an exit in state s. */
  datatype Status<+S> = Running(s: S) | Stopped(exit: Exit, s: S)

  const SILENCE := Tick(0, 0, false, None, [], Timeout)

  function Silence(n: nat): seq<Tick> { seq(n, i => SILENCE) }

  /** The ticks are those of the script, and silence once it is used up. */
  predicate Fed(script: seq<Tick>, ticks: seq<Tick>)
  {
    forall i :: 0 <= i < |ticks| ==> ticks[i] == if i < |script| then script[i] else SILENCE
  }

  /** The command pending after a tick. */
  function Posted(t: Tick, pending: string): string
  {
    if t.command.Some? then t.command.value else pending
  }

  /** A user command's bytes, if the name is known; the empty name is no command. */
  function UserCommand(commands: map<string, seq<byte>>, name: string): Option<seq<byte>>
  {
    if name != "" && name in commands then Some(commands[name]) else None
  }

  /** The state after a list of ticks. */
  function After<S>(step: (S, Tick) -> Status<S>, s: S, ticks: seq<Tick>): Status<S>
  {
    if ticks == [] then Running(s)
    else
      var st := step(s, ticks[0]);
      if st.Stopped? then st else After(step, st.s, ticks[1..])
  }

  lemma {:induction false} AfterAppend<S>(step: (S, Tick) -> Status<S>, s: S, a: seq<Tick>, b: seq<Tick>)
    ensures After(step, s, a + b) ==
            var st := After(step, s, a);
            if st.Stopped? then st else After(step, st.s, b)
  {
    if a == [] {
      assert a + b == b;
    } else {
      assert (a + b)[1..] == a[1..] + b;
      var st := step(s, a[0]);
      if st.Running? {
        AfterAppend(step, st.s, a[1..], b);
      }
    }
  }

  lemma AfterOne<S>(step: (S, Tick) -> Status<S>, s: S, ticks: seq<Tick>, t: Tick)
    requires After(step, s, ticks).Running?
    ensures After(step, s, ticks + [t]) == step(After(step, s, ticks).s, t)
  {
    AfterAppend(step, s, ticks, [t]);
  }

  /** A property every step keeps holds after any ticks, in the last state of a stopped run too. */
  lemma {:induction false} AfterKeeps<S(!new)>(step: (S, Tick) -> Status<S>, inv: S -> bool, s: S, ticks: seq<Tick>)
    requires inv(s)
    requires forall s', t :: inv(s') ==> inv(step(s', t).s)
    ensures inv(After(step, s, ticks).s)
  {
    if ticks != [] && step(s, ticks[0]).Running? {
      AfterKeeps(step, inv, step(s, ticks[0]).s, ticks[1..]);
    }
  }

  /** How many ticks at the end of the list brought no bytes. */
  function Quiet(ticks: seq<Tick>): (n: nat)
    ensures n <= |ticks| && forall i :: |ticks| - n <= i < |ticks| ==> ticks[i].data == []
    ensures n < |ticks| ==> ticks[|ticks| - n - 1].data != []
  {
    if ticks == [] then 0
    else
      var n := Quiet(ticks[1..]);
      if n == |ticks| - 1 && ticks[0].data == [] then n + 1 else n
  }

  /** A counter of passes since the last byte counts the quiet ticks. */
  lemma {:induction false} CounterIsQuiet<S(!new)>(
    step: (S, Tick) -> Status<S>, count: S -> nat, s: S, ticks: seq<Tick>)
    requires forall s', t :: step(s', t).Running? ==>
               count(step(s', t).s) == if t.data == [] then count(s') + 1 else 0
    requires After(step, s, ticks).Running?
    ensures count(After(step, s, ticks).s) == Quiet(ticks) + if Quiet(ticks) == |ticks| then count(s) else 0
  {
    if ticks != [] {
      CounterIsQuiet(step, count, step(s, ticks[0]).s, ticks[1..]);
    }
  }

  /** When bytes last came: at the latest tick that brought some, or at the start. */
  function LastHeard(start: int, ticks: seq<Tick>): int
    decreases |ticks|
  {
    if ticks == [] then start else LastHeard(if ticks[0].data != [] then ticks[0].heard else start, ticks[1..])
  }

  lemma {:induction false} StampIsLastHeard<S(!new)>(
    step: (S, Tick) -> Status<S>, stamp: S -> int, s: S, ticks: seq<Tick>)
    requires forall s', t :: step(s', t).Running? ==>
               stamp(step(s', t).s) == if t.data != [] then t.heard else stamp(s')
    requires After(step, s, ticks).Running?
    ensures stamp(After(step, s, ticks).s) == LastHeard(stamp(s), ticks)
  {
    if ticks != [] {
      StampIsLastHeard(step, stamp, step(s, ticks[0]).s, ticks[1..]);
    }
  }

  /** A loop that stops when its counter of empty reads reaches a limit ends in silence. */
  lemma {:induction false} SilenceRunsOut<S(!new)>(
    step: (S, Tick) -> Status<S>, count: S -> nat, limit: nat, s: S, n: nat)
    requires n > 0 && count(s) + n > limit
    requires forall s' :: count(s') >= limit ==> step(s', SILENCE).Stopped?
    requires forall s' :: step(s', SILENCE).Running? ==> count(step(s', SILENCE).s) == count(s') + 1
    ensures After(step, s, Silence(n)).Stopped?
    decreases n
  {
    assert Silence(n)[1..] == Silence(n - 1);
    if step(s, SILENCE).Running? {
      SilenceRunsOut(step, count, limit, step(s, SILENCE).s, n - 1);
    }
  }

  /** The names posted by a list of ticks. */
  function Posts(ticks: seq<Tick>): seq<string>
  {
    if ticks == [] then []
    else (if ticks[0].command.Some? then [ticks[0].command.value] else []) + Posts(ticks[1..])
  }

  /** A step leaves the pending command alone, but for what is posted, or takes it and clears it. */
  predicate TakesPending(pending: string, taken: seq<string>, t: Tick, pending': string, taken': seq<string>)
  {
    || (taken' == taken && (pending' == pending || pending' == Posted(t, pending)))
    || (taken' == taken + [Posted(t, pending)] && pending' == "")
  }

  /** When a step may only take the pending command, clearing it, every name posted is taken at
      most once: what was taken since and what is still pending was posted, or pending before. */
  lemma {:induction false} PostsTakenAtMostOnce<S(!new)>(
    step: (S, Tick) -> Status<S>, pending: S -> string, taken: S -> seq<string>, s: S, ticks: seq<Tick>, name: string)
    requires name != ""
    requires forall s', t :: TakesPending(pending(s'), taken(s'), t, pending(step(s', t).s), taken(step(s', t).s))
    ensures var f := After(step, s, ticks).s;
            multiset(taken(f))[name] + (if pending(f) == name then 1 else 0)
            <= multiset(taken(s))[name] + (if pending(s) == name then 1 else 0) + multiset(Posts(ticks))[name]
  {
    if ticks != [] {
      var s' := step(s, ticks[0]).s;
      assert multiset(Posts(ticks))[name] == multiset(Posts(ticks[1..]))[name] +
             (if ticks[0].command == Some(name) then 1 else 0);
      if step(s, ticks[0]).Running? {
        PostsTakenAtMostOnce(step, pending, taken, s', ticks[1..], name);
      }
    }
  }

  lemma {:induction false} NeverPosted(ticks: seq<Tick>, name: string)
    requires forall i :: 0 <= i < |ticks| ==> ticks[i].command != Some(name)
    ensures multiset(Posts(ticks))[name] == 0
  {
    if ticks != [] {
      NeverPosted(ticks[1..], name);
    }
  }

  /** Names of a kind that was neither pending nor posted are never taken. */
  lemma OnlyPostsAreTaken<S(!new)>(
    step: (S, Tick) -> Status<S>, pending: S -> string, taken: S -> seq<string>, s: S, ticks: seq<Tick>,
    known: string -> bool)
    requires taken(s) == [] && !known("") && !known(pending(s))
    requires forall i :: 0 <= i < |ticks| && ticks[i].command.Some? ==> !known(ticks[i].command.value)
    requires forall s', t :: TakesPending(pending(s'), taken(s'), t, pending(step(s', t).s), taken(step(s', t).s))
    ensures forall name :: name in taken(After(step, s, ticks).s) ==> !known(name)
  {
    forall name | name in taken(After(step, s, ticks).s) ensures !known(name) {
      if known(name) {
        NeverPosted(ticks, name);
        PostsTakenAtMostOnce(step, pending, taken, s, ticks, name);
      }
    }
  }

  lemma OneMoreSilence<S>(step: (S, Tick) -> Status<S>, s: S, n: nat, s': S)
    requires After(step, s, Silence(n)) == Running(s')
    ensures After(step, s, Silence(n + 1)) == step(s', SILENCE)
  {
    assert Silence(n + 1) == Silence(n) + [SILENCE];
    AfterAppend(step, s, Silence(n), [SILENCE]);
  }

  /** Work that each silent pass makes one less of is done after that many silent passes. */
  lemma {:induction false} Countdown<S, W(!new)>(
    step: (S, Tick) -> Status<S>, session: W -> S, left: W -> nat, ok: W -> bool, next: W -> W, w: W) returns (end: W)
    requires ok(w)
    requires forall w' :: ok(w') && left(w') > 0 ==>
               && step(session(w'), SILENCE) == Running(session(next(w')))
               && ok(next(w')) && left(next(w')) == left(w') - 1
    ensures ok(end) && left(end) == 0
    ensures After(step, session(w), Silence(left(w))) == Running(session(end))
    decreases left(w)
  {
    end := w;
    if left(w) > 0 {
      assert Silence(left(w))[1..] == Silence(left(w) - 1);
      end := Countdown(step, session, left, ok, next, next(w));
    }
  }

  // ---------------------------------------------------------------- a loop and its environment

  /** The world after a list of moves, and whether each move was one the environment can make. */
  function Play<W, M>(next: (W, M) -> W, w: W, moves: seq<M>): W
  {
    if moves == [] then w else Play(next, next(w, moves[0]), moves[1..])
  }

  lemma PlayFirst<W, M>(next: (W, M) -> W, w: W, moves: seq<M>)
    requires moves != []
    ensures Play(next, w, moves) == Play(next, next(w, moves[0]), moves[1..])
  {
  }

  predicate AllPossible<W, M>(next: (W, M) -> W, possible: (W, M) -> bool, w: W, moves: seq<M>)
  {
    moves == [] || (possible(w, moves[0]) && AllPossible(next, possible, next(w, moves[0]), moves[1..]))
  }

  lemma {:induction false} PlayKeeps<W(!new), M(!new)>(
    next: (W, M) -> W, possible: (W, M) -> bool, inv: W -> bool, w: W, moves: seq<M>)
    requires inv(w) && AllPossible(next, possible, w, moves)
    requires forall w', m :: inv(w') && possible(w', m) ==> inv(next(w', m))
    ensures inv(Play(next, w, moves))
  {
    if moves != [] {
      PlayKeeps(next, possible, inv, next(w, moves[0]), moves[1..]);
    }
  }

  /** A run of moves and one more. */
  lemma {:induction false} OneMoreMove<W, M>(next: (W, M) -> W, possible: (W, M) -> bool, w: W, moves: seq<M>, m: M)
    requires AllPossible(next, possible, w, moves) && possible(Play(next, w, moves), m)
    ensures AllPossible(next, possible, w, moves + [m])
    ensures Play(next, w, moves + [m]) == next(Play(next, w, moves), m)
  {
    if moves == [] {
      assert Play(next, next(w, m), []) == next(w, m);
    } else {
      assert (moves + [m])[1..] == moves[1..] + [m];
      OneMoreMove(next, possible, next(w, moves[0]), moves[1..], m);
    }
  }

  function Ticks<M>(tick: M -> Tick, moves: seq<M>): (r: seq<Tick>)
    ensures |r| == |moves| && forall i :: 0 <= i < |moves| ==> r[i] == tick(moves[i])
  {
    if moves == [] then [] else [tick(moves[0])] + Ticks(tick, moves[1..])
  }

  lemma {:induction false} PlayIsOver<W, M>(next: (W, M) -> W, w: W, moves: seq<M>)
    requires forall m :: next(w, m) == w
    ensures Play(next, w, moves) == w
  {
    if moves != [] {
      PlayIsOver(next, w, moves[1..]);
    }
  }

  /** A world whose every move is one step of a loop plays that loop, and stands still once the
      loop has ended. */
  lemma {:induction false} PlayIsAfter<S, W(!new), M(!new)>(
    step: (S, Tick) -> Status<S>, tick: M -> Tick, next: (W, M) -> W, possible: (W, M) -> bool,
    session: W -> S, over: W -> bool, w: W, moves: seq<M>)
    requires !over(w) && AllPossible(next, possible, w, moves)
    requires forall w', m :: over(w') ==> next(w', m) == w'
    requires forall w', m :: !over(w') && possible(w', m) ==>
               var st := step(session(w'), tick(m));
               session(next(w', m)) == st.s && over(next(w', m)) == st.Stopped?
    ensures var st := After(step, session(w), Ticks(tick, moves));
            session(Play(next, w, moves)) == st.s && over(Play(next, w, moves)) == st.Stopped?
  {
    if moves != [] {
      var w' := next(w, moves[0]);
      assert Ticks(tick, moves)[1..] == Ticks(tick, moves[1..]);
      if over(w') {
        PlayIsOver(next, w', moves[1..]);
      } else {
        PlayIsAfter(step, tick, next, possible, session, over, w', moves[1..]);
      }
    }
  }
}
