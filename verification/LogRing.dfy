/** internal/ecu/ecu.go: the bounded log ring and its absolute cursors. */
module LogRing {
  const MAX_LOG_LINES: nat := 100

  /** The last min(n, 100) lines of a history. */
  function Retained(history: seq<string>): (r: seq<string>)
    ensures |r| == if |history| < MAX_LOG_LINES then |history| else MAX_LOG_LINES
  {
    if |history| <= MAX_LOG_LINES then history else history[|history| - MAX_LOG_LINES..]
  }

  /** The part of a history a poller with this cursor has not seen and can still get. */
  function Unseen(history: seq<string>, cursor: int): seq<string>
  {
    history[From(|history|, cursor)..]
  }

  /** The index it starts at: the cursor, clamped to the retained lines and to the end. */
  function From(length: nat, cursor: int): (start: nat)
    ensures start <= length
  {
    var oldest := if length < MAX_LOG_LINES then 0 else length - MAX_LOG_LINES;
    if cursor < oldest then oldest else if cursor > length then length else cursor
  }

  class State {
    var logSeq: int
    var logLines: seq<string>
    ghost var history: seq<string>

    /** LogLines is the tail of everything ever appended, and logSeq counts it. */
    ghost predicate Valid()
      reads this
    {
      logSeq == |history| && logLines == Retained(history)
    }

    constructor ()
      ensures Valid() && history == []
    {
      logSeq, logLines, history := 0, [], [];
    }

    method AppendLog(msg: string)
      requires Valid()
      modifies this
      ensures Valid() && history == old(history) + [msg]
    {
      logLines := logLines + [msg];
      logSeq := logSeq + 1;
      if |logLines| > MAX_LOG_LINES {
        logLines := logLines[|logLines| - MAX_LOG_LINES..];
      }
      history := history + [msg];
    }

    method LogLinesCopy() returns (lines: seq<string>)
      requires Valid()
      ensures lines == Retained(history)
    {
      lines := logLines;
    }

    method LogLinesSince(cursor: int) returns (lines: seq<string>, next: int)
      requires Valid()
      ensures lines == Unseen(history, cursor) && next == |history|
    {
      var c := cursor;
      var oldest := logSeq - |logLines|;
      if c < oldest {
        c := oldest;
      }
      if c > logSeq {
        c := logSeq;
      }
      if c == logSeq {
        return [], logSeq;
      }
      lines, next := logLines[c - oldest..], logSeq;
    }
  }

  // ---------------------------------------------------------------- appends and pollers, interleaved

  datatype Event = Append(line: string) | Poll(who: nat)

  /** The history so far; each poller's cursor; what each poller has been given, as lines and as the
      places in the history they came from. */
  datatype Log = Log(
    history: seq<string>, cursor: map<nat, int>, given: map<nat, seq<string>>, places: map<nat, seq<nat>>)

  function CursorOf(l: Log, who: nat): int { if who in l.cursor then l.cursor[who] else 0 }
  function GivenTo(l: Log, who: nat): seq<string> { if who in l.given then l.given[who] else [] }
  function PlacesOf(l: Log, who: nat): seq<nat> { if who in l.places then l.places[who] else [] }

  function Range(lo: nat, hi: nat): (r: seq<nat>)
    requires lo <= hi
    ensures |r| == hi - lo && forall i :: 0 <= i < hi - lo ==> r[i] == lo + i
  {
    seq(hi - lo, i requires 0 <= i => lo + i)
  }

  function Apply(l: Log, e: Event): Log
  {
    match e
    case Append(line) => l.(history := l.history + [line])
    case Poll(who) =>
      var start := From(|l.history|, CursorOf(l, who));
      Log(l.history, l.cursor[who := |l.history|],
          l.given[who := GivenTo(l, who) + Unseen(l.history, CursorOf(l, who))],
          l.places[who := PlacesOf(l, who) + Range(start, |l.history|)])
  }

  function ApplyAll(events: seq<Event>): Log
  {
    if events == [] then Log([], map[], map[], map[])
    else Apply(ApplyAll(events[..|events| - 1]), events[|events| - 1])
  }

  /** Lines given are those at increasing places of a history, all before the cursor. */
  predicate PartOf(given: seq<string>, places: seq<nat>, history: seq<string>, cursor: int)
  {
    && |given| == |places| && 0 <= cursor <= |history|
    && (forall i :: 0 <= i < |places| ==> places[i] < cursor && given[i] == history[places[i]])
    && (forall i, j :: 0 <= i < j < |places| ==> places[i] < places[j])
  }

  /** What a poller has been given is a part of the history, in order and without repetition, ending
      where its cursor stands. */
  predicate InOrder(l: Log, who: nat)
  {
    PartOf(GivenTo(l, who), PlacesOf(l, who), l.history, CursorOf(l, who))
  }

  lemma PartOfLonger(given: seq<string>, places: seq<nat>, history: seq<string>, cursor: int, line: string)
    requires PartOf(given, places, history, cursor)
    ensures PartOf(given, places, history + [line], cursor)
  {
  }

  lemma PartOfPolled(given: seq<string>, places: seq<nat>, history: seq<string>, cursor: int, start: nat)
    requires PartOf(given, places, history, cursor) && cursor <= start <= |history|
    ensures PartOf(given + history[start..], places + Range(start, |history|), history, |history|)
  {
    var all := places + Range(start, |history|);
    forall i, j | 0 <= i < j < |all| ensures all[i] < all[j] {
      if i < |places| <= j {
        assert places[i] < cursor <= all[j];
      }
    }
  }

  lemma {:induction false} PollersSeeHistoryInOrder(events: seq<Event>, who: nat)
    ensures InOrder(ApplyAll(events), who)
  {
    if events != [] {
      var l, e := ApplyAll(events[..|events| - 1]), events[|events| - 1];
      PollersSeeHistoryInOrder(events[..|events| - 1], who);
      var given, places, cursor := GivenTo(l, who), PlacesOf(l, who), CursorOf(l, who);
      match e
      case Append(line) => PartOfLonger(given, places, l.history, cursor, line);
      case Poll(poller) =>
        if poller == who {
          PartOfPolled(given, places, l.history, cursor, From(|l.history|, cursor));
        }
    }
  }

  /** At most 100 lines are appended between two polls of this poller, and before its first. */
  predicate KeepsUp(events: seq<Event>, who: nat)
  {
    forall n :: 0 <= n < |events| && events[n] == Poll(who) ==>
      |ApplyAll(events[..n]).history| - CursorOf(ApplyAll(events[..n]), who) <= MAX_LOG_LINES
  }

  /** A poller has been given the whole history up to its cursor exactly when it has kept up; if it
      has not, the lines it missed are missing for ever. */
  lemma {:induction false} CompleteExactlyWhenKeepingUp(events: seq<Event>, who: nat)
    ensures var l := ApplyAll(events);
            && |GivenTo(l, who)| <= CursorOf(l, who) <= |l.history|
            && (|GivenTo(l, who)| == CursorOf(l, who) <==> KeepsUp(events, who))
  {
    if events != [] {
      var n := |events| - 1;
      var init := events[..n];
      CompleteExactlyWhenKeepingUp(init, who);
      KeepsUpStep(events, who);
    }
  }

  lemma KeepsUpStep(events: seq<Event>, who: nat)
    requires events != []
    ensures var n := |events| - 1;
            var l := ApplyAll(events[..n]);
            KeepsUp(events, who) <==>
            KeepsUp(events[..n], who) && (events[n] == Poll(who) ==> |l.history| - CursorOf(l, who) <= MAX_LOG_LINES)
  {
    var n := |events| - 1;
    var init := events[..n];
    assert forall m :: 0 <= m < n ==> init[..m] == events[..m] && init[m] == events[m];
    if KeepsUp(events, who) {
      forall m | 0 <= m < n && init[m] == Poll(who)
        ensures |ApplyAll(init[..m]).history| - CursorOf(ApplyAll(init[..m]), who) <= MAX_LOG_LINES
      {
        assert events[m] == Poll(who);
      }
    }
  }

  /** A poller that keeps up has been given the history up to its cursor, line by line. */
  lemma PollerThatKeepsUpMissesNothing(events: seq<Event>, who: nat)
    requires KeepsUp(events, who)
    ensures var l := ApplyAll(events);
            0 <= CursorOf(l, who) <= |l.history| && GivenTo(l, who) == l.history[..CursorOf(l, who)]
  {
    var l := ApplyAll(events);
    CompleteExactlyWhenKeepingUp(events, who);
    PollersSeeHistoryInOrder(events, who);
    PlacesFill(PlacesOf(l, who), CursorOf(l, who), 0);
  }

  /** Increasing places, as many as the cursor allows, are all of them. */
  lemma {:induction false} PlacesFill(places: seq<nat>, n: nat, i: nat)
    requires i <= n == |places| && forall j :: 0 <= j < n ==> places[j] < n
    requires forall j, k :: 0 <= j < k < n ==> places[j] < places[k]
    requires forall j :: 0 <= j < i ==> places[j] == j
    ensures forall j :: 0 <= j < n ==> places[j] == j
    decreases n - i
  {
    if i < n {
      RoomAbove(places, n, i);
      assert i > 0 ==> places[i - 1] < places[i];
      PlacesFill(places, n, i + 1);
    }
  }

  lemma {:induction false} RoomAbove(places: seq<nat>, n: nat, i: nat)
    requires |places| == n && i < n && forall j :: 0 <= j < n ==> places[j] < n
    requires forall j, k :: 0 <= j < k < n ==> places[j] < places[k]
    ensures places[i] <= i
    decreases n - i
  {
    if i + 1 < n {
      RoomAbove(places, n, i + 1);
    }
  }

  /** A poller that falls more than 100 lines behind loses exactly the lines the ring dropped. */
  lemma LaggingPollLosesTheOldest(l: Log, who: nat)
    requires InOrder(l, who)
    ensures var lost := |l.history| - CursorOf(l, who) - MAX_LOG_LINES;
            |GivenTo(Apply(l, Poll(who)), who)| ==
            |GivenTo(l, who)| + |l.history| - CursorOf(l, who) - (if lost > 0 then lost else 0)
  {
  }

  function Appends(line: string, n: nat): seq<Event> { seq(n, i => Append(line)) }

  lemma {:induction false} HistoryOfAppends(line: string, n: nat, who: nat)
    ensures var l := ApplyAll(Appends(line, n));
            |l.history| == n && CursorOf(l, who) == 0 && GivenTo(l, who) == []
  {
    if n > 0 {
      HistoryOfAppends(line, n - 1, who);
      assert Appends(line, n)[..n - 1] == Appends(line, n - 1);
    }
  }

  /** One run in which a line is missed: 101 are appended and then polled for. */
  lemma OneLineTooMany(line: string, who: nat)
    ensures var events := Appends(line, 101) + [Poll(who)];
            !KeepsUp(events, who) && |GivenTo(ApplyAll(events), who)| == 100 && CursorOf(ApplyAll(events), who) == 101
  {
    var events := Appends(line, 101) + [Poll(who)];
    assert events[..101] == Appends(line, 101) && events[101] == Poll(who);
    HistoryOfAppends(line, 101, who);
    PollersSeeHistoryInOrder(events[..101], who);
    LaggingPollLosesTheOldest(ApplyAll(events[..101]), who);
    CompleteExactlyWhenKeepingUp(events, who);
  }
}
