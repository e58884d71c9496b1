/** internal/ecu/mems19/mems19.go: the bit-banged 5-baud address and the keyword handshake of ISO 9141-2. */
module SlowInit {
  import opened Bytes
  import opened Auth

  const BIT_TIME: nat := 200  // milliseconds
  const ECU_ADDRESS: nat := 0x16

  /** A stretch of line level: high is idle, low is a break. */
  datatype Segment = Segment(high: bool, ms: nat)

  // ---------------------------------------------------------------- the waveform

  /** How many bits at the start of a frame equal its first. */
  function RunLength(frame: seq<bool>): (n: nat)
    requires frame != []
    ensures 0 < n <= |frame|
    ensures forall i :: 0 <= i < n ==> frame[i] == frame[0]
    ensures n < |frame| ==> frame[n] != frame[0]
  {
    if |frame| > 1 && frame[1] == frame[0] then RunLength(frame[1..]) + 1 else 1
  }

  /** The maximal runs of a frame as line segments. */
  function Runs(frame: seq<bool>): seq<Segment>
    decreases |frame|
  {
    if frame == [] then []
    else
      var n := RunLength(frame);
      [Segment(frame[0], n * BIT_TIME)] + Runs(frame[n..])
  }

  function Repeat(b: bool, n: nat): (r: seq<bool>)
    ensures |r| == n && forall i :: 0 <= i < n ==> r[i] == b
  {
    seq(n, i => b)
  }

  /** The line sampled once per bit time. */
  function Sample(segments: seq<Segment>): seq<bool>
  {
    if segments == [] then [] else Repeat(segments[0].high, segments[0].ms / BIT_TIME) + Sample(segments[1..])
  }

  function Duration(segments: seq<Segment>): nat
  {
    if segments == [] then 0 else segments[0].ms + Duration(segments[1..])
  }

  predicate Alternating(segments: seq<Segment>)
  {
    forall i :: 0 <= i < |segments| - 1 ==> segments[i].high != segments[i + 1].high
  }

  lemma SampleHead(high: bool, n: nat, rest: seq<Segment>)
    ensures Sample([Segment(high, n * BIT_TIME)] + rest) == Repeat(high, n) + Sample(rest)
  {
    var segments := [Segment(high, n * BIT_TIME)] + rest;
    assert segments[0].ms / BIT_TIME == n && segments[1..] == rest;
  }

  lemma FirstRun(frame: seq<bool>, n: nat)
    requires frame != [] && n <= |frame| && forall i :: 0 <= i < n ==> frame[i] == frame[0]
    ensures Repeat(frame[0], n) + frame[n..] == frame
  {
    assert Repeat(frame[0], n) == frame[..n];
  }

  /** Sampling the runs gives the frame back. */
  lemma {:induction false} SampledRuns(frame: seq<bool>)
    ensures Sample(Runs(frame)) == frame
    decreases |frame|
  {
    if frame != [] {
      var n := RunLength(frame);
      var rest := frame[n..];
      SampledRuns(rest);
      SampleHead(frame[0], n, Runs(rest));
      FirstRun(frame, n);
    }
  }

  /** Levels alternate, so the runs are maximal: no two pulses are glued together or split. */
  lemma {:induction false} RunsAlternate(frame: seq<bool>)
    ensures Alternating(Runs(frame))
    ensures frame != [] ==> Runs(frame) != [] && Runs(frame)[0].high == frame[0]
    decreases |frame|
  {
    if frame != [] {
      var rest := frame[RunLength(frame)..];
      RunsAlternate(rest);
      forall i | 0 <= i < |Runs(frame)| - 1 ensures Runs(frame)[i].high != Runs(frame)[i + 1].high {
        if i > 0 {
          assert Runs(frame)[i] == Runs(rest)[i - 1];
        }
      }
    }
  }

  /** The whole takes 200 ms per bit. */
  lemma {:induction false} RunsDuration(frame: seq<bool>)
    ensures Duration(Runs(frame)) == |frame| * 200
    decreases |frame|
  {
    if frame != [] {
      var n := RunLength(frame);
      RunsDuration(frame[n..]);
      assert Runs(frame)[1..] == Runs(frame[n..]);
    }
  }

  /** Start bit, eight bits least significant first, stop bit. */
  function UartFrame(address: byte): (r: seq<bool>)
    ensures |r| == 10
  {
    [false] + Bits(8, address) + [true]
  }

  /** A UART at the other end, sampling once per bit, reads the address. */
  lemma UartReadsAddress(address: byte)
    ensures var line := Sample(Runs(UartFrame(address)));
            |line| == 10 && !line[0] && line[9] && Value(line[1..9]) == address
  {
    SampledRuns(UartFrame(address));
    Powers();
    assert UartFrame(address)[1..9] == Bits(8, address);
    ValueOfBits(8, address);
  }

  /** The wake-up of address 0x16 in milliseconds: 0 0 1 1 0 1 0 0 0 1 at 200 each. */
  const WAKE_UP: seq<Segment> := [
    Segment(false, 400), Segment(true, 400), Segment(false, 200), Segment(true, 200), Segment(false, 600),
    Segment(true, 200)]

  lemma WakeUpRuns()
    ensures Runs(UartFrame(ECU_ADDRESS)) == WAKE_UP
  {
    hide Runs, UartFrame;
    var frame := [false, false, true, true, false, true, false, false, false, true];
    FrameOf0x16();
    NoRuns();
    assert frame[0..] == frame;
    NextRun(frame, 0, 2);
    NextRun(frame, 2, 4);
    NextRun(frame, 4, 5);
    NextRun(frame, 5, 6);
    NextRun(frame, 6, 9);
    NextRun(frame, 9, 10);
    assert frame[10..] == [];
  }

  lemma NoRuns()
    ensures Runs([]) == []
  {
  }

  lemma FrameOf0x16()
    ensures UartFrame(ECU_ADDRESS) == [false, false, true, true, false, true, false, false, false, true]
  {
    hide Bits;
    NextBit(8, 0x16);
    NextBit(7, 11);
    NextBit(6, 5);
    NextBit(5, 2);
    NextBit(4, 1);
    NextBit(3, 0);
    NextBit(2, 0);
    NextBit(1, 0);
    NextBit(0, 0);
  }

  lemma NextBit(width: nat, x: nat)
    ensures Bits(width, x) == if width == 0 then [] else [x % 2 == 1] + Bits(width - 1, x / 2)
  {
  }

  /** The inner loop: where the run starting at bit i ends. */
  method EndOfRun(frame: seq<bool>, i: nat) returns (j: nat)
    requires i < |frame|
    ensures i < j <= |frame|
    ensures Runs(frame[i..]) == [Segment(frame[i], (j - i) * BIT_TIME)] + Runs(frame[j..])
  {
    j := i;
    while j < |frame| && frame[j] == frame[i]
      invariant i <= j <= |frame| && forall m :: i <= m < j ==> frame[m] == frame[i]
    {
      j := j + 1;
    }
    NextRun(frame, i, j);
  }

  /** The K-line: what has been driven onto it, and how many Break calls the driver still honours. */
  class KLine {
    var driven: seq<Segment>
    var breaksLeft: nat

    constructor (breaksLeft: nat)
      ensures driven == [] && this.breaksLeft == breaksLeft
    {
      driven, this.breaksLeft := [], breaksLeft;
    }

    method Break(ms: nat) returns (ok: bool)
      modifies this
      ensures ok <==> old(breaksLeft) > 0
      ensures driven == if ok then old(driven) + [Segment(false, ms)] else old(driven)
      ensures breaksLeft == if ok then old(breaksLeft) - 1 else 0
    {
      ok := breaksLeft > 0;
      if ok {
        driven := driven + [Segment(false, ms)];
        breaksLeft := breaksLeft - 1;
      }
    }

    method Sleep(ms: nat)
      modifies this`driven
      ensures driven == old(driven) + [Segment(true, ms)]
    {
      driven := driven + [Segment(true, ms)];
    }

    /** Holds the line low with a Break, or high by doing nothing. */
    method Drive(high: bool, ms: nat) returns (ok: bool)
      modifies this
      ensures driven == if ok then old(driven) + [Segment(high, ms)] else old(driven)
      ensures !ok ==> !high && breaksLeft == 0
    {
      ok := true;
      if !high {
        ok := Break(ms);
      } else {
        Sleep(ms);
      }
    }

    /** Drives a frame onto the line run by run. */
    method SendFrame(frame: seq<bool>) returns (ok: bool)
      modifies this
      ensures ok ==> driven == old(driven) + Runs(frame)
      ensures !ok ==> breaksLeft == 0 && exists k :: 0 <= k < |Runs(frame)| && !Runs(frame)[k].high
                                                  && driven == old(driven) + Runs(frame)[..k]
    {
      var i := 0;
      ghost var sent: seq<Segment> := [];
      assert frame[0..] == frame;
      while i < |frame|
        invariant 0 <= i <= |frame|
        invariant sent + Runs(frame[i..]) == Runs(frame)
        invariant driven == old(driven) + sent
      {
        var j := EndOfRun(frame, i);
        var d := (j - i) * BIT_TIME;
        ok := Drive(frame[i], d);
        if !ok {
          assert Runs(frame)[..|sent|] == sent && Runs(frame)[|sent|] == Segment(false, d);
          return;
        }
        Associative(sent, [Segment(frame[i], d)], Runs(frame[j..]));
        sent := sent + [Segment(frame[i], d)];
        i := j;
      }
      ok := true;
    }

    method Send5BaudWakeup() returns (ok: bool)
      modifies this
      ensures ok ==> driven == old(driven) + [Segment(true, 500)] + WAKE_UP
      ensures !ok ==> exists k :: 0 <= k < |WAKE_UP| && !WAKE_UP[k].high
                                  && driven == old(driven) + [Segment(true, 500)] + WAKE_UP[..k]
    {
      var frame := [false];
      var rest := ECU_ADDRESS;
      for i := 0 to 8
        invariant frame + Bits(8 - i, rest) == [false] + Bits(8, ECU_ADDRESS)
      {
        frame := frame + [rest % 2 == 1];
        rest := rest / 2;
      }
      frame := frame + [true];
      assert frame == UartFrame(ECU_ADDRESS);
      WakeUpRuns();
      Sleep(500);
      ok := SendFrame(frame);
    }
  }

  lemma RunEnds(frame: seq<bool>, n: nat)
    requires 0 < n <= |frame| && forall i :: 0 <= i < n ==> frame[i] == frame[0]
    requires n < |frame| ==> frame[n] != frame[0]
    ensures RunLength(frame) == n
  {
  }

  lemma NextRun(frame: seq<bool>, i: nat, j: nat)
    requires i < j <= |frame| && forall m :: i <= m < j ==> frame[m] == frame[i]
    requires j < |frame| ==> frame[j] != frame[i]
    ensures Runs(frame[i..]) == [Segment(frame[i], (j - i) * BIT_TIME)] + Runs(frame[j..])
  {
    RunEnds(frame[i..], j - i);
    assert frame[i..][j - i..] == frame[j..];
  }

  // ---------------------------------------------------------------- the keyword handshake

  /** The two bytes after the first 0x55, if they are there. */
  function KeywordAfterSync(b: seq<byte>): Option<(byte, byte)>
  {
    if b == [] then None
    else if b[0] == 0x55 then if |b| >= 3 then Some((b[1], b[2])) else None
    else KeywordAfterSync(b[1..])
  }

  /** The first 0x55 stands at i, with two bytes after it. */
  predicate SyncAt(b: seq<byte>, i: nat)
  {
    i + 2 < |b| && b[i] == 0x55 && forall j :: 0 <= j < i ==> b[j] != 0x55
  }

  /** What the keywords are: in this order, the two bytes after the first 0x55. */
  lemma {:induction false} KeywordsFollowSync(b: seq<byte>, x: byte, y: byte)
    ensures KeywordAfterSync(b) == Some((x, y)) <==> exists i: nat :: SyncAt(b, i) && x == b[i + 1] && y == b[i + 2]
  {
    if b != [] {
      if b[0] == 0x55 {
        assert |b| >= 3 ==> SyncAt(b, 0);
      } else {
        KeywordsFollowSync(b[1..], x, y);
        if i: nat :| SyncAt(b, i) && x == b[i + 1] && y == b[i + 2] {
          assert SyncAt(b[1..], i - 1) && b[1..][i] == b[i + 1] && b[1..][i + 1] == b[i + 2];
        }
        if i: nat :| SyncAt(b[1..], i) && x == b[1..][i + 1] && y == b[1..][i + 2] {
          assert SyncAt(b, i + 1);
        }
      }
    }
  }

  /** The source's search: the first 0x55 that has two bytes after it. */
  method KeywordFrame(b: seq<byte>) returns (kw: Option<(byte, byte)>)
    ensures kw == KeywordAfterSync(b)
  {
    for i := 0 to |b|
      invariant KeywordAfterSync(b) == KeywordAfterSync(b[i..]) || (|b| < i + 2 && KeywordAfterSync(b).None?)
    {
      if b[i] == 0x55 && |b| >= i + 3 {
        return Some((b[i + 1], b[i + 2]));
      }
    }
    return None;
  }

  /** A keyword once found is never changed by what follows. */
  lemma {:induction false} KeywordIsStable(b: seq<byte>, more: seq<byte>)
    requires KeywordAfterSync(b).Some?
    ensures KeywordAfterSync(b + more) == KeywordAfterSync(b)
  {
    if b[0] != 0x55 {
      assert (b + more)[1..] == b[1..] + more;
      KeywordIsStable(b[1..], more);
    }
  }

  /** Padding before it does not matter. */
  lemma {:induction false} KeywordIgnoresPadding(b: seq<byte>)
    ensures KeywordAfterSync(StripZeros(b)) == KeywordAfterSync(b)
  {
    if b != [] && b[0] == 0 {
      KeywordIgnoresPadding(b[1..]);
    }
  }

  /** The outcomes of the reads an exchange makes before and including its deadline. */
  datatype Read = Data(bytes: seq<byte>) | Failed | Deadline

  /** readUntil: the buffer, whether it matched, whether a read failed, and the script left over. */
  datatype Exchange = Exchange(buf: seq<byte>, ok: bool, failed: bool, rest: seq<Read>)

  type Match = seq<byte> -> bool

  function Until(found: Match, buf: seq<byte>, script: seq<Read>): (x: Exchange)
    ensures x.ok ==> found(x.buf)
    decreases |script|
  {
    if script == [] then Exchange(buf, false, false, [])
    else match script[0]
      case Deadline => Exchange(buf, false, false, script[1..])
      case Failed => Exchange(buf, false, true, script[1..])
      case Data(bytes) =>
        var next := StripZeros(buf + bytes);
        if bytes == [] then Until(found, buf, script[1..])
        else if found(next) then Exchange(next, true, false, script[1..])
        else Until(found, next, script[1..])
  }

  function HasKeyword(): (f: Match)
    ensures forall b :: f(b) == KeywordAfterSync(b).Some?
  {
    b => KeywordAfterSync(b).Some?
  }

  function HasEcho(): Match { (b: seq<byte>) => 0xE9 in b }

  datatype Handshake = Complete | ReadError | WriteError | EchoTimeout

  /** What the reads to come deliver, what has been written, and whether the port still takes a byte. */
  class Port {
    var script: seq<Read>
    var written: seq<byte>
    const writable: bool

    constructor (script: seq<Read>, writable: bool)
      ensures this.script == script && written == [] && this.writable == writable
    {
      this.script, written, this.writable := script, [], writable;
    }

    method Write(b: byte) returns (ok: bool)
      modifies this`written
      ensures ok == writable && written == if ok then old(written) + [b] else old(written)
    {
      ok := writable;
      if ok {
        written := written + [b];
      }
    }

    method ReadUntil(found: Match) returns (buf: seq<byte>, ok: bool, failed: bool)
      modifies this`script
      ensures Exchange(buf, ok, failed, script) == Until(found, [], old(script))
    {
      buf := [];
      while script != []
        invariant Until(found, buf, script) == Until(found, [], old(script))
        decreases |script|
      {
        var r := script[0];
        script := script[1..];
        if r.Deadline? {
          return buf, false, false;
        }
        if r.Failed? {
          return buf, false, true;
        }
        if |r.bytes| == 0 {
          continue;
        }
        buf := buf + r.bytes;
        buf := StripLeadingZeros(buf);
        if found(buf) {
          return buf, true, false;
        }
      }
      return buf, false, false;
    }

    method HandleWakeUpHandshake() returns (result: Handshake)
      modifies this
      ensures var x := Until(HasKeyword(), [], old(script));
              var y := Until(HasEcho(), [], x.rest);
              if x.failed then result == ReadError && written == old(written)
              else if !writable then result == WriteError && written == old(written)
              else
                && written == old(written) + [Challenge(x)]
                && result == if y.failed then ReadError else if y.ok then Complete else EchoTimeout
    {
      var challengeResponse := 0x7C;
      var buf, ok, failed := ReadUntil(HasKeyword());
      if failed {
        return ReadError;
      }
      if ok {
        var kw := KeywordFrame(buf);
        challengeResponse := XorByte(kw.value.1, 0xFF);
      }
      var sent := Write(challengeResponse);
      if !sent {
        return WriteError;
      }
      buf, ok, failed := ReadUntil(HasEcho());
      if failed {
        return ReadError;
      }
      if !ok {
        return EchoTimeout;
      }
      return Complete;
    }
  }

  /** The byte that answers the keywords: KW2 complemented, or 0x7C if none were seen. */
  function Challenge(x: Exchange): byte
    requires x.ok ==> KeywordAfterSync(x.buf).Some?
  {
    if x.ok then XorByte(KeywordAfterSync(x.buf).value.1, 0xFF) else 0x7C
  }

  // ---------------------------------------------------------------- independence of the cut

  /** Everything the reads deliver before the deadline or a failure. */
  function Heard(script: seq<Read>): seq<byte>
  {
    if script == [] || !script[0].Data? then [] else script[0].bytes + Heard(script[1..])
  }

  /** Whether a read fails before the deadline. */
  predicate Fails(script: seq<Read>)
  {
    script != [] && (script[0].Failed? || (script[0].Data? && Fails(script[1..])))
  }

  /** A match is not undone by further bytes, nor by leading zeros. */
  ghost predicate Stable(found: Match)
  {
    && (forall b: seq<byte>, more: seq<byte> {:trigger found(b + more)} :: found(b) ==> found(b + more))
    && (forall b: seq<byte> {:trigger StripZeros(b)} :: found(StripZeros(b)) <==> found(b))
  }

  /** Matching early and stripping at each read never changes the answer: when raw has been read
      without a match, the exchange matches exactly when the whole of what is heard does, on a part
      of it, and fails exactly when a read fails before that. */
  lemma {:induction false} CutDoesNotMatter(found: Match, raw: seq<byte>, script: seq<Read>) returns (part: seq<byte>)
    requires Stable(found) && !found(raw)
    ensures var x, whole := Until(found, StripZeros(raw), script), raw + Heard(script);
            && (x.ok <==> found(whole)) && (x.failed <==> !found(whole) && Fails(script))
            && (x.ok ==> part <= whole && found(part) && x.buf == StripZeros(part))
    decreases |script|
  {
    part := raw;
    assert raw + [] == raw;
    if script != [] && script[0].Data? {
      var bytes, rest := script[0].bytes, script[1..];
      Associative(raw, bytes, Heard(rest));
      StripZerosAppend(raw, bytes);
      if bytes == [] {
        assert raw + bytes == raw;
        part := CutDoesNotMatter(found, raw, rest);
      } else if found(raw + bytes) {
        part := raw + bytes;
        assert found(part + Heard(rest));
      } else {
        part := CutDoesNotMatter(found, raw + bytes, rest);
      }
    }
  }

  lemma KeywordMatchIsStable()
    ensures Stable(HasKeyword())
  {
    forall b: seq<byte>, more: seq<byte> | KeywordAfterSync(b).Some? ensures KeywordAfterSync(b + more).Some? {
      KeywordIsStable(b, more);
    }
    forall b: seq<byte> ensures KeywordAfterSync(StripZeros(b)) == KeywordAfterSync(b) {
      KeywordIgnoresPadding(b);
    }
  }

  lemma {:induction false} EchoIgnoresPadding(b: seq<byte>)
    ensures 0xE9 in StripZeros(b) <==> 0xE9 in b
  {
    if b != [] && b[0] == 0 {
      EchoIgnoresPadding(b[1..]);
      assert b == [b[0]] + b[1..];
    }
  }

  lemma EchoMatchIsStable()
    ensures Stable(HasEcho())
  {
    forall b: seq<byte> ensures 0xE9 in StripZeros(b) <==> 0xE9 in b {
      EchoIgnoresPadding(b);
    }
  }

  lemma KeywordsIgnoreTheCut(script: seq<Read>)
    ensures var x, kw := Until(HasKeyword(), [], script), KeywordAfterSync(Heard(script));
            && (x.ok <==> kw.Some?) && (x.failed <==> kw.None? && Fails(script))
            && Challenge(x) as int == if kw.Some? then 255 - kw.value.1 as int else 0x7C
  {
    KeywordMatchIsStable();
    hide Until, Stable, KeywordAfterSync, StripZeros, Heard, Fails, XorByte;
    assert StripZeros([]) == [] && KeywordAfterSync([]).None? by { NothingYet(); }
    assert [] + Heard(script) == Heard(script);
    var part := CutDoesNotMatter(HasKeyword(), [], script);
    if KeywordAfterSync(Heard(script)).Some? {
      KeywordsOfPart(part, Heard(script));
      ComplementOfByte(KeywordAfterSync(Heard(script)).value.1);
    }
  }

  /** For every script of reads, deadlines and failures, and every cut of the bytes into reads: the
      first exchange finds keywords exactly when the bytes heard before its deadline have a first
      0x55 with two bytes after it, and the challenge is then 255 minus the second of those two, and
      0x7C otherwise. It fails exactly when a read does first. */
  lemma HandshakeIgnoresTheCut(script: seq<Read>)
    ensures var x, heard := Until(HasKeyword(), [], script), Heard(script);
            && (x.ok <==> exists i: nat :: SyncAt(heard, i))
            && (forall i: nat :: SyncAt(heard, i) ==> Challenge(x) as int == 255 - heard[i + 2] as int)
            && (!x.ok ==> Challenge(x) == 0x7C) && (x.failed <==> !x.ok && Fails(script))
  {
    hide Until, KeywordAfterSync, Heard, Fails, Challenge;
    KeywordsIgnoreTheCut(script);
    var heard := Heard(script);
    forall i: nat | SyncAt(heard, i) ensures KeywordAfterSync(heard) == Some((heard[i + 1], heard[i + 2])) {
      KeywordsFollowSync(heard, heard[i + 1], heard[i + 2]);
    }
    if KeywordAfterSync(heard).Some? {
      KeywordsFollowSync(heard, KeywordAfterSync(heard).value.0, KeywordAfterSync(heard).value.1);
    }
  }

  lemma NothingYet()
    ensures StripZeros([]) == [] && KeywordAfterSync([]).None?
  {
  }

  lemma KeywordsOfPart(part: seq<byte>, whole: seq<byte>)
    requires part <= whole && KeywordAfterSync(part).Some?
    ensures KeywordAfterSync(StripZeros(part)) == KeywordAfterSync(whole)
  {
    assert whole == part + whole[|part|..];
    KeywordIsStable(part, whole[|part|..]);
    KeywordIgnoresPadding(part);
  }

  /** The second exchange confirms the link exactly when 0xE9 is heard before its deadline. */
  lemma EchoIgnoresTheCut(script: seq<Read>)
    ensures var y := Until(HasEcho(), [], script);
            && (y.ok <==> 0xE9 in Heard(script)) && (y.failed <==> 0xE9 !in Heard(script) && Fails(script))
  {
    EchoMatchIsStable();
    hide Until, Stable, StripZeros, Heard, Fails;
    assert StripZeros([]) == [] by { NothingYet(); }
    assert [] + Heard(script) == Heard(script);
    var _ := CutDoesNotMatter(HasEcho(), [], script);
  }
}
