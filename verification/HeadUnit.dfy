/** internal/headunit/protocol.go: a catalog cut into numbered notification frames. */
module HeadUnit {
  import opened Bytes
  import opened Chunks

  const HEADER_BYTES: nat := 4
  const MAX_FRAGMENT_PAYLOAD: nat := 180

  /** The number of frames for a document; one even when it is empty. */
  function FrameCount(length: nat, maxPayload: nat): nat
    requires maxPayload > 0
  {
    var n := (length + maxPayload - 1) / maxPayload;
    if n == 0 then 1 else n
  }

  function Least(a: nat, b: nat): nat { if a < b then a else b }

  function Fragment(catalog: seq<byte>, maxPayload: nat, i: nat): seq<byte>
  {
    catalog[Least(i * maxPayload, |catalog|)..Least(i * maxPayload + maxPayload, |catalog|)]
  }

  function Fragments(catalog: seq<byte>, maxPayload: nat, n: nat): (r: seq<seq<byte>>)
    ensures |r| == n && forall i :: 0 <= i < n ==> r[i] == Fragment(catalog, maxPayload, i)
  {
    seq(n, i requires 0 <= i < n => Fragment(catalog, maxPayload, i))
  }

  /** The frames of these fragments. */
  predicate Framed(frames: seq<seq<byte>>, parts: seq<seq<byte>>)
  {
    |frames| == |parts| &&
    forall i :: 0 <= i < |frames| ==> frames[i] == PutUint16(i) + PutUint16(|frames|) + parts[i]
  }

  method BuildFrames(catalog: seq<byte>, maxPayload: nat) returns (frames: seq<seq<byte>>)
    requires maxPayload > 0
    ensures Framed(frames, Fragments(catalog, maxPayload, FrameCount(|catalog|, maxPayload)))
  {
    hide Fragment, FrameCount, PutUint16;
    var count := CountFrames(|catalog|, maxPayload);
    frames := [];
    ghost var parts := Fragments(catalog, maxPayload, count);
    for i := 0 to count
      invariant |frames| == i
      invariant forall k :: 0 <= k < i ==> frames[k] == PutUint16(k) + PutUint16(count) + parts[k]
    {
      var payload := CutFragment(catalog, maxPayload, i);
      var frame := PutUint16(i) + PutUint16(count) + payload;
      frames := frames + [frame];
    }
  }

  method CountFrames(length: nat, maxPayload: nat) returns (count: nat)
    requires maxPayload > 0
    ensures count == FrameCount(length, maxPayload)
  {
    count := (length + maxPayload - 1) / maxPayload;
    if count == 0 {
      count := 1;
    }
  }

  method CutFragment(catalog: seq<byte>, maxPayload: nat, i: nat) returns (payload: seq<byte>)
    ensures payload == Fragment(catalog, maxPayload, i)
  {
    var start := i * maxPayload;
    var end := start + maxPayload;
    if end > |catalog| {
      end := |catalog|;
    }
    payload := [];
    if start < |catalog| {
      payload := catalog[start..end];
    }
  }

  /** The frame count is the length divided by the payload size and rounded up, and one for an empty
      document: the least positive number of payloads that hold it. */
  lemma CountIsCeiling(length: nat, maxPayload: nat)
    requires maxPayload > 0
    ensures FrameCount(length, maxPayload) > 0 && length <= FrameCount(length, maxPayload) * maxPayload
    ensures forall n: nat :: 0 < n && length <= n * maxPayload ==> FrameCount(length, maxPayload) <= n
    ensures length == 0 ==> FrameCount(length, maxPayload) == 1
    ensures length > 0 ==> (FrameCount(length, maxPayload) - 1) * maxPayload < length
  {
    CountRoundsUp(length, maxPayload);
    var count := FrameCount(length, maxPayload);
    hide FrameCount;
    forall n: nat | 0 < n && length <= n * maxPayload ensures count <= n {
      if n < count {
        Ordered(n, count - 1, maxPayload);
      }
    }
  }

  lemma CountRoundsUp(length: nat, maxPayload: nat)
    requires maxPayload > 0
    ensures FrameCount(length, maxPayload) > 0 && length <= FrameCount(length, maxPayload) * maxPayload
    ensures length == 0 ==> FrameCount(length, maxPayload) == 1
    ensures length > 0 ==> (FrameCount(length, maxPayload) - 1) * maxPayload < length
  {
    var q, r := (length + maxPayload - 1) / maxPayload, (length + maxPayload - 1) % maxPayload;
    assert q * maxPayload + r == length + maxPayload - 1;
    if q > 0 {
      assert (q - 1) * maxPayload + maxPayload == q * maxPayload;
    }
  }

  /** Every fragment but the last is full, and none is larger. */
  lemma FragmentSizes(catalog: seq<byte>, maxPayload: nat, i: nat)
    requires maxPayload > 0 && i < FrameCount(|catalog|, maxPayload)
    ensures |Fragment(catalog, maxPayload, i)| <= maxPayload
    ensures i + 1 < FrameCount(|catalog|, maxPayload) ==> |Fragment(catalog, maxPayload, i)| == maxPayload
  {
    var n := FrameCount(|catalog|, maxPayload);
    CountRoundsUp(|catalog|, maxPayload);
    hide FrameCount;
    if i + 1 < n {
      Ordered(i + 1, n - 1, maxPayload);
      assert (i + 1) * maxPayload == i * maxPayload + maxPayload;
    }
  }

  lemma Ordered(a: nat, b: nat, m: nat)
    requires a <= b
    ensures a * m <= b * m
  {
    assert (b - a) * m >= 0;
  }

  /** The first k fragments are the document's first k * maxPayload bytes. */
  lemma {:induction false} FragmentsJoin(catalog: seq<byte>, maxPayload: nat, n: nat, k: nat)
    requires k <= n
    ensures Join(Fragments(catalog, maxPayload, n), k) == catalog[..Least(k * maxPayload, |catalog|)]
  {
    if k > 0 {
      var start := (k - 1) * maxPayload;
      FragmentsJoin(catalog, maxPayload, n, k - 1);
      assert k * maxPayload == start + maxPayload && start >= 0;
      TakeMore(catalog, Least(start, |catalog|), Least(start + maxPayload, |catalog|));
    }
  }

  lemma TakeMore(s: seq<byte>, a: nat, b: nat)
    requires a <= b <= |s|
    ensures s[..a] + s[a..b] == s[..b]
  {
  }

  // ---------------------------------------------------------------- the receiver

  /** A frame as the phone reads it. */
  function IndexOf(frame: seq<byte>): nat
    requires |frame| >= HEADER_BYTES
  {
    Uint16(frame[0], frame[1])
  }

  function CountOf(frame: seq<byte>): nat
    requires |frame| >= HEADER_BYTES
  {
    Uint16(frame[2], frame[3])
  }

  /** The chunks collected after frames arrive in some order, each kept under its header's index. */
  function Collected(frames: seq<seq<byte>>, order: seq<nat>): ChunkMap
    requires forall i :: 0 <= i < |order| ==> order[i] < |frames| && |frames[order[i]]| >= HEADER_BYTES
  {
    if order == [] then map[]
    else
      var frame := frames[order[|order| - 1]];
      Collected(frames, order[..|order| - 1])[IndexOf(frame) := frame[HEADER_BYTES..]]
  }

  lemma HeaderDecodes(frame: seq<byte>, i: nat, count: nat, payload: seq<byte>)
    requires frame == PutUint16(i) + PutUint16(count) + payload
    ensures |frame| >= HEADER_BYTES && frame[HEADER_BYTES..] == payload
    ensures IndexOf(frame) == i % 65536 && CountOf(frame) == count % 65536
  {
    hide PutUint16;
    Uint16RoundTrip(i);
    Uint16RoundTrip(count);
  }

  lemma HeaderOf(frames: seq<seq<byte>>, parts: seq<seq<byte>>, i: nat)
    requires Framed(frames, parts) && i < |frames|
    ensures |frames[i]| >= HEADER_BYTES && frames[i][HEADER_BYTES..] == parts[i]
    ensures CountOf(frames[i]) == |frames| % 65536
    ensures |frames| <= 65535 ==> IndexOf(frames[i]) == i && CountOf(frames[i]) == |frames|
  {
    hide PutUint16, IndexOf, CountOf;
    HeaderDecodes(frames[i], i, |frames|, parts[i]);
  }

  /** In every frame the bytes from the fifth on are the fragment; and the first two are the frame's own
      index and the next two the number of frames, high byte first, in every frame exactly when that
      number fits 16 bits. */
  lemma HeadersDecode(frames: seq<seq<byte>>, parts: seq<seq<byte>>)
    requires Framed(frames, parts) && |frames| > 0
    ensures forall i :: 0 <= i < |frames| ==> |frames[i]| >= 4 && frames[i][4..] == parts[i]
    ensures (forall i :: 0 <= i < |frames| ==>
               var f := frames[i];
               f[0] as int * 256 + f[1] as int == i && f[2] as int * 256 + f[3] as int == |frames|)
            <==> |frames| <= 65535
  {
    hide Framed;
    SameLength(frames, parts);
    forall i | 0 <= i < |frames|
      ensures |frames[i]| >= 4 && frames[i][4..] == parts[i] && CountOf(frames[i]) == |frames| % 65536
      ensures |frames| <= 65535 ==> IndexOf(frames[i]) == i
    {
      HeaderOf(frames, parts, i);
    }
    assert |frames| > 65535 ==> CountOf(frames[0]) < 65536;
  }

  lemma SameLength(frames: seq<seq<byte>>, parts: seq<seq<byte>>)
    requires Framed(frames, parts)
    ensures |frames| == |parts|
  {
  }

  lemma {:induction false} CollectedIsArrived(frames: seq<seq<byte>>, parts: seq<seq<byte>>, order: seq<nat>)
    requires Framed(frames, parts) && |frames| <= 65535
    requires forall i :: 0 <= i < |order| ==> order[i] < |frames|
    ensures Collected(frames, order) == Arrived(parts, Seen(order))
  {
    hide Uint16, PutUint16;
    if order == [] {
      assert Arrived(parts, Seen(order)) == map[];
    } else {
      var init, k := order[..|order| - 1], order[|order| - 1];
      CollectedIsArrived(frames, parts, init);
      ArrivedAfter(parts, init, k);
      assert order == init + [k];
      HeaderOf(frames, parts, k);
    }
  }

  /** Once every frame has arrived, in whatever order and however often, assembling the count the
      header announces gives the fragments in order. */
  lemma AnyOrder(frames: seq<seq<byte>>, parts: seq<seq<byte>>, order: seq<nat>)
    requires Framed(frames, parts) && 0 < |frames| <= 65535
    requires forall i :: 0 <= i < |order| ==> order[i] < |frames|
    requires forall i :: 0 <= i < |frames| ==> i in order
    ensures |frames[0]| >= HEADER_BYTES
    ensures Assemble(Collected(frames, order), CountOf(frames[0])) == Join(parts, |parts|)
  {
    hide Assemble, Join, Size, Uint16, PutUint16, Arrived, Collected, CountOf, CoveredBelow, Framed;
    AllCovered(frames, parts, order);
    HeaderOf(frames, parts, 0);
    CollectedIsArrived(frames, parts, order);
    ArrivedSize(parts, Seen(order), |parts|);
  }

  lemma AllCovered(frames: seq<seq<byte>>, parts: seq<seq<byte>>, order: seq<nat>)
    requires Framed(frames, parts) && forall i :: 0 <= i < |frames| ==> i in order
    ensures |parts| == |frames| && CoveredBelow(parts, Seen(order), |parts|)
  {
    hide PutUint16;
  }

  lemma FragmentsAreTheDocument(catalog: seq<byte>, maxPayload: nat)
    requires maxPayload > 0
    ensures var n := FrameCount(|catalog|, maxPayload); n > 0 && Join(Fragments(catalog, maxPayload, n), n) == catalog
  {
    var n := FrameCount(|catalog|, maxPayload);
    CountRoundsUp(|catalog|, maxPayload);
    hide FrameCount, Fragments, Join;
    FragmentsJoin(catalog, maxPayload, n, n);
    assert catalog[..|catalog|] == catalog;
  }

  predicate SmallPieces(chunks: ChunkMap, size: nat)
  {
    forall i :: i in chunks ==> |chunks[i]| <= size
  }

  /** Whatever frames have arrived, no chunk collected is larger than a payload. */
  lemma {:induction false} CollectedPieces(
    frames: seq<seq<byte>>, catalog: seq<byte>, maxPayload: nat, order: seq<nat>)
    requires maxPayload > 0 && Framed(frames, Fragments(catalog, maxPayload, FrameCount(|catalog|, maxPayload)))
    requires forall i :: 0 <= i < |order| ==> order[i] < |frames| && |frames[order[i]]| >= HEADER_BYTES
    ensures SmallPieces(Collected(frames, order), maxPayload)
  {
    hide PutUint16, FrameCount, Fragment;
    if order != [] {
      var k := order[|order| - 1];
      CollectedPieces(frames, catalog, maxPayload, order[..|order| - 1]);
      HeaderOf(frames, Fragments(catalog, maxPayload, FrameCount(|catalog|, maxPayload)), k);
      FragmentSizes(catalog, maxPayload, k);
    }
  }

  lemma {:induction false} AssembledFromSmallPieces(chunks: ChunkMap, size: nat, n: nat)
    requires SmallPieces(chunks, size)
    ensures |Assemble(chunks, n)| <= n * size
  {
    if n > 0 {
      AssembledFromSmallPieces(chunks, size, n - 1);
      assert n * size == (n - 1) * size + size;
    }
  }

  /** With more than 65535 frames the count in the headers has wrapped, and what is assembled is
      shorter than the document. */
  lemma TooManyFrames(frames: seq<seq<byte>>, catalog: seq<byte>, maxPayload: nat, order: seq<nat>)
    requires maxPayload > 0 && FrameCount(|catalog|, maxPayload) > 65535
    requires Framed(frames, Fragments(catalog, maxPayload, FrameCount(|catalog|, maxPayload)))
    requires forall i :: 0 <= i < |order| ==> order[i] < |frames| && |frames[order[i]]| >= HEADER_BYTES
    requires |frames[0]| >= HEADER_BYTES
    ensures |Assemble(Collected(frames, order), CountOf(frames[0]))| < |catalog|
  {
    var n := FrameCount(|catalog|, maxPayload);
    CountRoundsUp(|catalog|, maxPayload);
    hide PutUint16, FrameCount, Fragment, Assemble, Collected, CountOf;
    HeaderOf(frames, Fragments(catalog, maxPayload, n), 0);
    CollectedPieces(frames, catalog, maxPayload, order);
    var count := CountOf(frames[0]);
    AssembledFromSmallPieces(Collected(frames, order), maxPayload, count);
    assert count == n % 65536 <= n - 1;
    Ordered(count, n - 1, maxPayload);
  }

  lemma FramesHaveHeaders(frames: seq<seq<byte>>, parts: seq<seq<byte>>)
    requires Framed(frames, parts)
    ensures forall i :: 0 <= i < |frames| ==> |frames[i]| >= HEADER_BYTES
  {
    forall i | 0 <= i < |frames| ensures |frames[i]| >= HEADER_BYTES {
      HeaderOf(frames, parts, i);
    }
  }

  /** The round trip: once every frame has arrived, in whatever order and however often, what the
      receiver assembles is the document exactly when the frames number at most 65535. */
  lemma RoundTrip(frames: seq<seq<byte>>, catalog: seq<byte>, maxPayload: nat, order: seq<nat>)
    requires maxPayload > 0
    requires Framed(frames, Fragments(catalog, maxPayload, FrameCount(|catalog|, maxPayload)))
    requires forall i :: 0 <= i < |order| ==> order[i] < |frames|
    requires forall i :: 0 <= i < |frames| ==> i in order
    ensures |frames| > 0 && forall i :: 0 <= i < |frames| ==> |frames[i]| >= HEADER_BYTES
    ensures Assemble(Collected(frames, order), CountOf(frames[0])) == catalog <==>
            FrameCount(|catalog|, maxPayload) <= 65535
  {
    hide FrameCount, PutUint16, Fragment, Assemble, Collected, CountOf;
    var parts := Fragments(catalog, maxPayload, FrameCount(|catalog|, maxPayload));
    FragmentsAreTheDocument(catalog, maxPayload);
    FramesHaveHeaders(frames, parts);
    if |frames| <= 65535 {
      AnyOrder(frames, parts, order);
    } else {
      TooManyFrames(frames, catalog, maxPayload, order);
    }
  }

  /** A catalog that fits one 64 KiB socket message always fits the 16-bit count: it takes 365 frames
      at most, and a whole one takes as many. */
  lemma SocketMessageFits(length: nat)
    requires length <= 65536
    ensures FrameCount(length, MAX_FRAGMENT_PAYLOAD) <= 365 == FrameCount(65536, MAX_FRAGMENT_PAYLOAD)
  {
  }
}
