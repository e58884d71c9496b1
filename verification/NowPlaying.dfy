/** internal/nowplaying/nowplaying.go: reassembly of cover art from numbered chunks. */
module NowPlaying {
  import opened Bytes
  import opened Chunks

  const MAX_ART_BYTES: int := 524288
  const MAX_ART_CHUNKS: int := 4096
  const ART_TRANSFER_TTL: int := 30000  // milliseconds

  datatype Problem = BytesOutOfRange | ChunksOutOfRange | TooShort | NoTransfer | Expired | IndexOutOfRange | Overflow
  datatype Outcome = Accepted | Rejected(why: Problem)

  /** A transfer as a value. The count of received bytes is not part of it: it is the size of chunks. */
  datatype Transfer = Transfer(artID: string, totalBytes: int, chunkCount: int, chunks: ChunkMap, startedAt: int)

  /** The published art and the transfer in progress. */
  datatype Art = Art(id: string, bytes: seq<byte>, transfer: Option<Transfer>)

  function Control(a: Art, now: int, artID: string, totalBytes: int, chunkCount: int): (Art, Outcome)
  {
    if totalBytes <= 0 || totalBytes > MAX_ART_BYTES then (a, Rejected(BytesOutOfRange))
    else if chunkCount <= 0 || chunkCount > MAX_ART_CHUNKS then (a, Rejected(ChunksOutOfRange))
    else (a.(transfer := Some(Transfer(artID, totalBytes, chunkCount, map[], now))), Accepted)
  }

  /** A write to the data characteristic: a big-endian index and a payload. */
  function Chunk(a: Art, now: int, data: seq<byte>): (Art, Outcome)
  {
    if |data| < 2 then (a, Rejected(TooShort))
    else if a.transfer.None? then (a, Rejected(NoTransfer))
    else
      var t, i := a.transfer.value, Uint16(data[0], data[1]);
      if now - t.startedAt > ART_TRANSFER_TTL then (a.(transfer := None), Rejected(Expired))
      else if i >= t.chunkCount then (a, Rejected(IndexOutOfRange))
      else Write(a, t.(chunks := t.chunks[i := data[2..]]))
  }

  /** What becomes of a transfer that has just stored a chunk. */
  function Write(a: Art, t: Transfer): (Art, Outcome)
  {
    var received := if t.chunkCount < 0 then 0 else Size(t.chunks, 0, t.chunkCount);
    if received > t.totalBytes then (a.(transfer := None), Rejected(Overflow))
    else if received < t.totalBytes then (a.(transfer := Some(t)), Accepted)
    else (Art(t.artID, if t.chunkCount < 0 then [] else Assemble(t.chunks, t.chunkCount), None), Accepted)
  }

  // ---------------------------------------------------------------- the store

  class ArtTransfer {
    const artID: string
    const totalBytes: int
    const chunkCount: int
    const startedAt: int
    var chunks: ChunkMap
    var received: int

    constructor (artID: string, totalBytes: int, chunkCount: int, startedAt: int)
      ensures this.artID == artID && this.totalBytes == totalBytes && this.chunkCount == chunkCount
      ensures this.startedAt == startedAt && chunks == map[] && received == 0
    {
      this.artID, this.totalBytes, this.chunkCount, this.startedAt := artID, totalBytes, chunkCount, startedAt;
      chunks, received := map[], 0;
    }
  }

  class Store {
    var artID: string
    var art: seq<byte>
    var transfer: ArtTransfer?

    /** The running count is the size of what is stored, short of the total, and the caps hold. */
    ghost predicate Valid()
      reads this, transfer
    {
      transfer != null ==>
        && 0 < transfer.totalBytes <= MAX_ART_BYTES && 0 < transfer.chunkCount <= MAX_ART_CHUNKS
        && (forall i :: i in transfer.chunks ==> 0 <= i < transfer.chunkCount)
        && transfer.received == Size(transfer.chunks, 0, transfer.chunkCount) < transfer.totalBytes
    }

    ghost function View(): Art
      reads this, transfer
    {
      Art(artID, art, if transfer == null then None
                      else Some(Transfer(transfer.artID, transfer.totalBytes, transfer.chunkCount, transfer.chunks,
                                         transfer.startedAt)))
    }

    constructor ()
      ensures Valid() && View() == Art("", [], None)
    {
      artID, art, transfer := "", [], null;
    }

    method HandleArtControl(now: int, artID: string, totalBytes: int, chunkCount: int) returns (outcome: Outcome)
      requires Valid()
      modifies this
      ensures Valid() && (View(), outcome) == Control(old(View()), now, artID, totalBytes, chunkCount)
      ensures transfer != old(transfer) ==> fresh(transfer)
    {
      if totalBytes <= 0 || totalBytes > MAX_ART_BYTES {
        return Rejected(BytesOutOfRange);
      }
      if chunkCount <= 0 || chunkCount > MAX_ART_CHUNKS {
        return Rejected(ChunksOutOfRange);
      }
      transfer := new ArtTransfer(artID, totalBytes, chunkCount, now);
      SizeOfNothing(map[], 0, chunkCount);
      return Accepted;
    }

    method HandleArtChunk(now: int, data: seq<byte>) returns (outcome: Outcome)
      requires Valid()
      modifies this, transfer
      ensures Valid() && (View(), outcome) == Chunk(old(View()), now, data)
      ensures transfer == null || transfer == old(transfer)
    {
      if |data| < 2 {
        return Rejected(TooShort);
      }
      var idx := Uint16(data[0], data[1]);
      var payload := data[2..];
      if transfer == null {
        return Rejected(NoTransfer);
      }
      var t := transfer;
      if now - t.startedAt > ART_TRANSFER_TTL {
        transfer := null;
        return Rejected(Expired);
      }
      if idx >= t.chunkCount {
        return Rejected(IndexOutOfRange);
      }
      SizeAfterWrite(t.chunks, idx, payload, t.chunkCount);
      if idx in t.chunks {
        t.received := t.received - |t.chunks[idx]|;
      }
      t.chunks := t.chunks[idx := payload];
      t.received := t.received + |payload|;
      if t.received > t.totalBytes {
        transfer := null;
        return Rejected(Overflow);
      }
      if t.received < t.totalBytes {
        return Accepted;
      }
      var assembled := AssembleChunks(t.chunks, t.chunkCount);
      art := assembled;
      artID := t.artID;
      transfer := null;
      return Accepted;
    }

    method GetArt() returns (id: string, jpeg: seq<byte>, ok: bool)
      ensures ok <==> art != []
      ensures ok ==> id == artID && jpeg == art
    {
      if |art| == 0 {
        return "", [], false;
      }
      return artID, art, true;
    }
  }

  // ---------------------------------------------------------------- any writes

  datatype Op =
    | ControlOp(now: int, artID: string, totalBytes: int, chunkCount: int)
    | ChunkOp(now: int, data: seq<byte>)

  function Apply(a: Art, op: Op): (Art, Outcome)
  {
    match op
    case ControlOp(now, artID, totalBytes, chunkCount) => Control(a, now, artID, totalBytes, chunkCount)
    case ChunkOp(now, data) => Chunk(a, now, data)
  }

  function ApplyAll(a: Art, ops: seq<Op>): Art
  {
    if ops == [] then a else Apply(ApplyAll(a, ops[..|ops| - 1]), ops[|ops| - 1]).0
  }

  /** A live transfer has fewer bytes than announced, all at indices below its count, within the caps. */
  predicate Sound(a: Art)
  {
    a.transfer.Some? ==>
      var t := a.transfer.value;
      && 0 < t.totalBytes <= MAX_ART_BYTES && 0 < t.chunkCount <= MAX_ART_CHUNKS
      && (forall i :: i in t.chunks ==> 0 <= i < t.chunkCount)
      && Size(t.chunks, 0, t.chunkCount) < t.totalBytes
  }

  /** Whatever is written, conflicting chunks included, every live transfer is sound; and art only
      changes by publishing, with exactly the bytes its transfer announced. */
  lemma {:induction false} TransferInvariant(ops: seq<Op>)
    ensures Sound(ApplyAll(Art("", [], None), ops))
  {
    if ops != [] {
      TransferInvariant(ops[..|ops| - 1]);
      OpKeepsSound(ApplyAll(Art("", [], None), ops[..|ops| - 1]), ops[|ops| - 1]);
    }
  }

  lemma OpKeepsSound(a: Art, op: Op)
    requires Sound(a)
    ensures Sound(Apply(a, op).0)
  {
    if op.ControlOp? && op.chunkCount >= 0 {
      SizeOfNothing(map[], 0, op.chunkCount);
    }
  }

  /** Art changes only when a sound transfer completes: the new art has the announced length, is the
      stored chunks in index order, and takes the transfer's id. */
  lemma PublishedArt(a: Art, op: Op)
    requires Sound(a)
    ensures var a' := Apply(a, op).0;
            (a'.id, a'.bytes) != (a.id, a.bytes) ==>
              && op.ChunkOp? && |op.data| >= 2 && a.transfer.Some? && a'.transfer.None?
              && var t := a.transfer.value;
                 && a'.id == t.artID && |a'.bytes| == t.totalBytes
                 && a'.bytes == Assemble(t.chunks[Uint16(op.data[0], op.data[1]) := op.data[2..]], t.chunkCount)
  {
    if op.ChunkOp? && |op.data| >= 2 && a.transfer.Some? {
      var t := a.transfer.value;
      AssembledSize(t.chunks[Uint16(op.data[0], op.data[1]) := op.data[2..]], t.chunkCount);
    }
  }

  // ---------------------------------------------------------------- delivering an image

  /** A write of one part of an image at some time. */
  datatype Delivery = Delivery(index: nat, now: int)

  function Data(parts: seq<seq<byte>>, d: Delivery): seq<byte>
    requires d.index < |parts|
  {
    PutUint16(d.index) + parts[d.index]
  }

  function Deliver(a: Art, parts: seq<seq<byte>>, writes: seq<Delivery>): (Art, Outcome)
    requires forall i :: 0 <= i < |writes| ==> writes[i].index < |parts|
  {
    if writes == [] then (a, Accepted)
    else
      var n := |writes| - 1;
      Chunk(Deliver(a, parts, writes[..n]).0, writes[n].now, Data(parts, writes[n]))
  }

  function Indices(writes: seq<Delivery>): (r: seq<nat>)
    ensures |r| == |writes| && forall i :: 0 <= i < |writes| ==> r[i] == writes[i].index
  {
    seq(|writes|, i requires 0 <= i < |writes| => writes[i].index)
  }

  /** An announced transfer of this image, nothing received yet. */
  predicate Announces(t: Transfer, parts: seq<seq<byte>>)
  {
    && t.chunks == map[] && t.chunkCount == |parts| <= INDICES
    && t.totalBytes == |Join(parts, |parts|)| > 0
  }

  lemma DeliverOne(a: Art, t: Transfer, parts: seq<seq<byte>>, order: seq<nat>, d: Delivery)
    requires Announces(t, parts) && d.index < |parts| && d.now - t.startedAt <= ART_TRANSFER_TTL
    requires a.transfer == Some(t.(chunks := Arrived(parts, Seen(order))))
    ensures var seen := Seen(order + [d.index]);
            Chunk(a, d.now, Data(parts, d)) ==
            if Covered(parts, seen) then (Art(t.artID, Join(parts, |parts|), None), Accepted)
            else (a.(transfer := Some(t.(chunks := Arrived(parts, seen)))), Accepted)
  {
    hide Size, Assemble, Join, Seen, Covered, Arrived, Data;
    DataReadsBack(parts, d);
    ArrivedAfter(parts, order, d.index);
    WholeExactlyWhenCovered(parts, Seen(order + [d.index]));
  }

  lemma DataReadsBack(parts: seq<seq<byte>>, d: Delivery)
    requires d.index < |parts| <= INDICES
    ensures var data := Data(parts, d);
            |data| >= 2 && data[2..] == parts[d.index] && Uint16(data[0], data[1]) == d.index
  {
    Uint16RoundTrip(d.index);
  }

  lemma WholeExactlyWhenCovered(parts: seq<seq<byte>>, seen: set<int>)
    ensures var n, chunks := |parts|, Arrived(parts, seen);
            && Size(chunks, 0, n) <= |Join(parts, n)|
            && (Size(chunks, 0, n) == |Join(parts, n)| <==> Covered(parts, seen))
            && (Covered(parts, seen) ==> Assemble(chunks, n) == Join(parts, n))
  {
    ArrivedSize(parts, seen, |parts|);
    assert Covered(parts, seen) <==> CoveredBelow(parts, seen, |parts|);
  }

  /** Delivery in any order, with any repetition, while the transfer has not expired: until the last
      missing non-empty part arrives every write is accepted and the old art stays; that write
      publishes exactly the image; later ones are refused and change nothing. */
  lemma {:induction false} DeliveryIndependence(a: Art, t: Transfer, parts: seq<seq<byte>>, writes: seq<Delivery>)
    requires a.transfer == Some(t) && Announces(t, parts)
    requires forall i :: 0 <= i < |writes| ==>
               writes[i].index < |parts| && writes[i].now - t.startedAt <= ART_TRANSFER_TTL
    ensures var seen := Seen(Indices(writes));
            if Covered(parts, seen) then Deliver(a, parts, writes).0 == Art(t.artID, Join(parts, |parts|), None)
            else Deliver(a, parts, writes) == (a.(transfer := Some(t.(chunks := Arrived(parts, seen)))), Accepted)
    ensures Deliver(a, parts, writes).1 ==
            if writes != [] && Covered(parts, Seen(Indices(writes[..|writes| - 1]))) then Rejected(NoTransfer)
            else Accepted
  {
    if writes == [] {
      assert Arrived(parts, {}) == map[];
      assert Seen(Indices(writes)) == {};
      ArrivedSize(parts, {}, |parts|);
      SizeOfNothing(map[], 0, |parts|);
      assert Covered(parts, {}) <==> CoveredBelow(parts, {}, |parts|);
    } else {
      var n := |writes| - 1;
      var init, d := writes[..n], writes[n];
      DeliveryIndependence(a, t, parts, init);
      assert Indices(writes) == Indices(init) + [d.index];
      if !Covered(parts, Seen(Indices(init))) {
        DeliverOne(Deliver(a, parts, init).0, t, parts, Indices(init), d);
      } else {
        assert forall i :: i in Seen(Indices(init)) ==> i in Seen(Indices(writes));
      }
    }
  }

  /** From the control write on: it is accepted exactly within the caps; and chunks that come within
      30 seconds of it, in any order, publish exactly the image, under the id it announced, once they
      cover the image and not before. */
  lemma DeliveryFromControl(a: Art, start: int, artID: string, parts: seq<seq<byte>>, writes: seq<Delivery>)
    requires forall i :: 0 <= i < |writes| ==> writes[i].index < |parts| && writes[i].now - start <= 30000
    ensures var total := |Join(parts, |parts|)|;
            var (b, outcome) := Control(a, start, artID, total, |parts|);
            if 0 < total <= 524288 && 0 < |parts| <= 4096 then
              && outcome.Accepted? && (b.id, b.bytes) == (a.id, a.bytes)
              && var c := Deliver(b, parts, writes).0;
                 (c.id, c.bytes) ==
                 if Covered(parts, Seen(Indices(writes))) then (artID, Join(parts, |parts|)) else (a.id, a.bytes)
            else outcome.Rejected? && b == a
  {
    hide Join, Chunk;
    var total := |Join(parts, |parts|)|;
    var (b, outcome) := Control(a, start, artID, total, |parts|);
    if outcome.Accepted? {
      DeliveryIndependence(b, b.transfer.value, parts, writes);
    }
  }

  /** A write that ends the transfer it belongs to: one that comes too late, or that would store more
      than was announced. */
  predicate Ends(a: Art, op: Op)
  {
    && op.ChunkOp? && |op.data| >= 2 && a.transfer.Some?
    && var t, i := a.transfer.value, Uint16(op.data[0], op.data[1]);
       || op.now - t.startedAt > 30000
       || (i < t.chunkCount && Size(t.chunks[i := op.data[2..]], 0, t.chunkCount) > t.totalBytes)
  }

  /** A refused write changes nothing at all, unless it ends the transfer; the art stays either way. */
  lemma RefusedWrite(a: Art, op: Op)
    ensures Ends(a, op) ==> Apply(a, op).1.Rejected?
    ensures Apply(a, op).1.Rejected? ==> Apply(a, op).0 == if Ends(a, op) then a.(transfer := None) else a
  {
    hide Size, Assemble;
  }

  // ---------------------------------------------------------------- over any interleaving of writes

  const EMPTY: Art := Art("", [], None)

  /** A control write that is accepted. */
  predicate Opens(op: Op)
  {
    op.ControlOp? && 0 < op.totalBytes <= 524288 && 0 < op.chunkCount <= 4096
  }

  /** Write k opened a transfer and none has since. */
  predicate LastOpening(ops: seq<Op>, k: nat)
  {
    k < |ops| && Opens(ops[k]) && forall i :: k < i < |ops| ==> !Opens(ops[i])
  }

  /** A whole chunk write more than 30 seconds after write k. */
  predicate Late(ops: seq<Op>, k: nat, i: nat)
    requires k < |ops|
  {
    k < i < |ops| && ops[i].ChunkOp? && |ops[i].data| >= 2 && ops[i].now - ops[k].now > 30000
  }

  /** The chunks a list of writes stores at indices below a count, the last one at each index. */
  function Stored(ops: seq<Op>, count: int): ChunkMap
  {
    if ops == [] then map[]
    else
      var op, before := ops[|ops| - 1], Stored(ops[..|ops| - 1], count);
      if op.ChunkOp? && |op.data| >= 2 && Uint16(op.data[0], op.data[1]) < count then
        before[Uint16(op.data[0], op.data[1]) := op.data[2..]]
      else before
  }

  /** The transfer write k opened, with what was stored since. */
  function Opened(ops: seq<Op>, k: nat): Transfer
    requires k < |ops| && ops[k].ControlOp?
  {
    var c := ops[k];
    Transfer(c.artID, c.totalBytes, c.chunkCount, Stored(ops[k + 1..], c.chunkCount), c.now)
  }

  lemma OpenedOneMore(ops: seq<Op>, k: nat)
    requires k < |ops| - 1 && ops[k].ControlOp?
    ensures var n, op := |ops| - 1, ops[|ops| - 1];
            var before := Opened(ops[..n], k);
            Opened(ops, k) ==
            if op.ChunkOp? && |op.data| >= 2 && Uint16(op.data[0], op.data[1]) < before.chunkCount then
              before.(chunks := before.chunks[Uint16(op.data[0], op.data[1]) := op.data[2..]])
            else before
  {
    var n := |ops| - 1;
    assert ops[k + 1..][..n - k - 1] == ops[..n][k + 1..];
  }

  /** A live transfer is the one the last accepted control write opened, with the chunks written
      since, and none of those was late. */
  lemma {:induction false} LiveTransfer(ops: seq<Op>) returns (k: nat)
    requires ApplyAll(EMPTY, ops).transfer.Some?
    ensures LastOpening(ops, k) && forall i :: k < i < |ops| ==> !Late(ops, k, i)
    ensures ApplyAll(EMPTY, ops).transfer.value == Opened(ops, k)
  {
    hide Assemble, Size, Opened;
    var init, n := ops[..|ops| - 1], |ops| - 1;
    if Opens(ops[n]) {
      k := n;
      NothingStored(ops);
    } else {
      k := LiveTransfer(init);
      assert forall i :: k < i < n ==> Late(ops, k, i) == Late(init, k, i);
      OpenedOneMore(ops, k);
      OpenedFields(init, k);
    }
  }

  lemma NothingStored(ops: seq<Op>)
    requires ops != [] && ops[|ops| - 1].ControlOp?
    ensures var c := ops[|ops| - 1];
            Opened(ops, |ops| - 1) == Transfer(c.artID, c.totalBytes, c.chunkCount, map[], c.now)
  {
    assert ops[|ops|..] == [];
  }

  lemma OpenedFields(ops: seq<Op>, k: nat)
    requires k < |ops| && ops[k].ControlOp?
    ensures var t := Opened(ops, k); t.startedAt == ops[k].now && t.chunkCount == ops[k].chunkCount
    ensures var t := Opened(ops, k); t.artID == ops[k].artID && t.totalBytes == ops[k].totalBytes
  {
  }

  /** Art only ever comes whole and in time: when a write changes it, the new id is the one the last
      accepted control write announced, the new bytes are as many as it announced and are the
      chunks since in index order, and all of them came within 30 seconds of it. */
  lemma ArtComesInTime(ops: seq<Op>) returns (k: nat)
    requires ops != []
    requires var a, b := ApplyAll(EMPTY, ops[..|ops| - 1]), ApplyAll(EMPTY, ops);
             (a.id, a.bytes) != (b.id, b.bytes)
    ensures k < |ops| - 1 && LastOpening(ops, k) && forall i :: k < i < |ops| ==> !Late(ops, k, i)
    ensures var b := ApplyAll(EMPTY, ops);
            && b.id == ops[k].artID && |b.bytes| == ops[k].totalBytes
            && b.bytes == Assemble(Stored(ops[k + 1..], ops[k].chunkCount), ops[k].chunkCount)
  {
    hide Assemble, Size, Opened, Stored;
    var n := |ops| - 1;
    var init := ops[..n];
    TransferInvariant(init);
    PublishedArt(ApplyAll(EMPTY, init), ops[n]);
    k := LiveTransfer(init);
    OpenedOneMore(ops, k);
    OpenedFields(init, k);
    assert forall i :: k < i < n ==> Late(ops, k, i) == Late(init, k, i);
    PublishedChunks(ops, k);
  }

  lemma PublishedChunks(ops: seq<Op>, k: nat)
    requires k < |ops| && ops[k].ControlOp?
    ensures Opened(ops, k).chunks == Stored(ops[k + 1..], ops[k].chunkCount)
  {
  }

  /** A late chunk ends it: from there on no transfer is live, and the art stays as it was, until the
      next accepted control write. */
  lemma {:induction false} LateChunkEnds(ops: seq<Op>, k: nat, i: nat)
    requires LastOpening(ops, k) && Late(ops, k, i)
    ensures ApplyAll(EMPTY, ops).transfer.None?
    ensures var a, b := ApplyAll(EMPTY, ops[..i]), ApplyAll(EMPTY, ops); (a.id, a.bytes) == (b.id, b.bytes)
    decreases |ops|
  {
    hide Apply, Stored, ApplyAll;
    if ApplyAll(EMPTY, ops).transfer.Some? {
      var l := LiveTransfer(ops);
    }
    var n := |ops| - 1;
    var a, b := ApplyAll(EMPTY, ops[..n]), ApplyAll(EMPTY, ops);
    if (a.id, a.bytes) != (b.id, b.bytes) {
      var l := ArtComesInTime(ops);
    }
    if i < n {
      assert ops[..n][..i] == ops[..i];
      LateChunkEnds(ops[..n], k, i);
    }
  }
}
