/** internal/navigation/navigation.go: maneuver-icon reassembly, which checks neither caps, indices nor
    expiry, and the rule that ties the icon to the current navigation. */
module Navigation {
  import opened Bytes
  import opened Chunks
  import Art = NowPlaying

  datatype Nav = Nav(active: bool, instruction: string, distance: string, eta: string, iconID: string)
  datatype Problem = TooShort | NoTransfer | Overflow
  datatype Outcome = Accepted | Rejected(why: Problem)
  datatype Transfer = Transfer(iconID: string, totalBytes: int, chunkCount: int, chunks: ChunkMap)
  datatype Icon = Icon(nav: Nav, id: string, png: seq<byte>, transfer: Option<Transfer>)

  const NO_NAV := Nav(false, "", "", "", "")
  const EMPTY := Icon(NO_NAV, "", [], None)

  function Navigate(s: Icon, nav: Nav): Icon { s.(nav := nav) }

  function Control(s: Icon, iconID: string, totalBytes: int, chunkCount: int): Icon
  {
    s.(transfer := Some(Transfer(iconID, totalBytes, chunkCount, map[])))
  }

  function Count(t: Transfer): nat { if t.chunkCount < 0 then 0 else t.chunkCount }

  function Chunk(s: Icon, data: seq<byte>): (Icon, Outcome)
  {
    if |data| < 2 then (s, Rejected(TooShort))
    else if s.transfer.None? then (s, Rejected(NoTransfer))
    else
      var t := s.transfer.value.(chunks := s.transfer.value.chunks[Uint16(data[0], data[1]) := data[2..]]);
      var received := Size(t.chunks, 0, INDICES);
      if received > t.totalBytes then (s.(transfer := None), Rejected(Overflow))
      else if received < t.totalBytes then (s.(transfer := Some(t)), Accepted)
      else (Icon(s.nav, t.iconID, Assemble(t.chunks, Count(t)), None), Accepted)
  }

  /** snapshotLocked: whether the stored icon is the one the current navigation refers to. */
  predicate HasIcon(s: Icon)
  {
    s.png != [] && s.id != "" && s.id == s.nav.iconID
  }

  // ---------------------------------------------------------------- the store

  class IconTransfer {
    const iconID: string
    const totalBytes: int
    const chunkCount: int
    var chunks: ChunkMap
    var received: int

    /** The running count is the size of everything stored, at whatever index. */
    ghost predicate Counted()
      reads this
    {
      (forall i :: i in chunks ==> 0 <= i < INDICES) && received == Size(chunks, 0, INDICES)
    }

    /** Stores a chunk; an overwritten one no longer counts. */
    method Put(idx: nat, payload: seq<byte>)
      requires Counted() && idx < INDICES
      modifies this
      ensures Counted() && chunks == old(chunks)[idx := payload]
    {
      hide Size;
      SizeAfterWrite(chunks, idx, payload, INDICES);
      if idx in chunks {
        received := received - |chunks[idx]|;
      }
      chunks := chunks[idx := payload];
      received := received + |payload|;
    }

    constructor (iconID: string, totalBytes: int, chunkCount: int)
      ensures this.iconID == iconID && this.totalBytes == totalBytes && this.chunkCount == chunkCount
      ensures chunks == map[] && received == 0
    {
      this.iconID, this.totalBytes, this.chunkCount := iconID, totalBytes, chunkCount;
      chunks, received := map[], 0;
    }
  }

  class Store {
    var nav: Nav
    var iconID: string
    var icon: seq<byte>
    var transfer: IconTransfer?

    ghost predicate Valid()
      reads this, transfer
    {
      transfer != null ==> transfer.Counted()
    }

    ghost function View(): Icon
      reads this, transfer
    {
      Icon(nav, iconID, icon,
           if transfer == null then None
           else Some(Transfer(transfer.iconID, transfer.totalBytes, transfer.chunkCount, transfer.chunks)))
    }

    constructor ()
      ensures Valid() && View() == EMPTY
    {
      nav, iconID, icon, transfer := NO_NAV, "", [], null;
    }

    method HandleNavigation(n: Nav) returns (hasIcon: bool)
      requires Valid()
      modifies this`nav
      ensures Valid() && View() == Navigate(old(View()), n) && hasIcon == HasIcon(View())
    {
      nav := n;
      hasIcon := Snapshot();
    }

    method HandleIconControl(iconID: string, totalBytes: int, chunkCount: int)
      requires Valid()
      modifies this`transfer
      ensures Valid() && View() == Control(old(View()), iconID, totalBytes, chunkCount) && fresh(transfer)
    {
      transfer := new IconTransfer(iconID, totalBytes, chunkCount);
      SizeOfNothing(map[], 0, INDICES);
    }

    method HandleIconChunk(data: seq<byte>) returns (outcome: Outcome)
      requires Valid()
      modifies this, transfer
      ensures Valid() && (View(), outcome) == Chunk(old(View()), data)
      ensures transfer == null || transfer == old(transfer)
    {
      if |data| < 2 {
        return Rejected(TooShort);
      }
      var idx := Uint16(data[0], data[1]);
      var payload := data[2..];
      if transfer == null {
        return Rejected(NoTransfer);
      }
      var t := transfer;
      t.Put(idx, payload);
      if t.received > t.totalBytes {
        transfer := null;
        return Rejected(Overflow);
      }
      if t.received < t.totalBytes {
        return Accepted;
      }
      var assembled := AssembleChunks(t.chunks, t.chunkCount);
      icon := assembled;
      iconID := t.iconID;
      transfer := null;
      return Accepted;
    }

    method Snapshot() returns (hasIcon: bool)
      ensures hasIcon == HasIcon(View())
    {
      hasIcon := |icon| > 0 && iconID != "" && iconID == nav.iconID;
    }
  }

  // ---------------------------------------------------------------- against the specification

  /** Stored indices are those a 16-bit field can name. */
  predicate Sound(s: Icon)
  {
    s.transfer.Some? ==> forall i :: i in s.transfer.value.chunks ==> 0 <= i < INDICES
  }

  /** A published icon lacks exactly the bytes stored at indices not below chunk_count. */
  lemma PublishedLength(s: Icon, data: seq<byte>)
    requires Sound(s) && |data| >= 2 && s.transfer.Some?
    requires Chunk(s, data).0.transfer.None? && Chunk(s, data).1.Accepted?
    ensures var t, i := s.transfer.value, Uint16(data[0], data[1]);
            var chunks := t.chunks[i := data[2..]];
            && Chunk(s, data).0.png == Assemble(chunks, Count(t))
            && |Chunk(s, data).0.png| == t.totalBytes - Size(chunks, Count(t), INDICES)
  {
    hide Size, Assemble;
    var t, i := s.transfer.value, Uint16(data[0], data[1]);
    var chunks := t.chunks[i := data[2..]];
    AssembledSize(chunks, Count(t));
    if Count(t) <= INDICES {
      SizeSplits(chunks, 0, Count(t), INDICES);
    } else {
      SizeSplits(chunks, 0, INDICES, Count(t));
      SizeOfNothing(chunks, INDICES, Count(t));
      SizeOfNothing(chunks, Count(t), INDICES);
    }
  }

  /** A cover-art transfer in the same situation. */
  function AsArt(s: Icon, startedAt: int): Art.Art
  {
    Art.Art(s.id, s.png,
            if s.transfer.None? then None
            else
              var t := s.transfer.value;
              Some(Art.Transfer(t.iconID, t.totalBytes, t.chunkCount, t.chunks, startedAt)))
  }

  /** With every index below chunk_count, and at most 65536 of them, an icon write does exactly what
      a cover-art write that has not expired does. */
  lemma AgreesWithCoverArt(s: Icon, data: seq<byte>, startedAt: int, now: int)
    requires |data| >= 2 && s.transfer.Some? && now - startedAt <= Art.ART_TRANSFER_TTL
    requires Uint16(data[0], data[1]) < s.transfer.value.chunkCount <= INDICES
    requires forall i :: i in s.transfer.value.chunks ==> 0 <= i < s.transfer.value.chunkCount
    ensures Art.Chunk(AsArt(s, startedAt), now, data).0 == AsArt(Chunk(s, data).0, startedAt)
    ensures Art.Chunk(AsArt(s, startedAt), now, data).1.Accepted? <==> Chunk(s, data).1.Accepted?
  {
    hide Size, Assemble;
    var t := s.transfer.value;
    var chunks := t.chunks[Uint16(data[0], data[1]) := data[2..]];
    SizeSplits(chunks, 0, t.chunkCount, INDICES);
    SizeOfNothing(chunks, t.chunkCount, INDICES);
  }

  /** Writes of parts of an icon, in some order. */
  function Deliver(s: Icon, parts: seq<seq<byte>>, order: seq<nat>): Icon
    requires forall i :: 0 <= i < |order| ==> order[i] < |parts|
  {
    if order == [] then s
    else
      var n := |order| - 1;
      Chunk(Deliver(s, parts, order[..n]), PutUint16(order[n]) + parts[order[n]]).0
  }

  /** The same writes to the cover-art store, all in time. */
  function InTime(order: seq<nat>): (r: seq<Art.Delivery>)
    ensures |r| == |order| && forall i :: 0 <= i < |order| ==> r[i] == Art.Delivery(order[i], 0)
  {
    seq(|order|, i requires 0 <= i < |order| => Art.Delivery(order[i], 0))
  }

  /** A live transfer announced parts chunks and holds only indices among them. */
  predicate InRange(s: Icon, parts: seq<seq<byte>>)
  {
    s.transfer.Some? ==>
      && s.transfer.value.chunkCount == |parts| <= INDICES
      && forall i :: i in s.transfer.value.chunks ==> 0 <= i < |parts|
  }

  /** With indices in range the icon store goes through the states of the cover-art store. */
  lemma {:induction false} DeliveriesAgree(s: Icon, parts: seq<seq<byte>>, order: seq<nat>)
    requires InRange(s, parts) && |parts| <= INDICES && forall i :: 0 <= i < |order| ==> order[i] < |parts|
    ensures var d := Deliver(s, parts, order);
            InRange(d, parts) && d.nav == s.nav && AsArt(d, 0) == Art.Deliver(AsArt(s, 0), parts, InTime(order)).0
  {
    if order != [] {
      var n := |order| - 1;
      DeliveriesAgree(s, parts, order[..n]);
      assert InTime(order)[..n] == InTime(order[..n]);
      DeliverOne(Deliver(s, parts, order[..n]), parts, order[n]);
    }
  }

  lemma DeliverOne(s: Icon, parts: seq<seq<byte>>, i: nat)
    requires InRange(s, parts) && i < |parts| <= INDICES
    ensures var data := PutUint16(i) + parts[i];
            && InRange(Chunk(s, data).0, parts) && Chunk(s, data).0.nav == s.nav
            && AsArt(Chunk(s, data).0, 0) == Art.Chunk(AsArt(s, 0), 0, data).0
  {
    hide Assemble, Size;
    var data := PutUint16(i) + parts[i];
    Uint16RoundTrip(i);
    assert Uint16(data[0], data[1]) == i;
    if s.transfer.Some? {
      AgreesWithCoverArt(s, data, 0, 0);
    }
  }

  /** An icon with no part received yet. */
  predicate Announces(t: Transfer, parts: seq<seq<byte>>)
  {
    t.chunks == map[] && t.chunkCount == |parts| <= INDICES && t.totalBytes == |Join(parts, |parts|)| > 0
  }

  /** Delivery independence: in any order and with any repetition, the icon is published, exactly,
      when its last missing non-empty part arrives, and until then the old one stays. */
  lemma DeliveryIndependence(s: Icon, t: Transfer, parts: seq<seq<byte>>, order: seq<nat>)
    requires s.transfer == Some(t) && Announces(t, parts)
    requires forall i :: 0 <= i < |order| ==> order[i] < |parts|
    ensures Deliver(s, parts, order) ==
            if Covered(parts, Seen(order)) then Icon(s.nav, t.iconID, Join(parts, |parts|), None)
            else s.(transfer := Some(t.(chunks := Arrived(parts, Seen(order)))))
  {
    DeliveriesAgree(s, parts, order);
    assert Art.Indices(InTime(order)) == order;
    Art.DeliveryIndependence(AsArt(s, 0), AsArt(s, 0).transfer.value, parts, InTime(order));
  }

  /** Where they part: a chunk at an index not below chunk_count is counted here but never shown. */
  lemma StrayChunkIsLost(s: Icon, data: seq<byte>)
    requires Sound(s) && |data| > 2 && s.transfer.Some? && s.transfer.value.chunks == map[]
    requires s.transfer.value.totalBytes == |data| - 2 && s.transfer.value.chunkCount <= Uint16(data[0], data[1])
    ensures Chunk(s, data).1.Accepted? && Chunk(s, data).0.png == [] && Chunk(s, data).0.transfer.None?
    ensures !HasIcon(Chunk(s, data).0)
  {
    var t, i := s.transfer.value, Uint16(data[0], data[1]);
    var chunks := t.chunks[i := data[2..]];
    SizeOfNothing(map[], 0, INDICES);
    SizeAfterWrite(map[], i, data[2..], INDICES);
    SizeOfNothing(chunks, 0, Count(t));
    AssembledSize(chunks, Count(t));
  }

  // ---------------------------------------------------------------- any interleaving of writes

  datatype Op = NavOp(nav: Nav) | ControlOp(iconID: string, totalBytes: int, chunkCount: int) | ChunkOp(data: seq<byte>)

  function Apply(s: Icon, op: Op): Icon
  {
    match op
    case NavOp(nav) => Navigate(s, nav)
    case ControlOp(iconID, totalBytes, chunkCount) => Control(s, iconID, totalBytes, chunkCount)
    case ChunkOp(data) => Chunk(s, data).0
  }

  function ApplyAll(ops: seq<Op>): Icon
  {
    if ops == [] then EMPTY else Apply(ApplyAll(ops[..|ops| - 1]), ops[|ops| - 1])
  }

  /** The icon id the last navigation write refers to. */
  function Referenced(ops: seq<Op>): string
  {
    if ops == [] then ""
    else if ops[|ops| - 1].NavOp? then ops[|ops| - 1].nav.iconID
    else Referenced(ops[..|ops| - 1])
  }

  /** The chunks a list of writes stores, the last one at each index. */
  function Stored(ops: seq<Op>): ChunkMap
  {
    if ops == [] then map[]
    else
      var op := ops[|ops| - 1];
      var before := Stored(ops[..|ops| - 1]);
      if op.ChunkOp? && |op.data| >= 2 then before[Uint16(op.data[0], op.data[1]) := op.data[2..]] else before
  }

  /** Write k is the last control write. */
  predicate LastControl(ops: seq<Op>, k: nat)
  {
    k < |ops| && ops[k].ControlOp? && forall i :: k < i < |ops| ==> !ops[i].ControlOp?
  }

  /** A live transfer is the one the last control write announced, with the chunks written since. */
  lemma {:induction false} LiveTransfer(ops: seq<Op>) returns (k: nat)
    requires ApplyAll(ops).transfer.Some?
    ensures LastControl(ops, k)
    ensures ApplyAll(ops).transfer.value ==
            Transfer(ops[k].iconID, ops[k].totalBytes, ops[k].chunkCount, Stored(ops[k + 1..]))
  {
    hide Assemble, Size;
    var init, n := ops[..|ops| - 1], |ops| - 1;
    if ops[n].ControlOp? {
      k := n;
      assert ops[k + 1..] == [];
    } else {
      k := LiveTransfer(init);
      assert ops[k + 1..][..n - k - 1] == init[k + 1..];
    }
  }

  /** Write j completes a transfer. */
  predicate Completes(ops: seq<Op>, j: nat)
  {
    j < |ops| && ops[j].ChunkOp? && ApplyAll(ops[..j]).transfer.Some?
    && Chunk(ApplyAll(ops[..j]), ops[j].data).0.transfer.None? && Chunk(ApplyAll(ops[..j]), ops[j].data).1.Accepted?
  }

  predicate LastCompletion(ops: seq<Op>, j: nat)
  {
    Completes(ops, j) && forall m :: j < m < |ops| ==> !Completes(ops, m)
  }

  /** Write j is the last to complete a transfer, the one write k announced; id and png are that
      transfer's id and its chunks below the announced count, in index order. */
  predicate Shown(ops: seq<Op>, k: nat, j: nat, id: string, png: seq<byte>)
  {
    && k < j && LastCompletion(ops, j)
    && LastControl(ops[..j], k) && id == ops[k].iconID
    && png == Assemble(Stored(ops[k + 1..j + 1]), if ops[k].chunkCount < 0 then 0 else ops[k].chunkCount)
  }

  lemma {:induction false} NavIsReferenced(ops: seq<Op>)
    ensures ApplyAll(ops).nav.iconID == Referenced(ops)
  {
    hide Assemble, Size;
    if ops != [] {
      NavIsReferenced(ops[..|ops| - 1]);
    }
  }

  /** In every reachable state the stored indices are 16-bit. */
  lemma {:induction false} IndicesFit(ops: seq<Op>)
    ensures Sound(ApplyAll(ops))
  {
    hide Assemble, Size;
    if ops != [] {
      IndicesFit(ops[..|ops| - 1]);
    }
  }

  /** Whatever icon there is, is shown in that sense. */
  lemma {:induction false} IconIsShown(ops: seq<Op>)
    requires ApplyAll(ops).id != "" || ApplyAll(ops).png != []
    ensures exists k: nat, j: nat :: Shown(ops, k, j, ApplyAll(ops).id, ApplyAll(ops).png)
  {
    var n := |ops| - 1;
    if Completes(ops, n) {
      var k := CompletedTransfer(ops);
    } else {
      OnlyCompletingShows(ops);
      hide ApplyAll, Completes, Shown;
      var id, png := ApplyAll(ops[..n]).id, ApplyAll(ops[..n]).png;
      IconIsShown(ops[..n]);
      var k: nat, j: nat :| Shown(ops[..n], k, j, id, png);
      StillShown(ops, k, j, id, png);
    }
  }

  lemma OnlyCompletingShows(ops: seq<Op>)
    requires ops != [] && !Completes(ops, |ops| - 1)
    ensures ApplyAll(ops).id == ApplyAll(ops[..|ops| - 1]).id && ApplyAll(ops).png == ApplyAll(ops[..|ops| - 1]).png
  {
    var before, op := ApplyAll(ops[..|ops| - 1]), ops[|ops| - 1];
    if op.ChunkOp? {
      hide Chunk;
      ChunkShows(before, op.data);
    }
  }

  lemma ChunkShows(s: Icon, data: seq<byte>)
    requires s.transfer.None? || Chunk(s, data).0.transfer.Some? || Chunk(s, data).1.Rejected?
    ensures Chunk(s, data).0.id == s.id && Chunk(s, data).0.png == s.png
  {
    hide Size, Assemble;
  }

  lemma CompletedTransfer(ops: seq<Op>) returns (k: nat)
    requires ops != [] && Completes(ops, |ops| - 1)
    ensures Shown(ops, k, |ops| - 1, ApplyAll(ops).id, ApplyAll(ops).png)
  {
    hide Assemble, Size, Stored;
    var n := |ops| - 1;
    k := LiveTransfer(ops[..n]);
    StoredOneMore(ops, k);
  }

  lemma StoredOneMore(ops: seq<Op>, k: nat)
    requires k + 1 < |ops| && ops[|ops| - 1].ChunkOp?
    ensures var n, op := |ops| - 1, ops[|ops| - 1];
            && ops[k + 1..n + 1] == ops[k + 1..]
            && Stored(ops[k + 1..]) ==
               if |op.data| >= 2 then Stored(ops[..n][k + 1..])[Uint16(op.data[0], op.data[1]) := op.data[2..]]
               else Stored(ops[..n][k + 1..])
  {
    var n := |ops| - 1;
    assert ops[k + 1..][..n - k - 1] == ops[..n][k + 1..];
  }

  lemma StillLast(ops: seq<Op>, j: nat)
    requires ops != [] && j < |ops| - 1 && LastCompletion(ops[..|ops| - 1], j) && !Completes(ops, |ops| - 1)
    ensures LastCompletion(ops, j)
  {
    hide Completes;
    CompletesInPrefix(ops, j);
    forall m | j < m < |ops| ensures !Completes(ops, m) {
      if m < |ops| - 1 {
        CompletesInPrefix(ops, m);
      }
    }
  }

  /** A write that completes nothing leaves the shown icon alone. */
  lemma StillShown(ops: seq<Op>, k: nat, j: nat, id: string, png: seq<byte>)
    requires ops != [] && Shown(ops[..|ops| - 1], k, j, id, png) && !Completes(ops, |ops| - 1)
    ensures Shown(ops, k, j, id, png)
  {
    var init := ops[..|ops| - 1];
    assert k < j < |init| by { hide ApplyAll, Chunk, Stored, Assemble; }
    hide Completes, LastCompletion, Stored, Assemble;
    StillLast(ops, j);
    assert init[..j] == ops[..j] && init[k + 1..j + 1] == ops[k + 1..j + 1];
  }

  lemma CompletesInPrefix(ops: seq<Op>, m: nat)
    requires m < |ops| - 1
    ensures Completes(ops[..|ops| - 1], m) == Completes(ops, m)
  {
    hide ApplyAll, Chunk;
    assert ops[..|ops| - 1][..m] == ops[..m];
  }

  /** What is shown lacks exactly the bytes its transfer stored at indices not below the count. */
  lemma ShownLength(ops: seq<Op>, k: nat, j: nat, id: string, png: seq<byte>)
    requires Shown(ops, k, j, id, png)
    ensures var stored, count := Stored(ops[k + 1..j + 1]), if ops[k].chunkCount < 0 then 0 else ops[k].chunkCount;
            |png| == ops[k].totalBytes - Size(stored, count, INDICES)
  {
    hide Assemble, Size, Stored;
    var before, upTo := ops[..j], ops[..j + 1];
    var live := LiveTransfer(before);
    assert upTo[..j] == before && upTo[k + 1..] == ops[k + 1..j + 1];
    IndicesFit(before);
    StoredOneMore(upTo, k);
    hide ApplyAll;
    assert live == k;
    PublishedLength(ApplyAll(before), ops[j].data);
  }

  /** Over every interleaving of navigation and icon writes, an icon is reported only when it is not
      empty and its id is the one the last navigation refers to; and what is shown are then the
      bytes of the last transfer to complete, which was announced under that id. */
  lemma HasIconIsCurrent(ops: seq<Op>)
    requires HasIcon(ApplyAll(ops))
    ensures ApplyAll(ops).png != [] && Referenced(ops) != ""
    ensures exists k: nat, j: nat :: Shown(ops, k, j, Referenced(ops), ApplyAll(ops).png)
  {
    NavIsReferenced(ops);
    IconIsShown(ops);
  }

  lemma OneLastControl(ops: seq<Op>, k: nat, l: nat)
    requires LastControl(ops, k) && LastControl(ops, l)
    ensures k == l
  {
  }

  lemma ShownBefore(ops: seq<Op>, k: nat, j: nat, id: string, png: seq<byte>)
    requires ops != [] && j < |ops| - 1 && Shown(ops, k, j, id, png)
    ensures Shown(ops[..|ops| - 1], k, j, id, png) && !Completes(ops, |ops| - 1)
  {
    hide Completes, Stored, Assemble;
    var init := ops[..|ops| - 1];
    assert init[..j] == ops[..j] && init[k + 1..j + 1] == ops[k + 1..j + 1];
    CompletesInPrefix(ops, j);
    forall m | j < m < |init| ensures !Completes(init, m) {
      CompletesInPrefix(ops, m);
    }
  }

  /** What is shown in that sense is the icon the store holds. */
  lemma {:induction false} ShownIsStored(ops: seq<Op>, k: nat, j: nat, id: string, png: seq<byte>)
    requires Shown(ops, k, j, id, png)
    ensures ApplyAll(ops).id == id && ApplyAll(ops).png == png
  {
    hide ApplyAll, Chunk, Stored, Assemble;
    if j < |ops| - 1 {
      ShownBefore(ops, k, j, id, png);
      ShownIsStored(ops[..|ops| - 1], k, j, id, png);
      OnlyCompletingShows(ops);
    } else {
      var l := CompletedTransfer(ops);
      OneLastControl(ops[..j], k, l);
    }
  }

  /** And the converse, so that an icon is reported exactly when the last transfer to complete was
      announced under the id the last navigation refers to and brought any bytes to show. */
  lemma HasIconExactly(ops: seq<Op>)
    ensures HasIcon(ApplyAll(ops)) <==>
            Referenced(ops) != "" &&
            exists k: nat, j: nat, png: seq<byte> :: png != [] && Shown(ops, k, j, Referenced(ops), png)
  {
    hide ApplyAll, Shown;
    NavIsReferenced(ops);
    if HasIcon(ApplyAll(ops)) {
      HasIconIsCurrent(ops);
    }
    forall k: nat, j: nat, png: seq<byte> | png != [] && Shown(ops, k, j, Referenced(ops), png)
      ensures ApplyAll(ops).png == png && ApplyAll(ops).id == Referenced(ops)
    {
      ShownIsStored(ops, k, j, Referenced(ops), png);
    }
  }
}
