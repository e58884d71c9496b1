/** Chunk maps: the part of a chunked transfer that cover art, maneuver icons and the catalog share. */
module Chunks {
  import opened Bytes

  type ChunkMap = map<int, seq<byte>>

  /** A chunk's index is a 16-bit field. */
  const INDICES: nat := 65536

  /** The chunk stored at an index; a Go map yields the empty slice for a missing one. */
  function Piece(chunks: ChunkMap, i: int): seq<byte>
  {
    if i in chunks then chunks[i] else []
  }

  /** Chunks 0..n-1 in index order. */
  function Assemble(chunks: ChunkMap, n: nat): seq<byte>
  {
    if n == 0 then [] else Assemble(chunks, n - 1) + Piece(chunks, n - 1)
  }

  /** The appending loop of both stores. A negative count assembles nothing. */
  method AssembleChunks(chunks: ChunkMap, count: int) returns (assembled: seq<byte>)
    ensures assembled == Assemble(chunks, if count < 0 then 0 else count)
  {
    assembled := [];
    var i := 0;
    while i < count
      invariant 0 <= i && (i <= count || i == 0) && assembled == Assemble(chunks, i)
    {
      if i in chunks {
        assembled := assembled + chunks[i];
      }
      i := i + 1;
    }
  }

  /** The bytes stored at indices lo..hi-1. */
  function Size(chunks: ChunkMap, lo: nat, hi: nat): nat
    decreases hi - lo
  {
    if hi <= lo then 0 else Size(chunks, lo, hi - 1) + |Piece(chunks, hi - 1)|
  }

  lemma {:induction false} AssembledSize(chunks: ChunkMap, n: nat)
    ensures |Assemble(chunks, n)| == Size(chunks, 0, n)
  {
    if n > 0 {
      AssembledSize(chunks, n - 1);
    }
  }

  lemma {:induction false} SizeSplits(chunks: ChunkMap, lo: nat, mid: nat, hi: nat)
    requires lo <= mid <= hi
    ensures Size(chunks, lo, hi) == Size(chunks, lo, mid) + Size(chunks, mid, hi)
    decreases hi - mid
  {
    if mid < hi {
      SizeSplits(chunks, lo, mid, hi - 1);
    }
  }

  /** No chunk, no bytes. */
  lemma {:induction false} SizeOfNothing(chunks: ChunkMap, lo: nat, hi: nat)
    requires forall i :: lo <= i < hi ==> i !in chunks
    ensures Size(chunks, lo, hi) == 0
    decreases hi - lo
  {
    if lo < hi {
      SizeOfNothing(chunks, lo, hi - 1);
    }
  }

  /** Overwriting a chunk replaces its length in the total: the running count is the true one. */
  lemma {:induction false} SizeAfterWrite(chunks: ChunkMap, i: nat, payload: seq<byte>, hi: nat)
    ensures Size(chunks[i := payload], 0, hi) ==
            Size(chunks, 0, hi) + if i < hi then |payload| - |Piece(chunks, i)| else 0
  {
    if hi > 0 {
      SizeAfterWrite(chunks, i, payload, hi - 1);
    }
  }

  // ---------------------------------------------------------------- delivering a whole

  /** The chunks of a whole cut into parts, when the indices in seen have been delivered. */
  function Arrived(parts: seq<seq<byte>>, seen: set<int>): ChunkMap
  {
    map i | i in seen && 0 <= i < |parts| :: parts[i]
  }

  /** Nothing but empty parts is missing. */
  predicate Covered(parts: seq<seq<byte>>, seen: set<int>)
  {
    forall i :: 0 <= i < |parts| && parts[i] != [] ==> i in seen
  }

  predicate CoveredBelow(parts: seq<seq<byte>>, seen: set<int>, n: nat)
  {
    forall i :: 0 <= i < |parts| && i < n && parts[i] != [] ==> i in seen
  }

  /** The bytes that have arrived are never more than the whole, are as many exactly when nothing
      but empty parts is missing, and then assemble to the whole. */
  lemma {:induction false} ArrivedSize(parts: seq<seq<byte>>, seen: set<int>, n: nat)
    requires n <= |parts|
    ensures Size(Arrived(parts, seen), 0, n) <= |Join(parts, n)|
    ensures Size(Arrived(parts, seen), 0, n) == |Join(parts, n)| <==> CoveredBelow(parts, seen, n)
    ensures CoveredBelow(parts, seen, n) ==> Assemble(Arrived(parts, seen), n) == Join(parts, n)
  {
    if n > 0 {
      ArrivedSize(parts, seen, n - 1);
      assert CoveredBelow(parts, seen, n) <==>
          CoveredBelow(parts, seen, n - 1) && (parts[n - 1] != [] ==> n - 1 in seen);
    }
  }

  /** The indices in a list of deliveries. */
  function Seen(order: seq<nat>): set<int>
  {
    set i | i in order
  }

  lemma ArrivedAfter(parts: seq<seq<byte>>, order: seq<nat>, i: nat)
    requires i < |parts|
    ensures Arrived(parts, Seen(order + [i])) == Arrived(parts, Seen(order))[i := parts[i]]
  {
  }
}
