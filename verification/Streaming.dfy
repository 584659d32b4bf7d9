/** Piece deadlines for streaming: the head of the largest file. */
module Streaming {
  import opened Wrappers

  const STREAMING_HEAD_PIECE_COUNT := 30
  const STREAMING_DEADLINE_STEP_MS := 500

  datatype TorrentInfo = TorrentInfo(sizes: seq<nat>, offsets: seq<nat>, pieceLength: int, numPieces: int)

  datatype Deadline = Deadline(piece: int, ms: int)

  /** The sum of the first n file sizes. */
  function Total(sizes: seq<nat>, n: nat): nat
    requires n <= |sizes|
  {
    if n == 0 then 0 else Total(sizes, n - 1) + sizes[n - 1]
  }

  /** What libtorrent guarantees: files lie back to back and the pieces just cover them. */
  ghost predicate Consistent(ti: TorrentInfo) {
    && ti.pieceLength > 0 && |ti.offsets| == |ti.sizes|
    && (forall i :: 0 <= i < |ti.sizes| ==> ti.offsets[i] == Total(ti.sizes, i))
    && (ti.numPieces - 1) * ti.pieceLength < Total(ti.sizes, |ti.sizes|) <= ti.numPieces * ti.pieceLength
  }

  /** The file a player is after: the first of the largest ones. */
  ghost predicate IsLargest(sizes: seq<nat>, i: int) {
    && 0 <= i < |sizes|
    && (forall j :: 0 <= j < |sizes| ==> sizes[j] <= sizes[i])
    && forall j :: 0 <= j < i ==> sizes[j] < sizes[i]
  }

  method LargestIndex(sizes: seq<nat>) returns (largest: int)
    requires |sizes| > 0
    ensures IsLargest(sizes, largest)
  {
    largest := 0;
    for i := 1 to |sizes|
      invariant 0 <= largest < i
      invariant forall j :: 0 <= j < i ==> sizes[j] <= sizes[largest]
      invariant forall j :: 0 <= j < largest ==> sizes[j] < sizes[largest]
    {
      if sizes[i] > sizes[largest] {
        largest := i;
      }
    }
  }

  /** Piece p holds at least one byte of the file. */
  predicate Overlaps(p: int, len: int, offset: nat, size: nat) {
    p * len < offset + size && offset < (p + 1) * len
  }

  function FirstPiece(len: int, offset: nat): int
    requires len > 0
  {
    offset / len
  }

  function LastPiece(len: int, offset: nat, size: nat, numPieces: int): int
    requires len > 0
  {
    Min(numPieces - 1, (offset + Max(size, 1) - 1) / len)
  }

  /** The deadlines the loop sets, in order. */
  function Head(first: int, last: int): (s: seq<Deadline>) {
    var count := Max(0, Min(last, first + STREAMING_HEAD_PIECE_COUNT - 1) - first + 1);
    seq(count, rank => Deadline(first + rank, rank * STREAMING_DEADLINE_STEP_MS))
  }

  method ApplyStreamingDeadlines(metadata: Option<TorrentInfo>) returns (calls: seq<Deadline>)
    requires metadata.Some? ==> |metadata.value.offsets| == |metadata.value.sizes|
    ensures metadata.None? || metadata.value.sizes == [] || metadata.value.pieceLength <= 0 ==> calls == []
    ensures metadata.Some? && metadata.value.sizes != [] && metadata.value.pieceLength > 0 ==>
              var ti := metadata.value;
              exists i :: IsLargest(ti.sizes, i) &&
                calls == Head(FirstPiece(ti.pieceLength, ti.offsets[i]),
                              LastPiece(ti.pieceLength, ti.offsets[i], ti.sizes[i], ti.numPieces))
  {
    calls := [];
    if metadata.None? {
      return;
    }
    var ti := metadata.value;
    if |ti.sizes| == 0 || ti.pieceLength <= 0 {
      return;
    }
    var largest := LargestIndex(ti.sizes);
    var offset, size := ti.offsets[largest], ti.sizes[largest];
    var firstPiece := offset / ti.pieceLength;
    var lastPiece := Min(ti.numPieces - 1, (offset + Max(size, 1) - 1) / ti.pieceLength);
    var lastHeadPiece := Min(lastPiece, firstPiece + STREAMING_HEAD_PIECE_COUNT - 1);
    var rank := 0;
    while firstPiece + rank <= lastHeadPiece
      invariant 0 <= rank <= Max(0, lastHeadPiece - firstPiece + 1)
      invariant calls == seq(rank, r => Deadline(firstPiece + r, r * STREAMING_DEADLINE_STEP_MS))
    {
      calls := calls + [Deadline(firstPiece + rank, rank * STREAMING_DEADLINE_STEP_MS)];
      rank := rank + 1;
    }
    assert calls == Head(firstPiece, lastPiece);
  }

  // ------------------------------------------------------------------ which pieces those are

  lemma QuotientBounds(x: int, len: int)
    requires len > 0
    ensures (x / len) * len <= x < (x / len + 1) * len
  {
  }

  /** The pieces overlapping a non-empty file are those from its first byte's to its last byte's. */
  lemma OverlapIsARange(p: int, len: int, offset: nat, size: nat)
    requires len > 0 && size > 0
    ensures Overlaps(p, len, offset, size) <==> offset / len <= p <= (offset + size - 1) / len
  {
    var first, last := offset / len, (offset + size - 1) / len;
    QuotientBounds(offset, len);
    QuotientBounds(offset + size - 1, len);
    if Overlaps(p, len, offset, size) {
      ProductOrder(first, p + 1, len);
      ProductOrder(p, last + 1, len);
    }
    if first <= p <= last {
      ProductKeepsOrder(first + 1, p + 1, len);
      ProductKeepsOrder(p, last, len);
    }
  }

  lemma {:induction false} TotalGrows(sizes: seq<nat>, m: nat, n: nat)
    requires m <= n <= |sizes|
    ensures Total(sizes, m) <= Total(sizes, n)
    ensures m < n ==> Total(sizes, m) + sizes[m] <= Total(sizes, n)
    decreases n
  {
    if m == n {
    } else {
      TotalGrows(sizes, m, n - 1);
    }
  }

  lemma {:induction false} TotalOfEmptyFiles(sizes: seq<nat>, n: nat)
    requires n <= |sizes| && forall i :: 0 <= i < |sizes| ==> sizes[i] == 0
    ensures Total(sizes, n) == 0
  {
    if n == 0 {
    } else {
      TotalOfEmptyFiles(sizes, n - 1);
    }
  }

  /** A file's pieces are pieces of the torrent. */
  lemma OverlapIsInTorrent(ti: TorrentInfo, i: int, p: int)
    requires Consistent(ti) && 0 <= i < |ti.sizes| && Overlaps(p, ti.pieceLength, ti.offsets[i], ti.sizes[i])
    ensures 0 <= p < ti.numPieces
  {
    TotalGrows(ti.sizes, i, |ti.sizes|);
    ProductOrder(p, ti.numPieces, ti.pieceLength);
    ProductOrder(0, p + 1, ti.pieceLength);
  }

  /** The deadlines go to the first thirty pieces that hold a byte of the largest file, or all of them if
      there are fewer; each is a piece of the torrent, and the deadlines are half a second apart. */
  lemma DeadlinesCoverTheHead(ti: TorrentInfo, i: int, calls: seq<Deadline>)
    requires Consistent(ti) && IsLargest(ti.sizes, i) && ti.sizes[i] > 0
    requires calls == Head(FirstPiece(ti.pieceLength, ti.offsets[i]),
                           LastPiece(ti.pieceLength, ti.offsets[i], ti.sizes[i], ti.numPieces))
    ensures 0 < |calls| <= 30
    ensures forall r :: 0 <= r < |calls| ==>
              && calls[r] == Deadline(calls[0].piece + r, 500 * r)
              && Overlaps(calls[r].piece, ti.pieceLength, ti.offsets[i], ti.sizes[i])
              && 0 <= calls[r].piece < ti.numPieces
    ensures forall p :: Overlaps(p, ti.pieceLength, ti.offsets[i], ti.sizes[i]) ==>
              p >= calls[0].piece && (p < calls[0].piece + |calls| || |calls| == 30)
  {
    var len, offset, size := ti.pieceLength, ti.offsets[i], ti.sizes[i];
    var first, last := offset / len, (offset + size - 1) / len;
    RangeIsNotEmpty(offset, size, len);
    OverlapIsARange(last, len, offset, size);
    OverlapIsInTorrent(ti, i, last);
    assert LastPiece(len, offset, size, ti.numPieces) == last;
    forall p ensures Overlaps(p, len, offset, size) <==> first <= p <= last {
      OverlapIsARange(p, len, offset, size);
    }
    forall r | 0 <= r < |calls| ensures 0 <= calls[r].piece < ti.numPieces {
      OverlapIsInTorrent(ti, i, calls[r].piece);
    }
  }

  lemma RangeIsNotEmpty(offset: nat, size: nat, len: int)
    requires len > 0 && size > 0
    ensures offset / len <= (offset + size - 1) / len
  {
    QuotientBounds(offset, len);
    QuotientBounds(offset + size - 1, len);
    ProductOrder(offset / len, (offset + size - 1) / len + 1, len);
  }

  /** A torrent of empty files has no piece to schedule. */
  lemma EmptyFilesGetNoDeadline(ti: TorrentInfo, i: int)
    requires Consistent(ti) && IsLargest(ti.sizes, i) && ti.sizes[i] == 0
    ensures Head(FirstPiece(ti.pieceLength, ti.offsets[i]),
                 LastPiece(ti.pieceLength, ti.offsets[i], ti.sizes[i], ti.numPieces)) == []
  {
    TotalOfEmptyFiles(ti.sizes, |ti.sizes|);
    TotalOfEmptyFiles(ti.sizes, i);
    ProductOrder(ti.numPieces - 1, 0, ti.pieceLength);
    QuotientBounds(0, ti.pieceLength);
  }
}
