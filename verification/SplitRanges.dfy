/**
  Cutting a payload into fragments: proportionally to path weights, or into
  MTU-sized chunks dealt out proportionally. Weights enter only through the rounded
  running totals `rounded`, one per weight, about which nothing is assumed.
*/
module SplitRanges {
  import opened ByteStrings
  import opened Wire

  datatype PathRange = PathRange(path: nat, start: nat, end: nat)

  function Clamp(x: nat, low: nat, high: nat): (r: nat)
    requires low <= high
    ensures low <= r <= high
  {
    if x < low then low else if x > high then high else x
  }

  /** Where the i-th path's share ends: the last takes all that is left. */
  function ShareEnd(length: nat, rounded: seq<nat>, i: nat): (end: nat)
    requires i < |rounded|
    ensures ShareStart(length, rounded, i) <= end <= length
    decreases i, 1
  {
    if i == |rounded| - 1 then length else Clamp(rounded[i], ShareStart(length, rounded, i), length)
  }

  function ShareStart(length: nat, rounded: seq<nat>, i: nat): (start: nat)
    requires i <= |rounded|
    ensures start <= length
    decreases i, 0
  {
    if i == 0 then 0 else ShareEnd(length, rounded, i - 1)
  }

  function Shares(length: nat, rounded: seq<nat>): seq<(nat, nat)> {
    seq(|rounded|, (i: nat) requires i < |rounded| => (ShareStart(length, rounded, i), ShareEnd(length, rounded, i)))
  }

  method WeightedSplitRanges(length: nat, rounded: seq<nat>) returns (ranges: seq<(nat, nat)>)
    ensures ranges == Shares(length, rounded)
  {
    ranges := [];
    var start := 0;
    for i := 0 to |rounded|
      invariant ranges == Shares(length, rounded)[..i]
      invariant start == ShareStart(length, rounded, i)
    {
      var end := if i == |rounded| - 1 then length else Clamp(rounded[i], start, length);
      ranges := ranges + [(start, end)];
      start := end;
    }
  }

  /**
    A share ends at the greatest rounded total so far, or at the length if that is less: at
    its own total where the totals rise within the length.
  */
  lemma {:induction false} SharesEndAtTheTotals(length: nat, rounded: seq<nat>, i: nat)
    requires i + 1 < |rounded|
    ensures forall j :: 0 <= j <= i ==> Min(rounded[j], length) <= ShareEnd(length, rounded, i)
    ensures exists j :: 0 <= j <= i && ShareEnd(length, rounded, i) == Min(rounded[j], length)
  {
    var end := ShareEnd(length, rounded, i);
    if i == 0 {
      assert end == Min(rounded[0], length);
    } else {
      SharesEndAtTheTotals(length, rounded, i - 1);
      var before := ShareEnd(length, rounded, i - 1);
      var k :| 0 <= k <= i - 1 && before == Min(rounded[k], length);
      assert end == Min(rounded[if rounded[i] > before then i else k], length);
    }
  }

  /** Shares lie end to end from zero to the length. */
  lemma SharesAdjoin(length: nat, rounded: seq<nat>, i: nat)
    requires i < |rounded|
    ensures Shares(length, rounded)[i].0 == if i == 0 then 0 else Shares(length, rounded)[i - 1].1
    ensures i + 1 == |rounded| ==> Shares(length, rounded)[i].1 == length
  {
  }

  // ---------------------------------------------------------------- what a split must be

  /** The ranges are non-empty, in order, without gaps, from 0 up to `end`. */
  predicate Tiles(ranges: seq<PathRange>, end: nat) {
    if ranges == [] then end == 0 else
    var n := |ranges| - 1;
    ranges[n].start < ranges[n].end == end && Tiles(ranges[..n], ranges[n].start)
  }

  function Pieces(payload: Bytes, ranges: seq<PathRange>): (pieces: seq<Bytes>)
    requires forall i :: 0 <= i < |ranges| ==> ranges[i].start <= ranges[i].end <= |payload|
    ensures |pieces| == |ranges|
  {
    seq(|ranges|, (i: nat) requires i < |ranges| => payload[ranges[i].start..ranges[i].end])
  }

  lemma {:induction false} TilesAreBounded(ranges: seq<PathRange>, end: nat)
    requires Tiles(ranges, end)
    ensures forall i :: 0 <= i < |ranges| ==> ranges[i].start < ranges[i].end <= end
  {
    if ranges != [] {
      var n := |ranges| - 1;
      TilesAreBounded(ranges[..n], ranges[n].start);
      assert forall i :: 0 <= i < n ==> ranges[i] == ranges[..n][i];
    }
  }

  /** Pieces along a tiling concatenate to the part of the payload tiled. */
  lemma {:induction false} PiecesConcatenate(payload: Bytes, ranges: seq<PathRange>, end: nat)
    requires Tiles(ranges, end) && end <= |payload|
    ensures forall i :: 0 <= i < |ranges| ==> ranges[i].start <= ranges[i].end <= |payload|
    ensures Concat(Pieces(payload, ranges)) == payload[..end]
  {
    TilesAreBounded(ranges, end);
    if ranges != [] {
      var n := |ranges| - 1;
      var cut := ranges[n].start;
      PiecesConcatenate(payload, ranges[..n], cut);
      var pieces := Pieces(payload, ranges);
      assert pieces[..n] == Pieces(payload, ranges[..n]);
      assert payload[..end] == payload[..cut] + payload[cut..end];
    }
  }

  // ---------------------------------------------------------------- within the MTU: drop empty shares

  function NonEmptyShares(shares: seq<(nat, nat)>): seq<PathRange> {
    if shares == [] then [] else
    var n := |shares| - 1;
    NonEmptyShares(shares[..n]) + (if shares[n].0 == shares[n].1 then [] else [PathRange(n, shares[n].0, shares[n].1)])
  }

  lemma {:induction false} NonEmptySharesTile(length: nat, rounded: seq<nat>, k: nat)
    requires k <= |rounded|
    ensures Tiles(NonEmptyShares(Shares(length, rounded)[..k]), ShareStart(length, rounded, k))
    ensures |NonEmptyShares(Shares(length, rounded)[..k])| <= k
  {
    if k != 0 {
      NonEmptySharesTile(length, rounded, k - 1);
      var shares := Shares(length, rounded);
      assert shares[..k][..k - 1] == shares[..k - 1];
      var before := NonEmptyShares(shares[..k - 1]);
      var last := PathRange(k - 1, shares[k - 1].0, shares[k - 1].1);
      assert shares[k - 1] == (ShareStart(length, rounded, k - 1), ShareStart(length, rounded, k));
      if last.start == last.end {
        assert NonEmptyShares(shares[..k]) == before;
      } else {
        assert NonEmptyShares(shares[..k]) == before + [last];
        assert (before + [last])[..|before|] == before;
      }
    }
  }

  // ---------------------------------------------------------------- over the MTU: whole chunks

  function ChunkEnd(length: nat, size: nat, start: nat): nat {
    if start + size <= length then start + size else length
  }

  function Chunks(length: nat, size: nat, start: nat): (chunks: seq<(nat, nat)>)
    requires size > 0
    decreases length - start
  {
    if start >= length then [] else [(start, ChunkEnd(length, size, start))] + Chunks(length, size, start + size)
  }

  /** Chunk j starts at j * size and is `size` long, but for the last; the chunks tile the length. */
  lemma {:induction false} ChunksAre(length: nat, size: nat, start: nat, j: nat)
    requires size > 0 && j < |Chunks(length, size, start)|
    ensures var chunks := Chunks(length, size, start);
      && chunks[j].0 < chunks[j].1 <= length && chunks[j].1 - chunks[j].0 <= size
      && chunks[j].0 == start + j * size
      && (j == 0 ==> chunks[0].0 == start)
      && (j + 1 < |chunks| ==> chunks[j].1 == chunks[j + 1].0)
      && (j + 1 == |chunks| ==> chunks[j].1 == length)
    decreases |Chunks(length, size, start)|
  {
    var rest := Chunks(length, size, start + size);
    if j > 0 {
      ChunksAre(length, size, start + size, j - 1);
    } else if rest != [] {
      ChunksAre(length, size, start + size, 0);
    }
  }

  /** One path's chunks, `from` up to but not including `to`. */
  function DealTo(chunks: seq<(nat, nat)>, path: nat, from: nat, to: nat): seq<PathRange>
    requires from <= to <= |chunks|
  {
    seq(to - from, (i: nat) requires i < to - from => PathRange(path, chunks[from + i].0, chunks[from + i].1))
  }

  /** The first k paths' chunks, path after path. */
  function Dealt(chunks: seq<(nat, nat)>, shares: seq<(nat, nat)>, k: nat): seq<PathRange>
    requires k <= |shares| && forall i :: 0 <= i < |shares| ==> shares[i].0 <= shares[i].1 <= |chunks|
  {
    if k == 0 then [] else
    Dealt(chunks, shares, k - 1) + DealTo(chunks, k - 1, shares[k - 1].0, shares[k - 1].1)
  }

  /** Range j is chunk j, dealt to one of the first k paths. */
  predicate InChunkOrder(dealt: seq<PathRange>, chunks: seq<(nat, nat)>, k: nat) {
    && |dealt| <= |chunks|
    && forall j :: 0 <= j < |dealt| ==> (dealt[j].start, dealt[j].end) == chunks[j] && dealt[j].path < k
  }

  /** Dealing out keeps the chunks in order, whoever each goes to. */
  lemma {:induction false} DealtInOrder(chunks: seq<(nat, nat)>, rounded: seq<nat>, k: nat)
    requires k <= |rounded|
    ensures |Dealt(chunks, Shares(|chunks|, rounded), k)| == ShareStart(|chunks|, rounded, k)
    ensures InChunkOrder(Dealt(chunks, Shares(|chunks|, rounded), k), chunks, k)
  {
    if k != 0 {
      DealtInOrder(chunks, rounded, k - 1);
      var (from, to) := Shares(|chunks|, rounded)[k - 1];
      DealOneMore(chunks, Dealt(chunks, Shares(|chunks|, rounded), k - 1), k - 1, from, to);
    }
  }

  lemma DealOneMore(chunks: seq<(nat, nat)>, before: seq<PathRange>, path: nat, from: nat, to: nat)
    requires |before| == from <= to <= |chunks| && InChunkOrder(before, chunks, path)
    ensures var after := before + DealTo(chunks, path, from, to);
      |after| == to && InChunkOrder(after, chunks, path + 1)
  {
  }

  lemma {:induction false} InOrderTiles(ranges: seq<PathRange>, length: nat, size: nat, k: nat)
    requires size > 0 && k <= |ranges| == |Chunks(length, size, 0)|
    requires forall j :: 0 <= j < |ranges| ==> (ranges[j].start, ranges[j].end) == Chunks(length, size, 0)[j]
    ensures Tiles(ranges[..k], if k == 0 then 0 else ranges[k - 1].end)
  {
    if k != 0 {
      InOrderTiles(ranges, length, size, k - 1);
      ChunksAre(length, size, 0, k - 1);
      if k > 1 {
        ChunksAre(length, size, 0, k - 2);
      }
      assert ranges[..k][..k - 1] == ranges[..k - 1];
    }
  }

  function MtuRanges(length: nat, rounded: seq<nat>, size: nat): Option<seq<PathRange>> {
    if size == 0 then None else
    var chunks := Chunks(length, size, 0);
    if |chunks| > MAX_FRAGMENTS then None
    else if chunks == [] || rounded == [] then Some([])
    else Some(Dealt(chunks, Shares(|chunks|, rounded), |rounded|))
  }

  predicate ExceedsMtu(length: nat, mtu: Option<nat>) {
    mtu.Some? && length > mtu.value
  }

  function PacketRanges(length: nat, rounded: seq<nat>, mtu: Option<nat>): Option<seq<PathRange>> {
    if ExceedsMtu(length, mtu) then MtuRanges(length, rounded, mtu.value) else
    var ranges := NonEmptyShares(Shares(length, rounded));
    if |ranges| <= MAX_FRAGMENTS then Some(ranges) else None
  }

  // ---------------------------------------------------------------- the loops

  method DealChunks(chunks: seq<(nat, nat)>, shares: seq<(nat, nat)>) returns (ranges: seq<PathRange>)
    requires forall i :: 0 <= i < |shares| ==> shares[i].0 <= shares[i].1 <= |chunks|
    ensures ranges == Dealt(chunks, shares, |shares|)
  {
    ranges := [];
    for k := 0 to |shares|
      invariant ranges == Dealt(chunks, shares, k)
    {
      ghost var before := ranges;
      var (start, end) := shares[k];
      for i := start to end
        invariant ranges == before + DealTo(chunks, k, start, i)
      {
        ranges := ranges + [PathRange(k, chunks[i].0, chunks[i].1)];
      }
    }
  }

  method CutChunks(length: nat, size: nat) returns (chunks: seq<(nat, nat)>)
    requires size > 0
    ensures chunks == Chunks(length, size, 0)
  {
    chunks := [];
    var start := 0;
    while start < length
      invariant chunks + Chunks(length, size, start) == Chunks(length, size, 0)
      decreases length - start
    {
      chunks := chunks + [(start, ChunkEnd(length, size, start))];
      start := start + size;
    }
  }

  method MtuChunkedSplitRanges(length: nat, rounded: seq<nat>, size: nat) returns (ranges: Option<seq<PathRange>>)
    ensures ranges == MtuRanges(length, rounded, size)
  {
    if size == 0 {
      return None;
    }
    var chunks := CutChunks(length, size);
    if |chunks| > MAX_FRAGMENTS {
      return None;
    }
    if chunks == [] || rounded == [] {
      return Some([]);
    }
    var shares := WeightedSplitRanges(|chunks|, rounded);
    var dealt := DealChunks(chunks, shares);
    return Some(dealt);
  }

  method PacketSplitRanges(length: nat, rounded: seq<nat>, mtu: Option<nat>) returns (ranges: Option<seq<PathRange>>)
    ensures ranges == PacketRanges(length, rounded, mtu)
  {
    if ExceedsMtu(length, mtu) {
      ranges := MtuChunkedSplitRanges(length, rounded, mtu.value);
      return;
    }
    var shares := WeightedSplitRanges(length, rounded);
    var kept := [];
    for i := 0 to |shares|
      invariant kept == NonEmptyShares(shares[..i])
    {
      assert shares[..i + 1][..i] == shares[..i];
      if shares[i].0 != shares[i].1 {
        kept := kept + [PathRange(i, shares[i].0, shares[i].1)];
      }
    }
    assert shares[..|shares|] == shares;
    return if |kept| <= MAX_FRAGMENTS then Some(kept) else None;
  }

  // ---------------------------------------------------------------- the split theorem

  lemma MtuRangesAreATiling(length: nat, rounded: seq<nat>, size: nat)
    requires length > 0 && rounded != [] && MtuRanges(length, rounded, size).Some?
    ensures var ranges := MtuRanges(length, rounded, size).value;
      && Tiles(ranges, length) && 1 <= |ranges| <= MAX_FRAGMENTS
      && forall i :: 0 <= i < |ranges| ==> ranges[i].end - ranges[i].start <= size
  {
    var chunks := Chunks(length, size, 0);
    var ranges := MtuRanges(length, rounded, size).value;
    DealtInOrder(chunks, rounded, |rounded|);
    InOrderTiles(ranges, length, size, |ranges|);
    assert ranges[..|ranges|] == ranges;
    ChunksAre(length, size, 0, |chunks| - 1);
    forall i | 0 <= i < |ranges|
      ensures ranges[i].end - ranges[i].start <= size
    {
      ChunksAre(length, size, 0, i);
    }
  }

  /**
    A split that succeeds on a non-empty payload with at least one path is an ordered
    partition into one to seven non-empty pieces, each within the MTU when the payload
    is not; with nothing to send or nowhere to send it there are no pieces.
  */
  lemma SplitIsAPartition(length: nat, rounded: seq<nat>, mtu: Option<nat>)
    requires PacketRanges(length, rounded, mtu).Some?
    ensures var ranges := PacketRanges(length, rounded, mtu).value;
      if length > 0 && rounded != [] then
        && Tiles(ranges, length) && 1 <= |ranges| <= MAX_FRAGMENTS
        && (ExceedsMtu(length, mtu) ==> forall i :: 0 <= i < |ranges| ==> ranges[i].end - ranges[i].start <= mtu.value)
      else ranges == []
  {
    if ExceedsMtu(length, mtu) {
      if rounded != [] {
        MtuRangesAreATiling(length, rounded, mtu.value);
      }
    } else {
      NonEmptySharesTile(length, rounded, |rounded|);
      assert Shares(length, rounded)[..|rounded|] == Shares(length, rounded);
    }
  }

  // ---------------------------------------------------------------- which path gets which range

  /** Range j lies in the share of its path: of the bytes, or of the chunks. */
  ghost predicate InItsShare(range: PathRange, j: nat, length: nat, rounded: seq<nat>, chunks: Option<nat>) {
    && range.path < |rounded|
    && match chunks
       case None =>
         range.start == ShareStart(length, rounded, range.path) && range.end == ShareEnd(length, rounded, range.path)
       case Some(n) => ShareStart(n, rounded, range.path) <= j < ShareEnd(n, rounded, range.path)
  }

  ghost predicate AllInShares(ranges: seq<PathRange>, length: nat, rounded: seq<nat>, chunks: Option<nat>) {
    forall j :: 0 <= j < |ranges| ==> InItsShare(ranges[j], j, length, rounded, chunks)
  }

  lemma OneMoreShare(ranges: seq<PathRange>, last: PathRange, length: nat, rounded: seq<nat>)
    requires AllInShares(ranges, length, rounded, None) && InItsShare(last, |ranges|, length, rounded, None)
    ensures AllInShares(ranges + [last], length, rounded, None)
  {
    hide InItsShare;
  }

  lemma ShareIs(length: nat, rounded: seq<nat>, k: nat, j: nat)
    requires 0 < k <= |rounded|
    ensures Shares(length, rounded)[..k][..k - 1] == Shares(length, rounded)[..k - 1]
    ensures var (start, end) := Shares(length, rounded)[k - 1];
      InItsShare(PathRange(k - 1, start, end), j, length, rounded, None)
  {
  }

  lemma {:induction false} NonEmptySharesAreShares(length: nat, rounded: seq<nat>, k: nat)
    requires k <= |rounded|
    ensures AllInShares(NonEmptyShares(Shares(length, rounded)[..k]), length, rounded, None)
  {
    if k != 0 {
      NonEmptySharesAreShares(length, rounded, k - 1);
      var shares := Shares(length, rounded);
      var before, last := NonEmptyShares(shares[..k - 1]), PathRange(k - 1, shares[k - 1].0, shares[k - 1].1);
      ShareIs(length, rounded, k, |before|);
      hide Shares, InItsShare, AllInShares;
      OneMoreShare(before, last, length, rounded);
      assert before + [] == before;
    }
  }

  lemma OneMoreDealt(chunks: seq<(nat, nat)>, before: seq<PathRange>, rounded: seq<nat>, path: nat)
    requires path < |rounded| && |before| == ShareStart(|chunks|, rounded, path)
    requires AllInShares(before, 0, rounded, Some(|chunks|))
    ensures var end := ShareEnd(|chunks|, rounded, path);
      var after := before + DealTo(chunks, path, |before|, end);
      |after| == end && AllInShares(after, 0, rounded, Some(|chunks|))
  {
    var n, end := |chunks|, ShareEnd(|chunks|, rounded, path);
    var after := before + DealTo(chunks, path, |before|, end);
    forall j | |before| <= j < |after|
      ensures after[j].path == path
    {
    }
    hide ShareStart, ShareEnd, DealTo;
  }

  lemma DealtUnfolds(chunks: seq<(nat, nat)>, rounded: seq<nat>, k: nat)
    requires 0 < k <= |rounded|
    ensures var shares := Shares(|chunks|, rounded);
      Dealt(chunks, shares, k) == Dealt(chunks, shares, k - 1)
        + DealTo(chunks, k - 1, ShareStart(|chunks|, rounded, k - 1), ShareEnd(|chunks|, rounded, k - 1))
    ensures ShareEnd(|chunks|, rounded, k - 1) == ShareStart(|chunks|, rounded, k)
  {
    hide DealTo;
  }

  lemma {:induction false} DealtToShares(chunks: seq<(nat, nat)>, rounded: seq<nat>, k: nat)
    requires k <= |rounded|
    ensures |Dealt(chunks, Shares(|chunks|, rounded), k)| == ShareStart(|chunks|, rounded, k)
    ensures AllInShares(Dealt(chunks, Shares(|chunks|, rounded), k), 0, rounded, Some(|chunks|))
  {
    if k != 0 {
      DealtToShares(chunks, rounded, k - 1);
      DealtUnfolds(chunks, rounded, k);
      hide AllInShares, DealTo, Dealt, ShareStart, ShareEnd;
      OneMoreDealt(chunks, Dealt(chunks, Shares(|chunks|, rounded), k - 1), rounded, k - 1);
    }
  }

  lemma SharesOfNoMatter(ranges: seq<PathRange>, length: nat, length': nat, rounded: seq<nat>, n: nat)
    requires AllInShares(ranges, length, rounded, Some(n))
    ensures AllInShares(ranges, length', rounded, Some(n))
  {
    forall j | 0 <= j < |ranges|
      ensures InItsShare(ranges[j], j, length', rounded, Some(n))
    {
      assert InItsShare(ranges[j], j, length, rounded, Some(n));
    }
  }

  /**
    Each path gets its share: within the MTU range by range, over it the chunks whose places
    are in its share of the number of chunks.
  */
  lemma EachPathGetsItsShare(length: nat, rounded: seq<nat>, mtu: Option<nat>)
    requires PacketRanges(length, rounded, mtu).Some?
    ensures var ranges := PacketRanges(length, rounded, mtu).value;
      AllInShares(ranges, length, rounded, if ExceedsMtu(length, mtu) then Some(|ranges|) else None)
  {
    assert Shares(length, rounded)[..|rounded|] == Shares(length, rounded);
    hide AllInShares, Shares, NonEmptyShares, Dealt, Chunks;
    NoneInShares(length, rounded);
    if ExceedsMtu(length, mtu) {
      var chunks := Chunks(length, mtu.value, 0);
      if chunks != [] && rounded != [] {
        DealtToShares(chunks, rounded, |rounded|);
        LastShareEnds(|chunks|, rounded);
        SharesOfNoMatter(PacketRanges(length, rounded, mtu).value, 0, length, rounded, |chunks|);
      }
    } else {
      NonEmptySharesAreShares(length, rounded, |rounded|);
    }
  }

  lemma NoneInShares(length: nat, rounded: seq<nat>)
    ensures forall chunks :: AllInShares([], length, rounded, chunks)
  {
  }

  lemma LastShareEnds(length: nat, rounded: seq<nat>)
    requires rounded != []
    ensures ShareStart(length, rounded, |rounded|) == length
  {
  }

  // ---------------------------------------------------------------- refusal

  /**
    When a split is refused: over the MTU, exactly when seven chunks of MTU size are not
    enough; within it, only when there are more than seven paths.
  */
  lemma SplitRefusedOnlyBeyondSeven(length: nat, rounded: seq<nat>, mtu: Option<nat>)
    ensures ExceedsMtu(length, mtu) ==>
      (PacketRanges(length, rounded, mtu).None? <==> length > MAX_FRAGMENTS * mtu.value)
    ensures !ExceedsMtu(length, mtu) && |rounded| <= MAX_FRAGMENTS ==> PacketRanges(length, rounded, mtu).Some?
  {
    if ExceedsMtu(length, mtu) {
      if mtu.value > 0 {
        ChunkCount(length, mtu.value, 0, MAX_FRAGMENTS);
      }
    } else {
      NonEmptySharesTile(length, rounded, |rounded|);
      assert Shares(length, rounded)[..|rounded|] == Shares(length, rounded);
    }
  }

  lemma {:induction false} ChunkCount(length: nat, size: nat, start: nat, n: nat)
    requires size > 0
    ensures |Chunks(length, size, start)| > n <==> length > start + n * size
    decreases n
  {
    if n > 0 && start < length {
      ChunkCount(length, size, start + size, n - 1);
      assert start + size + (n - 1) * size == start + n * size;
    }
  }
}
