/**
  What the sender puts on the wire for each ingested payload: which sequence number
  it gets, how it is cut into fragments or transport-stream chunks, what is cached
  for repair, and what is recorded for parity. Which path carries a datagram does not
  matter here; path selection enters as the conditions of each ingest.
*/
module Sender {
  import opened ByteStrings
  import opened Sequences
  import opened Wire
  import opened SplitRanges

  const MPEG_TS_PACKET_SIZE := 188

  datatype StrategyMode = AutoMode | RedundantMode | SplitMode | RoundRobinMode

  datatype PathStrategy = Redundant | Split | RoundRobin

  datatype Settings = Settings(splitThreshold: Option<nat>, mtu: Option<nat>, chunkBytes: Option<nat>)

  /** What holds when a payload is ingested; one rounded weight total per path to split over. */
  datatype Conditions = Conditions(
    activePaths: nat, rescuePaths: nat, mode: StrategyMode, effective: PathStrategy, rounded: seq<nat>)

  datatype Ingest = Ingest(payload: Bytes, conditions: Conditions)

  /** One sequence number's worth: payload, fragmentation, datagrams, and what the cache was given, in order. */
  datatype Sent = Sent(
    sequence: nat, payload: Bytes, pieces: seq<Bytes>, datagrams: seq<Bytes>, cached: seq<seq<Bytes>>)

  predicate ValidSettings(settings: Settings) {
    settings.chunkBytes.Some? ==> settings.chunkBytes.value > 0
  }

  function ShouldSplit(length: nat, settings: Settings, c: Conditions): bool {
    if ExceedsMtu(length, settings.mtu) then true
    else if |c.rounded| <= 1 then false
    else match c.mode
      case SplitMode => true
      case RedundantMode => false
      case RoundRobinMode => false
      case AutoMode => c.effective == Split && settings.splitThreshold.Some? && length > settings.splitThreshold.value
  }

  function IsMpegTs(payload: Bytes): bool {
    && payload != []
    && |payload| % MPEG_TS_PACKET_SIZE == 0
    && forall k :: 0 <= k < |payload| / MPEG_TS_PACKET_SIZE ==> payload[MPEG_TS_PACKET_SIZE * k] == 0x47
  }

  function WholePacket(sequence: nat, payload: Bytes): Bytes
    requires sequence <= MAX_MEDIA_SEQUENCE
  {
    EncodePacket(PacketHeader(sequence, 0, 1), payload)
  }

  function SentWhole(sequence: nat, payload: Bytes): Sent
    requires sequence <= MAX_MEDIA_SEQUENCE
  {
    Sent(sequence, payload, [payload], [WholePacket(sequence, payload)], [[WholePacket(sequence, payload)]])
  }

  function FragmentPackets(sequence: nat, pieces: seq<Bytes>): (packets: seq<Bytes>)
    requires sequence <= MAX_MEDIA_SEQUENCE && |pieces| <= MAX_FRAGMENTS
    ensures |packets| == |pieces|
  {
    seq(|pieces|, (i: nat) requires i < |pieces| => EncodePacket(PacketHeader(sequence, i, |pieces|), pieces[i]))
  }

  lemma RangesFit(length: nat, rounded: seq<nat>, mtu: Option<nat>)
    requires PacketRanges(length, rounded, mtu).Some?
    ensures var ranges := PacketRanges(length, rounded, mtu).value;
      && |ranges| <= MAX_FRAGMENTS
      && forall i :: 0 <= i < |ranges| ==> ranges[i].start <= ranges[i].end <= length
  {
    SplitIsAPartition(length, rounded, mtu);
    var ranges := PacketRanges(length, rounded, mtu).value;
    if length > 0 && rounded != [] {
      TilesAreBounded(ranges, length);
    }
  }

  /** A split packet; a rescue copy, if any, goes out whole and is cached after the fragments, in their place. */
  function SentSplit(sequence: nat, payload: Bytes, settings: Settings, c: Conditions): Option<Sent>
    requires sequence <= MAX_MEDIA_SEQUENCE
  {
    match PacketRanges(|payload|, c.rounded, settings.mtu)
    case None => None
    case Some(ranges) =>
      RangesFit(|payload|, c.rounded, settings.mtu);
      var pieces := Pieces(payload, ranges);
      var fragments := FragmentPackets(sequence, pieces);
      var whole := WholePacket(sequence, payload);
      var kept := if pieces == [] then [payload] else pieces;
      if c.rescuePaths > 0 && !ExceedsMtu(|payload|, settings.mtu)
      then Some(Sent(sequence, payload, kept, fragments + [whole], [fragments, [whole]]))
      else Some(Sent(sequence, payload, kept, fragments, [fragments]))
  }

  /** Nothing goes out with no active path, or when seven fragments are not enough. */
  function SendPacket(sequence: nat, payload: Bytes, settings: Settings, c: Conditions): Option<Sent>
    requires sequence <= MAX_MEDIA_SEQUENCE
  {
    if c.activePaths == 0 then None
    else if ShouldSplit(|payload|, settings, c) then SentSplit(sequence, payload, settings, c)
    else Some(SentWhole(sequence, payload))
  }

  // ---------------------------------------------------------------- transport-stream chunks

  function ChunkPayloads(payload: Bytes, size: nat): seq<Bytes>
    requires size > 0
  {
    var chunks := Chunks(|payload|, size, 0);
    seq(|chunks|, (i: nat) requires i < |chunks| =>
      ChunksAre(|payload|, size, 0, i); payload[chunks[i].0..chunks[i].1])
  }

  /** Consecutive numbers for the chunks, from `sequence` on. */
  function Numbering(sequence: nat, chunks: seq<Bytes>): seq<(nat, Bytes)> {
    seq(|chunks|, (i: nat) requires i < |chunks| => (SequenceAfter(sequence, i), chunks[i]))
  }

  /** One whole packet per chunk. */
  function SentChunks(sequence: nat, chunks: seq<Bytes>): seq<Sent>
    requires sequence <= MAX_MEDIA_SEQUENCE
  {
    var numbered := Numbering(sequence, chunks);
    seq(|chunks|, (i: nat) requires i < |chunks| =>
      SequenceAfterIsModular(sequence, i); SentWhole(numbered[i].0, numbered[i].1))
  }

  predicate IsChunked(payload: Bytes, settings: Settings) {
    settings.chunkBytes.Some? && |payload| > settings.chunkBytes.value && IsMpegTs(payload)
  }

  /** Chunks go nowhere with no active path, or when splitting over no path. */
  predicate ChunksHaveAPath(c: Conditions) {
    c.activePaths > 0 && (c.effective != Split || c.mode == RedundantMode || c.rounded != [])
  }

  /** The packets for one ingested payload, and the next sequence number. */
  function SendPayload(sequence: nat, ingest: Ingest, settings: Settings): (seq<Sent>, nat)
    requires sequence <= MAX_MEDIA_SEQUENCE && ValidSettings(settings)
  {
    if IsChunked(ingest.payload, settings) then
      if !ChunksHaveAPath(ingest.conditions) then ([], sequence) else
      var chunks := ChunkPayloads(ingest.payload, settings.chunkBytes.value);
      (SentChunks(sequence, chunks), SequenceAfter(sequence, |chunks|))
    else
      match SendPacket(sequence, ingest.payload, settings, ingest.conditions)
      case Some(sent) => ([sent], NextSequence(sequence))
      case None => ([], NextSequence(sequence))
  }

  // ---------------------------------------------------------------- the loops

  method BuildFragments(sequence: nat, payload: Bytes, ranges: seq<PathRange>) returns (packets: seq<Bytes>)
    requires sequence <= MAX_MEDIA_SEQUENCE && |ranges| <= MAX_FRAGMENTS
    requires forall i :: 0 <= i < |ranges| ==> ranges[i].start <= ranges[i].end <= |payload|
    ensures packets == FragmentPackets(sequence, Pieces(payload, ranges))
  {
    packets := [];
    for i := 0 to |ranges|
      invariant packets == FragmentPackets(sequence, Pieces(payload, ranges))[..i]
    {
      packets := packets + [EncodePacket(PacketHeader(sequence, i, |ranges|), payload[ranges[i].start..ranges[i].end])];
    }
  }

  /** One path's chunks, under consecutive numbers. */
  method NumberShare(sequence: nat, chunks: seq<Bytes>, start: nat, end: nat)
    returns (numbered: seq<(nat, Bytes)>, next: nat)
    requires start <= end <= |chunks|
    ensures numbered == Numbering(sequence, chunks[start..end]) && next == SequenceAfter(sequence, end - start)
  {
    numbered, next := [], sequence;
    for i := start to end
      invariant numbered == Numbering(sequence, chunks[start..end])[..i - start]
        && next == SequenceAfter(sequence, i - start)
    {
      numbered := numbered + [(next, chunks[i])];
      next := NextSequence(next);
    }
  }

  lemma SharesJoin(sequence: nat, chunks: seq<Bytes>, start: nat, end: nat)
    requires start <= end <= |chunks|
    ensures SequenceAfter(SequenceAfter(sequence, start), end - start) == SequenceAfter(sequence, end)
    ensures Numbering(sequence, chunks[..end]) ==
            Numbering(sequence, chunks[..start]) + Numbering(SequenceAfter(sequence, start), chunks[start..end])
  {
    SequenceAfterAdds(sequence, start, end - start);
    forall i | start <= i < end
      ensures SequenceAfter(SequenceAfter(sequence, start), i - start) == SequenceAfter(sequence, i)
    {
      SequenceAfterAdds(sequence, start, i - start);
    }
  }

  /** Chunks dealt path by path: every chunk goes out once, in order, under consecutive numbers. */
  method NumberChunksSplit(sequence: nat, chunks: seq<Bytes>, rounded: seq<nat>)
    returns (numbered: seq<(nat, Bytes)>, next: nat)
    requires rounded != []
    ensures numbered == Numbering(sequence, chunks) && next == SequenceAfter(sequence, |chunks|)
  {
    numbered, next := [], sequence;
    var shares := WeightedSplitRanges(|chunks|, rounded);
    for path := 0 to |shares|
      invariant numbered == Numbering(sequence, chunks[..ShareStart(|chunks|, rounded, path)])
      invariant next == SequenceAfter(sequence, ShareStart(|chunks|, rounded, path))
    {
      SharesJoin(sequence, chunks, shares[path].0, shares[path].1);
      var more, after := NumberShare(next, chunks, shares[path].0, shares[path].1);
      numbered, next := numbered + more, after;
    }
    assert chunks[..|chunks|] == chunks;
  }

  // ---------------------------------------------------------------- a whole run of the sender

  /** After some ingests: everything sent, the next number, and how many numbers were used up. */
  datatype Outbox = Outbox(log: seq<Sent>, sequence: nat, used: nat)

  function SendAll(ingests: seq<Ingest>, settings: Settings): (o: Outbox)
    requires ValidSettings(settings)
    ensures o.sequence <= MAX_MEDIA_SEQUENCE
  {
    if ingests == [] then Outbox([], 0, 0) else
    var n := |ingests| - 1;
    var before := SendAll(ingests[..n], settings);
    var (sent, next) := SendPayload(before.sequence, ingests[n], settings);
    var count := NumbersUsed(ingests[n], settings);
    SequenceAfterIsModular(before.sequence, count);
    Outbox(before.log + sent, next, before.used + count)
  }

  /** How far one ingest moves the sequence number. */
  function NumbersUsed(ingest: Ingest, settings: Settings): nat
    requires ValidSettings(settings)
  {
    if !IsChunked(ingest.payload, settings) then 1
    else if !ChunksHaveAPath(ingest.conditions) then 0
    else |ChunkPayloads(ingest.payload, settings.chunkBytes.value)|
  }

  // ---------------------------------------------------------------- what is sent is well formed

  /**
    Datagrams are the whole packet or fragments of the fragmentation; the cache is given
    all of the one or of the other, and only what was also sent.
  */
  ghost predicate WellSent(s: Sent) {
    && s.sequence <= MAX_MEDIA_SEQUENCE
    && 1 <= |s.pieces| <= MAX_FRAGMENTS && Concat(s.pieces) == s.payload
    && (forall d :: d in s.datagrams ==>
      d in FragmentPackets(s.sequence, s.pieces) || d == WholePacket(s.sequence, s.payload))
    && forall c :: c in s.cached ==>
      && (forall d :: d in c ==> d in s.datagrams)
      && (c == [] || c == FragmentPackets(s.sequence, s.pieces) || c == [WholePacket(s.sequence, s.payload)])
  }

  lemma SentWholeIsWellSent(sequence: nat, payload: Bytes)
    requires sequence <= MAX_MEDIA_SEQUENCE
    ensures WellSent(SentWhole(sequence, payload))
  {
    ConcatOne(payload);
  }

  /** Splitting keeps the payload: the pieces sent concatenate to it. */
  lemma SentSplitIsWellSent(sequence: nat, payload: Bytes, settings: Settings, c: Conditions)
    requires sequence <= MAX_MEDIA_SEQUENCE && SentSplit(sequence, payload, settings, c).Some?
    ensures WellSent(SentSplit(sequence, payload, settings, c).value)
  {
    SplitIsAPartition(|payload|, c.rounded, settings.mtu);
    RangesFit(|payload|, c.rounded, settings.mtu);
    ConcatOne(payload);
    var ranges := PacketRanges(|payload|, c.rounded, settings.mtu).value;
    if |payload| > 0 && c.rounded != [] {
      PiecesConcatenate(payload, ranges, |payload|);
      assert payload[..|payload|] == payload;
    }
  }

  lemma SendPayloadIsWellSent(sequence: nat, ingest: Ingest, settings: Settings)
    requires sequence <= MAX_MEDIA_SEQUENCE && ValidSettings(settings)
    ensures var (sent, next) := SendPayload(sequence, ingest, settings);
      && (forall i :: 0 <= i < |sent| ==> WellSent(sent[i]) && sent[i].sequence == SequenceAfter(sequence, i))
      && next == SequenceAfter(sequence, NumbersUsed(ingest, settings)) && |sent| <= NumbersUsed(ingest, settings)
  {
    var (sent, next) := SendPayload(sequence, ingest, settings);
    if IsChunked(ingest.payload, settings) {
      forall i | 0 <= i < |sent|
        ensures WellSent(sent[i])
      {
        SequenceAfterIsModular(sequence, i);
        SentWholeIsWellSent(sent[i].sequence, sent[i].payload);
      }
    } else {
      assert SequenceAfter(sequence, 1) == NextSequence(sequence) by {
        assert SequenceAfter(sequence, 0) == sequence;
      }
      if ShouldSplit(|ingest.payload|, settings, ingest.conditions) {
        if SentSplit(sequence, ingest.payload, settings, ingest.conditions).Some? {
          SentSplitIsWellSent(sequence, ingest.payload, settings, ingest.conditions);
        }
      } else {
        SentWholeIsWellSent(sequence, ingest.payload);
      }
    }
  }

  /** What a single packet may carry: no datagram is longer than the header and the MTU. */
  lemma DatagramsFitTheMtu(sequence: nat, payload: Bytes, settings: Settings, c: Conditions, mtu: nat)
    requires sequence <= MAX_MEDIA_SEQUENCE && settings.mtu == Some(mtu)
    requires SendPacket(sequence, payload, settings, c).Some?
    ensures var sent := SendPacket(sequence, payload, settings, c).value;
      forall i :: 0 <= i < |sent.datagrams| ==> |sent.datagrams[i]| <= 4 + mtu
  {
    var sent := SendPacket(sequence, payload, settings, c).value;
    if ShouldSplit(|payload|, settings, c) {
      SplitDatagramsFit(sequence, payload, settings, c, mtu);
    }
  }

  lemma SplitDatagramsFit(sequence: nat, payload: Bytes, settings: Settings, c: Conditions, mtu: nat)
    requires sequence <= MAX_MEDIA_SEQUENCE && settings.mtu == Some(mtu)
    requires SentSplit(sequence, payload, settings, c).Some?
    ensures var sent := SentSplit(sequence, payload, settings, c).value;
      forall i :: 0 <= i < |sent.datagrams| ==> |sent.datagrams[i]| <= 4 + mtu
  {
    SplitIsAPartition(|payload|, c.rounded, settings.mtu);
    RangesFit(|payload|, c.rounded, settings.mtu);
    var ranges := PacketRanges(|payload|, c.rounded, settings.mtu).value;
    if ranges != [] {
      TilesAreBounded(ranges, |payload|);
    }
    forall i | 0 <= i < |ranges|
      ensures |FragmentPackets(sequence, Pieces(payload, ranges))[i]| <= 4 + mtu
    {
      EncodedLength(PacketHeader(sequence, i, |ranges|), payload[ranges[i].start..ranges[i].end]);
    }
    EncodedLength(PacketHeader(sequence, 0, 1), payload);
    hide PacketRanges, Tiles, EncodePacket;
  }

  lemma EncodedLength(h: PacketHeader, payload: Bytes)
    requires ValidHeader(h)
    ensures |EncodePacket(h, payload)| == 4 + |payload|
  {
  }

  lemma NonEmptySharesAreFew(length: nat, rounded: seq<nat>)
    ensures |NonEmptyShares(Shares(length, rounded))| <= |rounded|
  {
    NonEmptySharesTile(length, rounded, |rounded|);
    assert Shares(length, rounded)[..|rounded|] == Shares(length, rounded);
  }

  lemma OnePiecePerShare(sequence: nat, payload: Bytes, settings: Settings, c: Conditions)
    requires sequence <= MAX_MEDIA_SEQUENCE && SentSplit(sequence, payload, settings, c).Some?
    requires !ExceedsMtu(|payload|, settings.mtu)
    ensures |SentSplit(sequence, payload, settings, c).value.pieces| ==
            Max(1, |NonEmptyShares(Shares(|payload|, c.rounded))|)
  {
    RangesFit(|payload|, c.rounded, settings.mtu);
    hide NonEmptyShares, Shares, EncodePacket;
  }

  /** Packets within the MTU are to be cut in this mode. */
  predicate WantsCutting(length: nat, settings: Settings, c: Conditions) {
    || c.mode == SplitMode
    || (c.mode == AutoMode && c.effective == Split && settings.splitThreshold.Some?
        && length > settings.splitThreshold.value)
  }

  /**
    A packet within the MTU goes out in several pieces exactly if the mode asks for it and
    more than one path has a share of it; otherwise in one.
  */
  lemma InPiecesIff(sequence: nat, payload: Bytes, settings: Settings, c: Conditions)
    requires sequence <= MAX_MEDIA_SEQUENCE && SendPacket(sequence, payload, settings, c).Some?
    requires !ExceedsMtu(|payload|, settings.mtu)
    ensures |SendPacket(sequence, payload, settings, c).value.pieces| >= 2 <==>
            WantsCutting(|payload|, settings, c) && |NonEmptyShares(Shares(|payload|, c.rounded))| >= 2
  {
    NonEmptySharesAreFew(|payload|, c.rounded);
    if SentSplit(sequence, payload, settings, c).Some? {
      OnePiecePerShare(sequence, payload, settings, c);
    }
    hide SentSplit, NonEmptyShares, Shares, PacketRanges;
  }

  /** Every 188 bytes a packet of the transport stream begins, and nothing is left over. */
  predicate IsStreamOfPackets(payload: Bytes, count: nat) {
    |payload| == 188 * count && forall k :: 0 <= k < count ==> payload[188 * k] == 0x47
  }

  lemma MpegTsIff(payload: Bytes, count: nat)
    requires |payload| / 188 == count
    ensures IsMpegTs(payload) <==> payload != [] && IsStreamOfPackets(payload, count)
  {
  }

  /** Whole packets of one chunk each, all of that size but for the last. */
  ghost predicate InChunks(sent: seq<Sent>, payload: Bytes, size: nat) {
    forall i :: 0 <= i < |sent| ==>
      && i * size < |payload| && sent[i].payload == payload[i * size..Min(|payload|, (i + 1) * size)]
      && sent[i].sequence <= MAX_MEDIA_SEQUENCE
      && sent[i].datagrams == [WholePacket(sent[i].sequence, sent[i].payload)]
  }

  lemma SentChunksAreInChunks(sequence: nat, payload: Bytes, size: nat)
    requires sequence <= MAX_MEDIA_SEQUENCE && size > 0
    ensures InChunks(SentChunks(sequence, ChunkPayloads(payload, size)), payload, size)
  {
    var sent := SentChunks(sequence, ChunkPayloads(payload, size));
    forall i | 0 <= i < |sent|
      ensures i * size < |payload| && sent[i].payload == payload[i * size..Min(|payload|, (i + 1) * size)]
      ensures sent[i].sequence <= MAX_MEDIA_SEQUENCE
      ensures sent[i].datagrams == [WholePacket(sent[i].sequence, sent[i].payload)]
    {
      SequenceAfterIsModular(sequence, i);
      ChunkIs(payload, size, i);
    }
    hide ChunkPayloads, EncodePacket;
  }

  /**
    A transport stream longer than the chunk size goes out in chunks, if there is a path to
    send on; anything else is one packet, or none.
  */
  lemma TransportStreamsAreChunked(sequence: nat, ingest: Ingest, settings: Settings)
    requires sequence <= MAX_MEDIA_SEQUENCE && ValidSettings(settings) && ingest.conditions.activePaths > 0
    requires ingest.conditions.effective != Split
    ensures var sent, payload := SendPayload(sequence, ingest, settings).0, ingest.payload;
      if settings.chunkBytes.Some? && |payload| > settings.chunkBytes.value && payload != []
         && IsStreamOfPackets(payload, |payload| / 188)
      then InChunks(sent, payload, settings.chunkBytes.value) && Concat(PayloadsOf(sent)) == payload
      else |sent| <= 1
  {
    var payload := ingest.payload;
    MpegTsIff(payload, |payload| / 188);
    hide IsMpegTs, IsStreamOfPackets, InChunks, SendPacket;
    if IsChunked(payload, settings) {
      SentChunksAreInChunks(sequence, payload, settings.chunkBytes.value);
      ChunksConcatenate(payload, settings.chunkBytes.value);
      PayloadsOfChunks(sequence, ChunkPayloads(payload, settings.chunkBytes.value));
    }
    hide SentChunks, ChunkPayloads, PayloadsOf;
  }

  function PayloadsOf(sent: seq<Sent>): (payloads: seq<Bytes>)
    ensures |payloads| == |sent|
  {
    seq(|sent|, (i: nat) requires i < |sent| => sent[i].payload)
  }

  lemma PayloadsOfChunks(sequence: nat, chunks: seq<Bytes>)
    requires sequence <= MAX_MEDIA_SEQUENCE
    ensures PayloadsOf(SentChunks(sequence, chunks)) == chunks
  {
    hide EncodePacket;
    forall i | 0 <= i < |chunks|
      ensures SentChunks(sequence, chunks)[i].payload == chunks[i]
    {
      SequenceAfterIsModular(sequence, i);
    }
  }

  lemma ChunkIs(payload: Bytes, size: nat, i: nat)
    requires size > 0 && i < |ChunkPayloads(payload, size)|
    ensures i * size < |payload| && ChunkPayloads(payload, size)[i] == payload[i * size..Min(|payload|, (i + 1) * size)]
  {
    var chunks := Chunks(|payload|, size, 0);
    ChunksAre(|payload|, size, 0, i);
    if i + 1 < |chunks| {
      ChunksAre(|payload|, size, 0, i + 1);
    }
    assert (i + 1) * size == i * size + size;
    if i + 1 == |chunks| {
      LastChunkIsShort(|payload|, size, 0, i);
    }
    hide Chunks;
  }

  lemma LastChunkIsShort(length: nat, size: nat, start: nat, j: nat)
    requires size > 0 && j + 1 == |Chunks(length, size, start)|
    ensures length <= start + j * size + size
  {
    ChunksAre(length, size, start, j);
    hide Chunks;
  }

  /** With rescue paths, a packet cut within the MTU goes out whole as well, and is cached whole last. */
  lemma RescueCopyGoesToo(sequence: nat, payload: Bytes, settings: Settings, c: Conditions)
    requires sequence <= MAX_MEDIA_SEQUENCE && c.rescuePaths > 0 && !ExceedsMtu(|payload|, settings.mtu)
    requires SendPacket(sequence, payload, settings, c).Some?
    ensures var sent, whole := SendPacket(sequence, payload, settings, c).value, WholePacket(sequence, payload);
      whole in sent.datagrams && sent.cached != [] && sent.cached[|sent.cached| - 1] == [whole]
  {
    hide PacketRanges, EncodePacket, FragmentPackets, Pieces;
  }

  /** Numbers in the log rise strictly and stay below the count used, until the space is used up. */
  ghost predicate Numbered(o: Outbox) {
    && (forall i :: 0 <= i < |o.log| ==> WellSent(o.log[i]))
    && o.sequence == SequenceAfter(0, o.used)
    && (o.used <= MEDIA_SEQUENCES ==>
        && (forall i :: 0 <= i < |o.log| ==> o.log[i].sequence < o.used)
        && forall i, j :: 0 <= i < j < |o.log| ==> o.log[i].sequence < o.log[j].sequence)
  }

  lemma {:induction false} SequenceAfterAdds(sequence: nat, i: nat, j: nat)
    ensures SequenceAfter(SequenceAfter(sequence, i), j) == SequenceAfter(sequence, i + j)
  {
    if j != 0 {
      SequenceAfterAdds(sequence, i, j - 1);
    }
  }

  lemma OneIngestKeepsNumbered(before: Outbox, sent: seq<Sent>, count: nat)
    requires Numbered(before) && |sent| <= count
    requires forall i :: 0 <= i < |sent| ==> WellSent(sent[i]) && sent[i].sequence == SequenceAfter(before.sequence, i)
    ensures Numbered(Outbox(before.log + sent, SequenceAfter(before.sequence, count), before.used + count))
  {
    SequenceAfterAdds(0, before.used, count);
    if before.used + count <= MEDIA_SEQUENCES {
      forall i | 0 <= i < |sent|
        ensures sent[i].sequence == before.used + i
      {
        SequenceAfterAdds(0, before.used, i);
        SequenceAfterLinear(0, before.used + i);
      }
    }
  }

  /**
    Over every run of the sender: each entry of the log is well formed, and as long as
    the number space is not used up each number is used for one payload only.
  */
  lemma {:induction false} SendAllIsNumbered(ingests: seq<Ingest>, settings: Settings)
    requires ValidSettings(settings)
    ensures Numbered(SendAll(ingests, settings))
  {
    hide WellSent, SendPayload, NumbersUsed;
    if ingests != [] {
      var n := |ingests| - 1;
      SendAllIsNumbered(ingests[..n], settings);
      var before := SendAll(ingests[..n], settings);
      SendPayloadIsWellSent(before.sequence, ingests[n], settings);
      OneIngestKeepsNumbered(before, SendPayload(before.sequence, ingests[n], settings).0,
        NumbersUsed(ingests[n], settings));
    }
  }

  /** The first k chunks concatenate to the payload up to where they end. */
  lemma {:induction false} ChunksConcatenateUpTo(payload: Bytes, size: nat, k: nat)
    requires size > 0 && k <= |ChunkPayloads(payload, size)|
    ensures var end := if k == 0 then 0 else Chunks(|payload|, size, 0)[k - 1].1;
      end <= |payload| && Concat(ChunkPayloads(payload, size)[..k]) == payload[..end]
    decreases k
  {
    var chunks, ranges := ChunkPayloads(payload, size), Chunks(|payload|, size, 0);
    if k != 0 {
      ChunksConcatenateUpTo(payload, size, k - 1);
      ChunksAre(|payload|, size, 0, k - 1);
      if k > 1 {
        ChunksAre(|payload|, size, 0, k - 2);
      }
      assert chunks[..k][..k - 1] == chunks[..k - 1];
      assert payload[..ranges[k - 1].1] == payload[..ranges[k - 1].0] + payload[ranges[k - 1].0..ranges[k - 1].1];
    }
  }

  /** Chunking a transport-stream payload loses nothing: the chunks concatenate to it. */
  lemma ChunksConcatenate(payload: Bytes, size: nat)
    requires size > 0
    ensures Concat(ChunkPayloads(payload, size)) == payload
  {
    var chunks := ChunkPayloads(payload, size);
    ChunksConcatenateUpTo(payload, size, |chunks|);
    assert chunks[..|chunks|] == chunks && payload[..|payload|] == payload;
    if chunks != [] {
      ChunksAre(|payload|, size, 0, |chunks| - 1);
    }
  }
}
