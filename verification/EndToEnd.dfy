/**
  Sender, channel and receiver together. The channel may lose, repeat, delay and
  reorder datagrams, and mix in repairs, which resend cached datagrams; what comes
  out of the receiver is still only what went into the sender.
*/
module EndToEnd {
  import opened ByteStrings
  import opened Sequences
  import opened Wire
  import opened Assembly
  import opened FecRecovery
  import opened Window
  import opened WindowLaws
  import opened Receiver
  import opened Integrity
  import opened SplitRanges
  import opened FecEncoder
  import opened RepairCache
  import opened RepairTiming
  import opened Sender

  // ---------------------------------------------------------------- everything that can be on the wire

  /** Every packet sent is recorded for parity, with whatever group size was then suggested. */
  function CallsOf(log: seq<Sent>, sizes: seq<nat>): (calls: seq<Call>)
    requires |sizes| == |log|
    ensures |calls| == |log|
  {
    seq(|log|, (i: nat) requires i < |log| => Call(SourcePacket(log[i].sequence, log[i].payload), sizes[i]))
  }

  predicate ValidSizes(sizes: seq<nat>) {
    forall i :: 0 <= i < |sizes| ==> sizes[i] in ADAPTIVE_GROUP_SIZES
  }

  ghost function ParityGroups(log: seq<Sent>, sizes: seq<nat>, mode: GroupMode,
                              mtu: Option<nat>): seq<seq<SourcePacket>>
    requires |sizes| == |log|
  {
    RecordAll(Encoder(mode, mtu, []), CallsOf(log, sizes)).1
  }

  /** A datagram the sender produced: for some packet, or for some parity group. */
  ghost predicate OnWire(log: seq<Sent>, groups: seq<seq<SourcePacket>>, d: Bytes) {
    || (exists k :: 0 <= k < |log| && d in log[k].datagrams)
    || (exists g :: 0 <= g < |groups| && Sendable(groups[g]) && ValidFrame(FrameFor(groups[g]))
                    && d == FecDatagram(FrameFor(groups[g])))
  }

  function SentMap(log: seq<Sent>): map<nat, Source> {
    if log == [] then map[] else
    var last := log[|log| - 1];
    SentMap(log[..|log| - 1])[last.sequence := Source(last.payload, last.pieces)]
  }

  predicate RisingNumbers(log: seq<Sent>) {
    forall i, j :: 0 <= i < j < |log| ==> log[i].sequence < log[j].sequence
  }

  ghost predicate Rising(log: seq<Sent>) {
    RisingNumbers(log) && forall i :: 0 <= i < |log| ==> WellSent(log[i])
  }

  ghost predicate Logged(log: seq<Sent>, s: nat) {
    exists k :: 0 <= k < |log| && log[k].sequence == s
  }

  lemma {:induction false} SentMapIsTheLog(log: seq<Sent>)
    requires RisingNumbers(log)
    ensures forall k :: 0 <= k < |log| ==>
      log[k].sequence in SentMap(log) && SentMap(log)[log[k].sequence] == Source(log[k].payload, log[k].pieces)
    ensures forall s :: s in SentMap(log) ==> Logged(log, s)
  {
    if log != [] {
      var n := |log| - 1;
      SentMapIsTheLog(log[..n]);
      LoggedLater(log, n);
      hide Logged;
      forall k | 0 <= k < n
        ensures log[k].sequence in SentMap(log)
        ensures SentMap(log)[log[k].sequence] == Source(log[k].payload, log[k].pieces)
      {
        assert log[..n][k] == log[k] && log[k].sequence != log[n].sequence;
      }
    }
  }

  lemma LoggedLater(log: seq<Sent>, n: nat)
    requires |log| == n + 1
    ensures forall s :: Logged(log, s) <==> Logged(log[..n], s) || s == log[n].sequence
  {
    forall s | Logged(log[..n], s)
      ensures Logged(log, s)
    {
      var k :| 0 <= k < n && log[..n][k].sequence == s;
      assert log[k].sequence == s;
    }
    forall s | Logged(log, s) && s != log[n].sequence
      ensures Logged(log[..n], s)
    {
      var k :| 0 <= k < n && log[k].sequence == s;
      assert log[..n][k].sequence == s;
    }
  }

  lemma SentMapIsConsistent(log: seq<Sent>)
    requires Rising(log)
    ensures Consistent(SentMap(log))
  {
    SentMapIsTheLog(log);
    forall s | s in SentMap(log)
      ensures Concat(SentMap(log)[s].pieces) == SentMap(log)[s].payload
    {
      assert Logged(log, s);
      var k :| 0 <= k < |log| && log[k].sequence == s;
      assert WellSent(log[k]);
    }
  }

  // ---------------------------------------------------------------- what is on the wire is genuine

  lemma FragmentsAreGenuine(s: Sent, sent: map<nat, Source>, d: Bytes)
    requires WellSent(s) && s.sequence in sent && sent[s.sequence] == Source(s.payload, s.pieces)
    requires d in FragmentPackets(s.sequence, s.pieces)
    ensures ParseFrame(d).Ok? && ParseFrame(d).value.MediaFrame?
    ensures var p := ParseFrame(d).value.packet; GenuinePacket(sent, p.header, p.payload)
  {
    var i :| 0 <= i < |s.pieces| && d == FragmentPackets(s.sequence, s.pieces)[i];
    MediaDatagramParses(PacketHeader(s.sequence, i, |s.pieces|), s.pieces[i]);
    if |s.pieces| == 1 {
      ConcatOne(s.pieces[0]);
      assert s.pieces == [s.pieces[0]];
    }
  }

  lemma MediaIsGenuine(s: Sent, sent: map<nat, Source>, d: Bytes)
    requires WellSent(s) && s.sequence in sent && sent[s.sequence] == Source(s.payload, s.pieces)
    requires d in s.datagrams
    ensures ParseFrame(d).Ok? && ParseFrame(d).value.MediaFrame?
    ensures var p := ParseFrame(d).value.packet; GenuinePacket(sent, p.header, p.payload)
  {
    if d in FragmentPackets(s.sequence, s.pieces) {
      FragmentsAreGenuine(s, sent, d);
    } else {
      MediaDatagramParses(PacketHeader(s.sequence, 0, 1), s.payload);
    }
  }

  /** A parity frame over packets that were all sent is genuine. */
  lemma ParityIsGenuine(group: seq<SourcePacket>, sent: map<nat, Source>)
    requires Sendable(group)
    requires forall i :: 0 <= i < |group| ==> Genuine(sent, group[i].sequence, group[i].payload)
    ensures ValidFrame(FrameFor(group)) && GenuineFrame(sent, FrameFor(group))
    ensures ParseFrame(FecDatagram(FrameFor(group))) == Ok(Wire.ParityFrame(FrameFor(group)))
  {
    FlushedFrameIsParity(group);
    var frame := FrameFor(group);
    FecDatagramParses(frame);
    assert MembersSent(sent, frame);
    assert GroupOf(sent, frame) == Payloads(group);
  }

  lemma CallsAreValid(log: seq<Sent>, sizes: seq<nat>)
    requires Rising(log) && |sizes| == |log| && ValidSizes(sizes)
    ensures forall i :: 0 <= i < |log| ==> ValidCall(CallsOf(log, sizes)[i])
  {
    forall i | 0 <= i < |log|
      ensures ValidCall(CallsOf(log, sizes)[i])
    {
      assert WellSent(log[i]);
    }
  }

  /** Every packet of a stretch of the recorded calls is the packet of the log it was recorded for. */
  lemma SpannedIsLogged(run: Stretch, log: seq<Sent>, sizes: seq<nat>, mode: GroupMode, mtu: Option<nat>, i: nat)
    requires |sizes| == |log| && Spans(run, CallsOf(log, sizes), mode, mtu) && i < |run.packets|
    ensures var k := run.end - |run.packets| + i;
      0 <= k < |log| && run.packets[i] == SourcePacket(log[k].sequence, log[k].payload)
  {
    assert run.packets[i] == Sources(CallsOf(log, sizes))[run.end - |run.packets| + i];
  }

  /** Parity groups are made of packets in the log. */
  lemma GroupsComeFromTheLog(log: seq<Sent>, sizes: seq<nat>, mode: GroupMode, mtu: Option<nat>, g: nat)
    requires Rising(log) && |sizes| == |log| && ValidSizes(sizes) && ValidMode(mode)
    requires g < |ParityGroups(log, sizes, mode, mtu)|
    ensures var group := ParityGroups(log, sizes, mode, mtu)[g];
      forall i :: 0 <= i < |group| ==> Genuine(SentMap(log), group[i].sequence, group[i].payload)
  {
    CallsAreValid(log, sizes);
    var runs := GroupsLieInOrder(Encoder(mode, mtu, []), CallsOf(log, sizes));
    assert Groups(runs)[g] == runs[g].packets;
    SentMapIsTheLog(log);
    forall i | 0 <= i < |runs[g].packets|
      ensures Genuine(SentMap(log), runs[g].packets[i].sequence, runs[g].packets[i].payload)
    {
      SpannedIsLogged(runs[g], log, sizes, mode, mtu, i);
    }
  }

  // ---------------------------------------------------------------- what is cached is on the wire

  /** Cached fragments for a number are datagrams that were sent under it. */
  ghost predicate KeptWhenSent(log: seq<Sent>, sequence: nat, fragments: seq<CachedFragment>) {
    exists k :: 0 <= k < |log| && log[k].sequence == sequence && AllSent(fragments, log[k].datagrams)
  }

  predicate AllSent(fragments: seq<CachedFragment>, datagrams: seq<Bytes>) {
    forall i :: 0 <= i < |fragments| ==> fragments[i].packet in datagrams
  }

  predicate SamePackets(fragments: seq<CachedFragment>, packets: seq<Bytes>) {
    |fragments| == |packets| && forall i :: 0 <= i < |fragments| ==> fragments[i].packet == packets[i]
  }

  /** Whatever the sender gives the cache for a packet is kept from its sending: first the fragments, then the whole. */
  lemma SendersInsertionsAreKept(log: seq<Sent>, k: nat, j: nat, fragments: seq<CachedFragment>)
    requires k < |log| && WellSent(log[k]) && j < |log[k].cached| && SamePackets(fragments, log[k].cached[j])
    ensures KeptWhenSent(log, log[k].sequence, fragments)
  {
    assert log[k].cached[j] in log[k].cached;
  }

  /** The cache is only ever given what was kept when some packet was sent. */
  ghost predicate FedFrom(log: seq<Sent>, ops: seq<Op>) {
    forall i :: 0 <= i < |ops| && ops[i].Insertion? ==> KeptWhenSent(log, ops[i].sequence, ops[i].fragments)
  }

  ghost predicate CachesTheLog(log: seq<Sent>, packets: map<nat, CachedPacket>) {
    forall s :: s in packets ==> KeptWhenSent(log, s, packets[s].fragments)
  }

  lemma FewerStillCacheTheLog(log: seq<Sent>, packets: map<nat, CachedPacket>, fewer: map<nat, CachedPacket>)
    requires CachesTheLog(log, packets) && SubMap(fewer, packets)
    ensures CachesTheLog(log, fewer)
  {
  }

  lemma CurrentCachesTheLog(log: seq<Sent>, c: Cache, now: nat)
    requires CacheOk(c) && CachesTheLog(log, c.packets)
    ensures CachesTheLog(log, Current(c, now).packets)
  {
    hide KeptWhenSent;
    var n := ExpirePacketsDrops(c, now);
    var m := ExpireRequestsDrops(ExpirePackets(c, now), now);
    FewerStillCacheTheLog(log, c.packets, Current(c, now).packets);
  }

  lemma InsertionCachesTheLog(log: seq<Sent>, c: Cache, sequence: nat, fragments: seq<CachedFragment>, now: nat)
    requires CacheOk(c) && CachesTheLog(log, c.packets) && KeptWhenSent(log, sequence, fragments)
    ensures CachesTheLog(log, Insert(c, sequence, fragments, now).packets)
  {
    if fragments != [] {
      var n := ExpirePacketsDrops(c, now);
      var expired := ExpirePackets(c, now);
      FewerStillCacheTheLog(log, c.packets, expired.packets);
      AddedCachesTheLog(log, expired, sequence, fragments, now);
      hide Added, KeptWhenSent, CachesTheLog, QueueOk, FragmentsOk;
      var added := Added(expired, sequence, fragments, now);
      var m := EnforcePacketsDrops(added);
      FewerStillCacheTheLog(log, added.packets, EnforcePackets(added).packets);
    }
  }

  lemma AddedCachesTheLog(log: seq<Sent>, c: Cache, sequence: nat, fragments: seq<CachedFragment>, now: nat)
    requires QueueOk(c.order, c.packets) && CachesTheLog(log, c.packets) && KeptWhenSent(log, sequence, fragments)
    ensures var added := Added(c, sequence, fragments, now);
      QueueOk(added.order, added.packets) && CachesTheLog(log, added.packets)
  {
    hide KeptWhenSent;
    EnqueueKeepsQueueOk(c.order, c.packets, sequence, CachedPacket(fragments, now));
  }

  lemma RequestCachesTheLog(log: seq<Sent>, c: Cache, request: RepairRequest, now: nat)
    requires CacheOk(c) && CachesTheLog(log, c.packets)
    ensures CachesTheLog(log, AfterRequest(c, request, now).packets)
  {
    hide KeptWhenSent;
    CurrentCachesTheLog(log, c, now);
    if Answers(c, request, now) {
      EnforceRequestsLeavesPackets(Noted(Current(c, now), request, now));
    }
  }

  lemma {:induction false} RunCachesTheLog(log: seq<Sent>, c: Cache, ops: seq<Op>)
    requires CacheOk(c) && CachesTheLog(log, c.packets) && ValidOps(ops) && FedFrom(log, ops)
    ensures CachesTheLog(log, ApplyAll(c, ops).packets)
  {
    if ops != [] {
      var n := |ops| - 1;
      var before := ApplyAll(c, ops[..n]);
      RunCachesTheLog(log, c, ops[..n]);
      EveryRunKeepsOk(c, ops[..n]);
      match ops[n]
      case Insertion(sequence, fragments, now) => InsertionCachesTheLog(log, before, sequence, fragments, now);
      case Request(request, now) => RequestCachesTheLog(log, before, request, now);
    }
  }

  /** A lookup after a run of the repair cache. */
  datatype Repair = Repair(ttl: nat, maxPackets: nat, ops: seq<Op>, request: RepairRequest, now: nat)

  function CacheAfter(r: Repair): (c: Cache)
    requires ValidOps(r.ops)
    ensures CacheOk(c)
  {
    EmptyIsDisciplined(r.ttl, r.maxPackets);
    EveryRunKeepsOk(EmptyCache(r.ttl, r.maxPackets), r.ops);
    ApplyAll(EmptyCache(r.ttl, r.maxPackets), r.ops)
  }

  /** A datagram sent again in answer to a repair request, after any run of insertions and requests. */
  ghost predicate Resent(log: seq<Sent>, d: Bytes) {
    exists r: Repair, f: CachedFragment ::
      ValidOps(r.ops) && FedFrom(log, r.ops) && f in Reply(CacheAfter(r), r.request, r.now) && f.packet == d
  }

  lemma {:induction false} SelectedAreCached(fragments: seq<CachedFragment>, mask: bv8, f: CachedFragment)
    requires |fragments| <= MAX_FRAGMENTS && f in Selected(fragments, mask)
    ensures f in fragments
  {
    var n := |fragments| - 1;
    if f in Selected(fragments[..n], mask) {
      SelectedAreCached(fragments[..n], mask, f);
    }
  }

  /** Repairs bring nothing new: whatever is sent again was sent before. */
  lemma ResentWasSent(log: seq<Sent>, d: Bytes)
    requires Resent(log, d)
    ensures exists k :: 0 <= k < |log| && d in log[k].datagrams
  {
    var r: Repair, f: CachedFragment :|
      ValidOps(r.ops) && FedFrom(log, r.ops) && f in Reply(CacheAfter(r), r.request, r.now) && f.packet == d;
    var c, empty := CacheAfter(r), EmptyCache(r.ttl, r.maxPackets);
    EmptyIsDisciplined(r.ttl, r.maxPackets);
    assert CachesTheLog(log, empty.packets);
    RunCachesTheLog(log, empty, r.ops);
    CurrentCachesTheLog(log, c, r.now);
    CurrentKeepsOk(c, r.now);
    ReplyWasSent(log, Current(c, r.now).packets, r.request, f);
  }

  lemma ReplyWasSent(log: seq<Sent>, packets: map<nat, CachedPacket>, request: RepairRequest, f: CachedFragment)
    requires CachesTheLog(log, packets) && request.sequence in packets
      && |packets[request.sequence].fragments| <= MAX_FRAGMENTS
    requires var fragments := packets[request.sequence].fragments;
      f in fragments || f in Selected(fragments, request.missingMask)
    ensures exists k :: 0 <= k < |log| && f.packet in log[k].datagrams
  {
    var fragments := packets[request.sequence].fragments;
    if f !in fragments {
      SelectedAreCached(fragments, request.missingMask, f);
    }
    var i :| 0 <= i < |fragments| && fragments[i] == f;
    var k :| 0 <= k < |log| && log[k].sequence == request.sequence && AllSent(fragments, log[k].datagrams);
  }

  // ---------------------------------------------------------------- the channel

  /** What the channel makes happen at the receiver. */
  datatype Arrival = Datagram(connection: nat, data: Bytes, now: nat) | Timeout(now: nat)

  predicate Parses(a: Arrival) {
    a.Datagram? ==> ParseFrame(a.data).Ok?
  }

  function EventOf(a: Arrival): Event
    requires Parses(a)
  {
    match a
    case Timeout(now) => TimerFires(now)
    case Datagram(connection, data, now) =>
      match ParseFrame(data).value
      case MediaFrame(packet) => PacketArrives(connection, packet, now)
      case ParityFrame(frame) => FecArrives(frame, now)
  }

  function EventsOf(arrivals: seq<Arrival>): (events: seq<Event>)
    requires forall i :: 0 <= i < |arrivals| ==> Parses(arrivals[i])
    ensures |events| == |arrivals|
  {
    seq(|arrivals|, (i: nat) requires i < |arrivals| => EventOf(arrivals[i]))
  }

  lemma MediaArrivalIsGenuine(log: seq<Sent>, k: nat, a: Arrival)
    requires Rising(log) && k < |log| && a.Datagram? && a.data in log[k].datagrams
    ensures Parses(a) && GenuineEvent(SentMap(log), EventOf(a))
  {
    SentMapIsTheLog(log);
    MediaIsGenuine(log[k], SentMap(log), a.data);
  }

  lemma ParityArrivalIsGenuine(sent: map<nat, Source>, group: seq<SourcePacket>, a: Arrival)
    requires Sendable(group) && a.Datagram? && ValidFrame(FrameFor(group)) && a.data == FecDatagram(FrameFor(group))
    requires forall i :: 0 <= i < |group| ==> Genuine(sent, group[i].sequence, group[i].payload)
    ensures Parses(a) && GenuineEvent(sent, EventOf(a))
  {
    ParityIsGenuine(group, sent);
  }

  lemma ArrivalIsGenuine(log: seq<Sent>, sizes: seq<nat>, mode: GroupMode, mtu: Option<nat>, a: Arrival)
    requires Rising(log) && |sizes| == |log| && ValidSizes(sizes) && ValidMode(mode)
    requires a.Datagram? ==> OnWire(log, ParityGroups(log, sizes, mode, mtu), a.data) || Resent(log, a.data)
    ensures Parses(a) && ValidEvent(EventOf(a)) && GenuineEvent(SentMap(log), EventOf(a))
  {
    if a.Datagram? {
      var groups := ParityGroups(log, sizes, mode, mtu);
      hide Resent;
      if Resent(log, a.data) {
        ResentWasSent(log, a.data);
      }
      if k :| 0 <= k < |log| && a.data in log[k].datagrams {
        MediaArrivalIsGenuine(log, k, a);
      } else {
        var g :| 0 <= g < |groups| && Sendable(groups[g]) && ValidFrame(FrameFor(groups[g]))
          && a.data == FecDatagram(FrameFor(groups[g]));
        GroupsComeFromTheLog(log, sizes, mode, mtu, g);
        ParityArrivalIsGenuine(SentMap(log), groups[g], a);
      }
      ParsedFramesAreValid(a.data);
    }
  }

  /** The sender gave this number this payload. */
  ghost predicate WasSent(log: seq<Sent>, s: nat, p: Bytes) {
    exists k :: 0 <= k < |log| && log[k].sequence == s && log[k].payload == p
  }

  ghost predicate OnlySent(log: seq<Sent>, deliveries: seq<Delivery>) {
    forall i :: 0 <= i < |deliveries| && deliveries[i].Forwarded? ==>
      WasSent(log, deliveries[i].sequence, deliveries[i].payload)
  }

  lemma HonestLogIsOnlySent(log: seq<Sent>, deliveries: seq<Delivery>)
    requires Rising(log) && HonestLog(SentMap(log), deliveries)
    ensures OnlySent(log, deliveries)
  {
    SentMapIsTheLog(log);
    forall i | 0 <= i < |deliveries| && deliveries[i].Forwarded?
      ensures WasSent(log, deliveries[i].sequence, deliveries[i].payload)
    {
      assert Genuine(SentMap(log), deliveries[i].sequence, deliveries[i].payload);
      assert Logged(log, deliveries[i].sequence);
      var k :| 0 <= k < |log| && log[k].sequence == deliveries[i].sequence;
      assert SentMap(log)[log[k].sequence] == Source(log[k].payload, log[k].pieces);
    }
  }

  /**
    End to end: whatever is ingested, under whatever path conditions, and however the
    channel loses, repeats and reorders what the sender puts on the wire, repairs from
    any run of the cache among it, every payload the receiver forwards under a number, in
    any flow, is the one the sender gave that number, byte for byte, as long as the number
    space is not used up.
  */
  lemma OnlySentPayloadsComeOut(ingests: seq<Ingest>, settings: Settings, mode: GroupMode, sizes: seq<nat>,
                                arrivals: seq<Arrival>, config: Config)
    requires ValidSettings(settings) && ValidMode(mode)
    requires SendAll(ingests, settings).used <= MEDIA_SEQUENCES
    requires |sizes| == |SendAll(ingests, settings).log| && ValidSizes(sizes)
    requires forall i :: 0 <= i < |arrivals| && arrivals[i].Datagram? ==>
      var log := SendAll(ingests, settings).log;
      OnWire(log, ParityGroups(log, sizes, mode, settings.mtu), arrivals[i].data) || Resent(log, arrivals[i].data)
    ensures forall i :: 0 <= i < |arrivals| ==> Parses(arrivals[i])
    ensures Sound(START) && ValidEvents(EventsOf(arrivals))
    ensures var log, s := SendAll(ingests, settings).log, Run(START, EventsOf(arrivals), config);
      OnlySent(log, s.window.log) && forall f :: 0 <= f < |s.flows| ==> OnlySent(log, s.flows[f].last.log)
  {
    var log := SendAll(ingests, settings).log;
    SendAllIsNumbered(ingests, settings);
    assert Rising(log);
    forall i | 0 <= i < |arrivals|
      ensures Parses(arrivals[i]) && ValidEvent(EventOf(arrivals[i]))
        && GenuineEvent(SentMap(log), EventOf(arrivals[i]))
    {
      ArrivalIsGenuine(log, sizes, mode, settings.mtu, arrivals[i]);
    }
    EmptyWindowIsGood(0, []);
    EmptyWindowIsHonest(SentMap(log), 0, []);
    SentMapIsConsistent(log);
    RunStaysHonest(SentMap(log), 0, START, EventsOf(arrivals), config);
    var s := Run(START, EventsOf(arrivals), config);
    HonestLogIsOnlySent(log, s.window.log);
    forall f | 0 <= f < |s.flows|
      ensures OnlySent(log, s.flows[f].last.log)
    {
      HonestLogIsOnlySent(log, s.flows[f].last.log);
    }
  }

  // ---------------------------------------------------------------- parity repairs one loss

  /**
    Erasure correction across the wire: for any group the encoder flushes, the frame the
    receiver decodes, once stored, makes it rebuild the one member it lacks, exactly,
    whatever the lengths and across the wrap of the numbers.
  */
  lemma ParityRepairsOneLoss(group: seq<SourcePacket>, v: FecView, nextSeq: nat, buffered: map<nat, BufferedPacket>,
                             k: nat)
    requires Sendable(group) && k < |group| && group[k].sequence >= nextSeq
    requires ValidFrame(FrameFor(group))
    requires var decoded := FecFromDatagram(FecDatagram(FrameFor(group)));
      decoded.Ok? && decoded.value.baseSequence in v.frames && v.frames[decoded.value.baseSequence] == decoded.value
    requires forall i :: 0 <= i < |group| ==>
      var found := FecRecovery.Lookup(v.payloads, buffered, group[i].sequence);
      found == if i == k then None else Some(group[i].payload)
    ensures (group[k].sequence, group[k].payload) in RecoverReady(v, nextSeq, buffered).1
  {
    FlushedFrameIsParity(group);
    var frame := FrameFor(group);
    FecFrameDecodesToItself(frame);
    assert forall i :: 0 <= i < |group| ==>
      Member(frame, i) == group[i].sequence && Payloads(group)[i] == group[i].payload;
    assert Member(frame, k) == group[k].sequence;
    ErasureIsCorrected(v, nextSeq, buffered, frame.baseSequence, Payloads(group), k);
  }

  // ---------------------------------------------------------------- splitting and reassembling

  /** The fragment a datagram carries, as the receiver reads it. */
  function FragmentOf(d: Bytes): (nat, Bytes)
    requires ParseFrame(d).Ok? && ParseFrame(d).value.MediaFrame?
  {
    (ParseFrame(d).value.packet.header.fragment, ParseFrame(d).value.packet.payload)
  }

  lemma FragmentPacketParses(sequence: nat, pieces: seq<Bytes>, i: nat)
    requires sequence <= MAX_MEDIA_SEQUENCE && i < |pieces| <= MAX_FRAGMENTS
    ensures var d := FragmentPackets(sequence, pieces)[i];
      && ParseFrame(d) == Ok(MediaFrame(Packet(PacketHeader(sequence, i, |pieces|), pieces[i])))
      && FragmentOf(d) == (i, pieces[i])
  {
    MediaDatagramParses(PacketHeader(sequence, i, |pieces|), pieces[i]);
  }

  lemma PiecesArrive(sequence: nat, payload: Bytes, pieces: seq<Bytes>, order: seq<nat>, now: nat)
    requires sequence <= MAX_MEDIA_SEQUENCE && 1 <= |pieces| <= MAX_FRAGMENTS && Concat(pieces) == payload
    requires forall i :: 0 <= i < |order| ==> order[i] < |pieces|
    ensures forall i :: 0 <= i < |pieces| ==>
      var d := FragmentPackets(sequence, pieces)[i];
      ParseFrame(d) == Ok(MediaFrame(Packet(PacketHeader(sequence, i, |pieces|), pieces[i])))
    ensures |pieces| == 1 ==> FragmentPackets(sequence, pieces) == [WholePacket(sequence, payload)]
    ensures |pieces| > 1 ==>
      var r := InsertAll(EmptyAssembly(|pieces|, now), order, pieces);
      && (r.IsComplete() <==> Covers(order, |pieces|))
      && (r.IsComplete() ==> AllFilled(r.slots) && Concat(Values(r.slots)) == payload)
  {
    forall i | 0 <= i < |pieces|
      ensures ParseFrame(FragmentPackets(sequence, pieces)[i]) ==
              Ok(MediaFrame(Packet(PacketHeader(sequence, i, |pieces|), pieces[i])))
    {
      FragmentPacketParses(sequence, pieces, i);
    }
    if |pieces| == 1 {
      ConcatOne(pieces[0]);
      assert pieces == [pieces[0]];
    } else {
      ReassemblyInAnyOrder(pieces, order, now);
    }
  }

  /**
    Split, send, receive in any order with repetitions, reassemble: the identity. A split
    into one piece is the whole packet; otherwise the assembly is complete exactly when
    every fragment has come, and then is the payload.
  */
  lemma SplitThenReassemble(sequence: nat, payload: Bytes, rounded: seq<nat>, mtu: Option<nat>, order: seq<nat>,
                            now: nat)
    requires sequence <= MAX_MEDIA_SEQUENCE && payload != [] && rounded != []
    requires PacketRanges(|payload|, rounded, mtu).Some?
    requires forall i :: 0 <= i < |order| ==> order[i] < |PacketRanges(|payload|, rounded, mtu).value|
    ensures var ranges := PacketRanges(|payload|, rounded, mtu).value;
      && (forall i :: 0 <= i < |ranges| ==> ranges[i].start <= ranges[i].end <= |payload|) && |ranges| <= MAX_FRAGMENTS
      && var pieces := Pieces(payload, ranges);
      && (forall i :: 0 <= i < |pieces| ==>
          var d := FragmentPackets(sequence, pieces)[i];
          ParseFrame(d) == Ok(MediaFrame(Packet(PacketHeader(sequence, i, |pieces|), pieces[i]))))
      && |pieces| >= 1
      && (|pieces| == 1 ==> FragmentPackets(sequence, pieces) == [WholePacket(sequence, payload)])
      && (|pieces| > 1 ==>
          var r := InsertAll(EmptyAssembly(|pieces|, now), order, pieces);
          && (r.IsComplete() <==> Covers(order, |pieces|))
          && (r.IsComplete() ==> AllFilled(r.slots) && Concat(Values(r.slots)) == payload))
  {
    RangesFit(|payload|, rounded, mtu);
    SplitIsAPartition(|payload|, rounded, mtu);
    var ranges := PacketRanges(|payload|, rounded, mtu).value;
    PiecesConcatenate(payload, ranges, |payload|);
    assert payload[..|payload|] == payload;
    hide Tiles, PacketRanges;
    PiecesArrive(sequence, payload, Pieces(payload, ranges), order, now);
  }
}
