/**
  Repair over runs: the answer to a request that the receiver has issued in some step
  does its work whatever else arrives around it, as long as what the request was for is
  not given up first. Other packets, parity, timeouts and repetitions may come between.
*/
module RepairRuns {
  import opened ByteStrings
  import opened Sequences
  import opened Wire
  import opened Assembly
  import opened FecRecovery
  import opened Window
  import opened WindowLaws
  import opened Receiver
  import opened Integrity
  import opened FlowHistory
  import opened RepairCache
  import opened Sender
  import opened EndToEnd
  import opened RepairLoop
  import opened RepairDelivery
  import opened AwaitedPacket

  // ---------------------------------------------------------------- one step

  function TimeOf(e: Event): nat {
    match e
    case PacketArrives(_, _, now) => now
    case FecArrives(_, now) => now
    case TimerFires(now) => now
  }

  /** The event brings piece i of packet s, by itself or in the whole. */
  predicate Brings(sent: map<nat, Source>, e: Event, s: nat, i: nat)
    requires s in sent && i < |sent[s].pieces|
  {
    e.PacketArrives? && BringsPiece(sent, e.packet.header, e.packet.payload, s, i)
  }

  lemma StoredFrameAwaits(sent: map<nat, Source>, w: Window, frame: FecFrame, s: nat, since: nat)
    requires Awaited(sent, w, s, since)
    ensures KeepsAwaiting(sent, w, WithFrame(w, frame), s, since)
  {
    hide InsertFrame;
    var w1 := WithFrame(w, frame);
    assert PendingTimes(w1) == PendingTimes(w);
    assert forall i :: HasPiece(sent, w, s, i, since) ==> HasPiece(sent, w1, s, i, since);
  }

  lemma StoredFrameIsHonest(sent: map<nat, Source>, w: Window, frame: FecFrame)
    requires Honest(sent, w) && GenuineFrame(sent, frame)
    ensures Honest(sent, WithFrame(w, frame))
  {
    InsertFrameStaysHonest(sent, w.fec, frame);
    hide InsertFrame, HonestStore, GenuineFrame;
  }

  /** A genuine parity frame. */
  lemma FrameAwaits(sent: map<nat, Source>, w: Window, frame: FecFrame, s: nat, config: Config, since: nat, now: nat)
    requires Settled(w) && Honest(sent, w) && Awaited(sent, w, s, since) && s <= MAX_MEDIA_SEQUENCE
    requires ValidFrame(frame) && GenuineFrame(sent, frame) && Timely(now, since, config)
    ensures Settled(WithFrame(w, frame))
    ensures KeepsAwaiting(sent, w, RecoverAndAdvance(WithFrame(w, frame), config, now), s, since)
  {
    hide Good, HeadClear, NoneLost, Awaited, RecoverAndAdvance, WithFrame, Honest, GenuineFrame, Blank, ValidFrame;
    WithFrameIsSettled(w, frame);
    var w1 := WithFrame(w, frame);
    StoredFrameAwaits(sent, w, frame, s, since);
    StoredFrameIsHonest(sent, w, frame);
    RecoverAndAdvanceAwaits(sent, w1, s, config, since, now);
    KeepsOn(sent, w, w1, RecoverAndAdvance(w1, config, now), s, since);
  }

  /** A genuine packet at or past the head. */
  lemma DeliveryAwaits(sent: map<nat, Source>, w: Window, packet: Packet, s: nat, config: Config, since: nat, now: nat)
    requires Settled(w) && ValidHeader(packet.header) && w.nextSeq <= packet.header.sequence <= MAX_MEDIA_SEQUENCE
    requires Consistent(sent) && Honest(sent, w) && GenuinePacket(sent, packet.header, packet.payload)
    requires Fragmented(sent, s) && Awaited(sent, w, s, since) && Timely(now, since, config)
    ensures var w' := Deliver(w, packet.header, packet.payload, config, now);
      && KeepsAwaiting(sent, w, w', s, since)
      && forall i :: 0 <= i < |sent[s].pieces| && BringsPiece(sent, packet.header, packet.payload, s, i) ==>
        HasPiece(sent, w', s, i, since)
  {
    hide Settled, Honest, Consistent, Awaited, Deliver, HasPiece, NoneLost, Got, ValidHeader;
    var h, w' := packet.header, Deliver(w, packet.header, packet.payload, config, now);
    if h.sequence != s {
      DeliverOtherAwaits(sent, w, h, packet.payload, s, config, since, now);
    } else if h.fragments == 1 {
      WholeCopyGets(sent, w, h, packet.payload, config, since, now);
      GotIsAwaited(sent, w, w', s, since);
    } else {
      PieceGets(sent, w, s, h.fragment, config, since, now);
    }
  }

  /** A packet that has been passed was accepted, so every piece of it counts as in. */
  lemma PassedHasAll(sent: map<nat, Source>, w: Window, s: nat, since: nat)
    requires Good(w) && Awaited(sent, w, s, since) && s < w.nextSeq
    ensures forall i :: HasPiece(sent, w, s, i, since)
  {
  }

  ghost predicate StepAwaits(sent: map<nat, Source>, w: Window, w': Window, e: Event, s: nat, since: nat)
    requires s in sent
  {
    && KeepsAwaiting(sent, w, w', s, since)
    && forall i :: 0 <= i < |sent[s].pieces| && Brings(sent, e, s, i) ==> HasPiece(sent, w', s, i, since)
  }

  lemma PacketAwaits(sent: map<nat, Source>, srv: Server, connection: nat, packet: Packet, now: nat, config: Config,
                     s: nat, since: nat)
    requires Sound(srv) && srv.initialized && Consistent(sent) && Honest(sent, srv.window)
    requires ValidHeader(packet.header) && packet.header.sequence <= MAX_MEDIA_SEQUENCE
    requires GenuinePacket(sent, packet.header, packet.payload)
    requires Classify(srv, connection, packet.header.sequence) != RestartsFlow
    requires Fragmented(sent, s) && Awaited(sent, srv.window, s, since) && Timely(now, since, config)
    ensures var srv' := OnOpenPacket(srv, connection, packet, config, now);
      && srv'.initialized && srv'.flows == srv.flows
      && StepAwaits(sent, srv.window, srv'.window, PacketArrives(connection, packet, now), s, since)
  {
    hide Good, HeadClear, Honest, Consistent, Awaited, Deliver, Reopen, HasPiece, NoneLost, BringsPiece, Observe, Blank;
    hide GenuinePacket, ValidHeader;
    NothingDone(sent, srv.window, s, since);
    if packet.header.sequence >= srv.window.nextSeq {
      DeliveryAwaits(sent, srv.window, packet, s, config, since, now);
    } else {
      BelowBringsNothingNew(sent, srv.window, packet, s, since);
    }
  }

  lemma BelowBringsNothingNew(sent: map<nat, Source>, w: Window, packet: Packet, s: nat, since: nat)
    requires Good(w) && Awaited(sent, w, s, since) && packet.header.sequence < w.nextSeq && s in sent
    ensures forall i :: 0 <= i < |sent[s].pieces| && BringsPiece(sent, packet.header, packet.payload, s, i) ==>
      HasPiece(sent, w, s, i, since)
  {
    hide Good, Awaited, HasPiece;
    if packet.header.sequence == s {
      PassedHasAll(sent, w, s, since);
    }
  }

  /** One event, in time, that does not end the flow. */
  lemma EventAwaits(sent: map<nat, Source>, srv: Server, e: Event, config: Config, s: nat, since: nat)
    requires Sound(srv) && srv.initialized && Consistent(sent) && Honest(sent, srv.window)
    requires ValidEvent(e) && GenuineEvent(sent, e) && !EndsTheFlow(srv, e)
    requires Fragmented(sent, s) && Awaited(sent, srv.window, s, since) && Timely(TimeOf(e), since, config)
    ensures var srv' := Step(srv, e, config);
      && srv'.initialized && srv'.flows == srv.flows && StepAwaits(sent, srv.window, srv'.window, e, s, since)
  {
    hide Good, HeadClear, Honest, Consistent, Awaited, HasPiece, NoneLost, BringsPiece, Observe, Blank, OnOpenPacket;
    hide GenuinePacket, GenuineFrame, Advance, RecoverAndAdvance, WithFrame, PendingState, Timely, ValidFrame;
    match e
    case PacketArrives(connection, packet, now) =>
      PacketAwaits(sent, srv, connection, packet, now, config, s, since);
    case FecArrives(frame, now) =>
      FrameAwaits(sent, srv.window, frame, s, config, since, now);
    case TimerFires(now) =>
      AdvanceAwaits(sent, srv.window, s, config, since, now);
  }

  lemma StaysHonest(sent: map<nat, Source>, srv: Server, e: Event, config: Config)
    requires Sound(srv) && ValidEvent(e) && Consistent(sent) && Honest(sent, srv.window) && GenuineEvent(sent, e)
    ensures Honest(sent, Step(srv, e, config).window)
  {
    hide Sound, Step, Consistent, Honest, GenuineEvent;
    StepStaysHonest(sent, |srv.flows| + 1, srv, e, config);
  }

  // ---------------------------------------------------------------- a run

  ghost predicate AllGenuine(sent: map<nat, Source>, es: seq<Event>) {
    forall k :: 0 <= k < |es| ==> GenuineEvent(sent, es[k])
  }

  predicate AllTimely(es: seq<Event>, since: nat, config: Config) {
    forall k :: 0 <= k < |es| ==> Timely(TimeOf(es[k]), since, config)
  }

  /** The flow under way is not ended by any of the events. */
  ghost predicate GoesOn(srv: Server, es: seq<Event>, config: Config)
    requires Sound(srv) && ValidEvents(es)
  {
    es == [] ||
    var front, last := es[..|es| - 1], es[|es| - 1];
    GoesOn(srv, front, config) && !EndsTheFlow(Run(srv, front, config), last)
  }

  ghost predicate BroughtBy(sent: map<nat, Source>, es: seq<Event>, s: nat, i: nat)
    requires s in sent && i < |sent[s].pieces|
  {
    exists k :: 0 <= k < |es| && Brings(sent, es[k], s, i)
  }

  /** After some events: still awaited, nothing lost, and what they brought is in. */
  ghost predicate RunAwaits(sent: map<nat, Source>, w: Window, w': Window, es: seq<Event>, s: nat, since: nat)
    requires s in sent
  {
    && KeepsAwaiting(sent, w, w', s, since)
    && forall i :: 0 <= i < |sent[s].pieces| && BroughtBy(sent, es, s, i) ==> HasPiece(sent, w', s, i, since)
  }

  lemma RunAwaitsNext(sent: map<nat, Source>, a: Window, b: Window, c: Window, es: seq<Event>, s: nat, since: nat)
    requires s in sent && es != [] && RunAwaits(sent, a, b, es[..|es| - 1], s, since)
    requires StepAwaits(sent, b, c, es[|es| - 1], s, since)
    ensures RunAwaits(sent, a, c, es, s, since)
  {
    hide HasPiece, Awaited, Brings;
    KeepsOn(sent, a, b, c, s, since);
    var n := |es| - 1;
    forall i | 0 <= i < |sent[s].pieces| && BroughtBy(sent, es, s, i)
      ensures HasPiece(sent, c, s, i, since)
    {
      var k :| 0 <= k < |es| && Brings(sent, es[k], s, i);
      if k < n {
        assert Brings(sent, es[..n][k], s, i);
        assert BroughtBy(sent, es[..n], s, i);
      }
    }
  }

  lemma {:induction false} EventsAwait(sent: map<nat, Source>, srv: Server, es: seq<Event>, config: Config,
                                       s: nat, since: nat)
    requires Sound(srv) && srv.initialized && Consistent(sent) && Honest(sent, srv.window)
    requires ValidEvents(es) && AllGenuine(sent, es) && AllTimely(es, since, config) && GoesOn(srv, es, config)
    requires Fragmented(sent, s) && Awaited(sent, srv.window, s, since)
    ensures var srv' := Run(srv, es, config);
      && srv'.initialized && srv'.flows == srv.flows && Honest(sent, srv'.window)
      && RunAwaits(sent, srv.window, srv'.window, es, s, since)
  {
    hide Sound, Step, Honest, Consistent, Awaited, HasPiece, NoneLost, Brings, GenuineEvent, EndsTheFlow, Timely;
    hide StepAwaits;
    if es == [] {
      NothingDone(sent, srv.window, s, since);
    } else {
      var n := |es| - 1;
      var before := Run(srv, es[..n], config);
      EventsAwait(sent, srv, es[..n], config, s, since);
      hide RunAwaits;
      RunStillAwaits(sent, srv.window, before.window, es[..n], s, since);
      EventAwaits(sent, before, es[n], config, s, since);
      StaysHonest(sent, before, es[n], config);
      RunAwaitsNext(sent, srv.window, before.window, Step(before, es[n], config).window, es, s, since);
    }
  }

  lemma RunStillAwaits(sent: map<nat, Source>, w: Window, w': Window, es: seq<Event>, s: nat, since: nat)
    requires s in sent && RunAwaits(sent, w, w', es, s, since)
    ensures Awaited(sent, w', s, since)
  {
    hide Awaited, NoneLost;
  }

  /**
    An awaited packet whose missing pieces all come, singly or in a whole copy, each before
    what is held of it is given up, is accepted, whatever else happens in between.
  */
  lemma AwaitedIsAccepted(sent: map<nat, Source>, srv: Server, es: seq<Event>, config: Config, s: nat, since: nat)
    requires Sound(srv) && srv.initialized && Consistent(sent) && Honest(sent, srv.window)
    requires ValidEvents(es) && AllGenuine(sent, es) && AllTimely(es, since, config) && GoesOn(srv, es, config)
    requires Fragmented(sent, s) && Awaited(sent, srv.window, s, since)
    requires forall i :: 0 <= i < |sent[s].pieces| ==>
      HasPiece(sent, srv.window, s, i, since) || BroughtBy(sent, es, s, i)
    ensures Got(sent, Run(srv, es, config).window, s)
  {
    hide Honest, Consistent, Awaited, HasPiece, BroughtBy, GoesOn, Run, AllGenuine, Good, HeadClear, Blank, Got;
    EventsAwait(sent, srv, es, config, s, since);
    var w' := Run(srv, es, config).window;
    forall i | 0 <= i < |sent[s].pieces|
      ensures HasPiece(sent, w', s, i, since)
    {
    }
    AllPiecesMeanAccepted(sent, w', s, since);
  }

  // ---------------------------------------------------------------- what a step's requests are for

  /** If the number asked for is still being collected, the request is for exactly what it lacks. */
  predicate Fits(w: Window, r: RepairRequest) {
    r.sequence in w.fragments ==> AsksForMissing(w.fragments, r)
  }

  ghost predicate NewFit(w: Window, w': Window) {
    w.repairs <= w'.repairs && forall i :: |w.repairs| <= i < |w'.repairs| ==> Fits(w', w'.repairs[i])
  }

  lemma NoneNewFit(w: Window, w': Window)
    requires w'.repairs == w.repairs
    ensures NewFit(w, w')
  {
  }

  lemma FitFromSame(w: Window, w1: Window, w': Window)
    requires w1.repairs == w.repairs && NewFit(w1, w')
    ensures NewFit(w, w')
  {
  }

  lemma AskedFit(w: Window, config: Config, now: nat)
    requires Good(w)
    ensures NewFit(w, AskRepairs(w, config, now))
  {
    if config.repairInterval.Some? {
      var interval := config.repairInterval.value;
      hide Good, RequestRepairs, MissingMask;
      RequestsAreExact(w, interval, now);
      RequestRepairsIsSound(w, interval, now);
    }
  }

  /** Giving up on assemblies leaves the others as they were. */
  lemma FewerFit(w: Window, w': Window, w'': Window)
    requires NewFit(w, w') && w''.repairs == w'.repairs
    requires forall k :: k in w''.fragments ==> k in w'.fragments && w''.fragments[k] == w'.fragments[k]
    ensures NewFit(w, w'')
  {
    hide MissingMask;
  }

  lemma {:induction false} ExpiryOnlyDrops(w: Window, delay: nat, now: nat)
    requires Ahead(w)
    ensures var w' := Expire(w, delay, now);
      && w'.repairs == w.repairs
      && forall k :: k in w'.fragments ==> k in w.fragments && w'.fragments[k] == w.fragments[k]
    decreases |w.fragments|, MAX_MEDIA_SEQUENCE - w.nextSeq
  {
    match HeadAction(w, delay, now)
    case Stop =>
    case GiveUp =>
      DropKeepsAhead(w);
      ExpiryOnlyDrops(DropAssembly(w), delay, now);
    case Skip =>
      SkipKeepsAhead(w, delay, now);
      ExpiryOnlyDrops(SkipHead(w, NeverReceived), delay, now);
  }

  lemma AdvanceFromOnlyDrops(w: Window, config: Config, now: nat)
    requires Good(w)
    ensures var w' := AdvanceFrom(w, config, now);
      && w'.repairs == w.repairs
      && forall k :: k in w'.fragments ==> k in w.fragments && w'.fragments[k] == w.fragments[k]
  {
    ExpiryOnlyDrops(w, config.maxReorderDelay, now);
    var expired := Expire(w, config.maxReorderDelay, now);
    DrainKeepsFragments(expired);
    DrainMoves(expired, now);
    hide Expire, Drain;
  }

  lemma AdvanceFits(w: Window, config: Config, now: nat)
    requires Settled(w)
    ensures NewFit(w, Advance(w, config, now))
  {
    RecoverFecKeepsGood(w, now);
    RecoverFecMoves(w, now);
    hide Good, HeadClear, RecoverFec, AdvanceFrom, AskRepairs, NewFit;
    var recovered := RecoverFec(w, now);
    AskRepairsContinues(recovered, config, now);
    var asked := AskRepairs(recovered, config, now);
    AskedFit(recovered, config, now);
    AdvanceFromOnlyDrops(asked, config, now);
    FewerFit(recovered, asked, AdvanceFrom(asked, config, now));
    FitFromSame(w, recovered, AdvanceFrom(asked, config, now));
  }

  lemma RecoverAndAdvanceFits(w: Window, config: Config, now: nat)
    requires Settled(w)
    ensures NewFit(w, RecoverAndAdvance(w, config, now))
  {
    RecoverFecKeepsGood(w, now);
    RecoverFecMoves(w, now);
    hide Good, HeadClear, RecoverFec, Advance, NewFit;
    AdvanceFits(RecoverFec(w, now), config, now);
    FitFromSame(w, RecoverFec(w, now), Advance(RecoverFec(w, now), config, now));
  }

  lemma CompleteFits(w: Window, r: nat, p: Bytes, config: Config, now: nat)
    requires Settled(w) && Acceptable(w, r)
    ensures NewFit(w, Complete(w, r, p, config, now))
  {
    AcceptKeepsGood(w, r, p, now);
    AcceptMoves(w, r, p, now);
    hide Good, HeadClear, Accept, RecoverAndAdvance, NewFit;
    RecoverAndAdvanceFits(Accept(w, r, p, now), config, now);
    FitFromSame(w, Accept(w, r, p, now), RecoverAndAdvance(Accept(w, r, p, now), config, now));
  }

  lemma CollectFits(w: Window, h: PacketHeader, a: FragmentAssembly, config: Config, now: nat)
    requires Settled(w) && w.nextSeq <= h.sequence <= MAX_MEDIA_SEQUENCE && h.sequence !in w.buffered
    requires a.Valid() && a.received >= 1
    ensures NewFit(w, Collect(w, h, a, config, now))
  {
    hide Good, HeadClear, Collect, Complete, Advance, NewFit, Acceptable, FragmentAssembly.Valid;
    if a.IsComplete() {
      CollectIsComplete(w, h, a, config, now);
      var w1 := w.(fragments := w.fragments - {h.sequence});
      CompleteFits(w1, h.sequence, Concat(Values(a.slots)), config, now);
      FitFromSame(w, w1, Collect(w, h, a, config, now));
    } else {
      CollectIsAdvance(w, h, a, config, now);
      var w1 := w.(fragments := w.fragments[h.sequence := a]);
      AdvanceFits(w1, config, now);
      FitFromSame(w, w1, Collect(w, h, a, config, now));
    }
  }

  lemma DeliverFits(w: Window, h: PacketHeader, payload: Bytes, config: Config, now: nat)
    requires Settled(w) && ValidHeader(h) && w.nextSeq <= h.sequence <= MAX_MEDIA_SEQUENCE
    ensures NewFit(w, Deliver(w, h, payload, config, now))
  {
    hide Good, HeadClear, Deliver, Complete, Collect, NewFit, Acceptable, FragmentAssembly.Valid, EntryFor;
    NoneNewFit(w, w);
    if h.sequence in w.buffered {
      DeliverIgnores(w, h, payload, config, now);
    } else if h.fragments == 1 {
      var w1 := w.(fragments := w.fragments - {h.sequence});
      DeliverIsComplete(w, h, payload, config, now);
      CompleteFits(w1, h.sequence, payload, config, now);
      FitFromSame(w, w1, Deliver(w, h, payload, config, now));
    } else {
      DeliverIsCollect(w, h, payload, config, now);
      var entry := EntryFor(w, h, now);
      if |entry.slots| == h.fragments && entry.Insert(h.fragment, payload).Some? {
        CollectFits(w, h, entry.Insert(h.fragment, payload).value, config, now);
      }
    }
  }

  lemma ReopenFits(srv: Server, connection: nat, packet: Packet, config: Config, now: nat)
    requires Sound(srv) && srv.initialized && ValidHeader(packet.header)
    requires packet.header.sequence <= MAX_MEDIA_SEQUENCE
    ensures NewFit(srv.window, Reopen(srv, connection, packet, config, now).window)
  {
    var h := packet.header;
    var empty := EmptyWindow(h.sequence, srv.window.repairs);
    EmptyWindowIsGood(h.sequence, srv.window.repairs);
    hide Good, HeadClear, Deliver, NewFit, Blank;
    DeliverFits(empty, h, packet.payload, config, now);
    FitFromSame(srv.window, empty, Deliver(empty, h, packet.payload, config, now));
  }

  lemma OpenPacketFits(srv: Server, connection: nat, packet: Packet, config: Config, now: nat)
    requires Sound(srv) && srv.initialized && ValidHeader(packet.header)
    requires packet.header.sequence <= MAX_MEDIA_SEQUENCE
    ensures NewFit(srv.window, OnOpenPacket(srv, connection, packet, config, now).window)
  {
    hide Good, HeadClear, Deliver, NewFit, Blank, Reopen, Observe, ValidHeader;
    NoneNewFit(srv.window, srv.window);
    match Classify(srv, connection, packet.header.sequence)
    case InWindow => DeliverFits(srv.window, packet.header, packet.payload, config, now);
    case RestartsFlow =>
      ReopenFits(Watch(srv, connection, packet.header.sequence), connection, packet, config, now);
    case LateAfterSkip =>
    case DuplicateBelow =>
  }

  lemma FrameFits(w: Window, frame: FecFrame, config: Config, now: nat)
    requires Settled(w) && ValidFrame(frame)
    ensures Settled(WithFrame(w, frame)) && NewFit(w, WithFrame(w, frame))
    ensures NewFit(w, RecoverAndAdvance(WithFrame(w, frame), config, now))
  {
    WithFrameIsSettled(w, frame);
    NoneNewFit(w, WithFrame(w, frame));
    hide Good, HeadClear, NewFit, RecoverAndAdvance, InsertFrame, Blank;
    RecoverAndAdvanceFits(WithFrame(w, frame), config, now);
    FitFromSame(w, WithFrame(w, frame), RecoverAndAdvance(WithFrame(w, frame), config, now));
  }

  lemma OpenKeepsRequests(srv: Server, connection: nat, sequence: nat)
    requires Sound(srv) && sequence <= MAX_MEDIA_SEQUENCE
    ensures Open(srv, connection, sequence).window.repairs == srv.window.repairs
  {
  }

  /**
    Every request a step issues is, when the step is over, for exactly what its packet lacks, if
    that is still waited for.
  */
  lemma StepRequestsFit(srv: Server, e: Event, config: Config)
    requires Sound(srv) && ValidEvent(e)
    ensures NewFit(srv.window, Step(srv, e, config).window)
  {
    hide Good, HeadClear, NewFit, Blank, OnOpenPacket, Open, WithFrame, RecoverAndAdvance, Advance, PendingState;
    match e
    case PacketArrives(connection, packet, now) =>
      var first := Open(srv, connection, packet.header.sequence);
      OpenKeepsRequests(srv, connection, packet.header.sequence);
      OpenPacketFits(first, connection, packet, config, now);
      FitFromSame(srv.window, first.window, OnOpenPacket(first, connection, packet, config, now).window);
    case FecArrives(frame, now) =>
      FrameFits(srv.window, frame, config, now);
    case TimerFires(now) =>
      NoneNewFit(srv.window, srv.window);
      NoneNewFit(srv.window, EmptyWindow(0, srv.window.repairs));
      AdvanceFits(srv.window, config, now);
  }

  // ---------------------------------------------------------------- the answer to a step's request

  /** Issued in the step from `before` to `after`. */
  predicate Issued(before: Server, after: Server, request: RepairRequest) {
    exists i :: |before.window.repairs| <= i < |after.window.repairs| && after.window.repairs[i] == request
  }

  /** The event is the arrival of this datagram. */
  predicate Carries(e: Event, datagram: Bytes) {
    e.PacketArrives? && ParseFrame(datagram) == Ok(MediaFrame(e.packet))
  }

  /** Every datagram of the answer is among the events, anywhere and in any order. */
  ghost predicate AnswerComes(reply: seq<CachedFragment>, es: seq<Event>) {
    forall k :: 0 <= k < |reply| ==> exists j :: 0 <= j < |es| && Carries(es[j], reply[k].packet)
  }

  lemma AnswerBrings(sent: map<nat, Source>, reply: seq<CachedFragment>, k: nat, es: seq<Event>, s: nat, i: nat)
    requires AnswerComes(reply, es) && k < |reply| && Fragmented(sent, s) && i < |sent[s].pieces|
    requires IsPiece(sent, s, i, reply[k].packet)
    ensures BroughtBy(sent, es, s, i)
  {
    hide ParseFrame;
    var j :| 0 <= j < |es| && Carries(es[j], reply[k].packet);
    assert Brings(sent, es[j], s, i);
  }

  /** What is asked of the rest of the run: genuine arrivals, none so late that the packet is given up first. */
  ghost predicate Meanwhile(sent: map<nat, Source>, srv: Server, es: seq<Event>, since: nat, config: Config)
    requires Sound(srv)
  {
    ValidEvents(es) && AllGenuine(sent, es) && AllTimely(es, since, config) && GoesOn(srv, es, config)
  }

  lemma FlowIsOpen(srv: Server, s: nat)
    requires Sound(srv) && s in srv.window.fragments
    ensures srv.initialized && Settled(srv.window)
  {
  }

  lemma IssuedFits(srv: Server, e: Event, config: Config, request: RepairRequest)
    requires Sound(srv) && ValidEvent(e) && Issued(srv, Step(srv, e, config), request)
    requires request.sequence in Step(srv, e, config).window.fragments
    ensures AsksForMissing(Step(srv, e, config).window.fragments, request)
  {
    hide Step, Sound, AsksForMissing;
    StepRequestsFit(srv, e, config);
  }

  /**
    A step issues a request for what a packet still being collected lacks. Let the sender's
    cache, having kept the packet in fragments, answer it, and let the answer's datagrams come
    among whatever else is genuine, before the assembly is a reorder delay old and without the
    flow ending. Then the sender's payload has been accepted.
  */
  lemma FragmentRepairIsAccepted(sent: map<nat, Source>, srv: Server, e: Event, config: Config, request: RepairRequest,
                                 c: Cache, s: Sent, lengths: seq<nat>, asked: nat, es: seq<Event>)
    requires Sound(srv) && ValidEvent(e) && Consistent(sent) && Honest(sent, srv.window) && GenuineEvent(sent, e)
    requires Issued(srv, Step(srv, e, config), request)
    requires request.sequence == s.sequence && s.sequence in Step(srv, e, config).window.fragments
    requires KeptInFragments(sent, c, s, lengths, asked) && Answers(c, request, asked)
    requires var after := Step(srv, e, config);
      Meanwhile(sent, after, es, after.window.fragments[s.sequence].firstSeen, config)
    requires AnswerComes(Reply(c, request, asked), es)
    ensures Got(sent, Run(Step(srv, e, config), es, config).window, s.sequence)
  {
    hide Step, Sound, Settled, Honest, Consistent, Run, GoesOn, AllGenuine, GenuineEvent, AsksForMissing, Issued, Got;
    hide Answers, Reply, AnswerComes, BroughtBy, HasPiece, ValidEvent;
    var after := Step(srv, e, config);
    StaysHonest(sent, srv, e, config);
    IssuedFits(srv, e, config, request);
    FlowIsOpen(after, s.sequence);
    var a := after.window.fragments[s.sequence];
    AssemblyIsUsable(sent, after.window, s.sequence);
    AnswerCompletes(sent, after.window, request, c, s, lengths, asked, es);
    HeldIsAwaited(sent, after.window, s.sequence);
    AwaitedIsAccepted(sent, after, es, config, s.sequence, a.firstSeen);
  }

  lemma HeldIsAwaited(sent: map<nat, Source>, w: Window, s: nat)
    requires s in w.fragments
    ensures Awaited(sent, w, s, w.fragments[s].firstSeen)
  {
  }

  lemma AnswerCompletes(sent: map<nat, Source>, w: Window, request: RepairRequest, c: Cache, s: Sent, lengths: seq<nat>,
                        asked: nat, es: seq<Event>)
    requires Settled(w) && Honest(sent, w) && s.sequence in w.fragments && AsksForMissing(w.fragments, request)
    requires request.sequence == s.sequence && Fragmented(sent, s.sequence)
    requires KeptInFragments(sent, c, s, lengths, asked) && Answers(c, request, asked)
    requires AnswerComes(Reply(c, request, asked), es)
    ensures forall i :: 0 <= i < |sent[s.sequence].pieces| ==>
      HasPiece(sent, w, s.sequence, i, w.fragments[s.sequence].firstSeen) || BroughtBy(sent, es, s.sequence, i)
  {
    hide Settled, Honest, Reply, Current, Answers, WellSent, CacheOk, FragmentPackets, HasPiece, AnswerComes, BroughtBy;
    var a := w.fragments[s.sequence];
    AssemblyIsUsable(sent, w, s.sequence);
    assert request == RepairRequest(s.sequence, MissingMask(a.slots));
    FragmentRepairCompletes(c, s, lengths, a, asked);
    hide MissingMask, ParseFrame;
    var reply, missing := Reply(c, request, asked), MissingIndices(a.slots);
    forall i | 0 <= i < |sent[s.sequence].pieces|
      ensures HasPiece(sent, w, s.sequence, i, a.firstSeen) || BroughtBy(sent, es, s.sequence, i)
    {
      if a.slots[i].None? {
        var k :| 0 <= k < |missing| && missing[k] == i;
        AnswerBrings(sent, reply, k, es, s.sequence, i);
      }
    }
  }

  /**
    The same for a gap: a request for all of a packet of which nothing has come is answered
    with every fragment, and they come before anything now pending is a reorder delay old, so
    that the packet is not skipped first.
  */
  lemma GapRepairIsAccepted(sent: map<nat, Source>, srv: Server, config: Config, request: RepairRequest,
                            c: Cache, s: Sent, lengths: seq<nat>, asked: nat, since: nat, es: seq<Event>)
    requires Sound(srv) && srv.initialized && Consistent(sent) && Honest(sent, srv.window)
    requires request == RepairRequest(s.sequence, REPAIR_ALL_FRAGMENTS_MASK) && Fragmented(sent, s.sequence)
    requires Untouched(srv.window, s.sequence) && AllYoung(srv.window, since) && Meanwhile(sent, srv, es, since, config)
    requires KeptInFragments(sent, c, s, lengths, asked) && Answers(c, request, asked)
    requires AnswerComes(Reply(c, request, asked), es)
    ensures Got(sent, Run(srv, es, config).window, s.sequence)
  {
    hide Sound, Settled, Honest, Consistent, Run, GoesOn, AllGenuine, Got, Untouched;
    hide Answers, AnswerComes, BroughtBy, HasPiece, AllYoung, CacheOk, Current, WellSent, FragmentPackets;
    GapRepairSendsEverything(c, s.sequence, asked);
    hide Reply;
    forall i | 0 <= i < |s.pieces|
      ensures BroughtBy(sent, es, s.sequence, i)
    {
      EntryHoldsPieces(sent, s, lengths, i);
      AnswerBrings(sent, Reply(c, request, asked), i, es, s.sequence, i);
    }
    AwaitedIsAccepted(sent, srv, es, config, s.sequence, since);
  }

  lemma EntryHoldsPieces(sent: map<nat, Source>, s: Sent, lengths: seq<nat>, i: nat)
    requires WellSent(s) && Fragmented(sent, s.sequence) && sent[s.sequence] == Source(s.payload, s.pieces)
    requires |lengths| == |s.pieces| && i < |s.pieces|
    ensures IsPiece(sent, s.sequence, i, Entry(FragmentPackets(s.sequence, s.pieces), lengths)[i].packet)
  {
    FragmentPacketParses(s.sequence, s.pieces, i);
  }
}
