/**
  The receiving task itself: one object whose methods update its maps, sets and
  queues in place, each proved to compute exactly what Window and Receiver say.
*/
module ReorderServer {
  import opened ByteStrings
  import opened Sequences
  import opened Wire
  import opened Assembly
  import opened FecRecovery
  import opened Window
  import opened WindowLaws
  import opened Receiver

  class RestartDetector {
    var count: nat
    var highestSeq: nat

    ghost function View(): Detector
      reads this
    {
      Detector(count, highestSeq)
    }

    constructor ()
      ensures View() == Detector(0, 0)
    {
      count, highestSeq := 0, 0;
    }

    method Observe(sequence: nat, nextSeq: nat) returns (confirmed: bool)
      modifies this
      ensures (View(), confirmed) == Receiver.Observe(old(View()), sequence, nextSeq)
    {
      if Elapsed(nextSeq, sequence) < RESTART_BACKWARD_GAP {
        Clear();
        return false;
      }
      if count == 0 || sequence >= highestSeq {
        highestSeq := Max(highestSeq, sequence);
        count := count + 1;
      } else {
        count := 1;
        highestSeq := sequence;
      }
      return count >= RESTART_CONFIRM_PACKETS;
    }

    method Clear()
      modifies this
      ensures View() == Detector(0, 0)
    {
      count := 0;
      highestSeq := 0;
    }
  }

  class RecentSkippedSequences {
    var order: seq<nat>
    var lookup: set<nat>

    ghost function View(): Skips
      reads this
    {
      Skips(order, lookup)
    }

    constructor ()
      ensures View() == Skips([], {})
    {
      order, lookup := [], {};
    }

    method Insert(sequence: nat)
      modifies this
      ensures View() == InsertSkip(old(View()), sequence)
    {
      if sequence !in lookup {
        lookup := lookup + {sequence};
        order := order + [sequence];
      }
      while |order| > SKIPPED_SEQUENCE_TRACK_LIMIT
        invariant TrimSkips(View()) == InsertSkip(old(View()), sequence)
        decreases |order|
      {
        var expired := order[0];
        order := order[1..];
        lookup := lookup - {expired};
      }
    }

    method Clear()
      modifies this
      ensures View() == Skips([], {})
    {
      order, lookup := [], {};
    }
  }

  class ReorderServer {
    const config: Config
    const fec: FecState
    const skips: RecentSkippedSequences
    const detector: RestartDetector
    var initialized: bool
    var nextSeq: nat
    var buffered: map<nat, BufferedPacket>
    var fragments: map<nat, FragmentAssembly>
    var seen: set<nat>
    var gapRequests: map<nat, nat>
    var flowConnections: set<nat>
    // What the task has done so far: its output, and what that output is accounted against.
    ghost var start: nat
    ghost var log: seq<Delivery>
    ghost var accepted: seq<(nat, Bytes)>
    ghost var repairs: seq<RepairRequest>
    ghost var flows: seq<Flow>
    ghost var history: seq<Observation>

    ghost function W(): Window
      reads this, fec, skips
    {
      Window(nextSeq, buffered, fragments, seen, skips.View(), gapRequests, fec.View(), start, log, accepted, repairs)
    }

    ghost function State(): Server
      reads this, fec, skips, detector
    {
      Server(initialized, W(), detector.View(), flowConnections, flows, history)
    }

    constructor (config: Config)
      ensures this.config == config && State() == START
      ensures fresh(fec) && fresh(skips) && fresh(detector)
    {
      this.config := config;
      fec := new FecState();
      skips := new RecentSkippedSequences();
      detector := new RestartDetector();
      initialized, nextSeq := false, 0;
      buffered, fragments, seen, gapRequests, flowConnections := map[], map[], {}, map[], {};
      start, log, accepted, repairs, flows, history := 0, [], [], [], [], [];
    }

    // -------------------------------------------------------------- delivering

    method ForwardBuffered()
      requires nextSeq in buffered
      modifies `nextSeq, `buffered, `seen, `gapRequests, `log, fec
      ensures W() == DrainOne(old(W()))
    {
      var packet := buffered[nextSeq];
      buffered := buffered - {nextSeq};
      gapRequests := gapRequests - {nextSeq};
      fec.Remember(nextSeq, packet.payload);
      log := log + [Forwarded(nextSeq, packet.payload)];
      seen := seen - {nextSeq};
      nextSeq := NextSequence(nextSeq);
    }

    method DrainReady()
      modifies `nextSeq, `buffered, `seen, `gapRequests, `log, fec
      ensures W() == Drain(old(W()))
    {
      while nextSeq in buffered
        invariant Drain(W()) == Drain(old(W()))
        decreases |buffered|
      {
        RemovalShrinks(buffered, nextSeq);
        ForwardBuffered();
      }
    }

    method NoteAccepted(sequence: nat, payload: Bytes)
      modifies `seen, `accepted, fec
      ensures W() == Note(old(W()), sequence, payload)
    {
      seen := seen + {sequence};
      fec.Remember(sequence, payload);
      accepted := accepted + [(sequence, payload)];
    }

    method ForwardNow(payload: Bytes)
      modifies `nextSeq, `seen, `gapRequests, `log
      ensures W() == ForwardHead(old(W()), payload)
    {
      gapRequests := gapRequests - {nextSeq};
      log := log + [Forwarded(nextSeq, payload)];
      seen := seen - {nextSeq};
      nextSeq := NextSequence(nextSeq);
    }

    method AcceptCompletePayload(sequence: nat, payload: Bytes, now: nat)
      modifies `nextSeq, `buffered, `seen, `gapRequests, `log, `accepted, fec
      ensures W() == Accept(old(W()), sequence, payload, now)
    {
      NoteAccepted(sequence, payload);
      if sequence == nextSeq {
        ForwardNow(payload);
        DrainReady();
      } else {
        buffered := buffered[sequence := BufferedPacket(payload, now)];
      }
    }

    // -------------------------------------------------------------- parity recovery

    method AcceptBatch(recovered: seq<(nat, Bytes)>, now: nat) returns (any: bool)
      modifies `nextSeq, `buffered, `fragments, `seen, `gapRequests, `log, `accepted, fec
      ensures (W(), any) == AcceptAll(old(W()), recovered, now)
    {
      any := false;
      for i := 0 to |recovered|
        invariant (W(), any) == AcceptAll(old(W()), recovered[..i], now)
      {
        var (sequence, payload) := recovered[i];
        assert recovered[..i + 1][..i] == recovered[..i];
        if !(sequence < nextSeq || sequence in seen || sequence in buffered) {
          fragments := fragments - {sequence};
          AcceptCompletePayload(sequence, payload, now);
          any := true;
        }
      }
      assert recovered[..|recovered|] == recovered;
    }

    method RecoverFecReady(now: nat)
      modifies `nextSeq, `buffered, `fragments, `seen, `gapRequests, `log, `accepted, fec
      ensures W() == RecoverFec(old(W()), now)
    {
      while true
        invariant RecoverFec(W(), now) == RecoverFec(old(W()), now)
        decreases |fec.frames|
      {
        ghost var before := W();
        var recovered := fec.Recover(nextSeq, buffered);
        assert (W(), recovered) == Peel(before);
        if recovered == [] {
          return;
        }
        var any := AcceptBatch(recovered, now);
        if !any {
          return;
        }
        PeelingShrinks(before, now);
      }
    }

    // -------------------------------------------------------------- repair requests

    method RequestDueRepairs(interval: nat, now: nat)
      requires AssembliesFit(fragments)
      modifies `gapRequests, `fragments, `repairs
      ensures W() == RequestRepairs(old(W()), interval, now)
    {
      var requests := [];
      if nextSeq !in buffered && nextSeq !in fragments && (buffered != map[] || fragments != map[])
         && (nextSeq !in gapRequests || Elapsed(now, gapRequests[nextSeq]) >= interval) {
        gapRequests := gapRequests[nextSeq := now];
        requests := [RepairRequest(nextSeq, REPAIR_ALL_FRAGMENTS_MASK)];
      }
      assert requests == GapRequest(old(W()), interval, now);
      requests := RequestFragments(SortedKeys(fragments.Keys), requests, interval, now);
      repairs := repairs + requests;
    }

    method RequestFragments(keys: seq<nat>, gap: seq<RepairRequest>, interval: nat, now: nat)
      returns (requests: seq<RepairRequest>)
      requires AssembliesFit(fragments) && forall i :: 0 <= i < |keys| ==> keys[i] in fragments
      modifies `fragments
      ensures (fragments, requests) == RepairScan(old(fragments), gap, keys, interval, now)
    {
      requests := gap;
      for i := 0 to |keys|
        invariant forall k :: 0 <= k < |keys| ==> keys[k] in fragments
        invariant (fragments, requests) == RepairScan(old(fragments), gap, keys[..i], interval, now)
      {
        assert keys[..i + 1][..i] == keys[..i];
        if |requests| >= MAX_REPAIR_REQUESTS_PER_TICK {
          FullScanStops(old(fragments), gap, keys, i, interval, now);
          return;
        }
        var assembly := fragments[keys[i]];
        var mask := MissingMask(assembly.slots);
        if RequestDue(assembly.lastRepairRequest, interval, now) && mask != 0 {
          fragments := fragments[keys[i] := assembly.(lastRepairRequest := Some(now))];
          requests := requests + [RepairRequest(keys[i], mask)];
        }
      }
      assert keys[..|keys|] == keys;
    }

    // -------------------------------------------------------------- expiring

    method SkipSequence(reason: SkipReason)
      modifies `nextSeq, `gapRequests, `log, skips
      ensures W() == SkipHead(old(W()), reason)
    {
      var skipped := nextSeq;
      nextSeq := NextSequence(nextSeq);
      gapRequests := gapRequests - {skipped};
      skips.Insert(skipped);
      log := log + [Skipped(skipped, reason)];
    }

    method GiveUpAssembly()
      modifies `nextSeq, `fragments, `seen, `gapRequests, `log, skips
      ensures W() == DropAssembly(old(W()))
    {
      fragments := fragments - {nextSeq};
      seen := seen - {nextSeq};
      SkipSequence(FragmentIncomplete);
    }

    method OldestPendingIsDue(now: nat) returns (due: bool)
      ensures due == Overdue(W(), config.maxReorderDelay, now)
    {
      var times := (set k | k in buffered :: buffered[k].receivedAt)
        + (set k | k in fragments :: fragments[k].firstSeen);
      assert times == PendingTimes(W());
      due := times != {} && Elapsed(now, Least(times)) >= config.maxReorderDelay;
    }

    method ExpireReorderGap(now: nat)
      requires Ahead(W())
      modifies `nextSeq, `fragments, `seen, `gapRequests, `log, skips
      ensures W() == Expire(old(W()), config.maxReorderDelay, now)
    {
      while true
        invariant Ahead(W())
          && Expire(W(), config.maxReorderDelay, now) == Expire(old(W()), config.maxReorderDelay, now)
        decreases |fragments|, MAX_MEDIA_SEQUENCE - nextSeq
      {
        if nextSeq in buffered {
          return;
        }
        if nextSeq in fragments {
          if Elapsed(now, fragments[nextSeq].firstSeen) < config.maxReorderDelay {
            return;
          }
          DropKeepsAhead(W());
          GiveUpAssembly();
        } else {
          var due := OldestPendingIsDue(now);
          if !due {
            return;
          }
          SkipKeepsAhead(W(), config.maxReorderDelay, now);
          SkipSequence(NeverReceived);
        }
      }
    }

    method AdvanceReorderWindow(now: nat)
      requires Settled(W())
      modifies `nextSeq, `buffered, `fragments, `seen, `gapRequests, `log, `accepted, `repairs, fec, skips
      ensures W() == Advance(old(W()), config, now)
    {
      RecoverFecKeepsGood(W(), now);
      RecoverFecReady(now);
      AskDueRepairs(now);
      CloseGap(now);
    }

    method AskDueRepairs(now: nat)
      requires Good(W())
      modifies `gapRequests, `fragments, `repairs
      ensures W() == AskRepairs(old(W()), config, now) && Good(W())
    {
      if config.repairInterval.Some? {
        RequestRepairsKeepsGood(W(), config.repairInterval.value, now);
        RequestDueRepairs(config.repairInterval.value, now);
      }
    }

    method CloseGap(now: nat)
      requires Good(W())
      modifies `nextSeq, `buffered, `fragments, `seen, `gapRequests, `log, fec, skips
      ensures W() == AdvanceFrom(old(W()), config, now)
    {
      ExpireReorderGap(now);
      DrainReady();
    }

    // -------------------------------------------------------------- packets

    method RecoverThenAdvance(now: nat)
      requires Settled(W())
      modifies `nextSeq, `buffered, `fragments, `seen, `gapRequests, `log, `accepted, `repairs, fec, skips
      ensures W() == RecoverAndAdvance(old(W()), config, now)
    {
      RecoverFecKeepsGood(W(), now);
      RecoverFecReady(now);
      AdvanceReorderWindow(now);
    }

    method CompletePayload(sequence: nat, payload: Bytes, now: nat)
      requires Settled(W()) && Acceptable(W(), sequence)
      modifies `nextSeq, `buffered, `fragments, `seen, `gapRequests, `log, `accepted, `repairs, fec, skips
      ensures W() == Complete(old(W()), sequence, payload, config, now)
    {
      AcceptKeepsGood(W(), sequence, payload, now);
      AcceptCompletePayload(sequence, payload, now);
      RecoverThenAdvance(now);
    }

    method CollectFragment(h: PacketHeader, assembly: FragmentAssembly, now: nat)
      requires Settled(W()) && nextSeq <= h.sequence <= MAX_MEDIA_SEQUENCE && h.sequence !in buffered
      requires assembly.Valid() && assembly.received >= 1
      modifies `nextSeq, `buffered, `fragments, `seen, `gapRequests, `log, `accepted, `repairs, fec, skips
      ensures W() == Collect(old(W()), h, assembly, config, now)
    {
      FilledIsAll(assembly.slots);
      if assembly.IsComplete() {
        DiscardAssemblyKeepsGood(W(), h.sequence);
        fragments := fragments - {h.sequence};
        var payload := IntoPayload(assembly);
        CompletePayload(h.sequence, payload, now);
      } else {
        CollectKeepsGood(W(), h.sequence, assembly);
        fragments := fragments[h.sequence := assembly];
        AdvanceReorderWindow(now);
      }
    }

    method DeliverPacket(h: PacketHeader, payload: Bytes, now: nat)
      requires Settled(W()) && ValidHeader(h) && nextSeq <= h.sequence <= MAX_MEDIA_SEQUENCE
      modifies `nextSeq, `buffered, `fragments, `seen, `gapRequests, `log, `accepted, `repairs, fec, skips
      ensures W() == Deliver(old(W()), h, payload, config, now)
    {
      if h.sequence in seen || h.sequence in buffered {
        return;
      }
      if h.fragments == 1 {
        DiscardAssemblyKeepsGood(W(), h.sequence);
        fragments := fragments - {h.sequence};
        CompletePayload(h.sequence, payload, now);
        return;
      }
      EntryIsValid(W(), h, now);
      var entry := if h.sequence in fragments then fragments[h.sequence] else EmptyAssembly(h.fragments, now);
      if |entry.slots| != h.fragments {
        return;
      }
      var inserted := entry.Insert(h.fragment, payload);
      if inserted.None? {
        return;
      }
      InsertKeepsValid(entry, h.fragment, payload);
      CollectFragment(h, inserted.value, now);
    }

    method OpenFlow(connection: nat, sequence: nat)
      requires Sound(State()) && sequence <= MAX_MEDIA_SEQUENCE
      modifies `initialized, `nextSeq, `flowConnections, `start
      ensures State() == Open(old(State()), connection, sequence)
    {
      hide Good;
      if !initialized {
        initialized := true;
        nextSeq := sequence;
        start := sequence;
        flowConnections := flowConnections + {connection};
      }
    }

    method DropEverything(sequence: nat)
      modifies `nextSeq, `buffered, `fragments, `seen, `gapRequests, `start, `log, `accepted, fec, skips
      ensures W() == EmptyWindow(sequence, repairs)
    {
      buffered := map[];
      fragments := map[];
      seen := {};
      skips.Clear();
      gapRequests := map[];
      fec.Clear();
      nextSeq := sequence;
      start, log, accepted := sequence, [], [];
    }

    /** Everything held goes; the ghost record of the flow is closed with it. */
    method ClearWindow(ending: Ending, sequence: nat)
      modifies `nextSeq, `buffered, `fragments, `seen, `gapRequests, `start, `log, `accepted, `flows, fec, skips
      ensures State() == CloseFlow(old(State()), ending, sequence)
    {
      flows := flows + [Flow(W(), ending)];
      DropEverything(sequence);
    }

    method RestartFlow(connection: nat, packet: Packet, now: nat)
      requires Sound(State()) && initialized && ValidHeader(packet.header)
        && packet.header.sequence <= MAX_MEDIA_SEQUENCE
      modifies `nextSeq, `buffered, `fragments, `seen, `gapRequests, `flowConnections, `start, `log, `accepted,
        `repairs, `flows, fec, skips
      ensures State() == Reopen(old(State()), connection, packet, config, now)
    {
      EmptyWindowIsGood(packet.header.sequence, repairs);
      hide Good, Deliver;
      ClearWindow(Restarted, packet.header.sequence);
      OpenCleared(connection, packet.header, packet.payload, now);
    }

    method OpenCleared(connection: nat, h: PacketHeader, payload: Bytes, now: nat)
      requires Settled(W()) && ValidHeader(h) && nextSeq == h.sequence <= MAX_MEDIA_SEQUENCE
      modifies `nextSeq, `buffered, `fragments, `seen, `gapRequests, `flowConnections, `log, `accepted, `repairs, fec,
        skips
      ensures State() ==
        old(State()).(connections := {connection}, window := Deliver(old(W()), h, payload, config, now))
    {
      hide Good, Deliver;
      flowConnections := {connection};
      DeliverPacket(h, payload, now);
    }

    /** The detector is shown a packet of a connection outside the flow. */
    method WatchForeign(connection: nat, sequence: nat) returns (confirmed: bool)
      requires sequence < nextSeq
      modifies `history, detector
      ensures State() == Watch(old(State()), connection, sequence)
      ensures confirmed <==> Classify(old(State()), connection, sequence) == RestartsFlow
    {
      confirmed := false;
      if connection !in flowConnections {
        history := history + [ObservationOf(sequence, nextSeq)];
        confirmed := detector.Observe(sequence, nextSeq);
      }
    }

    method HandleInWindow(connection: nat, packet: Packet, now: nat)
      requires Sound(State()) && initialized && ValidHeader(packet.header)
        && packet.header.sequence <= MAX_MEDIA_SEQUENCE
      requires packet.header.sequence >= nextSeq
      modifies `nextSeq, `buffered, `fragments, `seen, `gapRequests, `flowConnections, `log, `accepted, `repairs,
        `history
      modifies fec, skips, detector
      ensures State() == OnOpenPacket(old(State()), connection, packet, config, now)
    {
      detector.Clear();
      history := history + [Cleared];
      flowConnections := flowConnections + {connection};
      ghost var watched := State();
      assert watched == Watch(old(State()), connection, packet.header.sequence);
      DeliverPacket(packet.header, packet.payload, now);
      assert State() == watched.(window := W());
    }

    method HandleOpenPacket(connection: nat, packet: Packet, now: nat)
      requires Sound(State()) && initialized && ValidHeader(packet.header)
        && packet.header.sequence <= MAX_MEDIA_SEQUENCE
      modifies `nextSeq, `buffered, `fragments, `seen, `gapRequests, `flowConnections, `start, `log, `accepted,
        `repairs, `flows, `history
      modifies fec, skips, detector
      ensures State() == OnOpenPacket(old(State()), connection, packet, config, now)
    {
      if packet.header.sequence >= nextSeq {
        HandleInWindow(connection, packet, now);
        return;
      }
      var confirmed := WatchForeign(connection, packet.header.sequence);
      if confirmed {
        RestartFlow(connection, packet, now);
      }
      // Late or duplicate otherwise: counted, and nothing else.
    }

    // -------------------------------------------------------------- the loop's three arms

    method HandlePacket(connection: nat, packet: Packet, now: nat)
      requires Sound(State()) && ValidHeader(packet.header) && packet.header.sequence <= MAX_MEDIA_SEQUENCE
      modifies this, fec, skips, detector
      ensures State() == OnPacket(old(State()), connection, packet, config, now)
    {
      OpenFlow(connection, packet.header.sequence);
      HandleOpenPacket(connection, packet, now);
    }

    method StoreFrame(frame: FecFrame)
      requires Settled(W()) && ValidFrame(frame)
      modifies fec
      ensures Settled(W()) && State() == old(State()).(window := WithFrame(old(W()), frame))
    {
      WithFrameIsSettled(W(), frame);
      fec.Insert(frame);
    }

    method ApplyParity(now: nat)
      requires Settled(W())
      modifies `nextSeq, `buffered, `fragments, `seen, `gapRequests, `log, `accepted, `repairs, fec, skips
      ensures State() == old(State()).(window := RecoverAndAdvance(old(W()), config, now))
    {
      hide Good, RecoverAndAdvance;
      RecoverThenAdvance(now);
    }

    method HandleFec(frame: FecFrame, now: nat)
      requires Sound(State()) && ValidFrame(frame)
      modifies `nextSeq, `buffered, `fragments, `seen, `gapRequests, `log, `accepted, `repairs, fec, skips
      ensures State() == OnFec(old(State()), frame, config, now)
    {
      StoreFrame(frame);
      if initialized {
        ApplyParity(now);
      }
    }

    method ResetIdleFlow()
      modifies this, fec, skips, detector
      ensures State() == CloseFlow(old(State()), IdleReset, 0).(
        initialized := false, detector := Detector(0, 0), connections := {},
        history := old(State()).history + [Cleared])
    {
      initialized := false;
      ClearWindow(IdleReset, 0);
      detector.Clear();
      history := history + [Cleared];
      flowConnections := {};
    }

    method HandleTimer(now: nat)
      requires Sound(State())
      modifies this, fec, skips, detector
      ensures State() == OnTimer(old(State()), config, now)
    {
      hide Good, Advance;
      if !initialized {
        return;
      }
      if buffered != map[] || fragments != map[] || seen != {} {
        AdvanceReorderWindow(now);
      } else {
        ResetIdleFlow();
      }
    }

    method HandleEvent(e: Event)
      requires Sound(State()) && ValidEvent(e)
      modifies this, fec, skips, detector
      ensures State() == Step(old(State()), e, config)
    {
      match e
      case PacketArrives(connection, packet, now) => HandlePacket(connection, packet, now);
      case FecArrives(frame, now) => HandleFec(frame, now);
      case TimerFires(now) => HandleTimer(now);
    }

    method HandleNext(events: seq<Event>, i: nat, ghost before: Server)
      requires Sound(before) && ValidEvents(events) && i < |events|
      requires State() == Run(before, events[..i], config)
      modifies this, fec, skips, detector
      ensures State() == Run(before, events[..i + 1], config)
    {
      RunNext(before, events, i, config);
      HandleEvent(events[i]);
    }

    method ReorderLoop(events: seq<Event>)
      requires Sound(State()) && ValidEvents(events)
      modifies this, fec, skips, detector
      ensures State() == Run(old(State()), events, config)
    {
      hide Good;
      ghost var before := State();
      for i := 0 to |events|
        invariant State() == Run(before, events[..i], config)
      {
        HandleNext(events, i, before);
      }
      assert events[..|events|] == events;
    }
  }

  /** Once 64 requests are out the rest of the scan changes nothing. */
  lemma {:induction false} FullScanStops(fragments: map<nat, FragmentAssembly>, gap: seq<RepairRequest>,
                                         keys: seq<nat>, i: nat, interval: nat, now: nat)
    requires AssembliesFit(fragments) && forall k :: 0 <= k < |keys| ==> keys[k] in fragments
    requires i <= |keys|
    requires |RepairScan(fragments, gap, keys[..i], interval, now).1| >= MAX_REPAIR_REQUESTS_PER_TICK
    ensures RepairScan(fragments, gap, keys, interval, now) == RepairScan(fragments, gap, keys[..i], interval, now)
    decreases |keys| - i
  {
    if i == |keys| {
      assert keys[..i] == keys;
    } else {
      FullScanStopsOnce(fragments, gap, keys, i, interval, now);
      FullScanStops(fragments, gap, keys, i + 1, interval, now);
    }
  }

  lemma FullScanStopsOnce(fragments: map<nat, FragmentAssembly>, gap: seq<RepairRequest>, keys: seq<nat>, i: nat,
                          interval: nat, now: nat)
    requires AssembliesFit(fragments) && forall k :: 0 <= k < |keys| ==> keys[k] in fragments
    requires i < |keys|
    requires |RepairScan(fragments, gap, keys[..i], interval, now).1| >= MAX_REPAIR_REQUESTS_PER_TICK
    ensures RepairScan(fragments, gap, keys[..i + 1], interval, now) ==
      RepairScan(fragments, gap, keys[..i], interval, now)
  {
    assert keys[..i + 1][..i] == keys[..i];
  }
}
