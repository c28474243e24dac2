/**
  Repair requests over runs: whatever happens in between, a packet is not asked for twice
  within the repair interval, neither as a gap nor as an assembly.
*/
module RepairSpacing {
  import opened ByteStrings
  import opened Sequences
  import opened Wire
  import opened Assembly
  import opened FecRecovery
  import opened Window
  import opened WindowLaws
  import opened Receiver
  import opened WindowMoves
  import opened RepairAsking
  import opened RepairRuns
  import opened FlowBoundaries
  import opened GapClosing

  // ---------------------------------------------------------------- what is remembered of a request

  /** Requests for all of a packet are for gaps, others for assemblies. */
  predicate ForGap(r: RepairRequest) {
    r.missingMask == REPAIR_ALL_FRAGMENTS_MASK
  }

  predicate SameNeed(r: RepairRequest, r': RepairRequest) {
    r'.sequence == r.sequence && (ForGap(r') <==> ForGap(r))
  }

  /** The window remembers that this was asked for at time t or later, as long as it matters on lap o. */
  predicate Remembers(w: Window, r: RepairRequest, o: int, t: nat) {
    var q := r.sequence;
    if ForGap(r) then q + o < |w.log| || (q == w.nextSeq && q in w.gapRequests && w.gapRequests[q] >= t)
    else
      || Gone(w, q, o)
      || (q in w.fragments && w.fragments[q].lastRepairRequest.Some? && w.fragments[q].lastRepairRequest.value >= t)
  }

  lemma LaterRemembers(w: Window, w': Window, r: RepairRequest, o: int, t: nat)
    requires Later(w, w', o) && Lap(w) >= o && Remembers(w, r, o, t)
    ensures Remembers(w', r, o, t) && Lap(w') >= o
  {
  }

  // ---------------------------------------------------------------- one tick

  lemma {:induction false} NoneFilled(slots: seq<Option<Bytes>>)
    requires forall i :: 0 <= i < |slots| ==> slots[i].None?
    ensures Filled(slots) == 0
  {
    if slots != [] {
      NoneFilled(slots[..|slots| - 1]);
    }
  }

  lemma AllHasEveryBit(i: nat)
    requires i < MAX_FRAGMENTS
    ensures REPAIR_ALL_FRAGMENTS_MASK & Bit(i) != 0
  {
  }

  /** An assembly of which something has come is never asked for as a whole. */
  lemma MaskIsNotAll(a: FragmentAssembly)
    requires a.Valid() && a.received >= 1
    ensures MissingMask(a.slots) != REPAIR_ALL_FRAGMENTS_MASK
  {
    if forall i :: 0 <= i < |a.slots| ==> a.slots[i].None? {
      NoneFilled(a.slots);
      assert false;
    }
    var i :| 0 <= i < |a.slots| && a.slots[i].Some?;
    MissingMaskIsExact(a.slots, i);
    AllHasEveryBit(i);
  }

  lemma AssemblyIsNotAGap(w: Window, r: RepairRequest)
    requires Good(w) && AsksForMissing(w.fragments, r)
    ensures !ForGap(r)
  {
    MaskIsNotAll(w.fragments[r.sequence]);
  }

  /** A request of this tick is for the gap, or for a wanting assembly that it marks. */
  lemma TickRequest(w: Window, w': Window, i: nat, interval: nat, now: nat)
    requires Good(w) && TickAsks(w, w', interval, now) && |w.repairs| <= i < |w'.repairs|
    ensures var r := w'.repairs[i];
      if ForGap(r) then
        r.sequence == w.nextSeq && GapWanting(w, interval, now) && w'.gapRequests == w.gapRequests[w.nextSeq := now]
      else
        && Wanting(w.fragments, r.sequence, interval, now) && r.sequence in w'.fragments
        && w'.fragments[r.sequence].lastRepairRequest == Some(now)
  {
    hide Good, Wanting, GapWanting, AsksForMissing;
    var g, r := GapRequests(w, interval, now), w'.repairs[i];
    if i >= |w.repairs| + g {
      var asked := w'.repairs[|w.repairs| + g..];
      assert asked[i - |w.repairs| - g] == r;
      AssemblyIsNotAGap(w, r);
      WantingIsHeld(w.fragments, r.sequence, interval, now);
      assert Requested(asked, r.sequence);
    }
  }

  lemma WantingIsHeld(fragments: map<nat, FragmentAssembly>, k: nat, interval: nat, now: nat)
    requires Wanting(fragments, k, interval, now)
    ensures k in fragments && !Lately(fragments[k].lastRepairRequest, interval, now)
  {
  }

  /** Requests issued from w to w' are remembered with this time. */
  ghost predicate Records(w: Window, w': Window, o: int, now: nat) {
    && w.repairs <= w'.repairs && Lap(w') >= o
    && forall i :: |w.repairs| <= i < |w'.repairs| ==> Remembers(w', w'.repairs[i], o, now)
  }

  /** What was asked for at time t is still remembered, and asked for again only an interval later. */
  ghost predicate Spaces(w: Window, w': Window, r: RepairRequest, o: int, t: nat, interval: nat, now: nat) {
    && w.repairs <= w'.repairs && Lap(w') >= o && Remembers(w', r, o, t)
    && forall i :: |w.repairs| <= i < |w'.repairs| && SameNeed(r, w'.repairs[i]) && Lap(w') == o ==>
      now >= t + interval
  }

  lemma TickRecords(w: Window, w': Window, o: int, interval: nat, now: nat)
    requires Good(w) && TickAsks(w, w', interval, now) && Lap(w) >= o
    ensures Records(w, w', o, now)
  {
    forall i | |w.repairs| <= i < |w'.repairs|
      ensures Remembers(w', w'.repairs[i], o, now)
    {
      TickRequest(w, w', i, interval, now);
    }
    hide Good, ForWanting, Marked, NoRoomFor, Wanting, GapWanting, Remembers;
  }

  lemma RequestedIsWanting(fragments: map<nat, FragmentAssembly>, requests: seq<RepairRequest>, k: nat,
                           interval: nat, now: nat)
    requires ForWanting(fragments, requests, interval, now) && Requested(requests, k)
    ensures k in fragments && !Lately(fragments[k].lastRepairRequest, interval, now)
  {
  }

  lemma TickRemembers(w: Window, w': Window, r: RepairRequest, o: int, t: nat, interval: nat, now: nat)
    requires TickAsks(w, w', interval, now) && Remembers(w, r, o, t) && interval > 0
    ensures Remembers(w', r, o, t)
  {
    var asked := w'.repairs[|w.repairs| + GapRequests(w, interval, now)..];
    if Requested(asked, r.sequence) {
      RequestedIsWanting(w.fragments, asked, r.sequence, interval, now);
    }
    hide ForWanting, NoRoomFor, Requested, ForGap;
  }

  /** On lap o, the head is not passed and assemblies are not complete. */
  lemma NotGone(w: Window, o: int)
    requires Ahead(w) && Lap(w) == o
    ensures w.nextSeq + o >= |w.log| && forall k :: k in w.fragments ==> !Gone(w, k, o)
  {
  }

  lemma TickSpaces(w: Window, w': Window, r: RepairRequest, o: int, t: nat, interval: nat, now: nat)
    requires Good(w) && TickAsks(w, w', interval, now) && Remembers(w, r, o, t) && Lap(w) >= o && interval > 0
    ensures Spaces(w, w', r, o, t, interval, now)
  {
    HeadIsAhead(w);
    TickRemembers(w, w', r, o, t, interval, now);
    hide Good, Ahead, ForWanting, Marked, NoRoomFor, Wanting;
    forall i | |w.repairs| <= i < |w'.repairs| && SameNeed(r, w'.repairs[i]) && Lap(w') == o
      ensures now >= t + interval
    {
      NotGone(w, o);
      TickRequest(w, w', i, interval, now);
      if !ForGap(r) {
        WantingIsHeld(w.fragments, r.sequence, interval, now);
      }
    }
  }

  lemma HeadIsAhead(w: Window)
    requires Good(w)
    ensures Ahead(w)
  {
  }

  // ---------------------------------------------------------------- an advance

  lemma LaterThenSpaces(w: Window, w1: Window, w': Window, r: RepairRequest, o: int, t: nat, interval: nat, now: nat)
    requires Later(w, w1, o) && Spaces(w1, w', r, o, t, interval, now)
    ensures Spaces(w, w', r, o, t, interval, now)
  {
    hide Remembers;
  }

  lemma SpacesThenLater(w: Window, w1: Window, w': Window, r: RepairRequest, o: int, t: nat, interval: nat, now: nat)
    requires Spaces(w, w1, r, o, t, interval, now) && Later(w1, w', o)
    ensures Spaces(w, w', r, o, t, interval, now)
  {
    LaterRemembers(w1, w', r, o, t);
    hide Remembers;
  }

  lemma LaterThenRecords(w: Window, w1: Window, w': Window, o: int, now: nat)
    requires Later(w, w1, o) && Records(w1, w', o, now)
    ensures Records(w, w', o, now)
  {
    hide Remembers;
  }

  lemma RecordsThenLater(w: Window, w1: Window, w': Window, o: int, now: nat)
    requires Records(w, w1, o, now) && Later(w1, w', o)
    ensures Records(w, w', o, now)
  {
    forall i | |w.repairs| <= i < |w'.repairs|
      ensures Remembers(w', w'.repairs[i], o, now)
    {
      LaterRemembers(w1, w', w1.repairs[i], o, now);
    }
    hide Remembers;
  }

  lemma AdvanceFromIsLater(w: Window, config: Config, now: nat, o: int)
    requires Good(w) && Lap(w) >= o
    ensures Later(w, AdvanceFrom(w, config, now), o)
  {
    HeadIsAhead(w);
    hide Good, Later, Expire, Drain;
    var x := Expire(w, config.maxReorderDelay, now);
    ExpireIsLater(w, config.maxReorderDelay, now, o);
    LaterLap(w, x, o);
    DrainIsLater(x, o);
    LaterOn(w, x, Drain(x), o);
  }

  /** The window when the tick comes: parity used up. */
  lemma AtTheTick(w: Window, config: Config, now: nat, o: int)
    requires Settled(w) && Lap(w) >= o && config.repairInterval.Some?
    ensures var r := RecoverFec(w, now);
      && Good(r) && Later(w, r, o) && Lap(r) >= o && AssembliesFit(r.fragments)
      && var asked := RequestRepairs(r, config.repairInterval.value, now);
      && TickAsks(r, asked, config.repairInterval.value, now) && Lap(asked) == Lap(r)
      && Later(asked, Advance(w, config, now), o)
  {
    hide Good, HeadClear, Later, RecoverFec, RequestRepairs, AdvanceFrom;
    RecoverFecKeepsGood(w, now);
    RecoverFecIsLater(w, now, o);
    var r := RecoverFec(w, now);
    LaterLap(w, r, o);
    EverythingDueIsAskedFor(r, config.repairInterval.value, now);
    var asked := RequestRepairs(r, config.repairInterval.value, now);
    RequestRepairsKeepsGood(r, config.repairInterval.value, now);
    TickStaysOnLap(r, asked, config.repairInterval.value, now);
    AdvanceFromIsLater(asked, config, now, o);
  }

  lemma TickStaysOnLap(w: Window, w': Window, interval: nat, now: nat)
    requires TickAsks(w, w', interval, now)
    ensures Lap(w') == Lap(w)
  {
    hide ForWanting, Marked, NoRoomFor, Wanting;
  }

  lemma AdvanceRecords(w: Window, config: Config, now: nat, o: int)
    requires Settled(w) && Lap(w) >= o && config.repairInterval.Some?
    ensures Records(w, Advance(w, config, now), o, now)
  {
    hide Good, HeadClear, Later, RecoverFec, RequestRepairs, Advance, TickAsks, Records;
    AtTheTick(w, config, now, o);
    var r := RecoverFec(w, now);
    var asked := RequestRepairs(r, config.repairInterval.value, now);
    TickRecords(r, asked, o, config.repairInterval.value, now);
    LaterThenRecords(w, r, asked, o, now);
    RecordsThenLater(w, asked, Advance(w, config, now), o, now);
  }

  lemma AdvanceSpaces(w: Window, config: Config, now: nat, r: RepairRequest, o: int, t: nat)
    requires Settled(w) && Lap(w) >= o && config.repairInterval.Some? && config.repairInterval.value > 0
    requires Remembers(w, r, o, t)
    ensures Spaces(w, Advance(w, config, now), r, o, t, config.repairInterval.value, now)
  {
    hide Good, HeadClear, Later, RecoverFec, RequestRepairs, Advance, TickAsks, Spaces, Remembers;
    AtTheTick(w, config, now, o);
    var x, interval := RecoverFec(w, now), config.repairInterval.value;
    var asked := RequestRepairs(x, interval, now);
    LaterRemembers(w, x, r, o, t);
    TickSpaces(x, asked, r, o, t, interval, now);
    LaterThenSpaces(w, x, asked, r, o, t, interval, now);
    SpacesThenLater(w, asked, Advance(w, config, now), r, o, t, interval, now);
  }

  // ---------------------------------------------------------------- a step

  /** Some moves that ask for nothing, and then possibly an advance. */
  ghost predicate MovesAndAdvances(w: Window, w': Window, config: Config, now: nat, o: int) {
    Later(w, w', o) || exists w0 :: Settled(w0) && Later(w, w0, o) && w' == Advance(w0, config, now)
  }

  lemma AdvancesFrom(w: Window, w0: Window, config: Config, now: nat, o: int)
    requires Settled(w0) && Later(w, w0, o)
    ensures MovesAndAdvances(w, Advance(w0, config, now), config, now, o)
  {
    hide Settled, Later, Advance;
  }

  lemma CompleteAdvances(w: Window, s: nat, p: Bytes, config: Config, now: nat, o: int)
    requires Lap(w) >= o && s !in w.buffered
    requires var w1 := w.(fragments := w.fragments - {s}); Settled(w1) && Acceptable(w1, s)
    ensures var w1 := w.(fragments := w.fragments - {s});
      MovesAndAdvances(w, Complete(w1, s, p, config, now), config, now, o)
  {
    hide Good, HeadClear, Later, Accept, RecoverFec, Advance, Acceptable, MovesAndAdvances;
    var w1 := w.(fragments := w.fragments - {s});
    AcceptKeepsGood(w1, s, p, now);
    AcceptIsLater(w, s, p, now, o);
    var w2 := Accept(w1, s, p, now);
    LaterLap(w, w2, o);
    RecoverFecKeepsGood(w2, now);
    RecoverFecIsLater(w2, now, o);
    LaterOn(w, w2, RecoverFec(w2, now), o);
    AdvancesFrom(w, RecoverFec(w2, now), config, now, o);
  }

  lemma CollectAdvances(w: Window, h: PacketHeader, a: FragmentAssembly, config: Config, now: nat, o: int)
    requires Settled(w) && w.nextSeq <= h.sequence <= MAX_MEDIA_SEQUENCE && h.sequence !in w.buffered && Lap(w) >= o
    requires a.Valid() && a.received >= 1
    requires h.sequence in w.fragments ==> a.lastRepairRequest == w.fragments[h.sequence].lastRepairRequest
    ensures MovesAndAdvances(w, Collect(w, h, a, config, now), config, now, o)
  {
    hide Good, HeadClear, Later, Collect, Complete, Advance, Acceptable, MovesAndAdvances, FragmentAssembly.Valid;
    if a.IsComplete() {
      CollectIsComplete(w, h, a, config, now);
      CompleteAdvances(w, h.sequence, Concat(Values(a.slots)), config, now, o);
    } else {
      CollectIsAdvance(w, h, a, config, now);
      CollectedIsLater(w, h.sequence, a, o);
      AdvancesFrom(w, w.(fragments := w.fragments[h.sequence := a]), config, now, o);
    }
  }

  lemma SameIsIdle(w: Window, config: Config, now: nat, o: int)
    ensures MovesAndAdvances(w, w, config, now, o)
  {
    NotLater(w, o);
  }

  lemma EntryKeepsTime(w: Window, h: PacketHeader, payload: Bytes, now: nat)
    requires h.fragment < |EntryFor(w, h, now).slots| && EntryFor(w, h, now).Insert(h.fragment, payload).Some?
    ensures h.sequence in w.fragments ==>
      EntryFor(w, h, now).Insert(h.fragment, payload).value.lastRepairRequest
        == w.fragments[h.sequence].lastRepairRequest
  {
  }

  lemma DeliverAdvances(w: Window, h: PacketHeader, payload: Bytes, config: Config, now: nat, o: int)
    requires Settled(w) && ValidHeader(h) && w.nextSeq <= h.sequence <= MAX_MEDIA_SEQUENCE && Lap(w) >= o
    ensures MovesAndAdvances(w, Deliver(w, h, payload, config, now), config, now, o)
  {
    hide Good, HeadClear, Deliver, Complete, Collect, MovesAndAdvances, Acceptable, FragmentAssembly.Valid, EntryFor;
    SameIsIdle(w, config, now, o);
    if h.sequence in w.buffered {
      DeliverIgnores(w, h, payload, config, now);
    } else if h.fragments == 1 {
      DeliverIsComplete(w, h, payload, config, now);
      CompleteAdvances(w, h.sequence, payload, config, now, o);
    } else {
      DeliverIsCollect(w, h, payload, config, now);
      var entry := EntryFor(w, h, now);
      if |entry.slots| == h.fragments && entry.Insert(h.fragment, payload).Some? {
        EntryKeepsTime(w, h, payload, now);
        CollectAdvances(w, h, entry.Insert(h.fragment, payload).value, config, now, o);
      }
    }
  }

  lemma FrameAdvances(w: Window, frame: FecFrame, config: Config, now: nat, o: int)
    requires Settled(w) && ValidFrame(frame) && Lap(w) >= o
    ensures Settled(WithFrame(w, frame)) && Later(w, WithFrame(w, frame), o)
    ensures MovesAndAdvances(w, RecoverAndAdvance(WithFrame(w, frame), config, now), config, now, o)
  {
    WithFrameIsSettled(w, frame);
    NewFecIsLater(w, InsertFrame(w.fec, frame), o);
    hide Good, HeadClear, Later, RecoverFec, Advance, InsertFrame, MovesAndAdvances, Blank;
    var w1 := WithFrame(w, frame);
    LaterLap(w, w1, o);
    RecoverFecKeepsGood(w1, now);
    RecoverFecIsLater(w1, now, o);
    LaterOn(w, w1, RecoverFec(w1, now), o);
    AdvancesFrom(w, RecoverFec(w1, now), config, now, o);
  }

  /** The window a step starts from: that of the flow under way, or of the flow its packet opens. */
  function Begun(srv: Server, e: Event): Window {
    match e
    case PacketArrives(connection, packet, _) =>
      var begun := EmptyWindow(packet.header.sequence, srv.window.repairs);
      if !srv.initialized then begun.(fec := srv.window.fec)
      else if Classify(srv, connection, packet.header.sequence) == RestartsFlow then begun
      else srv.window
    case _ => srv.window
  }

  lemma OpenBegins(srv: Server, connection: nat, packet: Packet, now: nat)
    requires Sound(srv) && packet.header.sequence <= MAX_MEDIA_SEQUENCE
    ensures var first := Open(srv, connection, packet.header.sequence);
      Begun(srv, PacketArrives(connection, packet, now)) == Begun(first, PacketArrives(connection, packet, now))
  {
    hide Good, HeadClear, Observe;
  }

  lemma BegunIs(srv: Server, connection: nat, packet: Packet, now: nat)
    requires srv.initialized
    ensures Begun(srv, PacketArrives(connection, packet, now)) ==
            if Classify(srv, connection, packet.header.sequence) == RestartsFlow
            then EmptyWindow(packet.header.sequence, srv.window.repairs) else srv.window
  {
    hide Observe;
  }

  lemma RestartAdvances(srv: Server, connection: nat, packet: Packet, config: Config, now: nat, o: int)
    requires Sound(srv) && srv.initialized && ValidHeader(packet.header)
    requires packet.header.sequence <= MAX_MEDIA_SEQUENCE
    requires Classify(srv, connection, packet.header.sequence) == RestartsFlow
    requires Lap(EmptyWindow(packet.header.sequence, srv.window.repairs)) >= o
    ensures var w := EmptyWindow(packet.header.sequence, srv.window.repairs);
      MovesAndAdvances(w, OnOpenPacket(srv, connection, packet, config, now).window, config, now, o)
  {
    hide Good, HeadClear, Observe, Deliver, MovesAndAdvances, ValidHeader, Blank, Lap;
    var w := EmptyWindow(packet.header.sequence, srv.window.repairs);
    RestartDelivers(srv, connection, packet, config, now);
    DeliverAdvances(w, packet.header, packet.payload, config, now, o);
  }

  lemma InFlowAdvances(srv: Server, connection: nat, packet: Packet, config: Config, now: nat, o: int)
    requires Sound(srv) && srv.initialized && ValidHeader(packet.header)
    requires packet.header.sequence <= MAX_MEDIA_SEQUENCE
    requires Classify(srv, connection, packet.header.sequence) != RestartsFlow
    requires Lap(srv.window) >= o
    ensures MovesAndAdvances(srv.window, OnOpenPacket(srv, connection, packet, config, now).window, config, now, o)
  {
    hide Good, HeadClear, Observe, Deliver, MovesAndAdvances, ValidHeader, Blank, Lap, Reopen;
    SameIsIdle(srv.window, config, now, o);
    if packet.header.sequence >= srv.window.nextSeq {
      DeliverAdvances(srv.window, packet.header, packet.payload, config, now, o);
    }
  }

  lemma OpenPacketAdvances(srv: Server, connection: nat, packet: Packet, config: Config, now: nat, o: int)
    requires Sound(srv) && srv.initialized && ValidHeader(packet.header)
    requires packet.header.sequence <= MAX_MEDIA_SEQUENCE
    requires Lap(Begun(srv, PacketArrives(connection, packet, now))) >= o
    ensures var w := Begun(srv, PacketArrives(connection, packet, now));
      MovesAndAdvances(w, OnOpenPacket(srv, connection, packet, config, now).window, config, now, o)
  {
    BegunIs(srv, connection, packet, now);
    hide Sound, MovesAndAdvances, ValidHeader, OnOpenPacket, Lap, Begun, Classify;
    if Classify(srv, connection, packet.header.sequence) == RestartsFlow {
      RestartAdvances(srv, connection, packet, config, now, o);
    } else {
      InFlowAdvances(srv, connection, packet, config, now, o);
    }
  }

  /** The step is an idle reset. */
  predicate GoesIdle(srv: Server, e: Event) {
    e.TimerFires? && srv.initialized && !PendingState(srv.window)
  }

  lemma StepAdvances(srv: Server, e: Event, config: Config, o: int)
    requires Sound(srv) && ValidEvent(e) && Lap(Begun(srv, e)) >= o && !GoesIdle(srv, e)
    ensures MovesAndAdvances(Begun(srv, e), Step(srv, e, config).window, config, TimeOf(e), o)
  {
    hide Good, HeadClear, Blank, OnOpenPacket, Open, WithFrame, RecoverAndAdvance, Advance, PendingState, Later;
    SameIsIdle(Begun(srv, e), config, TimeOf(e), o);
    match e
    case PacketArrives(connection, packet, now) =>
      OpenBegins(srv, connection, packet, now);
      OpenPacketAdvances(Open(srv, connection, packet.header.sequence), connection, packet, config, now, o);
    case FecArrives(frame, now) =>
      FrameAdvances(srv.window, frame, config, now, o);
    case TimerFires(now) =>
      NotLater(srv.window, o);
  }

  lemma MovedRecords(w: Window, w': Window, config: Config, now: nat, o: int)
    requires Lap(w) >= o && config.repairInterval.Some? && MovesAndAdvances(w, w', config, now, o)
    ensures Records(w, w', o, now)
  {
    hide Settled, Advance, Remembers;
    if Later(w, w', o) {
    } else {
      var w0 :| Settled(w0) && Later(w, w0, o) && w' == Advance(w0, config, now);
      LaterLap(w, w0, o);
      AdvanceRecords(w0, config, now, o);
      hide Later, Records;
      LaterThenRecords(w, w0, w', o, now);
    }
  }

  lemma MovedSpaces(w: Window, w': Window, config: Config, now: nat, r: RepairRequest, o: int, t: nat)
    requires Lap(w) >= o && config.repairInterval.Some? && config.repairInterval.value > 0
    requires Remembers(w, r, o, t) && MovesAndAdvances(w, w', config, now, o)
    ensures Spaces(w, w', r, o, t, config.repairInterval.value, now)
  {
    hide Settled, Advance, Remembers;
    if Later(w, w', o) {
      LaterRemembers(w, w', r, o, t);
    } else {
      var w0 :| Settled(w0) && Later(w, w0, o) && w' == Advance(w0, config, now);
      LaterRemembers(w, w0, r, o, t);
      AdvanceSpaces(w0, config, now, r, o, t);
      hide Later, Spaces;
      LaterThenSpaces(w, w0, w', r, o, t, config.repairInterval.value, now);
    }
  }

  /** What is due in r has been asked for from one state to the other, as far as 64 requests go. */
  ghost predicate AllDueIssued(srv: Server, after: Server, r: Window, interval: nat, now: nat)
    requires AssembliesFit(r.fragments)
  {
    && (GapWanting(r, interval, now) ==> Issued(srv, after, RepairRequest(r.nextSeq, REPAIR_ALL_FRAGMENTS_MASK)))
    && forall k :: Wanting(r.fragments, k, interval, now) ==>
      || Issued(srv, after, RepairRequest(k, MissingMask(r.fragments[k].slots)))
      || |after.window.repairs| == |srv.window.repairs| + MAX_REPAIR_REQUESTS_PER_TICK
  }

  /** An advance asks for what is due once parity is used up. */
  lemma AdvanceAsksForAllDue(srv: Server, after: Server, w: Window, config: Config, now: nat)
    requires Settled(w) && config.repairInterval.Some?
    requires w.repairs == srv.window.repairs && after.window == Advance(w, config, now)
    ensures AssembliesFit(RecoverFec(w, now).fragments)
    ensures AllDueIssued(srv, after, RecoverFec(w, now), config.repairInterval.value, now)
  {
    hide Good, HeadClear, Later, RecoverFec, RequestRepairs, Advance, TickAsks, PendingState, Issued, GapWanting;
    hide MissingMask, Lap;
    var interval := config.repairInterval.value;
    AtTheTick(w, config, now, Lap(w));
    var r := RecoverFec(w, now);
    var asked := RequestRepairs(r, interval, now);
    LaterAsksNothing(w, r, Lap(w));
    LaterAsksNothing(asked, Advance(w, config, now), Lap(w));
    if GapWanting(r, interval, now) {
      GapIsIssued(srv, after, r, asked, interval, now);
    }
    forall k | Wanting(r.fragments, k, interval, now)
      ensures Issued(srv, after, RepairRequest(k, MissingMask(r.fragments[k].slots)))
        || |after.window.repairs| == |w.repairs| + MAX_REPAIR_REQUESTS_PER_TICK
    {
      WantingIsIssued(srv, after, r, asked, k, interval, now);
    }
  }

  /** At a timeout: what is due once parity is used up is asked for, as far as 64 requests go. */
  lemma TimerAsksForAllDue(srv: Server, config: Config, now: nat)
    requires Sound(srv) && srv.initialized && PendingState(srv.window) && config.repairInterval.Some?
    ensures var r := RecoverFec(srv.window, now);
      && AssembliesFit(r.fragments)
      && AllDueIssued(srv, Step(srv, TimerFires(now), config), r, config.repairInterval.value, now)
  {
    hide Good, HeadClear, RecoverFec, Advance, PendingState, AllDueIssued, AssembliesFit;
    AdvanceAsksForAllDue(srv, Step(srv, TimerFires(now), config), srv.window, config, now);
  }

  /** An assembly of which only this fragment has come. */
  function FirstOnly(h: PacketHeader, payload: Bytes, now: nat): (a: FragmentAssembly)
    requires h.fragment < h.fragments
    ensures |a.slots| == h.fragments
  {
    var none: seq<Option<Bytes>> := seq(h.fragments, (_: nat) => None);
    FragmentAssembly(none[h.fragment := Some(payload)], 1, now, None)
  }

  function WithFirst(w: Window, h: PacketHeader, payload: Bytes, now: nat): Window
    requires h.fragment < h.fragments
  {
    w.(fragments := w.fragments[h.sequence := FirstOnly(h, payload, now)])
  }

  /** The request for all other fragments. */
  function RequestForRest(h: PacketHeader, payload: Bytes, now: nat): RepairRequest
    requires h.fragment < h.fragments <= MAX_FRAGMENTS
  {
    RepairRequest(h.sequence, MissingMask(FirstOnly(h, payload, now).slots))
  }

  /** With the fragment in, parity does not rebuild its packet. */
  predicate NotRebuilt(w: Window, h: PacketHeader, payload: Bytes, now: nat)
    requires h.fragment < h.fragments
  {
    h.sequence in RecoverFec(WithFirst(w, h, payload, now), now).fragments
  }

  lemma FirstFragmentAdvances(srv: Server, connection: nat, packet: Packet, config: Config, now: nat)
    requires Sound(srv) && srv.initialized && ValidHeader(packet.header) && packet.header.fragments > 1
    requires srv.window.nextSeq <= packet.header.sequence <= MAX_MEDIA_SEQUENCE
    requires packet.header.sequence !in srv.window.buffered && packet.header.sequence !in srv.window.fragments
    ensures var w := WithFirst(srv.window, packet.header, packet.payload, now);
      Settled(w) && Step(srv, PacketArrives(connection, packet, now), config).window == Advance(w, config, now)
  {
    hide Good, HeadClear, Advance, Deliver, Collect, Step, FragmentAssembly.Valid;
    var h := packet.header;
    StepDelivers(srv, connection, packet, config, now);
    DeliverIsCollect(srv.window, h, packet.payload, config, now);
    assert EntryFor(srv.window, h, now).Insert(h.fragment, packet.payload) == Some(FirstOnly(h, packet.payload, now));
    CollectIsAdvance(srv.window, h, FirstOnly(h, packet.payload, now), config, now);
  }

  /**
    The first fragment of a packet that has more: unless parity rebuilds the packet at once, all
    its other fragments are asked for in the same step, as far as 64 requests go.
  */
  lemma FirstFragmentAsksForTheRest(srv: Server, connection: nat, packet: Packet, config: Config, now: nat)
    requires Sound(srv) && srv.initialized && ValidHeader(packet.header) && packet.header.fragments > 1
    requires srv.window.nextSeq <= packet.header.sequence <= MAX_MEDIA_SEQUENCE && config.repairInterval.Some?
    requires packet.header.sequence !in srv.window.buffered && packet.header.sequence !in srv.window.fragments
    requires NotRebuilt(srv.window, packet.header, packet.payload, now)
    ensures var after := Step(srv, PacketArrives(connection, packet, now), config);
      || Issued(srv, after, RequestForRest(packet.header, packet.payload, now))
      || |after.window.repairs| == |srv.window.repairs| + MAX_REPAIR_REQUESTS_PER_TICK
  {
    var h, w := packet.header, WithFirst(srv.window, packet.header, packet.payload, now);
    FirstIsFirst(srv.window, h, packet.payload, now);
    hide Settled, RecoverFec, Advance, Step, Issued, MissingMask, AllDueIssued, OnlyDrops, Sound, WithFirst, FirstOnly;
    var after, r := Step(srv, PacketArrives(connection, packet, now), config), RecoverFec(w, now);
    FirstFragmentAdvances(srv, connection, packet, config, now);
    AdvanceAsksForAllDue(srv, after, w, config, now);
    RecoverFecOnlyDrops(w, now);
    NewIsWanting(w, r, h.sequence, h.fragments, h.fragment, config.repairInterval.value, now);
    WantedIsIssued(srv, after, r, h.sequence, config.repairInterval.value, now);
  }

  lemma FirstIsFirst(w: Window, h: PacketHeader, payload: Bytes, now: nat)
    requires h.fragment < h.fragments
    ensures var w', a := WithFirst(w, h, payload, now), FirstOnly(h, payload, now);
      && w'.repairs == w.repairs && h.sequence in w'.fragments && w'.fragments[h.sequence] == a
      && a.lastRepairRequest.None? && |a.slots| == h.fragments
      && forall i :: 0 <= i < h.fragments && i != h.fragment ==> a.slots[i].None?
  {
  }

  lemma NewIsWanting(w: Window, r: Window, k: nat, fragments: nat, fragment: nat, interval: nat, now: nat)
    requires OnlyDrops(w, r) && k in r.fragments && k in w.fragments && w.fragments[k].lastRepairRequest.None?
    requires fragment < fragments == |w.fragments[k].slots| && fragments > 1
    requires forall i :: 0 <= i < fragments && i != fragment ==> w.fragments[k].slots[i].None?
    ensures Wanting(r.fragments, k, interval, now) && r.fragments[k] == w.fragments[k]
  {
    assert r.fragments[k].slots[if fragment == 0 then 1 else 0].None?;
  }

  lemma WantedIsIssued(srv: Server, after: Server, r: Window, k: nat, interval: nat, now: nat)
    requires AssembliesFit(r.fragments) && AllDueIssued(srv, after, r, interval, now)
    requires Wanting(r.fragments, k, interval, now)
    ensures Issued(srv, after, RepairRequest(k, MissingMask(r.fragments[k].slots)))
      || |after.window.repairs| == |srv.window.repairs| + MAX_REPAIR_REQUESTS_PER_TICK
  {
    hide Issued, MissingMask, GapWanting;
  }

  lemma LaterAsksNothing(w: Window, w': Window, o: int)
    requires Later(w, w', o)
    ensures w'.repairs == w.repairs
  {
  }

  lemma GapIsIssued(srv: Server, after: Server, r: Window, asked: Window, interval: nat, now: nat)
    requires r.repairs == srv.window.repairs && after.window.repairs == asked.repairs
    requires TickAsks(r, asked, interval, now) && GapWanting(r, interval, now)
    ensures Issued(srv, after, RepairRequest(r.nextSeq, REPAIR_ALL_FRAGMENTS_MASK))
  {
    hide ForWanting, Marked, NoRoomFor, Wanting;
    assert after.window.repairs[|r.repairs|] == RepairRequest(r.nextSeq, REPAIR_ALL_FRAGMENTS_MASK);
  }

  lemma WantingIsIssued(srv: Server, after: Server, r: Window, asked: Window, k: nat, interval: nat, now: nat)
    requires r.repairs == srv.window.repairs && after.window.repairs == asked.repairs && AssembliesFit(r.fragments)
    requires TickAsks(r, asked, interval, now) && Wanting(r.fragments, k, interval, now)
    ensures Issued(srv, after, RepairRequest(k, MissingMask(r.fragments[k].slots)))
      || |after.window.repairs| == |srv.window.repairs| + MAX_REPAIR_REQUESTS_PER_TICK
  {
    hide Marked, Wanting, GapWanting, MissingMask;
    var g := GapRequests(r, interval, now);
    var asks := asked.repairs[|r.repairs| + g..];
    if Requested(asks, k) {
      var i :| 0 <= i < |asks| && asks[i].sequence == k;
      assert AsksForMissing(r.fragments, asks[i]);
      assert after.window.repairs[|r.repairs| + g + i] == asks[i];
    }
  }

  lemma QuietAdvance(w: Window, config: Config, now: nat)
    requires Settled(w) && config.repairInterval.None?
    ensures Advance(w, config, now).repairs == w.repairs
  {
    RecoverFecKeepsGood(w, now);
    RecoverFecIsLater(w, now, Lap(w));
    LaterLap(w, RecoverFec(w, now), Lap(w));
    hide Good, HeadClear, Later, RecoverFec, AdvanceFrom, Lap;
    AdvanceFromIsLater(RecoverFec(w, now), config, now, Lap(w));
    LaterAsksNothing(w, RecoverFec(w, now), Lap(w));
    LaterAsksNothing(RecoverFec(w, now), AdvanceFrom(RecoverFec(w, now), config, now), Lap(w));
  }

  lemma BegunAsksNothing(srv: Server, e: Event)
    ensures Begun(srv, e).repairs == srv.window.repairs
  {
  }

  /** Without a repair interval nothing is ever asked for. */
  lemma WithoutIntervalNothingIsAsked(srv: Server, e: Event, config: Config)
    requires Sound(srv) && ValidEvent(e) && config.repairInterval.None?
    ensures Step(srv, e, config).window.repairs == srv.window.repairs
  {
    hide Good, HeadClear, Step, Advance, Begun, Later, Blank, PendingState, Lap, ValidEvent;
    var w, now := Begun(srv, e), TimeOf(e);
    var w', o := Step(srv, e, config).window, Lap(w);
    BegunAsksNothing(srv, e);
    if GoesIdle(srv, e) {
      IdleAsksNothing(srv, e, config);
    } else {
      StepAdvances(srv, e, config, o);
      if Later(w, w', o) {
        LaterAsksNothing(w, w', o);
      } else {
        var w0 :| Settled(w0) && Later(w, w0, o) && w' == Advance(w0, config, now);
        LaterAsksNothing(w, w0, o);
        QuietAdvance(w0, config, now);
      }
    }
  }

  // ---------------------------------------------------------------- runs

  lemma FlowGoesOn(srv: Server, e: Event, config: Config)
    requires Sound(srv) && ValidEvent(e)
    ensures |Step(srv, e, config).flows| >= |srv.flows|
    ensures srv.initialized && |Step(srv, e, config).flows| == |srv.flows| ==>
      Step(srv, e, config).initialized && Begun(srv, e) == srv.window && !GoesIdle(srv, e)
  {
    hide Good, HeadClear, Deliver, Observe, PendingState, WithFrame, RecoverAndAdvance, Advance;
    if srv.initialized {
      FlowHistory.FlowGoesOnOrEnds(srv, e, config);
      hide FlowHistory.Continues;
    }
  }

  lemma {:induction false} FlowsGrow(srv: Server, es: seq<Event>, config: Config)
    requires Sound(srv) && ValidEvents(es)
    ensures |Run(srv, es, config).flows| >= |srv.flows|
  {
    hide Sound, Step;
    if es != [] {
      FlowsGrow(srv, es[..|es| - 1], config);
      FlowGoesOn(Run(srv, es[..|es| - 1], config), es[|es| - 1], config);
    }
  }

  lemma StepRemembers(srv: Server, e: Event, config: Config, r: RepairRequest, o: int, t: nat)
    requires Sound(srv) && ValidEvent(e) && srv.initialized && |Step(srv, e, config).flows| == |srv.flows|
    requires config.repairInterval.Some? && config.repairInterval.value > 0
    requires Lap(srv.window) >= o && Remembers(srv.window, r, o, t)
    ensures Step(srv, e, config).initialized
    ensures Spaces(srv.window, Step(srv, e, config).window, r, o, t, config.repairInterval.value, TimeOf(e))
  {
    hide Sound, Step, Remembers, Begun, GoesIdle, MovesAndAdvances, Spaces;
    FlowGoesOn(srv, e, config);
    StepAdvances(srv, e, config, o);
    MovedSpaces(srv.window, Step(srv, e, config).window, config, TimeOf(e), r, o, t);
  }

  /** While the flow goes on, what was asked for is remembered. */
  lemma {:induction false} RunRemembers(srv: Server, es: seq<Event>, config: Config, r: RepairRequest, o: int, t: nat)
    requires Sound(srv) && ValidEvents(es) && srv.initialized && |Run(srv, es, config).flows| == |srv.flows|
    requires config.repairInterval.Some? && config.repairInterval.value > 0
    requires Lap(srv.window) >= o && Remembers(srv.window, r, o, t)
    ensures var srv' := Run(srv, es, config);
      srv'.initialized && Lap(srv'.window) >= o && Remembers(srv'.window, r, o, t)
  {
    hide Sound, Step, Remembers;
    if es != [] {
      var n := |es| - 1;
      var before := Run(srv, es[..n], config);
      FlowsGrow(srv, es[..n], config);
      FlowGoesOn(before, es[n], config);
      RunRemembers(srv, es[..n], config, r, o, t);
      StepRemembers(before, es[n], config, r, o, t);
    }
  }

  lemma StepRecords(srv: Server, e: Event, config: Config, r: RepairRequest)
    requires Sound(srv) && ValidEvent(e) && Issued(srv, Step(srv, e, config), r) && config.repairInterval.Some?
    ensures var o := Lap(Begun(srv, e));
      Lap(Step(srv, e, config).window) >= o && Remembers(Step(srv, e, config).window, r, o, TimeOf(e))
  {
    hide Good, HeadClear, Step, Remembers, MovesAndAdvances, Blank, PendingState;
    var o, after := Lap(Begun(srv, e)), Step(srv, e, config);
    if GoesIdle(srv, e) {
      IdleAsksNothing(srv, e, config);
    } else {
      StepAdvances(srv, e, config, o);
      MovedRecords(Begun(srv, e), after.window, config, TimeOf(e), o);
    }
  }

  lemma IdleAsksNothing(srv: Server, e: Event, config: Config)
    requires Sound(srv) && ValidEvent(e) && GoesIdle(srv, e)
    ensures Step(srv, e, config).window.repairs == srv.window.repairs
  {
    hide Good, HeadClear, PendingState;
  }

  /** The request is issued while there is a flow. */
  lemma AskingIsInAFlow(srv: Server, e: Event, config: Config, r: RepairRequest)
    requires Sound(srv) && ValidEvent(e) && Issued(srv, Step(srv, e, config), r)
    ensures Step(srv, e, config).initialized
  {
    hide Good, HeadClear, Deliver, Observe, PendingState, InsertFrame, RecoverAndAdvance, Advance;
  }

  /**
    Within one flow, and one lap of the number space, two requests for the same gap or for the
    same assembly are issued at least the repair interval apart, whatever comes in between.
  */
  lemma RequestsAreSpaced(srv: Server, e: Event, es: seq<Event>, e': Event, config: Config,
                          r: RepairRequest, r': RepairRequest)
    requires Sound(srv) && ValidEvent(e) && ValidEvents(es) && ValidEvent(e') && config.repairInterval.Some?
    requires var after := Step(srv, e, config);
      var before' := Run(after, es, config);
      var after' := Step(before', e', config);
      && Issued(srv, after, r) && Issued(before', after', r') && SameNeed(r, r')
      && |after'.flows| == |after.flows| && Lap(after'.window) == Lap(Begun(srv, e))
    ensures config.repairInterval.value == 0 || TimeOf(e') >= TimeOf(e) + config.repairInterval.value
  {
    hide Sound, Step, Run, Remembers, Begun, SameNeed;
    if config.repairInterval.value > 0 {
      var o, after := Lap(Begun(srv, e)), Step(srv, e, config);
      var before' := Run(after, es, config);
      StepRecords(srv, e, config, r);
      AskingIsInAFlow(srv, e, config, r);
      FlowsGrow(after, es, config);
      FlowGoesOn(before', e', config);
      RunRemembers(after, es, config, r, o, TimeOf(e));
      StepRemembers(before', e', config, r, o, TimeOf(e));
    }
  }
}
