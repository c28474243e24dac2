/**
  What one step can do to the past: the log of a flow only ever grows, nothing that
  was delivered or accepted is taken back, and a flow ends only by an idle reset with
  nothing pending or by a confirmed restart.
*/
module FlowHistory {
  import opened ByteStrings
  import opened Sequences
  import opened Wire
  import opened Assembly
  import opened Window
  import opened WindowLaws
  import opened Receiver

  ghost predicate Continues(w: Window, w': Window) {
    w'.start == w.start && w.log <= w'.log && w.accepted <= w'.accepted && w.repairs <= w'.repairs
  }

  lemma ContinuesOn(a: Window, b: Window, c: Window)
    requires Continues(a, b) && Continues(b, c)
    ensures Continues(a, c)
  {
  }

  lemma {:induction false} DrainContinues(w: Window)
    ensures Continues(w, Drain(w))
    decreases |w.buffered|
  {
    if w.nextSeq in w.buffered {
      DrainContinues(DrainOne(w));
      ContinuesOn(w, DrainOne(w), Drain(w));
    }
  }

  lemma AcceptContinues(w: Window, s: nat, p: Bytes, now: nat)
    ensures Continues(w, Accept(w, s, p, now))
  {
    if s == w.nextSeq {
      DrainContinues(ForwardHead(Note(w, s, p), p));
      ContinuesOn(w, ForwardHead(Note(w, s, p), p), Accept(w, s, p, now));
    }
  }

  lemma {:induction false} AcceptAllContinues(w: Window, batch: seq<(nat, Bytes)>, now: nat)
    ensures Continues(w, AcceptAll(w, batch, now).0)
  {
    if batch != [] {
      var n := |batch| - 1;
      AcceptAllContinues(w, batch[..n], now);
      var w', s := AcceptAll(w, batch[..n], now).0, batch[n].0;
      AcceptContinues(w'.(fragments := w'.fragments - {s}), s, batch[n].1, now);
      if Wanted(w', s) {
        ContinuesOn(w, w', AcceptRecovered(w', s, batch[n].1, now));
      }
    }
  }

  lemma {:induction false} RecoverFecContinues(w: Window, now: nat)
    ensures Continues(w, RecoverFec(w, now))
    decreases |w.fec.frames|
  {
    var (w', recovered) := Peel(w);
    AcceptAllContinues(w', recovered, now);
    var (w'', any) := AcceptAll(w', recovered, now);
    if recovered != [] && any {
      PeelingShrinks(w, now);
      RecoverFecContinues(w'', now);
      ContinuesOn(w, w'', RecoverFec(w, now));
    }
  }

  lemma {:induction false} ExpireContinues(w: Window, delay: nat, now: nat)
    requires Ahead(w)
    ensures Continues(w, Expire(w, delay, now))
    decreases |w.fragments|, MAX_MEDIA_SEQUENCE - w.nextSeq
  {
    match HeadAction(w, delay, now)
    case Stop =>
    case GiveUp =>
      DropKeepsAhead(w);
      ExpireContinues(DropAssembly(w), delay, now);
      ContinuesOn(w, DropAssembly(w), Expire(w, delay, now));
    case Skip =>
      SkipKeepsAhead(w, delay, now);
      ExpireContinues(SkipHead(w, NeverReceived), delay, now);
      ContinuesOn(w, SkipHead(w, NeverReceived), Expire(w, delay, now));
  }

  lemma AdvanceFromContinues(w: Window, config: Config, now: nat)
    requires Good(w)
    ensures Continues(w, AdvanceFrom(w, config, now))
  {
    ExpireContinues(w, config.maxReorderDelay, now);
    DrainContinues(Expire(w, config.maxReorderDelay, now));
  }

  lemma RecoverAndAdvanceContinues(w: Window, config: Config, now: nat)
    requires Settled(w)
    ensures Continues(w, RecoverAndAdvance(w, config, now))
  {
    RecoverFecKeepsGood(w, now);
    RecoverFecContinues(w, now);
    AdvanceContinues(RecoverFec(w, now), config, now);
  }

  lemma AdvanceContinues(w: Window, config: Config, now: nat)
    requires Settled(w)
    ensures Continues(w, Advance(w, config, now))
  {
    RecoverFecKeepsGood(w, now);
    RecoverFecContinues(w, now);
    var recovered := RecoverFec(w, now);
    AskRepairsContinues(recovered, config, now);
    AdvanceFromContinues(AskRepairs(recovered, config, now), config, now);
  }

  lemma AskRepairsContinues(w: Window, config: Config, now: nat)
    requires Good(w)
    ensures Good(AskRepairs(w, config, now)) && Continues(w, AskRepairs(w, config, now))
  {
    if config.repairInterval.Some? {
      RequestRepairsKeepsGood(w, config.repairInterval.value, now);
    }
  }

  lemma CompleteContinues(w: Window, s: nat, p: Bytes, config: Config, now: nat)
    requires Settled(w) && Acceptable(w, s)
    ensures Continues(w, Complete(w, s, p, config, now))
  {
    AcceptKeepsGood(w, s, p, now);
    AcceptContinues(w, s, p, now);
    RecoverAndAdvanceContinues(Accept(w, s, p, now), config, now);
  }

  lemma CollectContinues(w: Window, h: PacketHeader, a: FragmentAssembly, config: Config, now: nat)
    requires Settled(w) && w.nextSeq <= h.sequence <= MAX_MEDIA_SEQUENCE && h.sequence !in w.buffered
    requires a.Valid() && a.received >= 1
    ensures Continues(w, Collect(w, h, a, config, now))
  {
    FilledIsAll(a.slots);
    if a.IsComplete() {
      DiscardAssemblyKeepsGood(w, h.sequence);
      CompleteContinues(w.(fragments := w.fragments - {h.sequence}), h.sequence, Concat(Values(a.slots)), config, now);
    } else {
      CollectKeepsGood(w, h.sequence, a);
      AdvanceContinues(w.(fragments := w.fragments[h.sequence := a]), config, now);
    }
  }

  lemma DeliverContinues(w: Window, h: PacketHeader, payload: Bytes, config: Config, now: nat)
    requires Settled(w) && ValidHeader(h) && w.nextSeq <= h.sequence <= MAX_MEDIA_SEQUENCE
    ensures Continues(w, Deliver(w, h, payload, config, now))
  {
    if h.sequence in w.seen || h.sequence in w.buffered {
    } else if h.fragments == 1 {
      DiscardAssemblyKeepsGood(w, h.sequence);
      CompleteContinues(w.(fragments := w.fragments - {h.sequence}), h.sequence, payload, config, now);
    } else {
      EntryIsValid(w, h, now);
      var entry := EntryFor(w, h, now);
      if |entry.slots| == h.fragments && entry.Insert(h.fragment, payload).Some? {
        InsertKeepsValid(entry, h.fragment, payload);
        CollectContinues(w, h, entry.Insert(h.fragment, payload).value, config, now);
      }
    }
  }

  // ---------------------------------------------------------------- steps

  /** The flow under way goes on. */
  ghost predicate GoesOn(s: Server, s': Server) {
    s'.initialized && s'.flows == s.flows && Continues(s.window, s'.window)
  }

  /** The flow under way is closed as it stands. */
  ghost predicate Ends(s: Server, s': Server, ending: Ending) {
    s'.flows == s.flows + [Flow(s.window, ending)]
  }

  /** The packet that ends the flow, if this is one. */
  ghost predicate ConfirmsRestart(s: Server, e: Event) {
    e.PacketArrives? && Classify(s, e.connection, e.packet.header.sequence) == RestartsFlow
  }

  lemma OpenPacketGoesOnOrRestarts(s: Server, connection: nat, packet: Packet, config: Config, now: nat)
    requires Sound(s) && s.initialized && ValidHeader(packet.header) && packet.header.sequence <= MAX_MEDIA_SEQUENCE
    ensures var s' := OnOpenPacket(s, connection, packet, config, now);
      if Classify(s, connection, packet.header.sequence) == RestartsFlow then Ends(s, s', Restarted) else GoesOn(s, s')
  {
    if Classify(s, connection, packet.header.sequence) == InWindow {
      DeliverContinues(s.window, packet.header, packet.payload, config, now);
    }
  }

  /**
    In an open flow each step either carries it on, with its log and acceptances only
    growing, or ends it: with nothing pending when the timer fires, or at a confirmed
    restart. Nothing else ever discards anything.
  */
  lemma FlowGoesOnOrEnds(s: Server, e: Event, config: Config)
    requires Sound(s) && s.initialized && ValidEvent(e)
    ensures var s' := Step(s, e, config);
      if ConfirmsRestart(s, e) then Ends(s, s', Restarted)
      else if e.TimerFires? && !PendingState(s.window) then Ends(s, s', IdleReset) && !s'.initialized
      else GoesOn(s, s')
  {
    match e
    case PacketArrives(connection, packet, now) => OpenPacketGoesOnOrRestarts(s, connection, packet, config, now);
    case FecArrives(frame, now) =>
      WithFrameIsSettled(s.window, frame);
      RecoverAndAdvanceContinues(WithFrame(s.window, frame), config, now);
    case TimerFires(now) =>
      if PendingState(s.window) {
        AdvanceContinues(s.window, config, now);
      }
  }

  /** The log of flow k: finished, under way, or not begun. */
  ghost function LogOfFlow(s: Server, k: nat): seq<Delivery> {
    if k < |s.flows| then s.flows[k].last.log
    else if k == |s.flows| && s.initialized then s.window.log
    else []
  }

  lemma StepKeepsTheLogs(s: Server, e: Event, config: Config, k: nat)
    requires Sound(s) && ValidEvent(e)
    ensures LogOfFlow(s, k) <= LogOfFlow(Step(s, e, config), k)
  {
    if s.initialized {
      FlowGoesOnOrEnds(s, e, config);
    } else if e.PacketArrives? {
      var o := Open(s, e.connection, e.packet.header.sequence);
      OpenPacketGoesOnOrRestarts(o, e.connection, e.packet, config, e.now);
    }
  }

  lemma LastEventKeepsTheLogs(s: Server, es: seq<Event>, config: Config, k: nat)
    requires Sound(s) && ValidEvents(es) && es != []
    ensures ValidEvents(es[..|es| - 1])
    ensures LogOfFlow(Run(s, es[..|es| - 1], config), k) <= LogOfFlow(Run(s, es, config), k)
  {
    hide Sound, GoesOn, LogOfFlow, Step;
    StepKeepsTheLogs(Run(s, es[..|es| - 1], config), es[|es| - 1], config, k);
  }

  /** Over every run: what a flow has delivered at any moment is a prefix of what it has delivered later. */
  lemma {:induction false} DeliveriesAreFinal(s: Server, es: seq<Event>, config: Config, i: nat, k: nat)
    requires Sound(s) && ValidEvents(es) && i <= |es|
    ensures ValidEvents(es[..i])
    ensures LogOfFlow(Run(s, es[..i], config), k) <= LogOfFlow(Run(s, es, config), k)
    decreases |es|
  {
    hide Sound, LogOfFlow, Run;
    if i == |es| {
      assert es[..i] == es;
    } else {
      var n := |es| - 1;
      assert es[..n][..i] == es[..i];
      DeliveriesAreFinal(s, es[..n], config, i, k);
      LastEventKeepsTheLogs(s, es, config, k);
    }
  }
}
