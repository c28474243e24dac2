/**
  Where one flow ends and the next begins, told from the events alone: which connections
  have been heard in the flow, what the restart detector has been shown, when a flow goes
  idle, and that the packet which opens a flow is not lost.
*/
module FlowBoundaries {
  import opened ByteStrings
  import opened Sequences
  import opened Wire
  import opened FecRecovery
  import opened Window
  import opened WindowLaws
  import opened Receiver
  import opened RunLaws
  import FlowHistory

  // ---------------------------------------------------------------- who is heard

  /** The packet is taken into the flow under way, or opens one. */
  predicate Enters(s: Server, sequence: nat, connection: nat) {
    !s.initialized || sequence >= s.window.nextSeq || Classify(s, connection, sequence) == RestartsFlow
  }

  /** Event i is a packet from this connection that entered a flow after `flows` others had ended. */
  ghost predicate HeardAt(es: seq<Event>, config: Config, i: nat, connection: nat, flows: nat)
    requires Sound(START) && ValidEvents(es) && i < |es|
  {
    && es[i].PacketArrives? && es[i].connection == connection
    && Enters(Run(START, es[..i], config), es[i].packet.header.sequence, connection)
    && |Run(START, es[..i + 1], config).flows| == flows
  }

  /** The connection has been heard in the flow that is under way after all the events. */
  ghost predicate Heard(es: seq<Event>, config: Config, connection: nat, flows: nat)
    requires Sound(START) && ValidEvents(es)
  {
    exists i :: 0 <= i < |es| && HeardAt(es, config, i, connection, flows)
  }

  /** What one step makes of the set of connections, and of the number of flows. */
  lemma StepHears(s: Server, e: Event, config: Config, connection: nat)
    requires Sound(s) && ValidEvent(e)
    ensures var s' := Step(s, e, config);
      && |s.flows| <= |s'.flows|
      && (s'.initialized ==>
          (connection in s'.connections <==>
           || (e.PacketArrives? && e.connection == connection && Enters(s, e.packet.header.sequence, connection))
           || (s.initialized && |s'.flows| == |s.flows| && connection in s.connections)))
      && (s'.initialized && !s.initialized ==> |s'.flows| == |s.flows| && e.PacketArrives?)
      && (s'.initialized && |s'.flows| > |s.flows| ==> e.PacketArrives?)
  {
    hide Good, HeadClear, Deliver, Observe, RecoverAndAdvance, Advance, WithFrame, PendingState;
  }

  lemma {:induction false} FewerFlowsBefore(es: seq<Event>, config: Config, i: nat)
    requires Sound(START) && ValidEvents(es) && i <= |es|
    ensures |Run(START, es[..i], config).flows| <= |Run(START, es, config).flows|
    decreases |es|
  {
    hide Sound, Step;
    if i == |es| {
      assert es[..i] == es;
    } else {
      var n := |es| - 1;
      assert es[..n][..i] == es[..i];
      FewerFlowsBefore(es[..n], config, i);
      StepHears(Run(START, es[..n], config), es[n], config, 0);
    }
  }

  lemma HeardInPrefix(es: seq<Event>, config: Config, i: nat, connection: nat, flows: nat)
    requires Sound(START) && ValidEvents(es) && i < |es| - 1
    ensures HeardAt(es, config, i, connection, flows) <==> HeardAt(es[..|es| - 1], config, i, connection, flows)
  {
    hide Sound, Run, Enters;
    var front := es[..|es| - 1];
    assert front[..i] == es[..i] && front[..i + 1] == es[..i + 1];
  }

  lemma HeardByPrefix(es: seq<Event>, config: Config, connection: nat, flows: nat)
    requires Sound(START) && ValidEvents(es) && es != []
    ensures Heard(es, config, connection, flows) <==>
      Heard(es[..|es| - 1], config, connection, flows) || HeardAt(es, config, |es| - 1, connection, flows)
  {
    hide Sound, Run, HeardAt;
    var n := |es| - 1;
    forall i | 0 <= i < n
      ensures HeardAt(es, config, i, connection, flows) <==> HeardAt(es[..n], config, i, connection, flows)
    {
      HeardInPrefix(es, config, i, connection, flows);
    }
  }

  lemma HeardLast(es: seq<Event>, config: Config, connection: nat, flows: nat)
    requires Sound(START) && ValidEvents(es) && es != []
    ensures var n := |es| - 1;
      HeardAt(es, config, n, connection, flows) <==>
        && es[n].PacketArrives? && es[n].connection == connection
        && Enters(Run(START, es[..n], config), es[n].packet.header.sequence, connection)
        && |Run(START, es, config).flows| == flows
  {
    hide Sound, Run, Enters;
    assert es[..|es|] == es;
  }

  lemma NotHeardYet(es: seq<Event>, config: Config, connection: nat, flows: nat)
    requires Sound(START) && ValidEvents(es) && flows > |Run(START, es, config).flows|
    ensures !Heard(es, config, connection, flows)
  {
    hide Sound, Run, Enters;
    forall i | 0 <= i < |es|
      ensures !HeardAt(es, config, i, connection, flows)
    {
      FewerFlowsBefore(es, config, i + 1);
    }
  }

  /**
    After every run: the connections that cannot restart the flow under way are exactly those
    of which a packet has entered it, whether by opening it, at or past the head, or by the
    restart that began it.
  */
  lemma {:induction false} ConnectionsAreThoseHeard(es: seq<Event>, config: Config, connection: nat)
    requires Sound(START) && ValidEvents(es)
    ensures var s := Run(START, es, config);
      if s.initialized then connection in s.connections <==> Heard(es, config, connection, |s.flows|)
      else !Heard(es, config, connection, |s.flows|)
  {
    hide Sound, Step, Enters, HeardAt, Heard;
    if es == [] {
      NothingHeard(config, connection);
    } else {
      var n := |es| - 1;
      var before, after := Run(START, es[..n], config), Run(START, es, config);
      ConnectionsAreThoseHeard(es[..n], config, connection);
      StepHears(before, es[n], config, connection);
      StepOpens(before, es[n], config, connection);
      HeardByPrefix(es, config, connection, |after.flows|);
      HeardLast(es, config, connection, |after.flows|);
      if |after.flows| > |before.flows| {
        NotHeardYet(es[..n], config, connection, |after.flows|);
      }
    }
  }

  lemma NothingHeard(config: Config, connection: nat)
    requires Sound(START)
    ensures ValidEvents([]) && !Run(START, [], config).initialized
    ensures !Heard([], config, connection, |Run(START, [], config).flows|)
  {
  }

  lemma StepOpens(s: Server, e: Event, config: Config, connection: nat)
    requires Sound(s) && ValidEvent(e)
    ensures var s' := Step(s, e, config);
      !s'.initialized ==>
        && !e.PacketArrives?
        && (s.initialized ==> |s'.flows| > |s.flows|) && (!s.initialized ==> |s'.flows| == |s.flows|)
  {
    hide Good, HeadClear, Deliver, Observe, RecoverAndAdvance, Advance, WithFrame, PendingState;
  }

  // ---------------------------------------------------------------- what the restart detector is shown

  /**
    What an event shows the detector: nothing, a packet far behind from a connection not heard, or
    a reason to start over.
  */
  ghost function Shown(s: Server, e: Event): seq<Observation> {
    match e
    case PacketArrives(connection, packet, _) =>
      var q := packet.header.sequence;
      if !s.initialized || q >= s.window.nextSeq then [Cleared]
      else if connection in s.connections then []
      else if q + 4096 <= s.window.nextSeq then [Far(q)]
      else [Cleared]
    case FecArrives(_, _) => []
    case TimerFires(_) =>
      if s.initialized && s.window.buffered == map[] && s.window.fragments == map[] then [Cleared] else []
  }

  lemma NothingSeenUnlessPending(w: Window)
    requires Good(w)
    ensures PendingState(w) <==> w.buffered != map[] || w.fragments != map[]
  {
    assert w.buffered.Keys == {} <==> w.buffered == map[];
  }

  lemma PacketShows(s: Server, connection: nat, packet: Packet, config: Config, now: nat)
    requires Sound(s) && s.initialized && ValidHeader(packet.header) && packet.header.sequence <= MAX_MEDIA_SEQUENCE
    ensures OnOpenPacket(s, connection, packet, config, now).history ==
            s.history + Shown(s, PacketArrives(connection, packet, now))
  {
    hide Good, HeadClear, Deliver, Observe, Blank, ValidHeader;
    assert s.history + [] == s.history;
  }

  lemma FirstPacketShows(s: Server, connection: nat, packet: Packet, config: Config, now: nat)
    requires Sound(s) && !s.initialized && ValidHeader(packet.header) && packet.header.sequence <= MAX_MEDIA_SEQUENCE
    ensures var e, first := PacketArrives(connection, packet, now), Open(s, connection, packet.header.sequence);
      Shown(first, e) == Shown(s, e) && first.history == s.history
  {
    hide Good, HeadClear;
  }

  lemma TimerShows(s: Server, config: Config, now: nat)
    requires Sound(s)
    ensures OnTimer(s, config, now).history == s.history + Shown(s, TimerFires(now))
  {
    NothingSeenUnlessPending(s.window);
    hide Good, HeadClear, Advance, PendingState, Blank;
    assert s.history + [] == s.history;
  }

  lemma FrameShows(s: Server, frame: FecFrame, config: Config, now: nat)
    requires Sound(s) && ValidFrame(frame)
    ensures OnFec(s, frame, config, now).history == s.history + Shown(s, FecArrives(frame, now))
  {
    hide Good, HeadClear, RecoverAndAdvance, WithFrame, Blank, ValidFrame;
    assert s.history + [] == s.history;
  }

  lemma StepShows(s: Server, e: Event, config: Config)
    requires Sound(s) && ValidEvent(e)
    ensures Step(s, e, config).history == s.history + Shown(s, e)
  {
    hide Sound, OnOpenPacket, OnTimer, OnFec, Open, Shown;
    match e
    case PacketArrives(connection, packet, now) =>
      OpenKeepsFlow(s, connection, packet.header.sequence);
      PacketShows(Open(s, connection, packet.header.sequence), connection, packet, config, now);
      if !s.initialized {
        FirstPacketShows(s, connection, packet, config, now);
      }
    case FecArrives(frame, now) => FrameShows(s, frame, config, now);
    case TimerFires(now) => TimerShows(s, config, now);
  }

  lemma OpenKeepsFlow(s: Server, connection: nat, sequence: nat)
    requires Sound(s) && sequence <= MAX_MEDIA_SEQUENCE
    ensures s.initialized ==> Open(s, connection, sequence) == s
  {
    hide Good, HeadClear, Blank;
  }

  /** All that a run has shown the detector. */
  ghost function ShownBy(es: seq<Event>, config: Config): seq<Observation>
    requires Sound(START) && ValidEvents(es)
  {
    if es == [] then [] else
    ShownBy(es[..|es| - 1], config) + Shown(Run(START, es[..|es| - 1], config), es[|es| - 1])
  }

  lemma {:induction false} HistoryIsWhatWasShown(es: seq<Event>, config: Config)
    requires Sound(START) && ValidEvents(es)
    ensures Run(START, es, config).history == ShownBy(es, config)
  {
    hide Sound, Step, Shown;
    if es != [] {
      HistoryIsWhatWasShown(es[..|es| - 1], config);
      StepShows(Run(START, es[..|es| - 1], config), es[|es| - 1], config);
    } else {
      NothingHeard(config, 0);
    }
  }

  /**
    After every run: a packet behind the head restarts the flow exactly if no packet of its
    connection has entered the flow, it is 4096 or more behind, and it is the eighth or later
    in a row that the detector was shown, none cleared in between, with numbers that do not descend.
  */
  lemma RestartsExactlyWhen(es: seq<Event>, config: Config, connection: nat, sequence: nat)
    requires Sound(START) && ValidEvents(es)
    requires var s := Run(START, es, config); s.initialized && sequence < s.window.nextSeq
    ensures var s := Run(START, es, config);
      Classify(s, connection, sequence) == RestartsFlow <==>
        && !Heard(es, config, connection, |s.flows|)
        && sequence + 4096 <= s.window.nextSeq
        && FarRun(ShownBy(es, config) + [Far(sequence)], 8)
  {
    hide Step, Run, Heard, ShownBy, FarRun, Classify, Lawful;
    StartIsLawful();
    RunIsLawful(START, es, config);
    BelowWindowDecision(Run(START, es, config), connection, sequence);
    ConnectionsAreThoseHeard(es, config, connection);
    HistoryIsWhatWasShown(es, config);
  }

  // ---------------------------------------------------------------- idle

  /** A timeout ends the flow under way exactly if nothing is pending in it. */
  lemma TimeoutEndsTheFlowIff(s: Server, config: Config, now: nat)
    requires Sound(s) && s.initialized
    ensures var s' := Step(s, TimerFires(now), config);
      if s.window.buffered == map[] && s.window.fragments == map[] then
        && !s'.initialized && s'.flows == s.flows + [Flow(s.window, IdleReset)]
        && s'.window == EmptyWindow(0, s.window.repairs) && s'.connections == {}
      else s'.initialized && s'.flows == s.flows && s'.connections == s.connections
  {
    NothingSeenUnlessPending(s.window);
    hide Good, HeadClear, Advance, PendingState;
  }

  // ---------------------------------------------------------------- the packet that opens a flow

  lemma HeadIsMedia(w: Window)
    requires Settled(w)
    ensures w.nextSeq <= MAX_MEDIA_SEQUENCE && Acceptable(w.(fragments := w.fragments - {w.nextSeq}), w.nextSeq)
  {
  }

  /** Delivered whole, at the head: it comes out first. */
  lemma FirstOut(w: Window, h: PacketHeader, payload: Bytes, config: Config, now: nat)
    requires Settled(w) && ValidHeader(h) && h.sequence == w.nextSeq && h.fragments == 1
    ensures h.sequence <= MAX_MEDIA_SEQUENCE
    ensures var w' := Deliver(w, h, payload, config, now);
      |w.log| < |w'.log| && w'.log[|w.log|] == Forwarded(h.sequence, payload)
  {
    HeadIsMedia(w);
    hide Good, Deliver, Complete, Acceptable;
    DeliverIsComplete(w, h, payload, config, now);
    AcceptedFirst(w.(fragments := w.fragments - {h.sequence}), payload, config, now);
  }

  lemma AcceptedFirst(w: Window, payload: Bytes, config: Config, now: nat)
    requires Settled(w) && Acceptable(w, w.nextSeq)
    ensures var w' := Complete(w, w.nextSeq, payload, config, now);
      |w.log| < |w'.log| && w'.log[|w.log|] == Forwarded(w.nextSeq, payload)
  {
    AcceptKeepsGood(w, w.nextSeq, payload, now);
    hide Good, HeadClear, Drain, RecoverAndAdvance, Acceptable;
    var w1 := ForwardHead(Note(w, w.nextSeq, payload), payload);
    FlowHistory.DrainContinues(w1);
    var w2 := Accept(w, w.nextSeq, payload, now);
    FlowHistory.RecoverAndAdvanceContinues(w2, config, now);
    assert w1.log[|w.log|] == Forwarded(w.nextSeq, payload);
    assert w2.log[|w.log|] == Forwarded(w.nextSeq, payload);
  }

  lemma EmptyIsSettled(s: Server, sequence: nat)
    requires Sound(s) && sequence <= MAX_MEDIA_SEQUENCE
    ensures Settled(EmptyWindow(sequence, s.window.repairs))
  {
    EmptyWindowIsGood(sequence, s.window.repairs);
  }

  lemma FirstOfTheFlow(w: Window, h: PacketHeader, payload: Bytes, config: Config, now: nat)
    requires Settled(w) && ValidHeader(h) && h.sequence == w.nextSeq && h.fragments == 1 && w.log == []
    ensures h.sequence <= MAX_MEDIA_SEQUENCE
    ensures var w' := Deliver(w, h, payload, config, now);
      w'.start == w.start && w'.log != [] && w'.log[0] == Forwarded(h.sequence, payload)
  {
    HeadIsMedia(w);
    hide Settled, Deliver;
    FirstOut(w, h, payload, config, now);
    FlowHistory.DeliverContinues(w, h, payload, config, now);
  }

  lemma RestartDelivers(s: Server, connection: nat, packet: Packet, config: Config, now: nat)
    requires Sound(s) && s.initialized && ValidHeader(packet.header) && packet.header.sequence <= MAX_MEDIA_SEQUENCE
    requires Classify(s, connection, packet.header.sequence) == RestartsFlow
    ensures var w := EmptyWindow(packet.header.sequence, s.window.repairs);
      && Settled(w)
      && OnOpenPacket(s, connection, packet, config, now).window ==
         Deliver(w, packet.header, packet.payload, config, now)
  {
    EmptyIsSettled(s, packet.header.sequence);
    hide Good, HeadClear, Deliver, Observe, Blank, ValidHeader;
  }

  lemma OpeningDelivers(s: Server, connection: nat, packet: Packet, config: Config, now: nat)
    requires Sound(s) && !s.initialized && ValidHeader(packet.header) && packet.header.sequence <= MAX_MEDIA_SEQUENCE
    ensures var first := Open(s, connection, packet.header.sequence);
      && first.window.nextSeq == first.window.start == packet.header.sequence && first.window.log == []
      && OnOpenPacket(first, connection, packet, config, now).window ==
         Deliver(first.window, packet.header, packet.payload, config, now)
  {
    hide Good, HeadClear, Deliver, Observe, ValidHeader;
  }

  /** A whole packet that opens a flow, after a start, an idle reset or a restart, is the first to come out of it. */
  lemma OpeningPacketComesOut(s: Server, connection: nat, packet: Packet, config: Config, now: nat)
    requires Sound(s) && ValidEvent(PacketArrives(connection, packet, now)) && packet.header.fragments == 1
    requires !s.initialized || Classify(s, connection, packet.header.sequence) == RestartsFlow
    ensures var w := Step(s, PacketArrives(connection, packet, now), config).window;
      w.start == packet.header.sequence && w.log != [] && w.log[0] == Forwarded(packet.header.sequence, packet.payload)
  {
    hide Settled, Blank, Deliver, Open, OnOpenPacket, Classify;
    var h := packet.header;
    OpenKeepsFlow(s, connection, h.sequence);
    if s.initialized {
      RestartDelivers(s, connection, packet, config, now);
      FirstOfTheFlow(EmptyWindow(h.sequence, s.window.repairs), h, packet.payload, config, now);
    } else {
      OpeningDelivers(s, connection, packet, config, now);
      FirstOfTheFlow(Open(s, connection, h.sequence).window, h, packet.payload, config, now);
    }
  }

  /** A parity frame that comes while no flow is under way is there when one begins. */
  lemma EarlyParityIsKept(s: Server, frame: FecFrame, config: Config, now: nat, connection: nat, sequence: nat)
    requires Sound(s) && !s.initialized && ValidFrame(frame) && sequence <= MAX_MEDIA_SEQUENCE
    ensures var s' := Step(s, FecArrives(frame, now), config);
      && Open(s', connection, sequence).window.fec.frames ==
         InsertFrame(s.window.fec, frame).frames
  {
    hide Good, HeadClear, InsertFrame, ValidFrame;
  }
}
