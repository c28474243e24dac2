/**
  Payload integrity: when everything that arrives comes from a sender that gives
  each sequence number one payload and one fragmentation, everything forwarded is
  the sender's payload for that number, by whichever way it became complete.
*/
module Integrity {
  import opened ByteStrings
  import opened Sequences
  import opened Wire
  import opened Assembly
  import opened FecRecovery
  import opened Window
  import opened WindowLaws
  import opened Receiver

  /** What the sender meant by one sequence number, and how it cut it up. */
  datatype Source = Source(payload: Bytes, pieces: seq<Bytes>)

  ghost predicate Consistent(sent: map<nat, Source>) {
    forall s :: s in sent ==> Concat(sent[s].pieces) == sent[s].payload
  }

  ghost predicate Genuine(sent: map<nat, Source>, s: nat, p: Bytes) {
    s in sent && p == sent[s].payload
  }

  /** A whole packet, or the right piece of the right fragmentation. */
  ghost predicate GenuinePacket(sent: map<nat, Source>, h: PacketHeader, payload: Bytes) {
    && h.sequence in sent
    && if h.fragments == 1 then payload == sent[h.sequence].payload
       else h.fragments == |sent[h.sequence].pieces| && h.fragment < h.fragments
            && payload == sent[h.sequence].pieces[h.fragment]
  }

  ghost predicate MembersSent(sent: map<nat, Source>, frame: FecFrame) {
    forall i :: 0 <= i < |frame.payloadLengths| ==> Member(frame, i) in sent
  }

  ghost function GroupOf(sent: map<nat, Source>, frame: FecFrame): seq<Bytes>
    requires MembersSent(sent, frame)
  {
    seq(|frame.payloadLengths|, (i: nat) requires i < |frame.payloadLengths| => sent[Member(frame, i)].payload)
  }

  /** The frame is the parity of the payloads sent under its member numbers. */
  ghost predicate GenuineFrame(sent: map<nat, Source>, frame: FecFrame) {
    MembersSent(sent, frame) && FrameOf(frame, GroupOf(sent, frame))
  }

  ghost predicate GenuineEvent(sent: map<nat, Source>, e: Event) {
    match e
    case PacketArrives(_, packet, _) => GenuinePacket(sent, packet.header, packet.payload)
    case FecArrives(frame, _) => GenuineFrame(sent, frame)
    case TimerFires(_) => true
  }

  // ---------------------------------------------------------------- honest contents

  ghost predicate HonestStore(sent: map<nat, Source>, v: FecView) {
    && (forall s :: s in v.payloads ==> Genuine(sent, s, v.payloads[s]))
    && (forall base :: base in v.frames ==> GenuineFrame(sent, v.frames[base]))
  }

  ghost predicate HonestBuffer(sent: map<nat, Source>, buffered: map<nat, BufferedPacket>) {
    forall s :: s in buffered ==> Genuine(sent, s, buffered[s].payload)
  }

  ghost predicate HonestAssembly(sent: map<nat, Source>, s: nat, a: FragmentAssembly) {
    s in sent && SlotsFrom(a.slots, sent[s].pieces)
  }

  ghost predicate HonestFragments(sent: map<nat, Source>, fragments: map<nat, FragmentAssembly>) {
    forall s :: s in fragments ==> HonestAssembly(sent, s, fragments[s])
  }

  ghost predicate HonestLog(sent: map<nat, Source>, log: seq<Delivery>) {
    forall i :: 0 <= i < |log| && log[i].Forwarded? ==> Genuine(sent, log[i].sequence, log[i].payload)
  }

  ghost predicate Honest(sent: map<nat, Source>, w: Window) {
    HonestStore(sent, w.fec) && HonestBuffer(sent, w.buffered) && HonestFragments(sent, w.fragments)
      && HonestLog(sent, w.log)
  }

  lemma EmptyWindowIsHonest(sent: map<nat, Source>, start: nat, repairs: seq<RepairRequest>)
    ensures Honest(sent, EmptyWindow(start, repairs))
  {
  }

  // ---------------------------------------------------------------- the window's moves

  lemma {:induction false} EnforcedPayloadsAreOld(v: FecView)
    ensures SubMap(EnforcePayloadLimit(v).payloads, v.payloads)
    decreases |v.payloadOrder|
  {
    if |v.payloads| > FEC_PAYLOAD_TRACK_LIMIT && v.payloadOrder != [] {
      EnforcedPayloadsAreOld(v.(payloads := v.payloads - {v.payloadOrder[0]}, payloadOrder := v.payloadOrder[1..]));
    }
  }

  lemma RememberingStaysHonest(sent: map<nat, Source>, v: FecView, s: nat, p: Bytes)
    requires HonestStore(sent, v) && Genuine(sent, s, p)
    ensures HonestStore(sent, InsertPayload(v, s, p))
  {
    InsertPayloadKeepsFrames(v, s, p);
    EnforcedPayloadsAreOld(v.(payloads := v.payloads[s := p], payloadOrder := v.payloadOrder + [s]));
  }

  lemma ForwardHeadStaysHonest(sent: map<nat, Source>, w: Window, p: Bytes)
    requires Honest(sent, w) && Genuine(sent, w.nextSeq, p)
    ensures Honest(sent, ForwardHead(w, p))
  {
  }

  lemma DrainOneStaysHonest(sent: map<nat, Source>, w: Window)
    requires Honest(sent, w) && w.nextSeq in w.buffered
    ensures Honest(sent, DrainOne(w))
  {
    var p := w.buffered[w.nextSeq].payload;
    RememberingStaysHonest(sent, w.fec, w.nextSeq, p);
    ForwardHeadStaysHonest(sent, w.(buffered := w.buffered - {w.nextSeq}, fec := InsertPayload(w.fec, w.nextSeq, p)),
      p);
  }

  lemma {:induction false} DrainStaysHonest(sent: map<nat, Source>, w: Window)
    requires Honest(sent, w)
    ensures Honest(sent, Drain(w))
    decreases |w.buffered|
  {
    if w.nextSeq in w.buffered {
      DrainOneStaysHonest(sent, w);
      DrainStaysHonest(sent, DrainOne(w));
    }
  }

  lemma AcceptStaysHonest(sent: map<nat, Source>, w: Window, s: nat, p: Bytes, now: nat)
    requires Honest(sent, w) && Genuine(sent, s, p)
    ensures Honest(sent, Accept(w, s, p, now))
  {
    RememberingStaysHonest(sent, w.fec, s, p);
    if s == w.nextSeq {
      ForwardHeadStaysHonest(sent, Note(w, s, p), p);
      DrainStaysHonest(sent, ForwardHead(Note(w, s, p), p));
    }
  }

  ghost predicate GenuineBatch(sent: map<nat, Source>, batch: seq<(nat, Bytes)>) {
    forall i :: 0 <= i < |batch| ==> Genuine(sent, batch[i].0, batch[i].1)
  }

  lemma {:induction false} AcceptAllStaysHonest(sent: map<nat, Source>, w: Window, batch: seq<(nat, Bytes)>, now: nat)
    requires Honest(sent, w) && GenuineBatch(sent, batch)
    ensures Honest(sent, AcceptAll(w, batch, now).0)
  {
    if batch != [] {
      var n := |batch| - 1;
      AcceptAllStaysHonest(sent, w, batch[..n], now);
      var w' := AcceptAll(w, batch[..n], now).0;
      AcceptStaysHonest(sent, w'.(fragments := w'.fragments - {batch[n].0}), batch[n].0, batch[n].1, now);
    }
  }

  /** What parity rebuilds from honest contents is what was sent. */
  lemma RecoveredAreGenuine(sent: map<nat, Source>, v: FecView, nextSeq: nat, buffered: map<nat, BufferedPacket>)
    requires HonestStore(sent, v) && HonestBuffer(sent, buffered)
    ensures GenuineBatch(sent, RecoverReady(v, nextSeq, buffered).1)
  {
    var bases := SortedKeys(v.frames.Keys);
    var batch := Recovered(v, nextSeq, buffered, bases);
    forall i | 0 <= i < |batch|
      ensures Genuine(sent, batch[i].0, batch[i].1)
    {
      RecoveredComesFromAFrame(v, nextSeq, buffered, bases, i);
      var base :| base in v.frames && Yield(Examine(v.frames[base], v.payloads, buffered), nextSeq) == [batch[i]];
      YieldIsGenuine(sent, v, buffered, v.frames[base], nextSeq);
    }
  }

  lemma YieldIsGenuine(sent: map<nat, Source>, v: FecView, buffered: map<nat, BufferedPacket>, frame: FecFrame,
                       nextSeq: nat)
    requires HonestStore(sent, v) && HonestBuffer(sent, buffered) && GenuineFrame(sent, frame)
    ensures var y := Yield(Examine(frame, v.payloads, buffered), nextSeq);
      y != [] ==> Genuine(sent, y[0].0, y[0].1)
  {
    ExamineIsRight(frame, GroupOf(sent, frame), v.payloads, buffered);
  }

  lemma {:induction false} RecoverFecStaysHonest(sent: map<nat, Source>, w: Window, now: nat)
    requires Honest(sent, w)
    ensures Honest(sent, RecoverFec(w, now))
    decreases |w.fec.frames|
  {
    RecoveredAreGenuine(sent, w.fec, w.nextSeq, w.buffered);
    var (w', recovered) := Peel(w);
    AcceptAllStaysHonest(sent, w', recovered, now);
    var (w'', any) := AcceptAll(w', recovered, now);
    if recovered != [] && any {
      PeelingShrinks(w, now);
      RecoverFecStaysHonest(sent, w'', now);
    }
  }

  lemma SkipHeadStaysHonest(sent: map<nat, Source>, w: Window, reason: SkipReason)
    requires Honest(sent, w)
    ensures Honest(sent, SkipHead(w, reason))
  {
  }

  lemma DropStaysHonest(sent: map<nat, Source>, w: Window)
    requires Honest(sent, w)
    ensures Honest(sent, DropAssembly(w))
  {
    SkipHeadStaysHonest(sent, w.(fragments := w.fragments - {w.nextSeq}, seen := w.seen - {w.nextSeq}),
      FragmentIncomplete);
  }

  lemma {:induction false} ExpireStaysHonest(sent: map<nat, Source>, w: Window, delay: nat, now: nat)
    requires Ahead(w) && Honest(sent, w)
    ensures Honest(sent, Expire(w, delay, now))
    decreases |w.fragments|, MAX_MEDIA_SEQUENCE - w.nextSeq
  {
    match HeadAction(w, delay, now)
    case Stop =>
    case GiveUp =>
      DropKeepsAhead(w);
      DropStaysHonest(sent, w);
      ExpireStaysHonest(sent, DropAssembly(w), delay, now);
    case Skip =>
      SkipKeepsAhead(w, delay, now);
      SkipHeadStaysHonest(sent, w, NeverReceived);
      ExpireStaysHonest(sent, SkipHead(w, NeverReceived), delay, now);
  }

  lemma AdvanceFromStaysHonest(sent: map<nat, Source>, w: Window, config: Config, now: nat)
    requires Good(w) && Honest(sent, w)
    ensures Honest(sent, AdvanceFrom(w, config, now))
  {
    ExpireStaysHonest(sent, w, config.maxReorderDelay, now);
    DrainStaysHonest(sent, Expire(w, config.maxReorderDelay, now));
  }

  lemma AskingStaysHonest(sent: map<nat, Source>, w: Window, config: Config, now: nat)
    requires Good(w) && Honest(sent, w)
    ensures Good(AskRepairs(w, config, now)) && Honest(sent, AskRepairs(w, config, now))
  {
    if config.repairInterval.Some? {
      RequestRepairsKeepsGood(w, config.repairInterval.value, now);
      RequestRepairsIsSound(w, config.repairInterval.value, now);
    }
  }

  lemma AdvanceStaysHonest(sent: map<nat, Source>, w: Window, config: Config, now: nat)
    requires Settled(w) && Honest(sent, w)
    ensures Honest(sent, Advance(w, config, now))
  {
    RecoverFecKeepsGood(w, now);
    RecoverFecStaysHonest(sent, w, now);
    AskingStaysHonest(sent, RecoverFec(w, now), config, now);
    AdvanceFromStaysHonest(sent, AskRepairs(RecoverFec(w, now), config, now), config, now);
  }

  lemma RecoverAndAdvanceStaysHonest(sent: map<nat, Source>, w: Window, config: Config, now: nat)
    requires Settled(w) && Honest(sent, w)
    ensures Honest(sent, RecoverAndAdvance(w, config, now))
  {
    RecoverFecKeepsGood(w, now);
    RecoverFecStaysHonest(sent, w, now);
    AdvanceStaysHonest(sent, RecoverFec(w, now), config, now);
  }

  lemma CompleteStaysHonest(sent: map<nat, Source>, w: Window, s: nat, p: Bytes, config: Config, now: nat)
    requires Settled(w) && Acceptable(w, s) && Honest(sent, w) && Genuine(sent, s, p)
    ensures Honest(sent, Complete(w, s, p, config, now))
  {
    AcceptKeepsGood(w, s, p, now);
    AcceptStaysHonest(sent, w, s, p, now);
    RecoverAndAdvanceStaysHonest(sent, Accept(w, s, p, now), config, now);
  }

  /** A completed honest assembly concatenates to the payload that was sent. */
  lemma CollectStaysHonest(sent: map<nat, Source>, w: Window, h: PacketHeader, a: FragmentAssembly, config: Config,
                           now: nat)
    requires Settled(w) && w.nextSeq <= h.sequence <= MAX_MEDIA_SEQUENCE && h.sequence !in w.buffered
    requires a.Valid() && a.received >= 1
    requires Consistent(sent) && Honest(sent, w) && HonestAssembly(sent, h.sequence, a)
    ensures Honest(sent, Collect(w, h, a, config, now))
  {
    FilledIsAll(a.slots);
    if a.IsComplete() {
      CompleteIsWhole(a.slots, sent[h.sequence].pieces);
      DiscardAssemblyKeepsGood(w, h.sequence);
      CompleteStaysHonest(sent, w.(fragments := w.fragments - {h.sequence}), h.sequence, Concat(Values(a.slots)),
        config, now);
    } else {
      CollectKeepsGood(w, h.sequence, a);
      AdvanceStaysHonest(sent, w.(fragments := w.fragments[h.sequence := a]), config, now);
    }
  }

  lemma DeliverStaysHonest(sent: map<nat, Source>, w: Window, h: PacketHeader, payload: Bytes, config: Config, now: nat)
    requires Settled(w) && ValidHeader(h) && w.nextSeq <= h.sequence <= MAX_MEDIA_SEQUENCE
    requires Consistent(sent) && Honest(sent, w) && GenuinePacket(sent, h, payload)
    ensures Honest(sent, Deliver(w, h, payload, config, now))
  {
    hide Deliver, Settled, Complete, Collect, Acceptable, Honest, Consistent;
    if h.sequence in w.buffered {
      DeliverIgnores(w, h, payload, config, now);
    } else if h.fragments == 1 {
      DeliverIsComplete(w, h, payload, config, now);
      DroppingStaysHonest(sent, w, h.sequence);
      CompleteStaysHonest(sent, w.(fragments := w.fragments - {h.sequence}), h.sequence, payload, config, now);
    } else {
      DeliverIsCollect(w, h, payload, config, now);
      var entry := EntryFor(w, h, now);
      if |entry.slots| == h.fragments && entry.Insert(h.fragment, payload).Some? {
        EntryIsHonest(sent, w, h, payload, now);
        CollectStaysHonest(sent, w, h, entry.Insert(h.fragment, payload).value, config, now);
      }
    }
  }

  lemma DroppingStaysHonest(sent: map<nat, Source>, w: Window, s: nat)
    requires Honest(sent, w)
    ensures Honest(sent, w.(fragments := w.fragments - {s}))
  {
  }

  lemma UpdatedIsHonest(sent: map<nat, Source>, w: Window, s: nat, a: FragmentAssembly)
    requires Honest(sent, w) && HonestAssembly(sent, s, a)
    ensures Honest(sent, w.(fragments := w.fragments[s := a]))
  {
  }

  lemma EntryIsHonest(sent: map<nat, Source>, w: Window, h: PacketHeader, payload: Bytes, now: nat)
    requires Honest(sent, w) && GenuinePacket(sent, h, payload) && h.fragments != 1
    requires |EntryFor(w, h, now).slots| == h.fragments && EntryFor(w, h, now).Insert(h.fragment, payload).Some?
    ensures HonestAssembly(sent, h.sequence, EntryFor(w, h, now).Insert(h.fragment, payload).value)
  {
  }

  // ---------------------------------------------------------------- steps and runs

  /** The current window, and every flow finished since flow `first`, holds only what was sent. */
  ghost predicate HonestSince(sent: map<nat, Source>, s: Server, first: nat) {
    && Honest(sent, s.window)
    && forall i :: first <= i < |s.flows| ==> HonestLog(sent, s.flows[i].last.log)
  }

  lemma TimerStaysHonest(sent: map<nat, Source>, first: nat, s: Server, config: Config, now: nat)
    requires Sound(s) && HonestSince(sent, s, first)
    ensures HonestSince(sent, OnTimer(s, config, now), first)
  {
    hide Advance, Good, HonestStore, HonestBuffer;
    EmptyWindowIsHonest(sent, 0, s.window.repairs);
    if s.initialized && PendingState(s.window) {
      AdvanceStaysHonest(sent, s.window, config, now);
    }
  }

  lemma {:induction false} EnforcedFramesAreOld(v: FecView)
    ensures SubMap(EnforceFrameLimit(v).frames, v.frames) && EnforceFrameLimit(v).payloads == v.payloads
    decreases |v.frameOrder|
  {
    if |v.frames| > FEC_FRAME_TRACK_LIMIT && v.frameOrder != [] {
      EnforcedFramesAreOld(v.(frames := v.frames - {v.frameOrder[0]}, frameOrder := v.frameOrder[1..]));
    }
  }

  lemma InsertFrameStaysHonest(sent: map<nat, Source>, v: FecView, frame: FecFrame)
    requires HonestStore(sent, v) && GenuineFrame(sent, frame)
    ensures HonestStore(sent, InsertFrame(v, frame))
  {
    var base := frame.baseSequence;
    EnforcedFramesAreOld(v.(frames := v.frames[base := frame],
                            frameOrder := if base in v.frames then v.frameOrder else v.frameOrder + [base]));
  }

  lemma FecStaysHonest(sent: map<nat, Source>, first: nat, s: Server, frame: FecFrame, config: Config, now: nat)
    requires Sound(s) && ValidFrame(frame) && HonestSince(sent, s, first) && GenuineFrame(sent, frame)
    ensures HonestSince(sent, OnFec(s, frame, config, now), first)
  {
    WithFrameIsSettled(s.window, frame);
    InsertFrameStaysHonest(sent, s.window.fec, frame);
    if s.initialized {
      RecoverAndAdvanceStaysHonest(sent, WithFrame(s.window, frame), config, now);
    }
  }

  /**
    A confirmed restart carries nothing over: the new flow is honest for whichever
    sender its first packet is genuine for, whatever came before.
  */
  lemma RestartForgets(sent: map<nat, Source>, s: Server, connection: nat, packet: Packet, config: Config, now: nat)
    requires Sound(s) && s.initialized && ValidHeader(packet.header) && packet.header.sequence <= MAX_MEDIA_SEQUENCE
    requires Consistent(sent) && GenuinePacket(sent, packet.header, packet.payload)
    ensures HonestSince(sent, Reopen(s, connection, packet, config, now), |s.flows| + 1)
  {
    var h := packet.header;
    EmptyWindowIsGood(h.sequence, s.window.repairs);
    EmptyWindowIsHonest(sent, h.sequence, s.window.repairs);
    DeliverStaysHonest(sent, EmptyWindow(h.sequence, s.window.repairs), h, packet.payload, config, now);
  }

  lemma ReopenStaysHonest(sent: map<nat, Source>, first: nat, s: Server, connection: nat, packet: Packet,
                          config: Config, now: nat)
    requires Sound(s) && s.initialized && ValidHeader(packet.header) && packet.header.sequence <= MAX_MEDIA_SEQUENCE
    requires Consistent(sent) && HonestSince(sent, s, first) && GenuinePacket(sent, packet.header, packet.payload)
    ensures HonestSince(sent, Reopen(s, connection, packet, config, now), first)
  {
    RestartForgets(sent, s, connection, packet, config, now);
    assert Reopen(s, connection, packet, config, now).flows == s.flows + [Flow(s.window, Restarted)];
  }

  lemma OpenPacketStaysHonest(sent: map<nat, Source>, first: nat, s: Server, connection: nat, packet: Packet,
                              config: Config, now: nat)
    requires Sound(s) && s.initialized && ValidHeader(packet.header) && packet.header.sequence <= MAX_MEDIA_SEQUENCE
    requires Consistent(sent) && HonestSince(sent, s, first) && GenuinePacket(sent, packet.header, packet.payload)
    ensures HonestSince(sent, OnOpenPacket(s, connection, packet, config, now), first)
  {
    var h := packet.header;
    match Classify(s, connection, h.sequence)
    case InWindow => DeliverStaysHonest(sent, s.window, h, packet.payload, config, now);
    case RestartsFlow =>
      ReopenStaysHonest(sent, first, Watch(s, connection, h.sequence), connection, packet, config, now);
    case LateAfterSkip =>
    case DuplicateBelow =>
  }

  lemma OpenStaysHonest(sent: map<nat, Source>, first: nat, s: Server, connection: nat, sequence: nat)
    requires Sound(s) && sequence <= MAX_MEDIA_SEQUENCE && HonestSince(sent, s, first)
    ensures HonestSince(sent, Open(s, connection, sequence), first)
  {
  }

  lemma PacketStaysHonest(sent: map<nat, Source>, first: nat, s: Server, connection: nat, packet: Packet,
                          config: Config, now: nat)
    requires Sound(s) && ValidHeader(packet.header) && packet.header.sequence <= MAX_MEDIA_SEQUENCE
    requires Consistent(sent) && HonestSince(sent, s, first) && GenuinePacket(sent, packet.header, packet.payload)
    ensures HonestSince(sent, OnPacket(s, connection, packet, config, now), first)
  {
    OpenStaysHonest(sent, first, s, connection, packet.header.sequence);
    OpenPacketStaysHonest(sent, first, Open(s, connection, packet.header.sequence), connection, packet, config, now);
  }

  lemma StepStaysHonest(sent: map<nat, Source>, first: nat, s: Server, e: Event, config: Config)
    requires Sound(s) && ValidEvent(e) && Consistent(sent) && HonestSince(sent, s, first) && GenuineEvent(sent, e)
    ensures HonestSince(sent, Step(s, e, config), first)
  {
    match e
    case PacketArrives(connection, packet, now) => PacketStaysHonest(sent, first, s, connection, packet, config, now);
    case FecArrives(frame, now) => FecStaysHonest(sent, first, s, frame, config, now);
    case TimerFires(now) => TimerStaysHonest(sent, first, s, config, now);
  }

  /**
    Integrity over every run: under any loss, repetition and reordering of genuine
    arrivals, in every flow, only the sender's payload for a number is forwarded
    under that number.
  */
  lemma {:induction false} RunStaysHonest(sent: map<nat, Source>, first: nat, s: Server, es: seq<Event>, config: Config)
    requires Sound(s) && ValidEvents(es) && Consistent(sent) && HonestSince(sent, s, first)
    requires forall i :: 0 <= i < |es| ==> GenuineEvent(sent, es[i])
    ensures HonestSince(sent, Run(s, es, config), first)
  {
    if es != [] {
      RunStaysHonest(sent, first, s, es[..|es| - 1], config);
      StepStaysHonest(sent, first, Run(s, es[..|es| - 1], config), es[|es| - 1], config);
    }
  }

  /**
    A flow starts clean: after an idle reset the window carries nothing over, so the
    next flow's integrity may be judged against a different sender altogether.
  */
  lemma IdleResetForgets(sent: map<nat, Source>, s: Server, config: Config, now: nat)
    requires Sound(s) && s.initialized && !PendingState(s.window)
    ensures HonestSince(sent, OnTimer(s, config, now), |s.flows| + 1)
  {
    EmptyWindowIsHonest(sent, 0, s.window.repairs);
  }

  // ---------------------------------------------------------------- starting afresh

  lemma {:induction false} RunAppend(s: Server, before: seq<Event>, after: seq<Event>, config: Config)
    requires Sound(s) && ValidEvents(before) && ValidEvents(after)
    ensures ValidEvents(before + after)
    ensures Run(s, before + after, config) == Run(Run(s, before, config), after, config)
  {
    hide Step, Sound;
    if after == [] {
      assert before + after == before;
    } else {
      var n := |after| - 1;
      RunAppend(s, before, after[..n], config);
      assert (before + after)[..|before| + n] == before + after[..n];
    }
  }

  lemma RunThenStep(s: Server, before: seq<Event>, e: Event, config: Config)
    requires Sound(s) && ValidEvents(before) && ValidEvent(e)
    ensures ValidEvents(before + [e]) && Run(s, before + [e], config) == Step(Run(s, before, config), e, config)
  {
    hide Step, Sound;
    assert (before + [e])[..|before|] == before;
  }

  /** The event ends the flow under way: a timeout with nothing pending, or a confirmed restart. */
  ghost predicate EndsTheFlow(s: Server, e: Event)
    requires ValidEvent(e)
  {
    s.initialized &&
    match e
    case PacketArrives(connection, packet, _) => Classify(s, connection, packet.header.sequence) == RestartsFlow
    case FecArrives(_, _) => false
    case TimerFires(_) => !PendingState(s.window)
  }

  lemma EndingForgets(sent: map<nat, Source>, s: Server, e: Event, config: Config)
    requires Sound(s) && ValidEvent(e) && EndsTheFlow(s, e) && Consistent(sent) && GenuineEvent(sent, e)
    ensures HonestSince(sent, Step(s, e, config), |s.flows| + 1)
  {
    match e
    case PacketArrives(connection, packet, now) =>
      RestartForgets(sent, Watch(s, connection, packet.header.sequence), connection, packet, config, now);
    case TimerFires(now) => IdleResetForgets(sent, s, config, now);
  }

  /**
    After any run whatever, let a flow end, and let all that arrives from then on, the
    packet that ended it included, come from a sender of its own. Then every later flow,
    and the one under way, forwards only that sender's payloads, whatever came before.
  */
  lemma LaterFlowsAreHonest(sent: map<nat, Source>, s: Server, before: seq<Event>, e: Event, after: seq<Event>,
                            config: Config)
    requires Sound(s) && ValidEvents(before) && ValidEvent(e) && ValidEvents(after) && Consistent(sent)
    requires EndsTheFlow(Run(s, before, config), e) && GenuineEvent(sent, e)
    requires forall i :: 0 <= i < |after| ==> GenuineEvent(sent, after[i])
    ensures ValidEvents(before + [e] + after)
    ensures HonestSince(sent, Run(s, before + [e] + after, config), |Run(s, before, config).flows| + 1)
  {
    hide Step, Run, Sound, HonestSince, EndsTheFlow;
    var ended := Run(s, before, config);
    EndingForgets(sent, ended, e, config);
    RunThenStep(s, before, e, config);
    RunAppend(s, before + [e], after, config);
    RunStaysHonest(sent, |ended.flows| + 1, Step(ended, e, config), after, config);
  }
}
