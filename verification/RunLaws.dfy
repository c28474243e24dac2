/**
  What holds after every run of the receiver, whatever arrives in whatever order:
  the log of each flow, conservation, the parity store's fixpoint, and how packets
  below the window are told apart.
*/
module RunLaws {
  import opened ByteStrings
  import opened Sequences
  import opened Wire
  import opened Assembly
  import opened FecRecovery
  import opened Window
  import opened WindowLaws
  import opened Receiver
  import opened LateTable

  // ---------------------------------------------------------------- parity fixpoint

  lemma {:induction false} NothingAcceptedNothingChanged(w: Window, batch: seq<(nat, Bytes)>, now: nat)
    requires !AcceptAll(w, batch, now).1
    ensures AcceptAll(w, batch, now).0 == w
  {
    if batch != [] {
      NothingAcceptedNothingChanged(w, batch[..|batch| - 1], now);
    }
  }

  /** Recovery ends only when every stored frame misses at least two members. */
  lemma {:induction false} RecoverFecPeels(w: Window, now: nat)
    ensures Peeled(RecoverFec(w, now).fec, RecoverFec(w, now).buffered)
    decreases |w.fec.frames|
  {
    var (w', recovered) := Peel(w);
    RecoverReadyPeels(w.fec, w.nextSeq, w.buffered);
    if recovered != [] {
      var (w'', any) := AcceptAll(w', recovered, now);
      if any {
        PeelingShrinks(w, now);
        RecoverFecPeels(w'', now);
      } else {
        NothingAcceptedNothingChanged(w', recovered, now);
      }
    }
  }

  /** Whatever is held afterwards was held before. */
  ghost predicate NothingNewHeld(w: Window, w': Window) {
    && w'.fec.frames == w.fec.frames
    && forall s :: Lookup(w'.fec.payloads, w'.buffered, s).Some? ==> Lookup(w.fec.payloads, w.buffered, s).Some?
  }

  lemma HoldingLessStaysPeeled(w: Window, w': Window)
    requires Peeled(w.fec, w.buffered) && NothingNewHeld(w, w')
    ensures Peeled(w'.fec, w'.buffered)
  {
    forall base | base in w'.fec.frames
      ensures TwoAbsent(w'.fec, w'.buffered, w'.fec.frames[base])
    {
      var frame := w.fec.frames[base];
      var i, j :| 0 <= i < j < |frame.payloadLengths| && Absent(w.fec, w.buffered, frame, i)
        && Absent(w.fec, w.buffered, frame, j);
      assert Absent(w'.fec, w'.buffered, frame, i) && Absent(w'.fec, w'.buffered, frame, j);
    }
  }

  lemma DrainOneHoldsNothingNew(w: Window)
    requires FecOk(w.fec) && w.nextSeq in w.buffered
    ensures NothingNewHeld(w, DrainOne(w))
  {
    InsertPayloadKeepsOk(w.fec, w.nextSeq, w.buffered[w.nextSeq].payload);
  }

  lemma {:induction false} DrainStaysPeeled(w: Window)
    requires Good(w) && Peeled(w.fec, w.buffered)
    ensures Peeled(Drain(w).fec, Drain(w).buffered)
    decreases |w.buffered|
  {
    if w.nextSeq in w.buffered {
      DrainOneKeepsGood(w);
      DrainOneHoldsNothingNew(w);
      HoldingLessStaysPeeled(w, DrainOne(w));
      DrainStaysPeeled(DrainOne(w));
    }
  }

  lemma {:induction false} ExpireKeepsPayloads(w: Window, delay: nat, now: nat)
    requires Ahead(w)
    ensures var w' := Expire(w, delay, now);
      w'.buffered == w.buffered && w'.fec == w.fec && w'.accepted == w.accepted && w'.start == w.start
    decreases |w.fragments|, MAX_MEDIA_SEQUENCE - w.nextSeq
  {
    match HeadAction(w, delay, now)
    case Stop =>
    case GiveUp =>
      DropKeepsAhead(w);
      ExpireKeepsPayloads(DropAssembly(w), delay, now);
    case Skip =>
      SkipKeepsAhead(w, delay, now);
      ExpireKeepsPayloads(SkipHead(w, NeverReceived), delay, now);
  }

  lemma AdvancePeels(w: Window, config: Config, now: nat)
    requires Settled(w)
    ensures Peeled(Advance(w, config, now).fec, Advance(w, config, now).buffered)
  {
    hide RecoverFec, Peeled, TwoAbsent;
    RecoverFecKeepsGood(w, now);
    RecoverFecPeels(w, now);
    var recovered := RecoverFec(w, now);
    if config.repairInterval.Some? {
      RequestRepairsKeepsGood(recovered, config.repairInterval.value, now);
    }
    var asked := AskRepairs(recovered, config, now);
    ExpireKeepsPayloads(asked, config.maxReorderDelay, now);
    ExpireKeepsGood(asked, config.maxReorderDelay, now);
    DrainStaysPeeled(Expire(asked, config.maxReorderDelay, now));
  }

  lemma CompletePeels(w: Window, s: nat, p: Bytes, config: Config, now: nat)
    requires Settled(w) && Acceptable(w, s)
    ensures var w' := Complete(w, s, p, config, now); Peeled(w'.fec, w'.buffered)
  {
    AcceptKeepsGood(w, s, p, now);
    RecoverFecKeepsGood(Accept(w, s, p, now), now);
    AdvancePeels(RecoverFec(Accept(w, s, p, now), now), config, now);
  }

  /** A delivered packet leaves the store peeled, or leaves the window untouched. */
  lemma DeliverPeels(w: Window, h: PacketHeader, payload: Bytes, config: Config, now: nat)
    requires Settled(w) && ValidHeader(h) && w.nextSeq <= h.sequence <= MAX_MEDIA_SEQUENCE
    ensures var w' := Deliver(w, h, payload, config, now); w' == w || Peeled(w'.fec, w'.buffered)
  {
    if h.sequence in w.seen || h.sequence in w.buffered {
    } else if h.fragments == 1 {
      DiscardAssemblyKeepsGood(w, h.sequence);
      CompletePeels(w.(fragments := w.fragments - {h.sequence}), h.sequence, payload, config, now);
    } else {
      EntryIsValid(w, h, now);
      var entry := EntryFor(w, h, now);
      if |entry.slots| == h.fragments && entry.Insert(h.fragment, payload).Some? {
        InsertKeepsValid(entry, h.fragment, payload);
        var a := entry.Insert(h.fragment, payload).value;
        FilledIsAll(a.slots);
        if a.IsComplete() {
          DiscardAssemblyKeepsGood(w, h.sequence);
          CompletePeels(w.(fragments := w.fragments - {h.sequence}), h.sequence, Concat(Values(a.slots)), config, now);
        } else {
          CollectKeepsGood(w, h.sequence, a);
          AdvancePeels(w.(fragments := w.fragments[h.sequence := a]), config, now);
        }
      }
    }
  }

  // ---------------------------------------------------------------- restart detection

  function DetectorAfter(history: seq<Observation>): Detector {
    if history == [] then Detector(0, 0) else
    match history[|history| - 1]
    case Cleared => Detector(0, 0)
    case Far(sequence) => Bump(DetectorAfter(history[..|history| - 1]), sequence)
  }

  /** The last n observations were all far behind, with numbers that never went down. */
  ghost predicate FarRun(history: seq<Observation>, n: nat) {
    && n <= |history|
    && (forall i :: |history| - n <= i < |history| ==> history[i].Far?)
    && forall i, j :: |history| - n <= i < j < |history| ==> history[i].sequence <= history[j].sequence
  }

  lemma FarRunGrows(history: seq<Observation>, sequence: nat, n: nat)
    requires n >= 1
    ensures FarRun(history + [Far(sequence)], n + 1) <==>
            FarRun(history, n) && history[|history| - 1].sequence <= sequence
  {
    var longer := history + [Far(sequence)];
    if FarRun(longer, n + 1) {
      forall i | |history| - n <= i < |history|
        ensures history[i].Far?
      {
        assert longer[i].Far?;
      }
      forall i, j | |history| - n <= i < j < |history|
        ensures history[i].sequence <= history[j].sequence
      {
        assert longer[i].sequence <= longer[j].sequence;
      }
      assert longer[|history| - 1].sequence <= longer[|history|].sequence;
    }
  }

  /** The detector counts the longest such run, and remembers its last number. */
  lemma {:induction false} DetectorCountsTheRun(history: seq<Observation>, n: nat)
    ensures DetectorAfter(history).count >= n <==> FarRun(history, n)
    ensures DetectorAfter(history).count > 0 ==>
      history != [] && history[|history| - 1] == Far(DetectorAfter(history).highestSeq)
    decreases |history|, n
  {
    if history != [] {
      var last := |history| - 1;
      var front := history[..last];
      assert history == front + [history[last]];
      if history[last].Far? {
        DetectorCountsTheRun(front, if n > 0 then n - 1 else 0);
        DetectorCountsTheRun(front, 1);
        if n >= 2 {
          FarRunGrows(front, history[last].sequence, n - 1);
        }
      }
    }
  }

  // ---------------------------------------------------------------- every reachable state

  ghost predicate LawfulFlow(f: Flow) {
    Good(f.last) && (f.ending == IdleReset ==> f.last.buffered == map[] && f.last.fragments == map[])
  }

  ghost predicate Lawful(s: Server) {
    && Sound(s)
    && (forall i :: 0 <= i < |s.flows| ==> LawfulFlow(s.flows[i]))
    && s.detector == DetectorAfter(s.history)
    && (s.initialized ==> Peeled(s.window.fec, s.window.buffered))
  }

  lemma HistoryGrows(history: seq<Observation>, o: Observation)
    ensures DetectorAfter(history + [o]) ==
            match o case Cleared => Detector(0, 0) case Far(sequence) => Bump(DetectorAfter(history), sequence)
  {
    assert (history + [o])[..|history|] == history;
  }

  lemma TimerIsLawful(s: Server, config: Config, now: nat)
    requires Lawful(s)
    ensures Lawful(OnTimer(s, config, now))
  {
    if s.initialized {
      if PendingState(s.window) {
        AdvancePeels(s.window, config, now);
      } else {
        HistoryGrows(s.history, Cleared);
      }
    }
  }

  lemma FecIsLawful(s: Server, frame: FecFrame, config: Config, now: nat)
    requires Lawful(s) && ValidFrame(frame)
    ensures Lawful(OnFec(s, frame, config, now))
  {
    WithFrameIsSettled(s.window, frame);
    if s.initialized {
      RecoverFecKeepsGood(WithFrame(s.window, frame), now);
      AdvancePeels(RecoverFec(WithFrame(s.window, frame), now), config, now);
    }
  }

  /** All but the parity fixpoint, which a flow has once its first packet is in. */
  ghost predicate AlmostLawful(s: Server) {
    && Sound(s) && s.initialized
    && (forall i :: 0 <= i < |s.flows| ==> LawfulFlow(s.flows[i]))
    && s.detector == DetectorAfter(s.history)
  }

  lemma WatchIsLawful(s: Server, connection: nat, sequence: nat)
    requires AlmostLawful(s)
    ensures AlmostLawful(Watch(s, connection, sequence))
  {
    HistoryGrows(s.history, Cleared);
    HistoryGrows(s.history, ObservationOf(sequence, s.window.nextSeq));
  }

  /** Delivering to a window that is peeled, or that this packet cannot leave untouched. */
  lemma FirstDeliveryPeels(w: Window, h: PacketHeader, payload: Bytes, config: Config, now: nat)
    requires Settled(w) && ValidHeader(h) && w.nextSeq == h.sequence <= MAX_MEDIA_SEQUENCE
    requires w.buffered == map[] && w.fragments == map[]
    ensures var w' := Deliver(w, h, payload, config, now); Peeled(w'.fec, w'.buffered)
  {
    if h.fragments == 1 {
      DiscardAssemblyKeepsGood(w, h.sequence);
      CompletePeels(w.(fragments := w.fragments - {h.sequence}), h.sequence, payload, config, now);
    } else {
      EntryIsValid(w, h, now);
      var entry := EntryFor(w, h, now);
      InsertKeepsValid(entry, h.fragment, payload);
      var a := entry.Insert(h.fragment, payload).value;
      CollectKeepsGood(w, h.sequence, a);
      AdvancePeels(w.(fragments := w.fragments[h.sequence := a]), config, now);
    }
  }

  lemma ReopenIsLawful(s: Server, connection: nat, packet: Packet, config: Config, now: nat)
    requires AlmostLawful(s) && ValidHeader(packet.header) && packet.header.sequence <= MAX_MEDIA_SEQUENCE
    ensures Lawful(Reopen(s, connection, packet, config, now))
  {
    var h := packet.header;
    EmptyWindowIsGood(h.sequence, s.window.repairs);
    hide Good, Deliver, Peeled, DetectorAfter;
    FirstDeliveryPeels(EmptyWindow(h.sequence, s.window.repairs), h, packet.payload, config, now);
  }

  lemma OpenPacketIsLawful(s: Server, connection: nat, packet: Packet, config: Config, now: nat)
    requires AlmostLawful(s) && ValidHeader(packet.header) && packet.header.sequence <= MAX_MEDIA_SEQUENCE
    requires Peeled(s.window.fec, s.window.buffered)
      || (packet.header.sequence == s.window.nextSeq && s.window.buffered == map[] && s.window.fragments == map[])
    ensures Lawful(OnOpenPacket(s, connection, packet, config, now))
  {
    hide Good, Deliver, Reopen, Peeled, DetectorAfter;
    var h := packet.header;
    WatchIsLawful(s, connection, h.sequence);
    match Classify(s, connection, h.sequence)
    case InWindow =>
      if Peeled(s.window.fec, s.window.buffered) {
        DeliverPeels(s.window, h, packet.payload, config, now);
      } else {
        FirstDeliveryPeels(s.window, h, packet.payload, config, now);
      }
    case RestartsFlow => ReopenIsLawful(Watch(s, connection, h.sequence), connection, packet, config, now);
    case LateAfterSkip =>
    case DuplicateBelow =>
  }

  lemma StepIsLawful(s: Server, e: Event, config: Config)
    requires Lawful(s) && ValidEvent(e)
    ensures Lawful(Step(s, e, config))
  {
    match e
    case PacketArrives(connection, packet, now) =>
      OpenPacketIsLawful(Open(s, connection, packet.header.sequence), connection, packet, config, now);
    case FecArrives(frame, now) => FecIsLawful(s, frame, config, now);
    case TimerFires(now) => TimerIsLawful(s, config, now);
  }

  lemma StartIsLawful()
    ensures Lawful(START)
  {
    EmptyWindowIsGood(0, []);
  }

  lemma {:induction false} RunIsLawful(s: Server, es: seq<Event>, config: Config)
    requires Lawful(s) && ValidEvents(es)
    ensures Lawful(Run(s, es, config))
  {
    hide Step, LawfulFlow, DetectorAfter, Peeled, Sound;
    if es != [] {
      RunIsLawful(s, es[..|es| - 1], config);
      StepIsLawful(Run(s, es[..|es| - 1], config), es[|es| - 1], config);
    }
  }

  // ---------------------------------------------------------------- what that means

  /** A flow's log in plain numbers: start, start + 1, ... modulo the number of media sequences. */
  ghost predicate LogIsCyclicRun(w: Window) {
    && w.nextSeq == (w.start + |w.log|) % MEDIA_SEQUENCES
    && forall i :: 0 <= i < |w.log| ==> w.log[i].sequence == (w.start + i) % MEDIA_SEQUENCES
  }

  lemma ShapeIsCyclicRun(w: Window)
    requires Shape(w)
    ensures LogIsCyclicRun(w)
  {
    SequenceAfterIsModular(w.start, |w.log|);
    forall i | 0 <= i < |w.log|
      ensures w.log[i].sequence == (w.start + i) % MEDIA_SEQUENCES
    {
      SequenceAfterIsModular(w.start, i);
    }
  }

  /**
    After every run: in each flow, finished or current, the log is a gapless cyclic
    run ending just before the head; what was accepted is what was forwarded plus
    what is still buffered; and a flow ended by an idle reset had forwarded it all.
  */
  lemma EveryFlowIsAccountedFor(es: seq<Event>, config: Config)
    requires ValidEvents(es)
    ensures Sound(START)
    ensures var s := Run(START, es, config);
      && LogIsCyclicRun(s.window) && Conserved(s.window) && AcceptedOnce(s.window)
      && forall i :: 0 <= i < |s.flows| ==>
        var w := s.flows[i].last;
        && LogIsCyclicRun(w) && Conserved(w) && AcceptedOnce(w)
        && (s.flows[i].ending == IdleReset ==> multiset(w.accepted) == ForwardBag(w.log))
  {
    hide Step, Run, Peeled, DetectorAfter, Shape, AcceptedOnce, LogIsCyclicRun, ForwardBag, Ahead, Tidy, RecentSkips;
    StartIsLawful();
    RunIsLawful(START, es, config);
    var s := Run(START, es, config);
    ShapeIsCyclicRun(s.window);
    forall i | 0 <= i < |s.flows|
      ensures var w := s.flows[i].last;
        && LogIsCyclicRun(w) && Conserved(w) && AcceptedOnce(w)
        && (s.flows[i].ending == IdleReset ==> multiset(w.accepted) == ForwardBag(w.log))
    {
      assert LawfulFlow(s.flows[i]);
      ShapeIsCyclicRun(s.flows[i].last);
      NothingBuffered(s.flows[i].last.buffered);
    }
  }

  lemma {:induction false} ForwardedIsLogged(log: seq<Delivery>, s: nat, p: Bytes) returns (i: nat)
    requires (s, p) in ForwardBag(log)
    ensures i < |log| && log[i] == Forwarded(s, p)
  {
    var n := |log| - 1;
    if log[n] == Forwarded(s, p) {
      i := n;
    } else {
      i := ForwardedIsLogged(log[..n], s, p);
    }
  }

  /** In a flow that has not wrapped, a number whose payload was accepted is not also skipped. */
  lemma AcceptedIsNotSkipped(w: Window, i: nat, j: nat)
    requires Ahead(w) && Shape(w) && Conserved(w) && Unwrapped(w)
    requires i < |w.accepted| && j < |w.log| && w.log[j].Skipped?
    ensures w.log[j].sequence != w.accepted[i].0
  {
    var (s, p) := w.accepted[i];
    SequenceAfterLinear(w.start, j);
    assert (s, p) in multiset(w.accepted);
    if (s, p) in ForwardBag(w.log) {
      var k := ForwardedIsLogged(w.log, s, p);
      SequenceAfterLinear(w.start, k);
    } else {
      assert (s, p) in BufferBag(w.buffered);
    }
  }

  /** After every run: nothing that was accepted was ever skipped, in any flow that has not wrapped. */
  lemma AcceptedIsNeverSkipped(es: seq<Event>, config: Config)
    requires ValidEvents(es)
    ensures Sound(START)
    ensures var s := Run(START, es, config);
      && NothingAcceptedIsSkipped(s.window)
      && forall f :: 0 <= f < |s.flows| ==> NothingAcceptedIsSkipped(s.flows[f].last)
  {
    hide Step, Run, Peeled, DetectorAfter, NothingAcceptedIsSkipped, Ahead, Tidy, Shape, Conserved, AcceptedOnce;
    hide RecentSkips;
    StartIsLawful();
    RunIsLawful(START, es, config);
    var s := Run(START, es, config);
    GoodSkipsNothingAccepted(s.window);
    forall f | 0 <= f < |s.flows|
      ensures NothingAcceptedIsSkipped(s.flows[f].last)
    {
      assert LawfulFlow(s.flows[f]);
      GoodSkipsNothingAccepted(s.flows[f].last);
    }
  }

  ghost predicate NothingAcceptedIsSkipped(w: Window) {
    Unwrapped(w) ==>
      forall i, j :: 0 <= i < |w.accepted| && 0 <= j < |w.log| && w.log[j].Skipped? ==>
        w.log[j].sequence != w.accepted[i].0
  }

  lemma GoodSkipsNothingAccepted(w: Window)
    requires Good(w)
    ensures NothingAcceptedIsSkipped(w)
  {
    if Unwrapped(w) {
      forall i, j | 0 <= i < |w.accepted| && 0 <= j < |w.log| && w.log[j].Skipped?
        ensures w.log[j].sequence != w.accepted[i].0
      {
        AcceptedIsNotSkipped(w, i, j);
      }
    }
  }

  lemma NothingBuffered(buffered: map<nat, BufferedPacket>)
    ensures buffered == map[] ==> BufferBag(buffered) == multiset{}
  {
    var items := set k | k in buffered :: (k, buffered[k].payload);
    assert buffered == map[] ==> items == {};
  }

  /**
    Packets below the head of an open flow. The flow restarts exactly when the packet's
    connection is foreign and it ends a non-decreasing run of at least eight uncleared
    packets, each 4096 or more behind; failing that it is late exactly when it is among the
    last 4096 numbers newly skipped, failing that a duplicate. Being newly skipped makes no
    difference while there have been no more than 4096 skips, or while none was of a number
    still among the last 4096.
  */
  lemma BelowWindowDecision(s: Server, connection: nat, sequence: nat)
    requires Lawful(s) && s.initialized && sequence < s.window.nextSeq
    ensures var arrival, skipped := Classify(s, connection, sequence), SkippedSequences(s.window.log);
      var restarts := connection !in s.connections && s.window.nextSeq - sequence >= RESTART_BACKWARD_GAP
                      && FarRun(s.history + [Far(sequence)], 8);
      && (arrival == RestartsFlow <==> restarts)
      && (!restarts ==> (arrival == LateAfterSkip <==> sequence in LastOf(Newly(skipped), 4096)))
      && (|skipped| <= 4096 && !restarts ==> (arrival == LateAfterSkip <==> sequence in skipped))
      && (NoneSkippedAgain(skipped) && !restarts ==>
          (arrival == LateAfterSkip <==> sequence in LastOf(skipped, 4096)))
      && (arrival == DuplicateBelow <==> !restarts && arrival != LateAfterSkip)
  {
    hide Ahead, Shape, Conserved, AcceptedOnce, Peeled, SkipTable, FarRun, LastOf, LawfulFlow, NoneSkippedAgain, Newly;
    HistoryGrows(s.history, Far(sequence));
    DetectorCountsTheRun(s.history + [Far(sequence)], 8);
    var skipped := SkippedSequences(s.window.log);
    LateLookups(skipped, sequence);
    hide DetectorAfter;
  }

  lemma LateLookups(skipped: seq<nat>, sequence: nat)
    ensures sequence in SkipTable(skipped).lookup <==> sequence in LastOf(Newly(skipped), 4096)
    ensures |skipped| <= 4096 ==> (sequence in SkipTable(skipped).lookup <==> sequence in skipped)
    ensures NoneSkippedAgain(skipped) ==>
      (sequence in SkipTable(skipped).lookup <==> sequence in LastOf(skipped, 4096))
  {
    TableInClosedForm(skipped);
    if |skipped| <= 4096 {
      FewSkips(skipped);
    }
    if NoneSkippedAgain(skipped) {
      SkipTableKeepsOk(skipped);
      TableIsTheLastSkips(skipped);
    }
  }

  /**
    A decision that is not by the last 4096 skips: with 4096 different numbers skipped and
    then one of them again, other than the first, a packet with the first is still late.
  */
  lemma LateThoughNotRecent(s: Server, connection: nat, first: seq<nat>, k: nat)
    requires Lawful(s) && s.initialized && connection in s.connections
    requires Distinct(first) && 1 <= k < |first| == 4096 && first[0] < s.window.nextSeq
    requires SkippedSequences(s.window.log) == first + [first[k]]
    ensures Classify(s, connection, first[0]) == LateAfterSkip
    ensures first[0] !in LastOf(SkippedSequences(s.window.log), 4096)
  {
    hide Ahead, Shape, Conserved, AcceptedOnce, Peeled, SkipTable, LastOf, LawfulFlow, DetectorAfter, Observe;
    TooLongRemembered(first, k);
  }

  /** And one the other way: after the first number again and then a new one, the first is a duplicate. */
  lemma DuplicateThoughRecent(s: Server, connection: nat, first: seq<nat>, next: nat)
    requires Lawful(s) && s.initialized && connection in s.connections
    requires Distinct(first) && |first| == 4096 && next !in first && first[0] < s.window.nextSeq
    requires SkippedSequences(s.window.log) == first + [first[0]] + [next]
    ensures Classify(s, connection, first[0]) == DuplicateBelow
    ensures first[0] in LastOf(SkippedSequences(s.window.log), 4096)
  {
    hide Ahead, Shape, Conserved, AcceptedOnce, Peeled, SkipTable, LastOf, LawfulFlow, DetectorAfter, Observe;
    TooSoonForgotten(first, next);
  }

  /** Every packet below the head that does not restart the flow leaves the window as it was. */
  lemma BelowWindowChangesNothing(s: Server, connection: nat, packet: Packet, config: Config, now: nat)
    requires Lawful(s) && s.initialized && ValidHeader(packet.header) && packet.header.sequence < s.window.nextSeq
    requires Classify(s, connection, packet.header.sequence) != RestartsFlow
    ensures packet.header.sequence <= MAX_MEDIA_SEQUENCE
    ensures var s' := OnPacket(s, connection, packet, config, now);
      s'.window == s.window && s'.flows == s.flows && s'.connections == s.connections
  {
    hide Deliver, Reopen, Peeled, DetectorAfter, Shape, Conserved, AcceptedOnce, Tidy, RecentSkips;
  }
}
