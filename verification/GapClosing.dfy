/**
  What an advance of the window amounts to, from start to end: parity is used up, the
  gap at the head is skipped up to the first place that blocks, and what is buffered from
  there on goes out. At most one gap is closed by one advance.
*/
module GapClosing {
  import opened ByteStrings
  import opened Sequences
  import opened Wire
  import opened Assembly
  import opened FecRecovery
  import opened Window
  import opened WindowLaws
  import opened GapExpiry
  import opened Receiver
  import opened RunLaws
  import opened StreamRest
  import opened AwaitedPacket
  import opened WindowMoves

  // ---------------------------------------------------------------- draining in closed form

  /** What is buffered from place k on without a gap, as it goes out. */
  function RunFrom(buffered: map<nat, BufferedPacket>, k: nat): (run: seq<Delivery>)
    ensures k <= END ==> k + |run| <= END
    ensures forall i :: k <= i < k + |run| ==> i in buffered
    ensures forall i :: 0 <= i < |run| ==> run[i] == Forwarded(k + i, buffered[k + i].payload)
    ensures k + |run| <= MAX_MEDIA_SEQUENCE ==> k + |run| !in buffered
    decreases END - k
  {
    if k <= MAX_MEDIA_SEQUENCE && k in buffered then
      [Forwarded(k, buffered[k].payload)] + RunFrom(buffered, k + 1)
    else []
  }

  lemma {:induction false} RunIgnoresBelow(buffered: map<nat, BufferedPacket>, fewer: map<nat, BufferedPacket>, k: nat)
    requires forall i :: i >= k ==> (i in fewer <==> i in buffered) && (i in fewer ==> fewer[i] == buffered[i])
    ensures RunFrom(fewer, k) == RunFrom(buffered, k)
    decreases END - k
  {
    if k <= MAX_MEDIA_SEQUENCE && k in buffered {
      RunIgnoresBelow(buffered, fewer, k + 1);
    }
  }

  /** The cache with the payloads of a run put in, one after another. */
  function WithRun(v: FecView, run: seq<Delivery>): FecView
    requires AllForwarded(run)
    decreases |run|
  {
    if run == [] then v else WithRun(InsertPayload(v, run[0].sequence, run[0].payload), run[1..])
  }

  predicate AllForwarded(run: seq<Delivery>) {
    forall i :: 0 <= i < |run| ==> run[i].Forwarded?
  }

  /** The packets of the run are gone from the buffer, the cache has them, and assemblies are as they were. */
  ghost predicate DrainedTo(w: Window, w': Window, e: nat, run: seq<Delivery>) {
    && w'.log == w.log + run
    && AllForwarded(run) && w'.fec == WithRun(w.fec, run)
    && w'.nextSeq == HeadAt(e + |run|)
    && w'.fragments == w.fragments
    && (forall k :: k in w'.buffered <==> k in w.buffered && k >= e + |run|)
    && (forall k :: k in w'.buffered ==> w'.buffered[k] == w.buffered[k])
  }

  lemma DrainOneIs(w: Window)
    requires w.nextSeq in w.buffered
    ensures var w1 := DrainOne(w);
      && w1.fec == InsertPayload(w.fec, w.nextSeq, w.buffered[w.nextSeq].payload)
      && w1.log == w.log + [Forwarded(w.nextSeq, w.buffered[w.nextSeq].payload)]
      && w1.nextSeq == NextSequence(w.nextSeq) && w1.fragments == w.fragments
      && w1.buffered == w.buffered - {w.nextSeq}
  {
  }

  lemma DrainedOneMore(w: Window, w1: Window, w': Window, run: seq<Delivery>)
    requires Ahead(w) && w.nextSeq in w.buffered && w1.buffered == w.buffered - {w.nextSeq}
    requires w1.fec == InsertPayload(w.fec, w.nextSeq, w.buffered[w.nextSeq].payload)
    requires w1.log == w.log + [Forwarded(w.nextSeq, w.buffered[w.nextSeq].payload)] && w1.fragments == w.fragments
    requires DrainedTo(w1, w', w.nextSeq + 1, run)
    ensures DrainedTo(w, w', w.nextSeq, [Forwarded(w.nextSeq, w.buffered[w.nextSeq].payload)] + run)
  {
    var first := [Forwarded(w.nextSeq, w.buffered[w.nextSeq].payload)];
    assert w.log + (first + run) == w.log + first + run;
    assert (first + run)[1..] == run;
    hide InsertPayload;
  }

  lemma NothingLeft(w: Window)
    requires Ahead(w) && w.nextSeq == MAX_MEDIA_SEQUENCE
    ensures w.buffered - {w.nextSeq} == map[]
  {
  }

  lemma EmptyBufferStays(w: Window, e: nat)
    requires w.buffered == map[] && w.nextSeq == HeadAt(e)
    ensures Drain(w) == w && RunFrom(w.buffered, e) == [] && DrainedTo(w, w, e, [])
  {
  }

  lemma DrainUnfolds(w: Window)
    ensures w.nextSeq in w.buffered ==> Drain(w) == Drain(DrainOne(w))
    ensures w.nextSeq !in w.buffered ==> Drain(w) == w
  {
    hide DrainOne;
  }

  lemma RunUnfolds(buffered: map<nat, BufferedPacket>, k: nat)
    requires k <= MAX_MEDIA_SEQUENCE
    ensures k in buffered ==> RunFrom(buffered, k) == [Forwarded(k, buffered[k].payload)] + RunFrom(buffered, k + 1)
    ensures k !in buffered ==> RunFrom(buffered, k) == []
  {
  }

  lemma ClearIsDrained(w: Window)
    requires Ahead(w) && w.nextSeq !in w.buffered
    ensures DrainedTo(w, w, w.nextSeq, [])
  {
  }

  lemma HeadAndAhead(w: Window)
    requires Good(w)
    ensures Ahead(w)
  {
  }

  /** Draining sends out exactly the gapless run of the buffer from the head on. */
  lemma {:induction false} DrainInClosedForm(w: Window)
    requires Good(w)
    ensures DrainedTo(w, Drain(w), w.nextSeq, RunFrom(w.buffered, w.nextSeq))
    decreases |w.buffered|
  {
    hide Good, Drain, DrainOne, DrainedTo, RunFrom;
    HeadAndAhead(w);
    DrainUnfolds(w);
    RunUnfolds(w.buffered, w.nextSeq);
    if w.nextSeq in w.buffered {
      var w1, head := DrainOne(w), w.nextSeq;
      DrainOneIs(w);
      DrainOneKeepsGood(w);
      RemovalShrinks(w.buffered, head);
      RunIgnoresBelow(w.buffered, w1.buffered, head + 1);
      if head == MAX_MEDIA_SEQUENCE {
        NothingLeft(w);
        EmptyBufferStays(w1, END);
      } else {
        DrainInClosedForm(w1);
      }
      DrainedOneMore(w, w1, Drain(w1), RunFrom(w1.buffered, head + 1));
    } else {
      ClearIsDrained(w);
    }
  }

  // ---------------------------------------------------------------- an advance in closed form

  /** From r, with parity used up: skips up to place e, then the buffered run from there. */
  ghost predicate ClosedFrom(r: Window, w': Window, e: nat) {
    var run := RunFrom(r.buffered, e);
    && r.nextSeq <= e <= END
    && w'.log == r.log + SkipsBetween(r, r.nextSeq, e) + run
    && AllForwarded(run) && w'.fec == WithRun(r.fec, run)
    && w'.nextSeq == HeadAt(e + |run|)
    && (forall k :: k in w'.buffered <==> k in r.buffered && k >= e + |run|)
    && (forall k :: k in w'.buffered ==> w'.buffered[k] == r.buffered[k])
    && (forall k :: k in w'.fragments <==> k in r.fragments && k >= e)
    && (forall k :: k in w'.fragments ==>
          w'.fragments[k].slots == r.fragments[k].slots && w'.fragments[k].firstSeen == r.fragments[k].firstSeen)
  }

  /** Asking for repairs makes no difference to what blocks. */
  lemma {:induction false} StopAtSame(r: Window, asked: Window, n: nat, delay: nat, now: nat)
    requires Ahead(r) && Ahead(asked) && SameButRequests(r, asked) && n <= END
    ensures StopAt(asked, n, delay, now) == StopAt(r, n, delay, now)
    decreases END - n
  {
    forall k
      ensures OldBuffered(asked, k, delay, now) == OldBuffered(r, k, delay, now)
      ensures OldAssembly(asked, k, delay, now) == OldAssembly(r, k, delay, now)
    {
    }
    EndBlocks(r, END, delay, now);
    assert Blocks(asked, n, delay, now) <==> Blocks(r, n, delay, now);
    if !Blocks(r, n, delay, now) {
      StopAtSame(r, asked, n + 1, delay, now);
    }
  }

  lemma SkipsSame(r: Window, asked: Window, n: nat, e: nat)
    requires SameButRequests(r, asked) && n <= e
    ensures SkipsBetween(asked, n, e) == SkipsBetween(r, n, e)
  {
  }

  /** Nothing passed is buffered, so at the end of the number space nothing is. */
  lemma PassedIsNotBuffered(w: Window, delay: nat, now: nat)
    requires Ahead(w)
    ensures forall k :: k in w.buffered ==> k >= StopAt(w, w.nextSeq, delay, now)
    ensures StopAt(w, w.nextSeq, delay, now) == END ==> w.buffered == map[]
  {
    var e := StopAt(w, w.nextSeq, delay, now);
    forall k | k in w.buffered
      ensures k >= e
    {
      assert k < e ==> !Blocks(w, k, delay, now);
    }
  }

  lemma ExpiredThenDrained(w: Window, x: Window, w': Window, e: nat, delay: nat, now: nat)
    requires Ahead(w) && e == StopAt(w, w.nextSeq, delay, now) && ExpiredTo(w, x, e) && x.fec == w.fec
    requires DrainedTo(x, w', e, RunFrom(x.buffered, e))
    ensures ClosedFrom(w, w', e)
  {
    PassedIsNotBuffered(w, delay, now);
    hide StopAt;
  }

  lemma DrainAfterExpiry(x: Window, e: nat)
    requires Good(x) && x.nextSeq == HeadAt(e) && e <= END && (e == END ==> x.buffered == map[])
    ensures DrainedTo(x, Drain(x), e, RunFrom(x.buffered, e))
  {
    if e == END {
      EmptyBufferStays(x, e);
    } else {
      DrainInClosedForm(x);
    }
  }

  lemma AdvanceFromInClosedForm(w: Window, config: Config, now: nat)
    requires Good(w)
    ensures Ahead(w)
    ensures ClosedFrom(w, AdvanceFrom(w, config, now), StopAt(w, w.nextSeq, config.maxReorderDelay, now))
  {
    var delay := config.maxReorderDelay;
    ExpireKeepsGood(w, delay, now);
    HeadAndAhead(w);
    var x, e := Expire(w, delay, now), StopAt(w, w.nextSeq, delay, now);
    ExpireInClosedForm(w, delay, now);
    ExpireKeepsPayloads(w, delay, now);
    PassedIsNotBuffered(w, delay, now);
    hide Good, StopAt, ExpiredTo, Expire, Drain, DrainedTo;
    ExpiredHead(w, x, e);
    DrainAfterExpiry(x, e);
    ExpiredThenDrained(w, x, Drain(x), e, delay, now);
  }

  lemma ExpiredHead(w: Window, x: Window, e: nat)
    requires w.nextSeq <= e && ExpiredTo(w, x, e)
    ensures x.nextSeq == HeadAt(e) && x.buffered == w.buffered
  {
  }

  lemma ClosedAsAsked(r: Window, asked: Window, w': Window, e: nat)
    requires SameButRequests(r, asked) && ClosedFrom(asked, w', e)
    ensures ClosedFrom(r, w', e)
  {
    hide RunFrom, WithRun, AllForwarded, SkipsBetween;
    SkipsSame(r, asked, r.nextSeq, e);
  }

  lemma AskedCloses(r: Window, asked: Window, w': Window, delay: nat, now: nat)
    requires Ahead(r) && Ahead(asked) && SameButRequests(r, asked)
    requires ClosedFrom(asked, w', StopAt(asked, asked.nextSeq, delay, now))
    ensures ClosedFrom(r, w', StopAt(r, r.nextSeq, delay, now))
  {
    StopAtSame(r, asked, r.nextSeq, delay, now);
    hide StopAt, ClosedFrom;
    ClosedAsAsked(r, asked, w', StopAt(r, r.nextSeq, delay, now));
  }

  /**
    An advance in closed form. With parity used up, it skips every place from the head to
    the first that blocks, each for the right reason, and sends out what is buffered from
    there to the next gap.
  */
  lemma AdvanceInClosedForm(w: Window, config: Config, now: nat)
    requires Settled(w)
    ensures Ahead(RecoverFec(w, now))
    ensures var r := RecoverFec(w, now);
      ClosedFrom(r, Advance(w, config, now), StopAt(r, r.nextSeq, config.maxReorderDelay, now))
  {
    RecoverFecKeepsGood(w, now);
    hide Good, HeadClear, RecoverFec, AskRepairs, AdvanceFrom, StopAt, ClosedFrom;
    var r := RecoverFec(w, now);
    var asked := AskRepairs(r, config, now);
    AskingChangesRequestsOnly(r, config, now);
    HeadAndAhead(r);
    AdvanceFromInClosedForm(asked, config, now);
    AskedCloses(r, asked, AdvanceFrom(asked, config, now), config.maxReorderDelay, now);
  }

  // ---------------------------------------------------------------- every kind of step

  /** With r the window once parity is used up: from r to w' the gap at the head is closed as far as it goes. */
  ghost predicate Closes(r: Window, w': Window, config: Config, now: nat) {
    Ahead(r) && ClosedFrom(r, w', StopAt(r, r.nextSeq, config.maxReorderDelay, now))
  }

  lemma AdvanceCloses(w: Window, config: Config, now: nat)
    requires Settled(w)
    ensures Closes(RecoverFec(w, now), Advance(w, config, now), config, now)
  {
    hide Settled, RecoverFec, Advance, ClosedFrom, StopAt;
    AdvanceInClosedForm(w, config, now);
  }

  lemma RecoverAndAdvanceCloses(w: Window, config: Config, now: nat)
    requires Settled(w)
    ensures Closes(RecoverFec(RecoverFec(w, now), now), RecoverAndAdvance(w, config, now), config, now)
  {
    RecoverFecKeepsGood(w, now);
    hide Good, HeadClear, RecoverFec, Advance, Closes;
    AdvanceCloses(RecoverFec(w, now), config, now);
  }

  /** A timeout with something pending. */
  lemma TimerCloses(s: Server, config: Config, now: nat)
    requires Sound(s) && s.initialized && PendingState(s.window)
    ensures Closes(RecoverFec(s.window, now), Step(s, TimerFires(now), config).window, config, now)
  {
    hide Good, HeadClear, RecoverFec, Advance, Closes, PendingState;
    AdvanceCloses(s.window, config, now);
  }

  /** A parity frame while a flow is under way. */
  lemma FrameCloses(s: Server, frame: FecFrame, config: Config, now: nat)
    requires Sound(s) && s.initialized && ValidFrame(frame)
    ensures Closes(RecoverFec(RecoverFec(WithFrame(s.window, frame), now), now),
                   Step(s, FecArrives(frame, now), config).window, config, now)
  {
    WithFrameIsSettled(s.window, frame);
    hide Good, HeadClear, RecoverFec, RecoverAndAdvance, Closes, InsertFrame;
    RecoverAndAdvanceCloses(WithFrame(s.window, frame), config, now);
  }

  lemma StepDelivers(s: Server, connection: nat, packet: Packet, config: Config, now: nat)
    requires Sound(s) && s.initialized && ValidHeader(packet.header)
    requires s.window.nextSeq <= packet.header.sequence <= MAX_MEDIA_SEQUENCE
    ensures Step(s, PacketArrives(connection, packet, now), config).window ==
            Deliver(s.window, packet.header, packet.payload, config, now)
  {
    hide Good, HeadClear, Deliver, Reopen;
  }

  /** A fragment that is new and does not complete its packet. */
  lemma FragmentCloses(s: Server, connection: nat, packet: Packet, config: Config, now: nat)
    requires Sound(s) && s.initialized && ValidHeader(packet.header) && packet.header.fragments != 1
    requires s.window.nextSeq <= packet.header.sequence <= MAX_MEDIA_SEQUENCE
    requires packet.header.sequence !in s.window.buffered
    requires var entry := EntryFor(s.window, packet.header, now);
      && |entry.slots| == packet.header.fragments && entry.slots[packet.header.fragment].None?
      && entry.received + 1 < |entry.slots|
    ensures var h := packet.header;
      var a := EntryFor(s.window, h, now).Insert(h.fragment, packet.payload).value;
      Closes(RecoverFec(s.window.(fragments := s.window.fragments[h.sequence := a]), now),
             Step(s, PacketArrives(connection, packet, now), config).window, config, now)
  {
    hide Good, HeadClear, RecoverFec, Advance, Closes, Deliver, Collect, Step, EntryFor, FragmentAssembly.Valid;
    var w, h := s.window, packet.header;
    StepDelivers(s, connection, packet, config, now);
    DeliverIsCollect(w, h, packet.payload, config, now);
    var a := EntryFor(w, h, now).Insert(h.fragment, packet.payload).value;
    CollectIsAdvance(w, h, a, config, now);
    AdvanceCloses(w.(fragments := w.fragments[h.sequence := a]), config, now);
  }

  lemma CompleteCloses(w: Window, s: nat, p: Bytes, config: Config, now: nat)
    requires Settled(w) && Acceptable(w, s)
    ensures Closes(RecoverFec(RecoverFec(Accept(w, s, p, now), now), now), Complete(w, s, p, config, now), config, now)
  {
    AcceptKeepsGood(w, s, p, now);
    hide Good, HeadClear, RecoverFec, Accept, RecoverAndAdvance, Closes, Acceptable;
    RecoverAndAdvanceCloses(Accept(w, s, p, now), config, now);
  }

  /** A packet that comes whole, and is not complete yet. */
  lemma WholePacketCloses(s: Server, connection: nat, packet: Packet, config: Config, now: nat)
    requires Sound(s) && s.initialized && ValidHeader(packet.header) && packet.header.fragments == 1
    requires s.window.nextSeq <= packet.header.sequence <= MAX_MEDIA_SEQUENCE
    requires packet.header.sequence !in s.window.buffered
    ensures var q := packet.header.sequence;
      Closes(RecoverFec(RecoverFec(AcceptRecovered(s.window, q, packet.payload, now), now), now),
             Step(s, PacketArrives(connection, packet, now), config).window, config, now)
  {
    hide Good, HeadClear, RecoverFec, Accept, Complete, Closes, Deliver, Step, Acceptable;
    var w, h := s.window, packet.header;
    StepDelivers(s, connection, packet, config, now);
    DeliverIsComplete(w, h, packet.payload, config, now);
    CompleteCloses(w.(fragments := w.fragments - {h.sequence}), h.sequence, packet.payload, config, now);
  }

  /** A fragment that completes its packet. */
  lemma LastFragmentCloses(s: Server, connection: nat, packet: Packet, config: Config, now: nat)
    requires Sound(s) && s.initialized && ValidHeader(packet.header) && packet.header.fragments != 1
    requires s.window.nextSeq <= packet.header.sequence <= MAX_MEDIA_SEQUENCE
    requires packet.header.sequence !in s.window.buffered
    requires var entry := EntryFor(s.window, packet.header, now);
      && |entry.slots| == packet.header.fragments && entry.slots[packet.header.fragment].None?
      && entry.received + 1 == |entry.slots|
    ensures var h := packet.header;
      var a := EntryFor(s.window, h, now).Insert(h.fragment, packet.payload).value;
      && AllFilled(a.slots)
      && Closes(RecoverFec(RecoverFec(AcceptRecovered(s.window, h.sequence, Concat(Values(a.slots)), now), now), now),
                Step(s, PacketArrives(connection, packet, now), config).window, config, now)
  {
    hide Good, HeadClear, RecoverFec, Accept, Complete, Closes, Deliver, Collect, Step, EntryFor, Acceptable;
    hide FragmentAssembly.Valid;
    var w, h := s.window, packet.header;
    StepDelivers(s, connection, packet, config, now);
    DeliverIsCollect(w, h, packet.payload, config, now);
    var a := EntryFor(w, h, now).Insert(h.fragment, packet.payload).value;
    CollectIsComplete(w, h, a, config, now);
    CompleteCloses(w.(fragments := w.fragments - {h.sequence}), h.sequence, Concat(Values(a.slots)), config, now);
  }

  // ---------------------------------------------------------------- the head at a timeout

  function ReasonAt(w: Window, k: nat): SkipReason {
    if k in w.fragments then FragmentIncomplete else NeverReceived
  }

  lemma FirstOfTheSkips(r: Window, w': Window, e: nat)
    requires ClosedFrom(r, w', e) && r.nextSeq !in r.buffered && r.nextSeq <= MAX_MEDIA_SEQUENCE
    ensures e > r.nextSeq ==> |r.log| < |w'.log| && w'.log[|r.log|] == Skipped(r.nextSeq, ReasonAt(r, r.nextSeq))
    ensures e == r.nextSeq ==> w'.log == r.log
  {
    if e > r.nextSeq {
      assert w'.log[|r.log|] == SkipsBetween(r, r.nextSeq, e)[0];
    } else {
      RunUnfolds(r.buffered, e);
      assert SkipsBetween(r, r.nextSeq, e) == [];
    }
    hide RunFrom;
  }

  /** A timeout gives up the head exactly if, with parity used up, it does not block. */
  lemma HeadIsSkippedIff(s: Server, config: Config, now: nat)
    requires Sound(s) && s.initialized && PendingState(s.window)
    ensures var r, w' := RecoverFec(s.window, now), Step(s, TimerFires(now), config).window;
      if Blocks(r, r.nextSeq, config.maxReorderDelay, now) then w'.log == r.log
      else |r.log| < |w'.log| && w'.log[|r.log|] == Skipped(r.nextSeq, ReasonAt(r, r.nextSeq))
  {
    TimerCloses(s, config, now);
    RecoverFecKeepsGood(s.window, now);
    var r, w' := RecoverFec(s.window, now), Step(s, TimerFires(now), config).window;
    SettledIsAhead(r);
    hide Good, RecoverFec, Step, ClosedFrom, Blocks, SkipsBetween;
    FirstOfTheSkips(r, w', StopAt(r, r.nextSeq, config.maxReorderDelay, now));
  }

  /** What waits at place k has waited too long, and is not completed by parity now. */
  ghost predicate StillOverdue(w: Window, r: Window, k: nat, delay: nat, now: nat) {
    OldBuffered(w, k, delay, now) || (OldAssembly(w, k, delay, now) && k in r.fragments)
  }

  /** The head has waited too long: its own assembly has, or nothing of it has come and something behind it has. */
  ghost predicate HeadOverdue(w: Window, r: Window, delay: nat, now: nat) {
    if w.nextSeq in w.fragments then OldAssembly(w, w.nextSeq, delay, now)
    else exists k :: k > w.nextSeq && StillOverdue(w, r, k, delay, now)
  }

  lemma HeadStillCollected(w: Window, r: Window, now: nat)
    requires Settled(w) && Settled(r) && Later(w, r, Lap(w)) && Moves(w, r, now) && |r.log| == |w.log|
    ensures r.nextSeq == w.nextSeq && (w.nextSeq in r.fragments <==> w.nextSeq in w.fragments)
    ensures forall k :: k in w.buffered ==> k in r.buffered && r.buffered[k] == w.buffered[k]
    ensures forall k :: k in r.fragments ==> k in w.fragments && r.fragments[k].firstSeen == w.fragments[k].firstSeen
  {
    hide Good;
  }

  lemma OverdueDoesNotBlock(w: Window, r: Window, delay: nat, now: nat)
    requires HeadOverdue(w, r, delay, now) && r.nextSeq == w.nextSeq && HeadClear(r)
    requires w.nextSeq in r.fragments <==> w.nextSeq in w.fragments
    requires forall k :: k in w.buffered ==> k in r.buffered && r.buffered[k] == w.buffered[k]
    requires forall k :: k in r.fragments ==> k in w.fragments && r.fragments[k].firstSeen == w.fragments[k].firstSeen
    ensures !Blocks(r, r.nextSeq, delay, now)
  {
    if w.nextSeq !in w.fragments {
      var k :| k > w.nextSeq && StillOverdue(w, r, k, delay, now);
      assert OldBuffered(r, k, delay, now) || OldAssembly(r, k, delay, now);
    }
  }

  /**
    A head that is overdue when the timer fires has been skipped when the step is over, unless
    parity moves the head, or completes the assembly behind it that is overdue.
  */
  lemma OverdueHeadIsSkipped(s: Server, config: Config, now: nat)
    requires Sound(s) && s.initialized && PendingState(s.window)
    requires var r := RecoverFec(s.window, now);
      |r.log| == |s.window.log| && HeadOverdue(s.window, r, config.maxReorderDelay, now)
    ensures var w, w' := s.window, Step(s, TimerFires(now), config).window;
      |w.log| < |w'.log| && w'.log[|w.log|] == Skipped(w.nextSeq, ReasonAt(w, w.nextSeq))
  {
    var w, delay := s.window, config.maxReorderDelay;
    hide Good, RecoverFec, Step, Blocks, Moves, Later, HeadOverdue, PendingState;
    var r := RecoverFec(w, now);
    RecoverFecKeepsGood(w, now);
    RecoverFecIsLater(w, now, Lap(w));
    RecoverFecMoves(w, now);
    HeadStillCollected(w, r, now);
    OverdueDoesNotBlock(w, r, delay, now);
    HeadIsSkippedIff(s, config, now);
  }
}
