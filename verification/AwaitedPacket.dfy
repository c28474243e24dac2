/**
  A packet the receiver waits for, through whatever its window does meanwhile: while
  what is held of it is young, or nothing is held of it and everything else is young, no
  move of the window loses a piece of it or goes past it, unless it has been accepted.
*/
module AwaitedPacket {
  import opened ByteStrings
  import opened Sequences
  import opened Wire
  import opened Assembly
  import opened FecRecovery
  import opened Window
  import opened WindowLaws
  import opened Receiver
  import opened Integrity
  import opened FlowHistory
  import opened Sender
  import opened RepairDelivery
  import opened StreamWindow
  import opened StreamParity
  import opened StreamRest

  // ---------------------------------------------------------------- moves that skip nothing

  ghost predicate ForwardsOnly(w: Window, w': Window) {
    w.log <= w'.log && forall i :: |w.log| <= i < |w'.log| ==> w'.log[i].Forwarded?
  }

  /** Nothing is skipped, nothing is asked for, and what is held was held before or has come just now. */
  ghost predicate Moves(w: Window, w': Window, now: nat) {
    Since(w, w', now) && Continues(w, w') && ForwardsOnly(w, w') && w'.repairs == w.repairs
  }

  lemma MovesOn(a: Window, b: Window, c: Window, now: nat)
    requires Moves(a, b, now) && Moves(b, c, now)
    ensures Moves(a, c, now)
  {
    SinceThenSince(a, b, c, now);
    ContinuesOn(a, b, c);
    hide Since, Continues;
  }

  lemma NoMove(w: Window, now: nat)
    ensures Moves(w, w, now)
  {
  }

  lemma DrainOneMovesOn(w: Window, now: nat)
    requires w.nextSeq in w.buffered
    ensures Moves(w, DrainOne(w), now)
  {
  }

  lemma {:induction false} DrainMoves(w: Window, now: nat)
    ensures Moves(w, Drain(w), now)
    decreases |w.buffered|
  {
    hide Moves, DrainOne;
    if w.nextSeq in w.buffered {
      DrainOneLess(w);
      DrainOneMovesOn(w, now);
      DrainMoves(DrainOne(w), now);
      MovesOn(w, DrainOne(w), Drain(DrainOne(w)), now);
    } else {
      NoMove(w, now);
    }
  }

  lemma NotedMoves(w: Window, s: nat, p: Bytes, now: nat)
    ensures Moves(w, ForwardHead(Note(w, s, p), p), now) && Moves(w, Hold(w, s, p, now), now)
  {
  }

  lemma AcceptMoves(w: Window, s: nat, p: Bytes, now: nat)
    ensures Moves(w, Accept(w, s, p, now), now)
  {
    NotedMoves(w, s, p, now);
    DrainMoves(ForwardHead(Note(w, s, p), p), now);
    if s == w.nextSeq {
      hide Moves, Drain;
      MovesOn(w, ForwardHead(Note(w, s, p), p), Drain(ForwardHead(Note(w, s, p), p)), now);
    }
  }

  lemma DiscardMoves(w: Window, s: nat, now: nat)
    ensures Moves(w, w.(fragments := w.fragments - {s}), now)
  {
  }

  lemma RecoveredMoves(w: Window, s: nat, p: Bytes, now: nat)
    ensures Moves(w, AcceptRecovered(w, s, p, now), now)
  {
    hide Moves, Accept;
    var w1 := w.(fragments := w.fragments - {s});
    DiscardMoves(w, s, now);
    AcceptMoves(w1, s, p, now);
    MovesOn(w, w1, Accept(w1, s, p, now), now);
  }

  lemma {:induction false} AcceptAllMoves(w: Window, batch: seq<(nat, Bytes)>, now: nat)
    ensures Moves(w, AcceptAll(w, batch, now).0, now)
  {
    hide Moves, AcceptRecovered, Wanted;
    if batch == [] {
      NoMove(w, now);
    } else {
      var n := |batch| - 1;
      var w1 := AcceptAll(w, batch[..n], now).0;
      AcceptAllMoves(w, batch[..n], now);
      RecoveredMoves(w1, batch[n].0, batch[n].1, now);
      if Wanted(w1, batch[n].0) {
        MovesOn(w, w1, AcceptRecovered(w1, batch[n].0, batch[n].1, now), now);
      }
    }
  }

  lemma PeelMoves(w: Window, now: nat)
    ensures Moves(w, Peel(w).0, now)
  {
    hide RecoverReady;
  }

  lemma {:induction false} RecoverFecMoves(w: Window, now: nat)
    ensures Moves(w, RecoverFec(w, now), now)
    decreases |w.fec.frames|
  {
    hide Moves, AcceptAll, Peel;
    var (w1, recovered) := Peel(w);
    var (w2, any) := AcceptAll(w1, recovered, now);
    PeelMoves(w, now);
    AcceptAllMoves(w1, recovered, now);
    MovesOn(w, w1, w2, now);
    if recovered != [] && any {
      PeelingShrinks(w, now);
      RecoverFecMoves(w2, now);
      MovesOn(w, w2, RecoverFec(w2, now), now);
    }
  }

  // ---------------------------------------------------------------- with nothing overdue

  /** Everything pending came at `since` or later. */
  ghost predicate AllYoung(w: Window, since: nat) {
    forall t :: t in PendingTimes(w) ==> t >= since
  }

  predicate Timely(now: nat, since: nat, config: Config) {
    since <= now < since + config.maxReorderDelay
  }

  lemma MovesKeepYoung(w: Window, w': Window, since: nat, now: nat)
    requires Moves(w, w', now) && AllYoung(w, since) && since <= now
    ensures AllYoung(w', since)
  {
    forall t | t in PendingTimes(w')
      ensures t >= since
    {
      if k :| k in w'.buffered && w'.buffered[k].receivedAt == t {
        if t != now {
          assert w.buffered[k].receivedAt in PendingTimes(w);
        }
      } else {
        var k :| k in w'.fragments && w'.fragments[k].firstSeen == t;
        assert w.fragments[k].firstSeen in PendingTimes(w);
      }
    }
  }

  lemma YoungIsNotExpired(w: Window, config: Config, since: nat, now: nat)
    requires Ahead(w) && AllYoung(w, since) && Timely(now, since, config)
    ensures Expire(w, config.maxReorderDelay, now) == w
  {
    hide Expire, Ahead;
    NoneOverdueStops(w, config.maxReorderDelay, now);
  }

  /** Asking changes when repairs were asked for, and which were. */
  lemma AskedIsAsYoung(w: Window, config: Config, since: nat, now: nat)
    requires Settled(w) && AllYoung(w, since)
    ensures var asked := AskRepairs(w, config, now);
      && Settled(asked) && AllYoung(asked, since) && SameButRequests(w, asked)
  {
    hide Good, HeadClear, AskRepairs;
    AskingChangesRequestsOnly(w, config, now);
    var asked := AskRepairs(w, config, now);
    forall t | t in PendingTimes(asked)
      ensures t >= since
    {
      if k :| k in asked.buffered && asked.buffered[k].receivedAt == t {
        assert w.buffered[k].receivedAt in PendingTimes(w);
      } else {
        var k :| k in asked.fragments && asked.fragments[k].firstSeen == t;
        assert w.fragments[k].firstSeen in PendingTimes(w);
      }
    }
  }

  /** An advance with nothing overdue only recovers and asks. */
  lemma YoungAdvance(w: Window, config: Config, since: nat, now: nat)
    requires Settled(w) && AllYoung(w, since) && Timely(now, since, config)
    ensures Settled(RecoverFec(w, now))
    ensures Advance(w, config, now) == AskRepairs(RecoverFec(w, now), config, now)
    ensures AllYoung(Advance(w, config, now), since)
  {
    hide Good, HeadClear, Moves, AllYoung, RecoverFec, AskRepairs;
    RecoverFecKeepsGood(w, now);
    RecoverFecMoves(w, now);
    var recovered := RecoverFec(w, now);
    MovesKeepYoung(w, recovered, since, now);
    AskedIsAsYoung(recovered, config, since, now);
    var asked := AskRepairs(recovered, config, now);
    SettledIsAhead(asked);
    YoungIsNotExpired(asked, config, since, now);
    NothingToDrain(asked);
  }

  lemma SettledIsAhead(w: Window)
    requires Settled(w)
    ensures Ahead(w) && HeadClear(w)
  {
  }

  // ---------------------------------------------------------------- a packet is passed only by forwarding it

  lemma PlaceOf(w: Window, w': Window, s: nat)
    requires Shape(w) && Shape(w') && w'.start == w.start && w.log <= w'.log && w.nextSeq <= s <= MAX_MEDIA_SEQUENCE
    ensures var n := |w.log| + (s - w.nextSeq);
      if n < |w'.log| then w'.log[n].sequence == s else w'.nextSeq <= s
  {
    var n := |w.log| + (s - w.nextSeq);
    if n < |w'.log| {
      SequenceAfterAdds(w.start, |w.log|, s - w.nextSeq);
      SequenceAfterLinear(w.nextSeq, s - w.nextSeq);
    } else {
      SequenceAfterAdds(w.start, |w.log|, |w'.log| - |w.log|);
      SequenceAfterLinear(w.nextSeq, |w'.log| - |w.log|);
    }
  }

  lemma LoggedWasAccepted(sent: map<nat, Source>, w: Window, n: nat)
    requires Conserved(w) && HonestLog(sent, w.log) && n < |w.log| && w.log[n].Forwarded?
    ensures Got(sent, w, w.log[n].sequence)
  {
    ForwardedIsInBag(w.log, n);
    var pair := (w.log[n].sequence, w.log[n].payload);
    assert pair in multiset(w.accepted);
  }

  lemma BufferedWasAccepted(sent: map<nat, Source>, w: Window, s: nat)
    requires Conserved(w) && HonestBuffer(sent, w.buffered) && s in w.buffered
    ensures Got(sent, w, s)
  {
    var pair := (s, w.buffered[s].payload);
    assert pair in BufferBag(w.buffered);
    assert pair in multiset(w.accepted);
  }

  /** Nothing is held of packet s, and it is still ahead. */
  predicate Untouched(w: Window, s: nat) {
    w.nextSeq <= s && s !in w.buffered && s !in w.fragments
  }

  lemma GoodHistory(w: Window)
    requires Good(w)
    ensures Shape(w) && Conserved(w) && Ahead(w)
  {
  }

  lemma HonestParts(sent: map<nat, Source>, w: Window)
    requires Honest(sent, w)
    ensures HonestLog(sent, w.log) && HonestBuffer(sent, w.buffered)
  {
  }

  lemma MovesFacts(w: Window, w': Window, s: nat, now: nat)
    requires Moves(w, w', now)
    ensures w'.start == w.start && w.log <= w'.log && (s in w'.fragments ==> s in w.fragments)
    ensures forall i :: |w.log| <= i < |w'.log| ==> w'.log[i].Forwarded?
  {
  }

  lemma PassedIsAccepted(sent: map<nat, Source>, w: Window, w': Window, s: nat, now: nat)
    requires Good(w) && Good(w') && Moves(w, w', now) && Honest(sent, w')
    requires Untouched(w, s) && s <= MAX_MEDIA_SEQUENCE
    ensures Got(sent, w', s) || Untouched(w', s)
  {
    hide Good, Shape, Conserved, Ahead, HonestStore, HonestFragments, Got, HonestLog, HonestBuffer, Honest, Moves;
    GoodHistory(w);
    GoodHistory(w');
    HonestParts(sent, w');
    MovesFacts(w, w', s, now);
    PlaceOf(w, w', s);
    var n := |w.log| + (s - w.nextSeq);
    if n < |w'.log| {
      LoggedWasAccepted(sent, w', n);
    } else if s in w'.buffered {
      BufferedWasAccepted(sent, w', s);
    }
  }

  // ---------------------------------------------------------------- what is kept of an awaited packet

  /**
    Packet s has been accepted, or fragments of it are held, none from before `since`, or
    nothing of it is held and nothing else is from before `since`.
  */
  ghost predicate Awaited(sent: map<nat, Source>, w: Window, s: nat, since: nat) {
    || Got(sent, w, s)
    || (s in w.fragments && w.fragments[s].firstSeen >= since)
    || (Untouched(w, s) && AllYoung(w, since))
  }

  /** Still awaited, and no piece of it lost. */
  ghost predicate KeepsAwaiting(sent: map<nat, Source>, w: Window, w': Window, s: nat, since: nat) {
    Awaited(sent, w', s, since) && NoneLost(sent, w, w', s, since)
  }

  lemma KeepsOn(sent: map<nat, Source>, a: Window, b: Window, c: Window, s: nat, since: nat)
    requires KeepsAwaiting(sent, a, b, s, since) && KeepsAwaiting(sent, b, c, s, since)
    ensures KeepsAwaiting(sent, a, c, s, since)
  {
    hide HasPiece, Awaited;
  }

  lemma GotKeeps(sent: map<nat, Source>, w: Window, w': Window, s: nat, since: nat)
    requires Got(sent, w, s) && Continues(w, w')
    ensures KeepsAwaiting(sent, w, w', s, since)
  {
    GotStays(sent, w, w', s);
    hide Got, Continues, AllYoung, Untouched;
  }

  lemma KeptKeeps(sent: map<nat, Source>, w: Window, w': Window, s: nat, since: nat)
    requires s in w.fragments && w.fragments[s].firstSeen >= since && KeptOrGot(sent, w, w', s) && Continues(w, w')
    ensures KeepsAwaiting(sent, w, w', s, since)
  {
    if Got(sent, w, s) {
      GotKeeps(sent, w, w', s, since);
    }
    hide Continues, AllYoung, Untouched;
  }

  lemma UntouchedKeeps(sent: map<nat, Source>, w: Window, w': Window, s: nat, since: nat)
    requires !Got(sent, w, s) && Untouched(w, s)
    requires Got(sent, w', s) || (Untouched(w', s) && AllYoung(w', since))
    ensures KeepsAwaiting(sent, w, w', s, since)
  {
    hide Got, AllYoung;
  }

  /** An advance, in time. */
  lemma AdvanceAwaits(sent: map<nat, Source>, w: Window, s: nat, config: Config, since: nat, now: nat)
    requires Settled(w) && Honest(sent, w) && Awaited(sent, w, s, since) && s <= MAX_MEDIA_SEQUENCE
    requires Timely(now, since, config)
    ensures KeepsAwaiting(sent, w, Advance(w, config, now), s, since)
  {
    hide Good, HeadClear, Honest, Got, AllYoung, Untouched, Advance, KeepsAwaiting;
    AdvanceContinues(w, config, now);
    if Got(sent, w, s) {
      GotKeeps(sent, w, Advance(w, config, now), s, since);
    } else if s in w.fragments && w.fragments[s].firstSeen >= since {
      AdvanceKeepsTheYoung(sent, w, s, config, now);
      KeptKeeps(sent, w, Advance(w, config, now), s, since);
    } else {
      AdvanceAwaitsUntouched(sent, w, s, config, since, now);
    }
  }

  lemma AdvanceAwaitsUntouched(sent: map<nat, Source>, w: Window, s: nat, config: Config, since: nat, now: nat)
    requires Settled(w) && Honest(sent, w) && !Got(sent, w, s) && Untouched(w, s) && AllYoung(w, since)
    requires s <= MAX_MEDIA_SEQUENCE && Timely(now, since, config)
    ensures KeepsAwaiting(sent, w, Advance(w, config, now), s, since)
  {
    hide Honest, AllYoung, Untouched, KeepsAwaiting, Moves, RecoverFec, HeadClear, Advance, AskRepairs;
    RecoverFecKeepsGood(w, now);
    hide Good;
    YoungAdvance(w, config, since, now);
    RecoverFecMoves(w, now);
    RecoverFecStaysHonest(sent, w, now);
    var recovered := RecoverFec(w, now);
    PassedIsAccepted(sent, w, recovered, s, now);
    AskingChangesRequestsOnly(recovered, config, now);
    AskedIsAsUntouched(sent, recovered, AskRepairs(recovered, config, now), s);
    UntouchedKeeps(sent, w, Advance(w, config, now), s, since);
  }

  lemma AskedIsAsUntouched(sent: map<nat, Source>, w: Window, w': Window, s: nat)
    requires SameButRequests(w, w')
    ensures Got(sent, w, s) ==> Got(sent, w', s)
    ensures Untouched(w, s) ==> Untouched(w', s)
  {
  }

  lemma RecoverKeepsAwaiting(sent: map<nat, Source>, w: Window, s: nat, config: Config, since: nat, now: nat)
    requires Settled(w) && Honest(sent, w) && Awaited(sent, w, s, since) && s <= MAX_MEDIA_SEQUENCE
    requires Timely(now, since, config)
    ensures KeepsAwaiting(sent, w, RecoverFec(w, now), s, since)
  {
    hide Honest, Got, AllYoung, Untouched, RecoverFec, KeepsAwaiting, Moves, Continues;
    RecoverFecKeepsGood(w, now);
    RecoverFecContinues(w, now);
    var w' := RecoverFec(w, now);
    if Got(sent, w, s) {
      GotKeeps(sent, w, w', s, since);
    } else if s in w.fragments && w.fragments[s].firstSeen >= since {
      RecoverFecKeeps(sent, w, s, now);
      KeptKeeps(sent, w, w', s, since);
    } else {
      RecoverFecMoves(w, now);
      RecoverFecStaysHonest(sent, w, now);
      PassedIsAccepted(sent, w, w', s, now);
      MovesKeepYoung(w, w', since, now);
      UntouchedKeeps(sent, w, w', s, since);
    }
  }

  lemma RecoverAndAdvanceAwaits(sent: map<nat, Source>, w: Window, s: nat, config: Config, since: nat, now: nat)
    requires Settled(w) && Honest(sent, w) && Awaited(sent, w, s, since) && s <= MAX_MEDIA_SEQUENCE
    requires Timely(now, since, config)
    ensures KeepsAwaiting(sent, w, RecoverAndAdvance(w, config, now), s, since)
  {
    RecoverFecKeepsGood(w, now);
    hide Good, HeadClear, Honest, Awaited, NoneLost, RecoverFec, Advance;
    var recovered := RecoverFec(w, now);
    RecoverKeepsAwaiting(sent, w, s, config, since, now);
    RecoverFecStaysHonest(sent, w, now);
    AdvanceAwaits(sent, recovered, s, config, since, now);
    KeepsOn(sent, w, recovered, Advance(recovered, config, now), s, since);
  }

  // ---------------------------------------------------------------- another packet arrives

  /** The same but for the fragments of another packet. */
  ghost predicate SameButFor(w: Window, w1: Window, r: nat) {
    w1 == w.(fragments := w1.fragments) && (w1.fragments == w.fragments - {r}
      || (r in w1.fragments && w1.fragments == w.fragments[r := w1.fragments[r]]))
  }

  lemma OthersKeepAwaiting(sent: map<nat, Source>, w: Window, w1: Window, r: nat, s: nat, since: nat)
    requires SameButFor(w, w1, r) && r != s && Awaited(sent, w, s, since)
    requires r in w1.fragments ==>
      w1.fragments[r].firstSeen >= since || (r in w.fragments && w1.fragments[r].firstSeen == w.fragments[r].firstSeen)
    ensures KeepsAwaiting(sent, w, w1, s, since)
  {
    if Untouched(w, s) && AllYoung(w, since) {
      forall t | t in PendingTimes(w1)
        ensures t >= since
      {
        if k :| k in w1.buffered && w1.buffered[k].receivedAt == t {
          assert w.buffered[k].receivedAt in PendingTimes(w);
        } else {
          var k :| k in w1.fragments && w1.fragments[k].firstSeen == t;
          assert k in w.fragments ==> w.fragments[k].firstSeen in PendingTimes(w);
        }
      }
    }
  }

  lemma AcceptOtherAwaits(sent: map<nat, Source>, w: Window, r: nat, p: Bytes, s: nat, config: Config,
                          since: nat, now: nat)
    requires Settled(w) && Honest(sent, w) && Awaited(sent, w, s, since) && s <= MAX_MEDIA_SEQUENCE
    requires Acceptable(w, r) && Genuine(sent, r, p) && Timely(now, since, config)
    ensures KeepsAwaiting(sent, w, Accept(w, r, p, now), s, since)
  {
    hide Honest, Got, AllYoung, Untouched, Accept, KeepsAwaiting, Moves, Continues, Genuine, Acceptable;
    AcceptKeepsGood(w, r, p, now);
    hide Good;
    AcceptContinues(w, r, p, now);
    var w' := Accept(w, r, p, now);
    if Got(sent, w, s) {
      GotKeeps(sent, w, w', s, since);
    } else if s in w.fragments && w.fragments[s].firstSeen >= since {
      AcceptKeepsFragments(w, r, p, now);
      KeptKeeps(sent, w, w', s, since);
    } else {
      AcceptMoves(w, r, p, now);
      AcceptStaysHonest(sent, w, r, p, now);
      PassedIsAccepted(sent, w, w', s, now);
      MovesKeepYoung(w, w', since, now);
      UntouchedKeeps(sent, w, w', s, since);
    }
  }

  /** Another packet is completed. */
  lemma CompleteOtherAwaits(sent: map<nat, Source>, w: Window, r: nat, p: Bytes, s: nat, config: Config,
                            since: nat, now: nat)
    requires Settled(w) && Honest(sent, w) && Awaited(sent, w, s, since) && s <= MAX_MEDIA_SEQUENCE && r != s
    requires Acceptable(w, r) && Genuine(sent, r, p) && Timely(now, since, config)
    ensures KeepsAwaiting(sent, w, Complete(w, r, p, config, now), s, since)
  {
    AcceptKeepsGood(w, r, p, now);
    hide Good, HeadClear, Honest, Awaited, NoneLost, RecoverAndAdvance, Accept, Acceptable, Genuine;
    var w1 := Accept(w, r, p, now);
    AcceptOtherAwaits(sent, w, r, p, s, config, since, now);
    AcceptStaysHonest(sent, w, r, p, now);
    RecoverAndAdvanceAwaits(sent, w1, s, config, since, now);
    KeepsOn(sent, w, w1, RecoverAndAdvance(w1, config, now), s, since);
  }

  lemma CollectOtherAwaits(sent: map<nat, Source>, w: Window, h: PacketHeader, a: FragmentAssembly, s: nat,
                           config: Config, since: nat, now: nat)
    requires Settled(w) && w.nextSeq <= h.sequence <= MAX_MEDIA_SEQUENCE && h.sequence !in w.buffered
    requires a.Valid() && a.received >= 1 && Consistent(sent) && Honest(sent, w) && HonestAssembly(sent, h.sequence, a)
    requires Awaited(sent, w, s, since) && s <= MAX_MEDIA_SEQUENCE && h.sequence != s && Timely(now, since, config)
    requires a.firstSeen == now || (h.sequence in w.fragments && a.firstSeen == w.fragments[h.sequence].firstSeen)
    ensures KeepsAwaiting(sent, w, Collect(w, h, a, config, now), s, since)
  {
    hide Settled, Honest, Consistent, Awaited, NoneLost, Complete, Collect, Advance, Acceptable, FragmentAssembly.Valid;
    var r := h.sequence;
    if a.IsComplete() {
      CollectIsComplete(w, h, a, config, now);
      var w1, p := w.(fragments := w.fragments - {r}), Concat(Values(a.slots));
      CompleteIsPayload(sent, r, a);
      DroppingStaysHonest(sent, w, r);
      OthersKeepAwaiting(sent, w, w1, r, s, since);
      CompleteOtherAwaits(sent, w1, r, p, s, config, since, now);
      KeepsOn(sent, w, w1, Complete(w1, r, p, config, now), s, since);
    } else {
      var w1 := w.(fragments := w.fragments[r := a]);
      CollectIsAdvance(w, h, a, config, now);
      UpdatedIsHonest(sent, w, r, a);
      OthersKeepAwaiting(sent, w, w1, r, s, since);
      AdvanceAwaits(sent, w1, s, config, since, now);
      KeepsOn(sent, w, w1, Advance(w1, config, now), s, since);
    }
  }

  lemma NothingDone(sent: map<nat, Source>, w: Window, s: nat, since: nat)
    requires Awaited(sent, w, s, since)
    ensures KeepsAwaiting(sent, w, w, s, since)
  {
  }

  lemma NewEntryIsFrom(w: Window, h: PacketHeader, payload: Bytes, now: nat)
    requires h.fragment < |EntryFor(w, h, now).slots| && EntryFor(w, h, now).Insert(h.fragment, payload).Some?
    ensures var a := EntryFor(w, h, now).Insert(h.fragment, payload).value;
      a.firstSeen == now || (h.sequence in w.fragments && a.firstSeen == w.fragments[h.sequence].firstSeen)
  {
  }

  /** Another packet at or past the head arrives, whole or in part. */
  lemma DeliverOtherAwaits(sent: map<nat, Source>, w: Window, h: PacketHeader, payload: Bytes, s: nat, config: Config,
                           since: nat, now: nat)
    requires Settled(w) && ValidHeader(h) && w.nextSeq <= h.sequence <= MAX_MEDIA_SEQUENCE
    requires Consistent(sent) && Honest(sent, w) && GenuinePacket(sent, h, payload)
    requires Awaited(sent, w, s, since) && s <= MAX_MEDIA_SEQUENCE && h.sequence != s && Timely(now, since, config)
    ensures KeepsAwaiting(sent, w, Deliver(w, h, payload, config, now), s, since)
  {
    hide Settled, Honest, Consistent, Awaited, NoneLost, Complete, Collect, Deliver, Acceptable, FragmentAssembly.Valid;
    hide EntryFor, HonestAssembly;
    NothingDone(sent, w, s, since);
    if h.sequence in w.buffered {
      DeliverIgnores(w, h, payload, config, now);
    } else if h.fragments == 1 {
      var w1 := w.(fragments := w.fragments - {h.sequence});
      DeliverIsComplete(w, h, payload, config, now);
      DroppingStaysHonest(sent, w, h.sequence);
      OthersKeepAwaiting(sent, w, w1, h.sequence, s, since);
      CompleteOtherAwaits(sent, w1, h.sequence, payload, s, config, since, now);
      KeepsOn(sent, w, w1, Complete(w1, h.sequence, payload, config, now), s, since);
    } else {
      DeliverIsCollect(w, h, payload, config, now);
      var entry := EntryFor(w, h, now);
      if |entry.slots| == h.fragments && entry.Insert(h.fragment, payload).Some? {
        EntryIsHonest(sent, w, h, payload, now);
        NewEntryIsFrom(w, h, payload, now);
        CollectOtherAwaits(sent, w, h, entry.Insert(h.fragment, payload).value, s, config, since, now);
      }
    }
  }

  // ---------------------------------------------------------------- the packet itself arrives

  lemma AwaitedIsYoung(sent: map<nat, Source>, w: Window, s: nat, since: nat)
    requires Good(w) && Awaited(sent, w, s, since)
    ensures Young(sent, w, s, since)
  {
    if s in w.fragments {
      StillCollecting(w, s);
    }
  }

  lemma PieceIsAwaited(sent: map<nat, Source>, w: Window, s: nat, i: nat, since: nat)
    requires HasPiece(sent, w, s, i, since)
    ensures Awaited(sent, w, s, since)
  {
  }

  /** The event brings piece i of packet s, by itself or in the whole. */
  predicate BringsPiece(sent: map<nat, Source>, h: PacketHeader, payload: Bytes, s: nat, i: nat)
    requires s in sent && i < |sent[s].pieces|
  {
    h.sequence == s && if h.fragments == 1 then payload == sent[s].payload
    else h == PieceHeader(sent, s, i) && payload == sent[s].pieces[i]
  }

  lemma WholeCopyGets(sent: map<nat, Source>, w: Window, h: PacketHeader, payload: Bytes, config: Config,
                      since: nat, now: nat)
    requires Settled(w) && ValidHeader(h) && w.nextSeq <= h.sequence <= MAX_MEDIA_SEQUENCE && h.fragments == 1
    requires h.sequence in sent && payload == sent[h.sequence].payload && Awaited(sent, w, h.sequence, since)
    ensures KeepsAwaiting(sent, w, Deliver(w, h, payload, config, now), h.sequence, since)
    ensures Got(sent, Deliver(w, h, payload, config, now), h.sequence)
  {
    hide Good, HeadClear, Deliver, Awaited, Got, ValidHeader;
    var w' := Deliver(w, h, payload, config, now);
    if h.sequence !in w.buffered {
      WholeIsGot(sent, w, h, payload, config, now);
    } else {
      BufferedIsGot(sent, w, h.sequence, since);
      DeliverContinues(w, h, payload, config, now);
      GotStays(sent, w, w', h.sequence);
    }
    GotIsAwaited(sent, w, w', h.sequence, since);
  }

  lemma WholeIsGot(sent: map<nat, Source>, w: Window, h: PacketHeader, payload: Bytes, config: Config, now: nat)
    requires Settled(w) && ValidHeader(h) && w.nextSeq <= h.sequence <= MAX_MEDIA_SEQUENCE && h.fragments == 1
    requires h.sequence in sent && payload == sent[h.sequence].payload && h.sequence !in w.buffered
    ensures Got(sent, Deliver(w, h, payload, config, now), h.sequence)
  {
    hide Settled, Deliver;
    assert h == PacketHeader(h.sequence, 0, 1);
    WholePacketIsAccepted(w, h.sequence, payload, config, now);
    assert (h.sequence, payload) == Deliver(w, h, payload, config, now).accepted[|w.accepted|];
  }

  lemma BufferedIsGot(sent: map<nat, Source>, w: Window, s: nat, since: nat)
    requires Good(w) && Awaited(sent, w, s, since) && s in w.buffered
    ensures Got(sent, w, s)
  {
  }

  lemma GotIsAwaited(sent: map<nat, Source>, w: Window, w': Window, s: nat, since: nat)
    requires Got(sent, w', s)
    ensures KeepsAwaiting(sent, w, w', s, since) && forall i :: HasPiece(sent, w', s, i, since)
  {
  }

  lemma PieceGets(sent: map<nat, Source>, w: Window, s: nat, i: nat, config: Config, since: nat, now: nat)
    requires Settled(w) && Honest(sent, w) && Consistent(sent) && Fragmented(sent, s) && i < |sent[s].pieces|
    requires Awaited(sent, w, s, since) && Timely(now, since, config)
    ensures var w' := OfferPiece(sent, w, s, i, config, now);
      KeepsAwaiting(sent, w, w', s, since) && HasPiece(sent, w', s, i, since)
  {
    AwaitedIsYoung(sent, w, s, since);
    hide Settled, Honest, Consistent, Fragmented, Awaited, Young, HasPiece, NoneLost, OfferPiece;
    OfferedAny(sent, w, s, i, config, now, since);
    PieceIsAwaited(sent, OfferPiece(sent, w, s, i, config, now), s, i, since);
  }
}
