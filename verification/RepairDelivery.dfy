/**
  Repair at the receiver: answers to its requests reach the stream. A whole packet
  replaces the assembly it was asked for; fragments complete it, as long as it is young.
*/
module RepairDelivery {
  import opened ByteStrings
  import opened Sequences
  import opened Wire
  import opened Assembly
  import opened Window
  import opened WindowLaws
  import opened Receiver
  import opened Integrity
  import opened FlowHistory
  import opened RepairCache
  import opened Sender
  import opened RepairLoop

  /** The sender's payload for s has been accepted. */
  ghost predicate Got(sent: map<nat, Source>, w: Window, s: nat) {
    s in sent && (s, sent[s].payload) in w.accepted
  }

  lemma GotStays(sent: map<nat, Source>, w: Window, w': Window, s: nat)
    requires Got(sent, w, s) && Continues(w, w')
    ensures Got(sent, w', s)
  {
  }

  // ---------------------------------------------------------------- a completed packet

  /** Completing a packet accepts its payload next. */
  lemma CompleteAccepts(w: Window, s: nat, p: Bytes, config: Config, now: nat)
    requires Settled(w) && Acceptable(w, s)
    ensures w.accepted + [(s, p)] <= Complete(w, s, p, config, now).accepted
    ensures (s, p) in Complete(w, s, p, config, now).accepted
  {
    AcceptKeepsGood(w, s, p, now);
    DrainContinues(ForwardHead(Note(w, s, p), p));
    assert w.accepted + [(s, p)] <= Accept(w, s, p, now).accepted;
    hide Accept, Settled, RecoverAndAdvance;
    RecoverAndAdvanceContinues(Accept(w, s, p, now), config, now);
    assert Complete(w, s, p, config, now).accepted[|w.accepted|] == (s, p);
  }

  /** A whole packet not held yet is accepted next, whatever fragments of it were collected. */
  lemma WholePacketIsAccepted(w: Window, s: nat, p: Bytes, config: Config, now: nat)
    requires Settled(w) && w.nextSeq <= s <= MAX_MEDIA_SEQUENCE && s !in w.buffered
    ensures w.accepted + [(s, p)] <= Deliver(w, PacketHeader(s, 0, 1), p, config, now).accepted
  {
    hide Settled, Deliver, Complete, Acceptable;
    DeliverIsComplete(w, PacketHeader(s, 0, 1), p, config, now);
    CompleteAccepts(w.(fragments := w.fragments - {s}), s, p, config, now);
  }

  // ---------------------------------------------------------------- a young assembly is not lost

  /** The assembly of s is as it was, or the payload has been accepted. */
  ghost predicate KeptOrGot(sent: map<nat, Source>, w: Window, w': Window, s: nat) {
    || Got(sent, w', s)
    || (s in w.fragments && s in w'.fragments && SameAssembly(w.fragments[s], w'.fragments[s]))
  }

  predicate SameAssembly(a: FragmentAssembly, b: FragmentAssembly) {
    a.slots == b.slots && a.firstSeen == b.firstSeen
  }

  lemma {:induction false} DrainKeepsFragments(w: Window)
    ensures Drain(w).fragments == w.fragments
    decreases |w.buffered|
  {
    if w.nextSeq in w.buffered {
      DrainKeepsFragments(DrainOne(w));
    }
  }

  lemma AcceptKeepsFragments(w: Window, s: nat, p: Bytes, now: nat)
    ensures Accept(w, s, p, now).fragments == w.fragments
    ensures (s, p) in Accept(w, s, p, now).accepted
  {
    var noted := ForwardHead(Note(w, s, p), p);
    DrainKeepsFragments(noted);
    DrainContinues(noted);
    assert noted.accepted[|w.accepted|] == (s, p);
  }

  lemma OneRecoveredKeeps(sent: map<nat, Source>, w: Window, s: nat, r: nat, p: Bytes, now: nat)
    requires Good(w) && s in w.fragments && Genuine(sent, r, p) && Wanted(w, r)
    ensures KeptOrGot(sent, w, AcceptRecovered(w, r, p, now), s)
  {
    hide Accept;
    AcceptKeepsFragments(w.(fragments := w.fragments - {r}), r, p, now);
  }

  lemma KeptThenKept(sent: map<nat, Source>, a: Window, b: Window, c: Window, s: nat)
    requires KeptOrGot(sent, a, b, s) && Continues(b, c)
    requires s in b.fragments ==> KeptOrGot(sent, b, c, s)
    ensures KeptOrGot(sent, a, c, s)
  {
  }

  lemma {:induction false} AcceptAllKeeps(sent: map<nat, Source>, w: Window, batch: seq<(nat, Bytes)>, s: nat, now: nat)
    requires Good(w) && HeadClear(w) && MediaBatch(batch) && GenuineBatch(sent, batch) && s in w.fragments
    ensures KeptOrGot(sent, w, AcceptAll(w, batch, now).0, s)
  {
    if batch != [] {
      var n := |batch| - 1;
      var front, r, p := batch[..n], batch[n].0, batch[n].1;
      var w' := AcceptAll(w, front, now).0;
      AcceptAllKeepsGood(w, front, now);
      AcceptAllKeeps(sent, w, front, s, now);
      if Wanted(w', r) {
        AcceptContinues(w'.(fragments := w'.fragments - {r}), r, p, now);
        hide Good, Accept, Wanted, KeptOrGot, AcceptRecovered;
        if s in w'.fragments {
          StillCollecting(w', s);
          OneRecoveredKeeps(sent, w', s, r, p, now);
        }
        RecoveredContinues(w', r, p, now);
        KeptThenKept(sent, w, w', AcceptRecovered(w', r, p, now), s);
      }
    }
  }

  /** An assembly's number is at or past the head and not buffered, so it is still wanted. */
  lemma StillCollecting(w: Window, s: nat)
    requires Good(w) && s in w.fragments
    ensures w.nextSeq <= s <= MAX_MEDIA_SEQUENCE && s !in w.buffered && s !in w.seen
  {
  }

  lemma RecoveredContinues(w: Window, r: nat, p: Bytes, now: nat)
    ensures Continues(w, AcceptRecovered(w, r, p, now))
  {
    AcceptContinues(w.(fragments := w.fragments - {r}), r, p, now);
    hide Accept;
  }

  lemma {:induction false} RecoverFecKeeps(sent: map<nat, Source>, w: Window, s: nat, now: nat)
    requires Good(w) && HeadClear(w) && Honest(sent, w) && s in w.fragments
    ensures KeptOrGot(sent, w, RecoverFec(w, now), s)
    decreases |w.fec.frames|
  {
    var (w', recovered) := Peel(w);
    PeelKeepsGood(w);
    RecoveredAreGenuine(sent, w.fec, w.nextSeq, w.buffered);
    if recovered != [] {
      var (w'', any) := AcceptAll(w', recovered, now);
      AcceptAllKeepsGood(w', recovered, now);
      PeelStaysHonest(sent, w);
      AcceptAllKeeps(sent, w', recovered, s, now);
      assert KeptOrGot(sent, w, w'', s);
      if any {
        hide Good, Honest, AcceptAll, KeptOrGot, HeadClear;
        PeelingShrinks(w, now);
        AcceptAllStaysHonest(sent, w', recovered, now);
        if s in w''.fragments {
          RecoverFecKeeps(sent, w'', s, now);
        }
        RecoverFecContinues(w'', now);
        KeptThenKept(sent, w, w'', RecoverFec(w'', now), s);
      }
    }
  }

  lemma PeelStaysHonest(sent: map<nat, Source>, w: Window)
    requires Honest(sent, w)
    ensures Honest(sent, Peel(w).0)
  {
  }

  lemma AskingKeeps(w: Window, s: nat, config: Config, now: nat)
    requires Good(w) && s in w.fragments
    ensures s in AskRepairs(w, config, now).fragments
    ensures SameAssembly(w.fragments[s], AskRepairs(w, config, now).fragments[s])
  {
    if config.repairInterval.Some? {
      RequestRepairsIsSound(w, config.repairInterval.value, now);
    }
  }

  /** Expiry goes past an assembly only once it has waited for the delay. */
  lemma {:induction false} ExpiryKeepsTheYoung(w: Window, s: nat, delay: nat, now: nat)
    requires Ahead(w) && s in w.fragments && Elapsed(now, w.fragments[s].firstSeen) < delay
    ensures s in Expire(w, delay, now).fragments && Expire(w, delay, now).fragments[s] == w.fragments[s]
    decreases |w.fragments|, MAX_MEDIA_SEQUENCE - w.nextSeq
  {
    match HeadAction(w, delay, now)
    case Stop =>
    case GiveUp =>
      DropKeepsAhead(w);
      ExpiryKeepsTheYoung(DropAssembly(w), s, delay, now);
    case Skip =>
      SkipKeepsAhead(w, delay, now);
      ExpiryKeepsTheYoung(SkipHead(w, NeverReceived), s, delay, now);
  }

  lemma AdvanceFromKeepsTheYoung(w: Window, s: nat, config: Config, now: nat)
    requires Good(w) && s in w.fragments && Elapsed(now, w.fragments[s].firstSeen) < config.maxReorderDelay
    ensures s in AdvanceFrom(w, config, now).fragments && AdvanceFrom(w, config, now).fragments[s] == w.fragments[s]
  {
    ExpiryKeepsTheYoung(w, s, config.maxReorderDelay, now);
    DrainKeepsFragments(Expire(w, config.maxReorderDelay, now));
    hide Expire, Drain, Good;
  }

  lemma AskedAndAdvanced(sent: map<nat, Source>, w: Window, s: nat, config: Config, now: nat)
    requires Good(w) && s in w.fragments && Elapsed(now, w.fragments[s].firstSeen) < config.maxReorderDelay
    requires Good(AskRepairs(w, config, now))
    ensures KeptOrGot(sent, w, AdvanceFrom(AskRepairs(w, config, now), config, now), s)
  {
    hide Good, AskRepairs, AdvanceFrom;
    AskingKeeps(w, s, config, now);
    AdvanceFromKeepsTheYoung(AskRepairs(w, config, now), s, config, now);
  }

  lemma AdvanceKeepsTheYoung(sent: map<nat, Source>, w: Window, s: nat, config: Config, now: nat)
    requires Settled(w) && Honest(sent, w) && s in w.fragments
    requires Elapsed(now, w.fragments[s].firstSeen) < config.maxReorderDelay
    ensures KeptOrGot(sent, w, Advance(w, config, now), s)
  {
    RecoverFecKeepsGood(w, now);
    RecoverFecKeeps(sent, w, s, now);
    var recovered := RecoverFec(w, now);
    AskRepairsContinues(recovered, config, now);
    var asked := AskRepairs(recovered, config, now);
    hide Good, Honest, RecoverFec, HeadClear, AdvanceFrom, AskRepairs;
    AdvanceFromContinues(asked, config, now);
    ContinuesOn(recovered, asked, AdvanceFrom(asked, config, now));
    if s in recovered.fragments && SameAssembly(w.fragments[s], recovered.fragments[s]) {
      AskedAndAdvanced(sent, recovered, s, config, now);
    }
    KeptThenKept(sent, w, recovered, AdvanceFrom(asked, config, now), s);
  }

  // ---------------------------------------------------------------- one piece

  /** Piece i is in the assembly of s, which nobody has touched before `since`, or the payload has been accepted. */
  ghost predicate HasPiece(sent: map<nat, Source>, w: Window, s: nat, i: nat, since: nat) {
    || Got(sent, w, s)
    || (s in w.fragments && w.fragments[s].firstSeen >= since
        && i < |w.fragments[s].slots| && w.fragments[s].slots[i].Some?)
  }

  /** Nothing of s has been touched before `since`, unless the payload has been accepted. */
  ghost predicate Young(sent: map<nat, Source>, w: Window, s: nat, since: nat) {
    || Got(sent, w, s)
    || (w.nextSeq <= s && s !in w.buffered && (s in w.fragments ==> w.fragments[s].firstSeen >= since))
  }

  /** Pieces are not lost while the assembly is young. */
  ghost predicate NoneLost(sent: map<nat, Source>, w: Window, w': Window, s: nat, since: nat) {
    forall j :: HasPiece(sent, w, s, j, since) ==> HasPiece(sent, w', s, j, since)
  }

  lemma KeptLosesNone(sent: map<nat, Source>, w: Window, w': Window, s: nat, since: nat)
    requires s in w.fragments && w.fragments[s].firstSeen >= since && KeptOrGot(sent, w, w', s) && Good(w')
    requires Got(sent, w, s) ==> Got(sent, w', s)
    ensures NoneLost(sent, w, w', s, since) && Young(sent, w', s, since)
    ensures forall j :: 0 <= j < |w.fragments[s].slots| && w.fragments[s].slots[j].Some? ==>
      HasPiece(sent, w', s, j, since)
  {
    if s in w'.fragments {
      StillCollecting(w', s);
    }
    hide Good;
  }

  /** A fragment inserted into its assembly, new or not. */
  lemma CollectedPiece(sent: map<nat, Source>, w: Window, h: PacketHeader, a: FragmentAssembly, config: Config,
                       now: nat, since: nat)
    requires Settled(w) && w.nextSeq <= h.sequence <= MAX_MEDIA_SEQUENCE && h.sequence !in w.buffered
    requires a.Valid() && a.received >= 1 && Consistent(sent) && Honest(sent, w) && HonestAssembly(sent, h.sequence, a)
    requires a.firstSeen >= since && Elapsed(now, a.firstSeen) < config.maxReorderDelay
    ensures var w' := Collect(w, h, a, config, now);
      && Young(sent, w', h.sequence, since)
      && forall j :: 0 <= j < |a.slots| && a.slots[j].Some? ==> HasPiece(sent, w', h.sequence, j, since)
  {
    hide Settled, Collect, Complete, Advance, Acceptable, Honest, Consistent;
    if a.IsComplete() {
      CollectIsComplete(w, h, a, config, now);
      CompleteIsPayload(sent, h.sequence, a);
      CompleteAccepts(w.(fragments := w.fragments - {h.sequence}), h.sequence, Concat(Values(a.slots)), config, now);
    } else {
      CollectIsAdvance(w, h, a, config, now);
      UpdatedIsHonest(sent, w, h.sequence, a);
      YoungAdvances(sent, w.(fragments := w.fragments[h.sequence := a]), h.sequence, config, now, since);
    }
  }

  lemma CompleteIsPayload(sent: map<nat, Source>, s: nat, a: FragmentAssembly)
    requires Consistent(sent) && HonestAssembly(sent, s, a) && AllFilled(a.slots)
    ensures Concat(Values(a.slots)) == sent[s].payload
  {
    CompleteIsWhole(a.slots, sent[s].pieces);
  }

  lemma YoungAdvances(sent: map<nat, Source>, w: Window, s: nat, config: Config, now: nat, since: nat)
    requires Settled(w) && Honest(sent, w) && s in w.fragments && w.fragments[s].firstSeen >= since
    requires Elapsed(now, w.fragments[s].firstSeen) < config.maxReorderDelay
    ensures var w' := Advance(w, config, now);
      && Young(sent, w', s, since)
      && forall j :: 0 <= j < |w.fragments[s].slots| && w.fragments[s].slots[j].Some? ==>
        HasPiece(sent, w', s, j, since)
  {
    var w' := Advance(w, config, now);
    assert Good(w');
    hide Advance, Good, Honest, Young, HasPiece, NoneLost;
    AdvanceKeepsTheYoung(sent, w, s, config, now);
    AdvanceContinues(w, config, now);
    if Got(sent, w, s) {
      GotStays(sent, w, w', s);
    }
    hide KeptOrGot, Got, Continues;
    KeptLosesNone(sent, w, w', s, since);
  }

  /** The sender's piece i of packet s, as a packet. */
  function PieceHeader(sent: map<nat, Source>, s: nat, i: nat): PacketHeader
    requires s in sent && i < |sent[s].pieces|
  {
    PacketHeader(s, i, |sent[s].pieces|)
  }

  /** A packet as the receiver takes it: below the head it changes nothing. */
  ghost function Offer(w: Window, h: PacketHeader, payload: Bytes, config: Config, now: nat): (w': Window)
    requires Settled(w) && ValidHeader(h) && h.sequence <= MAX_MEDIA_SEQUENCE
    ensures Settled(w')
  {
    if h.sequence < w.nextSeq then w else Deliver(w, h, payload, config, now)
  }

  predicate Fragmented(sent: map<nat, Source>, s: nat) {
    s in sent && s <= MAX_MEDIA_SEQUENCE && 2 <= |sent[s].pieces| <= MAX_FRAGMENTS
  }

  ghost function OfferPiece(sent: map<nat, Source>, w: Window, s: nat, i: nat, config: Config, now: nat): (w': Window)
    requires Settled(w) && Fragmented(sent, s) && i < |sent[s].pieces|
    ensures Settled(w')
  {
    Offer(w, PieceHeader(sent, s, i), sent[s].pieces[i], config, now)
  }

  /** Piece i has come in, and no other piece was lost. */
  ghost predicate TakenIn(sent: map<nat, Source>, w: Window, w': Window, s: nat, i: nat, since: nat) {
    Young(sent, w', s, since) && NoneLost(sent, w, w', s, since) && HasPiece(sent, w', s, i, since)
  }

  lemma EntryKeepsPieces(sent: map<nat, Source>, w: Window, h: PacketHeader, now: nat, since: nat)
    requires Settled(w) && ValidHeader(h) && h.fragments != 1 && h.sequence in sent
      && h.fragments == |sent[h.sequence].pieces|
    requires Honest(sent, w) && (h.sequence in w.fragments ==> w.fragments[h.sequence].firstSeen >= since)
      && now >= since
    ensures var a := EntryFor(w, h, now);
      && HonestAssembly(sent, h.sequence, a) && |a.slots| == h.fragments && a.firstSeen >= since
      && forall j: nat :: HasPiece(sent, w, h.sequence, j, since) && !Got(sent, w, h.sequence) ==>
        j < |a.slots| && a.slots[j].Some?
  {
  }

  lemma InsertedPieces(sent: map<nat, Source>, s: nat, a: FragmentAssembly, i: nat)
    requires s in sent && HonestAssembly(sent, s, a) && i < |a.slots| && a.Valid()
      && a.Insert(i, sent[s].pieces[i]).Some?
    ensures var b := a.Insert(i, sent[s].pieces[i]).value;
      && HonestAssembly(sent, s, b) && b.firstSeen == a.firstSeen && |b.slots| == |a.slots|
      && forall j :: 0 <= j < |b.slots| ==> (b.slots[j].Some? <==> a.slots[j].Some? || j == i)
  {
  }

  /** A new piece goes into its assembly, and what was there stays. */
  lemma NewPieceIsIn(sent: map<nat, Source>, w: Window, h: PacketHeader, entry: FragmentAssembly,
                     config: Config, now: nat, since: nat)
    requires Settled(w) && Honest(sent, w) && Consistent(sent) && ValidHeader(h) && !Got(sent, w, h.sequence)
    requires w.nextSeq <= h.sequence <= MAX_MEDIA_SEQUENCE && h.sequence !in w.buffered
    requires entry.Valid() && HonestAssembly(sent, h.sequence, entry) && |entry.slots| == h.fragments
    requires since <= entry.firstSeen && Elapsed(now, entry.firstSeen) < config.maxReorderDelay
    requires forall j: nat :: HasPiece(sent, w, h.sequence, j, since) ==> j < |entry.slots| && entry.slots[j].Some?
    requires var a := entry.Insert(h.fragment, sent[h.sequence].pieces[h.fragment]);
      a.Some? && a.value.Valid() && a.value.received >= 1
    ensures var a := entry.Insert(h.fragment, sent[h.sequence].pieces[h.fragment]).value;
      TakenIn(sent, w, Collect(w, h, a, config, now), h.sequence, h.fragment, since)
  {
    var s, a := h.sequence, entry.Insert(h.fragment, sent[h.sequence].pieces[h.fragment]).value;
    InsertedPieces(sent, s, entry, h.fragment);
    hide Settled, Honest, Consistent, Collect, HonestAssembly, HasPiece, NoneLost, Got, Young, ValidHeader;
    CollectedPiece(sent, w, h, a, config, now, since);
    PiecesCarryOver(sent, w, Collect(w, h, a, config, now), s, a, since);
  }

  /** Offering a piece while the assembly is young: it is in, nothing is lost. */
  lemma OfferedPiece(sent: map<nat, Source>, w: Window, s: nat, i: nat, config: Config, now: nat, since: nat)
    requires Settled(w) && Honest(sent, w) && Consistent(sent) && Fragmented(sent, s) && i < |sent[s].pieces|
    requires Young(sent, w, s, since) && !Got(sent, w, s) && since <= now < since + config.maxReorderDelay
    ensures TakenIn(sent, w, OfferPiece(sent, w, s, i, config, now), s, i, since)
  {
    hide Settled, Honest, Consistent, Deliver, Collect, EntryFor, HonestAssembly, HasPiece, NoneLost, Got, Young;
    hide FragmentAssembly.Valid;
    var h, p := PieceHeader(sent, s, i), sent[s].pieces[i];
    YoungIsAhead(sent, w, s, since);
    EntryKeepsPieces(sent, w, h, now, since);
    hide ValidHeader;
    DeliverIsCollect(w, h, p, config, now);
    if EntryFor(w, h, now).Insert(i, p).None? {
      FilledEntryIsHeld(sent, w, h, i, now, since);
      NothingIsLost(sent, w, s, since);
    } else {
      NewPieceIsIn(sent, w, h, EntryFor(w, h, now), config, now, since);
    }
  }

  lemma YoungIsAhead(sent: map<nat, Source>, w: Window, s: nat, since: nat)
    requires Young(sent, w, s, since) && !Got(sent, w, s)
    ensures w.nextSeq <= s && s !in w.buffered && (s in w.fragments ==> w.fragments[s].firstSeen >= since)
  {
  }

  lemma NothingIsLost(sent: map<nat, Source>, w: Window, s: nat, since: nat)
    ensures NoneLost(sent, w, w, s, since)
  {
  }

  lemma PiecesCarryOver(sent: map<nat, Source>, w: Window, w': Window, s: nat, a: FragmentAssembly, since: nat)
    requires !Got(sent, w, s)
    requires forall j: nat :: HasPiece(sent, w, s, j, since) ==> j < |a.slots| && a.slots[j].Some?
    requires forall j :: 0 <= j < |a.slots| && a.slots[j].Some? ==> HasPiece(sent, w', s, j, since)
    ensures NoneLost(sent, w, w', s, since)
  {
  }

  lemma FilledEntryIsHeld(sent: map<nat, Source>, w: Window, h: PacketHeader, i: nat, now: nat, since: nat)
    requires i < |EntryFor(w, h, now).slots| && EntryFor(w, h, now).slots[i].Some?
      && EntryFor(w, h, now).firstSeen >= since
    ensures HasPiece(sent, w, h.sequence, i, since)
  {
  }

  // ---------------------------------------------------------------- several pieces

  /** The pieces with the listed indices, offered one after another. */
  ghost function OfferAll(sent: map<nat, Source>, w: Window, s: nat, order: seq<nat>, times: seq<nat>,
                          config: Config): (w': Window)
    requires Settled(w) && Fragmented(sent, s) && |times| == |order|
    requires forall k :: 0 <= k < |order| ==> order[k] < |sent[s].pieces|
    ensures Settled(w')
    decreases |order|
  {
    if order == [] then w else
    var n := |order| - 1;
    OfferPiece(sent, OfferAll(sent, w, s, order[..n], times[..n], config), s, order[n], config, times[n])
  }

  lemma OfferStaysHonest(sent: map<nat, Source>, w: Window, s: nat, i: nat, config: Config, now: nat)
    requires Settled(w) && Honest(sent, w) && Consistent(sent) && Fragmented(sent, s) && i < |sent[s].pieces|
    ensures Honest(sent, OfferPiece(sent, w, s, i, config, now))
  {
    hide Settled, Honest, Consistent, Deliver;
    if s >= w.nextSeq {
      DeliverStaysHonest(sent, w, PieceHeader(sent, s, i), sent[s].pieces[i], config, now);
    }
  }

  lemma OfferContinues(sent: map<nat, Source>, w: Window, s: nat, i: nat, config: Config, now: nat)
    requires Settled(w) && Fragmented(sent, s) && i < |sent[s].pieces|
    ensures Continues(w, OfferPiece(sent, w, s, i, config, now))
  {
    hide Settled, Deliver;
    if s >= w.nextSeq {
      DeliverContinues(w, PieceHeader(sent, s, i), sent[s].pieces[i], config, now);
    }
  }

  /** Once the payload is accepted, every piece counts as in. */
  lemma GotHasAll(sent: map<nat, Source>, w: Window, w': Window, s: nat, i: nat, since: nat)
    requires Got(sent, w, s) && Continues(w, w')
    ensures TakenIn(sent, w, w', s, i, since)
  {
    GotStays(sent, w, w', s);
    hide Got, Continues;
  }

  lemma OfferedAny(sent: map<nat, Source>, w: Window, s: nat, i: nat, config: Config, now: nat, since: nat)
    requires Settled(w) && Honest(sent, w) && Consistent(sent) && Fragmented(sent, s) && i < |sent[s].pieces|
    requires Young(sent, w, s, since) && since <= now < since + config.maxReorderDelay
    ensures TakenIn(sent, w, OfferPiece(sent, w, s, i, config, now), s, i, since)
    ensures Honest(sent, OfferPiece(sent, w, s, i, config, now))
  {
    hide Settled, Honest, Consistent, Young, TakenIn, Got, OfferPiece, Fragmented;
    OfferStaysHonest(sent, w, s, i, config, now);
    if Got(sent, w, s) {
      OfferContinues(sent, w, s, i, config, now);
      GotHasAll(sent, w, OfferPiece(sent, w, s, i, config, now), s, i, since);
    } else {
      OfferedPiece(sent, w, s, i, config, now, since);
    }
  }

  /** All in time: no offer comes before `since` or a reorder delay after it. */
  predicate AllInTime(times: seq<nat>, since: nat, config: Config) {
    forall k :: 0 <= k < |times| ==> since <= times[k] < since + config.maxReorderDelay
  }

  ghost predicate TakenInAll(sent: map<nat, Source>, w: Window, w': Window, s: nat, order: seq<nat>, since: nat) {
    && Young(sent, w', s, since) && NoneLost(sent, w, w', s, since)
    && forall k :: 0 <= k < |order| ==> HasPiece(sent, w', s, order[k], since)
  }

  lemma OneMoreTakenIn(sent: map<nat, Source>, w: Window, w': Window, w'': Window, s: nat, order: seq<nat>, since: nat)
    requires order != [] && TakenInAll(sent, w, w', s, order[..|order| - 1], since)
    requires TakenIn(sent, w', w'', s, order[|order| - 1], since)
    ensures TakenInAll(sent, w, w'', s, order, since)
  {
    hide HasPiece, Young;
    var n := |order| - 1;
    forall k | 0 <= k < |order|
      ensures HasPiece(sent, w'', s, order[k], since)
    {
      if k < n {
        assert HasPiece(sent, w', s, order[..n][k], since);
      }
    }
  }

  lemma {:induction false} AllAreTakenIn(sent: map<nat, Source>, w: Window, s: nat, order: seq<nat>, times: seq<nat>,
                                         config: Config, since: nat)
    requires Settled(w) && Honest(sent, w) && Consistent(sent) && Fragmented(sent, s) && |times| == |order|
    requires forall k :: 0 <= k < |order| ==> order[k] < |sent[s].pieces|
    requires Young(sent, w, s, since) && AllInTime(times, since, config)
    ensures var w' := OfferAll(sent, w, s, order, times, config);
      TakenInAll(sent, w, w', s, order, since) && Honest(sent, w')
    decreases |order|
  {
    hide Settled, Honest, Consistent, Young, TakenIn, Fragmented, HasPiece, Got, OfferPiece;
    if order == [] {
      NothingIsLost(sent, w, s, since);
    } else {
      var n := |order| - 1;
      AllAreTakenIn(sent, w, s, order[..n], times[..n], config, since);
      var w' := OfferAll(sent, w, s, order[..n], times[..n], config);
      OfferedAny(sent, w', s, order[n], config, times[n], since);
      OneMoreTakenIn(sent, w, w', OfferPiece(sent, w', s, order[n], config, times[n]), s, order, since);
    }
  }

  /** With every piece in, the payload has been accepted: no assembly is ever kept full. */
  lemma AllPiecesMeanAccepted(sent: map<nat, Source>, w: Window, s: nat, since: nat)
    requires Good(w) && Honest(sent, w) && s in sent && |sent[s].pieces| > 0
    requires forall i :: 0 <= i < |sent[s].pieces| ==> HasPiece(sent, w, s, i, since)
    ensures Got(sent, w, s)
  {
    if !Got(sent, w, s) {
      assert HasPiece(sent, w, s, 0, since);
      var a := w.fragments[s];
      assert HonestAssembly(sent, s, a) && a.Valid() && a.received < |a.slots|;
      forall i | 0 <= i < |a.slots|
        ensures a.slots[i].Some?
      {
        assert HasPiece(sent, w, s, i, since);
      }
      FilledIsAll(a.slots);
    }
  }

  /**
    Whatever was collected of a packet, as long as it is young: offering what is missing,
    in any order, with repetition, has its payload accepted.
  */
  lemma MissingPiecesAreAccepted(sent: map<nat, Source>, w: Window, s: nat, order: seq<nat>, times: seq<nat>,
                                 config: Config, since: nat)
    requires Settled(w) && Honest(sent, w) && Consistent(sent) && Fragmented(sent, s) && |times| == |order|
    requires forall k :: 0 <= k < |order| ==> order[k] < |sent[s].pieces|
    requires Young(sent, w, s, since) && AllInTime(times, since, config)
    requires forall i :: 0 <= i < |sent[s].pieces| ==> i in order || HasPiece(sent, w, s, i, since)
    ensures Got(sent, OfferAll(sent, w, s, order, times, config), s)
  {
    hide Honest, Consistent, Young, HasPiece, Got, OfferAll;
    AllAreTakenIn(sent, w, s, order, times, config, since);
    var w' := OfferAll(sent, w, s, order, times, config);
    forall i | 0 <= i < |sent[s].pieces|
      ensures HasPiece(sent, w', s, i, since)
    {
      if i in order {
        var k :| 0 <= k < |order| && order[k] == i;
      }
    }
    AllPiecesMeanAccepted(sent, w', s, since);
  }

  // ---------------------------------------------------------------- answers from the cache

  predicate IsMedia(d: Bytes) {
    && ParseFrame(d).Ok? && ParseFrame(d).value.MediaFrame?
    && ValidHeader(ParseFrame(d).value.packet.header)
    && ParseFrame(d).value.packet.header.sequence <= MAX_MEDIA_SEQUENCE
  }

  function MediaOf(d: Bytes): (packet: Packet)
    requires IsMedia(d)
    ensures ValidHeader(packet.header) && packet.header.sequence <= MAX_MEDIA_SEQUENCE
  {
    ParseFrame(d).value.packet
  }

  predicate AllMedia(datagrams: seq<Bytes>) {
    forall k :: 0 <= k < |datagrams| ==> IsMedia(datagrams[k])
  }

  /** What the receiver makes of one media datagram after another. */
  ghost function OfferDatagrams(w: Window, datagrams: seq<Bytes>, times: seq<nat>, config: Config): (w': Window)
    requires Settled(w) && |times| == |datagrams| && AllMedia(datagrams)
    ensures Settled(w')
    decreases |datagrams|
  {
    if datagrams == [] then w else
    var n := |datagrams| - 1;
    var packet := MediaOf(datagrams[n]);
    Offer(OfferDatagrams(w, datagrams[..n], times[..n], config), packet.header, packet.payload, config, times[n])
  }

  /** The datagram is the sender's piece i of packet s. */
  predicate IsPiece(sent: map<nat, Source>, s: nat, i: nat, d: Bytes)
    requires s in sent && i < |sent[s].pieces|
  {
    ParseFrame(d) == Ok(MediaFrame(Packet(PieceHeader(sent, s, i), sent[s].pieces[i])))
  }

  function PacketsOf(fragments: seq<CachedFragment>): (packets: seq<Bytes>)
    ensures |packets| == |fragments|
  {
    seq(|fragments|, (k: nat) requires k < |fragments| => fragments[k].packet)
  }

  /** The sender kept the fragments of packet s. */
  ghost predicate KeptInFragments(sent: map<nat, Source>, c: Cache, s: Sent, lengths: seq<nat>, now: nat) {
    && CacheOk(c) && WellSent(s) && s.sequence in sent && sent[s.sequence] == Source(s.payload, s.pieces)
    && |lengths| == |s.pieces| && s.sequence in Current(c, now).packets
    && Current(c, now).packets[s.sequence].fragments == Entry(FragmentPackets(s.sequence, s.pieces), lengths)
  }

  lemma AssemblyIsUsable(sent: map<nat, Source>, w: Window, s: nat)
    requires Settled(w) && Honest(sent, w) && s in w.fragments
    ensures var a := w.fragments[s];
      && a.Valid() && !a.IsComplete() && s in sent && SlotsFrom(a.slots, sent[s].pieces) && Fragmented(sent, s)
      && Young(sent, w, s, a.firstSeen)
      && forall i :: 0 <= i < |sent[s].pieces| && a.slots[i].Some? ==> HasPiece(sent, w, s, i, a.firstSeen)
  {
    assert HonestAssembly(sent, s, w.fragments[s]);
  }

  /**
    A packet cached whole is answered whole, and the whole packet replaces what was
    collected of it: the payload is accepted next, young or not.
  */
  lemma WholeRepairIsAccepted(c: Cache, s: Sent, length: nat, request: RepairRequest, asked: nat, w: Window,
                              config: Config, now: nat)
    requires CacheOk(c) && WellSent(s) && request.sequence == s.sequence && Answers(c, request, asked)
    requires Current(c, asked).packets[s.sequence].fragments == Entry([WholePacket(s.sequence, s.payload)], [length])
    requires Settled(w) && w.nextSeq <= s.sequence && s.sequence !in w.buffered
    ensures var answer := PacketsOf(Reply(c, request, asked));
      && |answer| == 1 && AllMedia(answer)
      && w.accepted + [(s.sequence, s.payload)] <= OfferDatagrams(w, answer, [now], config).accepted
  {
    hide Settled, Deliver, Reply, Current, ParseFrame, Answers, CacheOk;
    WholeRepairReplaces(c, s, length, request, asked);
    WholePacketIsAccepted(w, s.sequence, s.payload, config, now);
    hide WellSent, WholePacket;
    var answer := PacketsOf(Reply(c, request, asked));
    assert MediaOf(answer[0]) == Packet(PacketHeader(s.sequence, 0, 1), s.payload);
    assert answer[..0] == [];
  }
}
