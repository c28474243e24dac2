/**
  What no move of the window undoes: a packet that is complete or passed stays so, an
  assembly stays with the time it was last asked for, and as long as the head stands still
  so do its gap request and the buffer. Places are counted within one lap of the number
  space, so the laws hold for flows that have wrapped as well.
*/
module WindowMoves {
  import opened ByteStrings
  import opened Sequences
  import opened Assembly
  import opened FecRecovery
  import opened Window
  import opened WindowLaws

  /** Which lap the head is on: the same for every state between two wraps, and greater after each. */
  function Lap(w: Window): int {
    |w.log| - w.nextSeq
  }

  /** On lap o, packet q is complete and waits in the buffer, or the head has passed it. */
  predicate Gone(w: Window, q: nat, o: int) {
    q in w.buffered || q + o < |w.log|
  }

  predicate StillCollected(w: Window, w': Window, q: nat) {
    q in w.fragments && q in w'.fragments
    && w'.fragments[q].lastRepairRequest == w.fragments[q].lastRepairRequest
  }

  /** The head has not moved, and what belongs to it has not changed. */
  ghost predicate HeadStands(w: Window, w': Window) {
    && w'.nextSeq == w.nextSeq && w'.gapRequests == w.gapRequests
    && forall k :: k in w.buffered ==> k in w'.buffered && w'.buffered[k] == w.buffered[k]
  }

  ghost predicate Later(w: Window, w': Window, o: int) {
    && Lap(w') >= Lap(w) && |w.log| <= |w'.log| && w'.repairs == w.repairs
    && (forall q :: Gone(w, q, o) ==> Gone(w', q, o))
    && (forall q :: q in w.fragments ==> Gone(w', q, o) || StillCollected(w, w', q))
    && (|w'.log| == |w.log| ==> HeadStands(w, w'))
  }

  lemma LaterOn(a: Window, b: Window, c: Window, o: int)
    requires Later(a, b, o) && Later(b, c, o)
    ensures Later(a, c, o)
  {
  }

  lemma NotLater(w: Window, o: int)
    ensures Later(w, w, o)
  {
  }

  lemma DrainOneIsLater(w: Window, o: int)
    requires w.nextSeq in w.buffered && Lap(w) >= o
    ensures Later(w, DrainOne(w), o)
  {
    hide InsertPayload;
  }

  lemma {:induction false} DrainIsLater(w: Window, o: int)
    requires Lap(w) >= o
    ensures Later(w, Drain(w), o)
    decreases |w.buffered|
  {
    hide Later, DrainOne;
    if w.nextSeq in w.buffered {
      DrainOneIsLater(w, o);
      DrainOneFits(w);
      LaterLap(w, DrainOne(w), o);
      DrainIsLater(DrainOne(w), o);
      LaterOn(w, DrainOne(w), Drain(DrainOne(w)), o);
    } else {
      NotLater(w, o);
    }
  }

  lemma DrainOneFits(w: Window)
    requires w.nextSeq in w.buffered
    ensures |DrainOne(w).buffered| < |w.buffered|
  {
    RemovalShrinks(w.buffered, w.nextSeq);
  }

  lemma LaterLap(w: Window, w': Window, o: int)
    requires Later(w, w', o)
    ensures Lap(w') >= Lap(w)
  {
  }

  /** A packet that is complete leaves its assembly for the buffer, or goes out through the head. */
  lemma WholeIsLater(w: Window, s: nat, p: Bytes, now: nat, o: int)
    requires Lap(w) >= o && s !in w.buffered
    ensures var w1 := w.(fragments := w.fragments - {s});
      if s == w.nextSeq then Later(w, ForwardHead(Note(w1, s, p), p), o) else Later(w, Hold(w1, s, p, now), o)
  {
    hide InsertPayload;
  }

  lemma AcceptIsLater(w: Window, s: nat, p: Bytes, now: nat, o: int)
    requires Lap(w) >= o && s !in w.buffered
    ensures Later(w, AcceptRecovered(w, s, p, now), o)
  {
    WholeIsLater(w, s, p, now, o);
    var w1 := w.(fragments := w.fragments - {s});
    if s == w.nextSeq {
      var w2 := ForwardHead(Note(w1, s, p), p);
      LaterLap(w, w2, o);
      DrainIsLater(w2, o);
      hide Later, Drain;
      LaterOn(w, w2, Drain(w2), o);
    }
  }

  lemma {:induction false} AcceptAllIsLater(w: Window, batch: seq<(nat, Bytes)>, now: nat, o: int)
    requires Lap(w) >= o
    ensures Later(w, AcceptAll(w, batch, now).0, o)
  {
    hide Later, AcceptRecovered;
    if batch == [] {
      NotLater(w, o);
    } else {
      var n := |batch| - 1;
      var w1 := AcceptAll(w, batch[..n], now).0;
      AcceptAllIsLater(w, batch[..n], now, o);
      LaterLap(w, w1, o);
      if Wanted(w1, batch[n].0) {
        AcceptIsLater(w1, batch[n].0, batch[n].1, now, o);
        LaterOn(w, w1, AcceptRecovered(w1, batch[n].0, batch[n].1, now), o);
      }
    }
  }

  lemma NewFecIsLater(w: Window, fec: FecView, o: int)
    ensures Later(w, w.(fec := fec), o)
  {
  }

  lemma {:induction false} RecoverFecIsLater(w: Window, now: nat, o: int)
    requires Lap(w) >= o
    ensures Later(w, RecoverFec(w, now), o)
    decreases |w.fec.frames|
  {
    hide Later, AcceptAll, RecoverReady;
    var (w1, recovered) := Peel(w);
    var (w2, any) := AcceptAll(w1, recovered, now);
    NewFecIsLater(w, w1.fec, o);
    AcceptAllIsLater(w1, recovered, now, o);
    LaterOn(w, w1, w2, o);
    LaterLap(w, w2, o);
    if recovered != [] && any {
      PeelingShrinks(w, now);
      RecoverFecIsLater(w2, now, o);
      LaterOn(w, w2, RecoverFec(w2, now), o);
    }
  }

  lemma SkipIsLater(w: Window, o: int)
    requires Lap(w) >= o
    ensures Later(w, SkipHead(w, NeverReceived), o) && Later(w, DropAssembly(w), o)
  {
    hide InsertSkip;
  }

  lemma {:induction false} ExpireIsLater(w: Window, delay: nat, now: nat, o: int)
    requires Ahead(w) && Lap(w) >= o
    ensures Later(w, Expire(w, delay, now), o)
    decreases |w.fragments|, MAX_MEDIA_SEQUENCE - w.nextSeq
  {
    hide Later, DropAssembly, SkipHead;
    SkipIsLater(w, o);
    match HeadAction(w, delay, now)
    case Stop =>
      NotLater(w, o);
    case GiveUp =>
      DropKeepsAhead(w);
      LaterLap(w, DropAssembly(w), o);
      ExpireIsLater(DropAssembly(w), delay, now, o);
      LaterOn(w, DropAssembly(w), Expire(DropAssembly(w), delay, now), o);
    case Skip =>
      var w1 := SkipHead(w, NeverReceived);
      SkipKeepsAhead(w, delay, now);
      NotTheLast(w, delay, now);
      LaterLap(w, w1, o);
      ExpireIsLater(w1, delay, now, o);
      LaterOn(w, w1, Expire(w1, delay, now), o);
  }

  lemma NotTheLast(w: Window, delay: nat, now: nat)
    requires Ahead(w) && HeadAction(w, delay, now) == Skip
    ensures SkipHead(w, NeverReceived).fragments == w.fragments
    ensures SkipHead(w, NeverReceived).nextSeq == w.nextSeq + 1 <= MAX_MEDIA_SEQUENCE
  {
    SkipKeepsAhead(w, delay, now);
  }

  /** A fragment joins its assembly, or opens one. */
  lemma CollectedIsLater(w: Window, q: nat, a: FragmentAssembly, o: int)
    requires q in w.fragments ==> a.lastRepairRequest == w.fragments[q].lastRepairRequest
    ensures Later(w, w.(fragments := w.fragments[q := a]), o)
  {
  }

  // ---------------------------------------------------------------- assemblies only go

  /** The assemblies held were held before, as they are. */
  ghost predicate OnlyDrops(w: Window, w': Window) {
    forall k :: k in w'.fragments ==> k in w.fragments && w'.fragments[k] == w.fragments[k]
  }

  lemma OnlyDropsOn(a: Window, b: Window, c: Window)
    requires OnlyDrops(a, b) && OnlyDrops(b, c)
    ensures OnlyDrops(a, c)
  {
  }

  lemma {:induction false} DrainOnlyDrops(w: Window)
    ensures OnlyDrops(w, Drain(w))
    decreases |w.buffered|
  {
    if w.nextSeq in w.buffered {
      DrainOneFits(w);
      DrainOnlyDrops(DrainOne(w));
    }
  }

  lemma AcceptOnlyDrops(w: Window, s: nat, p: Bytes, now: nat)
    ensures OnlyDrops(w, AcceptRecovered(w, s, p, now))
  {
    DrainOnlyDrops(ForwardHead(Note(w.(fragments := w.fragments - {s}), s, p), p));
    hide Drain, InsertPayload;
  }

  lemma {:induction false} AcceptAllOnlyDrops(w: Window, batch: seq<(nat, Bytes)>, now: nat)
    ensures OnlyDrops(w, AcceptAll(w, batch, now).0)
  {
    hide OnlyDrops, AcceptRecovered;
    if batch == [] {
      NothingDropped(w, w);
    } else {
      var n := |batch| - 1;
      var w1 := AcceptAll(w, batch[..n], now).0;
      AcceptAllOnlyDrops(w, batch[..n], now);
      AcceptOnlyDrops(w1, batch[n].0, batch[n].1, now);
      if Wanted(w1, batch[n].0) {
        OnlyDropsOn(w, w1, AcceptRecovered(w1, batch[n].0, batch[n].1, now));
      }
    }
  }

  lemma NothingDropped(w: Window, w': Window)
    requires w'.fragments == w.fragments
    ensures OnlyDrops(w, w')
  {
  }

  lemma {:induction false} RecoverFecOnlyDrops(w: Window, now: nat)
    ensures OnlyDrops(w, RecoverFec(w, now))
    decreases |w.fec.frames|
  {
    hide OnlyDrops, AcceptAll, RecoverReady;
    var (w1, recovered) := Peel(w);
    var (w2, any) := AcceptAll(w1, recovered, now);
    NothingDropped(w, w1);
    AcceptAllOnlyDrops(w1, recovered, now);
    OnlyDropsOn(w, w1, w2);
    if recovered != [] && any {
      PeelingShrinks(w, now);
      RecoverFecOnlyDrops(w2, now);
      OnlyDropsOn(w, w2, RecoverFec(w2, now));
    }
  }
}
