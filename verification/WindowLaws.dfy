/**
  What every operation of the reorder window keeps: the machine invariant, the
  shape of the delivery log, conservation of accepted payloads, and the recent
  skips. Each law is proved for the small moves (deliver the head, buffer, skip)
  and carried through the loops by induction along the loop.
*/
module WindowLaws {
  import opened ByteStrings
  import opened Sequences
  import opened Wire
  import opened Assembly
  import opened FecRecovery
  import opened Window

  // ---------------------------------------------------------------- the invariant

  ghost predicate SkipsOk(r: Skips) {
    && Distinct(r.order)
    && (forall s :: s in r.lookup <==> s in r.order)
    && |r.order| <= SKIPPED_SEQUENCE_TRACK_LIMIT
  }

  /** The maps agree with one another. */
  ghost predicate Tidy(w: Window) {
    && FecOk(w.fec)
    && w.seen == w.buffered.Keys
    && w.gapRequests.Keys <= {w.nextSeq}
    && (forall k :: k in w.fragments ==> 1 <= w.fragments[k].received < |w.fragments[k].slots|)
    && SkipsOk(w.skips)
    && (forall i :: 0 <= i < |w.repairs| ==> ValidRepairRequest(w.repairs[i]))
  }

  /** The log is start, its successor, and so on up to but excluding the head. */
  ghost predicate Shape(w: Window) {
    && w.start <= MAX_MEDIA_SEQUENCE
    && w.nextSeq == SequenceAfter(w.start, |w.log|)
    && forall i :: 0 <= i < |w.log| ==> w.log[i].sequence == SequenceAfter(w.start, i)
  }

  function ForwardBag(log: seq<Delivery>): multiset<(nat, Bytes)> {
    if log == [] then multiset{} else
    var n := |log| - 1;
    ForwardBag(log[..n]) + (match log[n] case Forwarded(s, p) => multiset{(s, p)} case Skipped(_, _) => multiset{})
  }

  ghost function BufferBag(buffered: map<nat, BufferedPacket>): multiset<(nat, Bytes)> {
    multiset(set k | k in buffered :: (k, buffered[k].payload))
  }

  /** Every accepted payload is in exactly one place: forwarded once, or still buffered. */
  ghost predicate Conserved(w: Window) {
    multiset(w.accepted) == ForwardBag(w.log) + BufferBag(w.buffered)
  }

  /** The flow has not passed the largest media number. */
  ghost predicate Unwrapped(w: Window) {
    w.nextSeq == w.start + |w.log|
  }

  ghost predicate AcceptedOnce(w: Window) {
    Unwrapped(w) ==> forall i, j :: 0 <= i < j < |w.accepted| ==> w.accepted[i].0 != w.accepted[j].0
  }

  function SkippedSequences(log: seq<Delivery>): seq<nat> {
    if log == [] then [] else
    var n := |log| - 1;
    SkippedSequences(log[..n]) + (if log[n].Skipped? then [log[n].sequence] else [])
  }

  function LastOf<T>(s: seq<T>, n: nat): seq<T> {
    if |s| <= n then s else s[|s| - n..]
  }

  /** The late-arrival table after these skips, in this order. */
  function SkipTable(skipped: seq<nat>): Skips {
    if skipped == [] then Skips([], {})
    else InsertSkip(SkipTable(skipped[..|skipped| - 1]), skipped[|skipped| - 1])
  }

  /** The late-arrival table is made by the skips of the flow and nothing else. */
  ghost predicate RecentSkips(w: Window) {
    w.skips == SkipTable(SkippedSequences(w.log))
  }

  ghost predicate Good(w: Window) {
    Ahead(w) && Tidy(w) && Shape(w) && Conserved(w) && AcceptedOnce(w) && RecentSkips(w)
  }

  ghost predicate HeadClear(w: Window) {
    w.nextSeq !in w.buffered
  }

  lemma EmptyWindowIsGood(start: nat, repairs: seq<RepairRequest>)
    requires start <= MAX_MEDIA_SEQUENCE
    requires forall i :: 0 <= i < |repairs| ==> ValidRepairRequest(repairs[i])
    ensures Good(EmptyWindow(start, repairs)) && HeadClear(EmptyWindow(start, repairs))
  {
    var buffered := EmptyWindow(start, repairs).buffered;
    assert (set k | k in buffered :: (k, buffered[k].payload)) == {};
  }

  // ---------------------------------------------------------------- the log grows by one

  lemma LogGrows(log: seq<Delivery>, d: Delivery)
    ensures ForwardBag(log + [d]) ==
            ForwardBag(log) + (match d case Forwarded(s, p) => multiset{(s, p)} case Skipped(_, _) => multiset{})
    ensures SkippedSequences(log + [d]) == SkippedSequences(log) + (if d.Skipped? then [d.sequence] else [])
  {
    assert (log + [d])[..|log|] == log;
  }

  lemma NextIsMedia(w: Window)
    requires Ahead(w)
    ensures NextSequence(w.nextSeq) <= MAX_MEDIA_SEQUENCE
  {
  }

  lemma ForwardHeadKeepsShape(w: Window, payload: Bytes)
    requires Shape(w)
    ensures Shape(ForwardHead(w, payload)) && (Unwrapped(ForwardHead(w, payload)) ==> Unwrapped(w))
  {
  }

  lemma SkipHeadKeepsShape(w: Window, reason: SkipReason)
    requires Shape(w)
    ensures Shape(SkipHead(w, reason)) && (Unwrapped(SkipHead(w, reason)) ==> Unwrapped(w))
  {
  }

  lemma {:induction false} SkippedLieBehind(start: nat, log: seq<Delivery>, s: nat)
    requires start + |log| <= MAX_MEDIA_SEQUENCE + 1
    requires forall i :: 0 <= i < |log| ==> log[i].sequence == SequenceAfter(start, i)
    requires s in SkippedSequences(log)
    ensures start <= s < start + |log|
  {
    var n := |log| - 1;
    if s in SkippedSequences(log[..n]) {
      SkippedLieBehind(start, log[..n], s);
    } else {
      SequenceAfterLinear(start, n);
    }
  }

  lemma {:induction false} ForwardedLieBehind(start: nat, log: seq<Delivery>, s: nat, p: Bytes)
    requires start + |log| <= MAX_MEDIA_SEQUENCE + 1
    requires forall i :: 0 <= i < |log| ==> log[i].sequence == SequenceAfter(start, i)
    requires (s, p) in ForwardBag(log)
    ensures start <= s < start + |log|
  {
    var n := |log| - 1;
    if (s, p) in ForwardBag(log[..n]) {
      ForwardedLieBehind(start, log[..n], s, p);
    } else {
      SequenceAfterLinear(start, n);
    }
  }

  // ---------------------------------------------------------------- skips

  lemma {:induction false} TrimSkipsDropsFront(r: Skips)
    requires Distinct(r.order) && forall s :: s in r.lookup <==> s in r.order
    ensures SkipsOk(TrimSkips(r))
    ensures TrimSkips(r).order == LastOf(r.order, SKIPPED_SEQUENCE_TRACK_LIMIT)
    decreases |r.order|
  {
    if |r.order| > SKIPPED_SEQUENCE_TRACK_LIMIT {
      var r' := Skips(r.order[1..], r.lookup - {r.order[0]});
      assert forall s :: s in r.order <==> s == r.order[0] || s in r'.order;
      TrimSkipsDropsFront(r');
    }
  }

  lemma InsertSkipKeepsOk(r: Skips, sequence: nat)
    requires SkipsOk(r)
    ensures SkipsOk(InsertSkip(r, sequence))
    ensures sequence !in r.lookup ==>
      InsertSkip(r, sequence).order == LastOf(r.order + [sequence], SKIPPED_SEQUENCE_TRACK_LIMIT)
  {
    if sequence !in r.lookup {
      TrimSkipsDropsFront(Skips(r.order + [sequence], r.lookup + {sequence}));
    }
  }

  lemma LastOfAppend<T>(s: seq<T>, x: T, n: nat)
    requires n > 0
    ensures LastOf(LastOf(s, n) + [x], n) == LastOf(s + [x], n)
  {
  }

  lemma SkipHeadKeepsRecent(w: Window, reason: SkipReason)
    requires RecentSkips(w)
    ensures RecentSkips(SkipHead(w, reason))
  {
    var skipped := SkippedSequences(w.log);
    LogGrows(w.log, Skipped(w.nextSeq, reason));
    assert (skipped + [w.nextSeq])[..|skipped|] == skipped;
  }

  lemma ForwardHeadKeepsRecent(w: Window, payload: Bytes)
    requires RecentSkips(w)
    ensures RecentSkips(ForwardHead(w, payload))
  {
    LogGrows(w.log, Forwarded(w.nextSeq, payload));
    assert SkippedSequences(w.log) + [] == SkippedSequences(w.log);
  }

  lemma {:induction false} SkipTableKeepsOk(skipped: seq<nat>)
    ensures SkipsOk(SkipTable(skipped))
  {
    if skipped != [] {
      SkipTableKeepsOk(skipped[..|skipped| - 1]);
      InsertSkipKeepsOk(SkipTable(skipped[..|skipped| - 1]), skipped[|skipped| - 1]);
    }
  }

  // ---------------------------------------------------------------- the buffer as a bag

  lemma BufferBagRemoves(buffered: map<nat, BufferedPacket>, k: nat)
    requires k in buffered
    ensures BufferBag(buffered) == BufferBag(buffered - {k}) + multiset{(k, buffered[k].payload)}
  {
    var all := set i | i in buffered :: (i, buffered[i].payload);
    var rest := buffered - {k};
    var others := set i | i in rest :: (i, rest[i].payload);
    forall x | x in all
      ensures x in others || x == (k, buffered[k].payload)
    {
      assert x.0 != k ==> x.0 in rest && x == (x.0, rest[x.0].payload);
    }
    assert all == others + {(k, buffered[k].payload)};
    assert (k, buffered[k].payload) !in others;
  }

  lemma BufferBagAdds(buffered: map<nat, BufferedPacket>, k: nat, packet: BufferedPacket)
    requires k !in buffered
    ensures BufferBag(buffered[k := packet]) == BufferBag(buffered) + multiset{(k, packet.payload)}
  {
    var more := buffered[k := packet];
    assert more - {k} == buffered;
    BufferBagRemoves(more, k);
  }

  /** Nothing accepted before can carry a number that is still wanted. */
  lemma AcceptedIsNotWanted(w: Window, i: nat, s: nat)
    requires Ahead(w) && Shape(w) && Conserved(w) && Unwrapped(w)
    requires i < |w.accepted| && s >= w.nextSeq && s !in w.buffered
    ensures w.accepted[i].0 != s
  {
    var (a, p) := w.accepted[i];
    assert (a, p) in multiset(w.accepted);
    if (a, p) in ForwardBag(w.log) {
      ForwardedLieBehind(w.start, w.log, a, p);
    } else {
      assert (a, p) in BufferBag(w.buffered);
    }
  }

  // ---------------------------------------------------------------- draining

  lemma DrainOneKeepsAhead(w: Window)
    requires Ahead(w) && w.nextSeq in w.buffered
    ensures Ahead(DrainOne(w))
  {
    InsertPayloadKeepsFrames(w.fec, w.nextSeq, w.buffered[w.nextSeq].payload);
    var w' := DrainOne(w);
    assert forall k :: k in w'.buffered ==> k in w.buffered && k != w.nextSeq;
  }

  lemma DrainOneKeepsTidy(w: Window)
    requires Tidy(w) && w.nextSeq in w.buffered
    ensures Tidy(DrainOne(w))
  {
    InsertPayloadKeepsOk(w.fec, w.nextSeq, w.buffered[w.nextSeq].payload);
    var w' := DrainOne(w);
    assert w'.buffered.Keys == w.buffered.Keys - {w.nextSeq};
  }

  lemma DrainOneKeepsConserved(w: Window)
    requires Conserved(w) && w.nextSeq in w.buffered
    ensures Conserved(DrainOne(w))
  {
    BufferBagRemoves(w.buffered, w.nextSeq);
    LogGrows(w.log, Forwarded(w.nextSeq, w.buffered[w.nextSeq].payload));
  }

  lemma DrainOneKeepsGood(w: Window)
    requires Good(w) && w.nextSeq in w.buffered
    ensures Good(DrainOne(w))
  {
    DrainOneKeepsAhead(w);
    DrainOneKeepsTidy(w);
    DrainOneKeepsConserved(w);
    var payload := w.buffered[w.nextSeq].payload;
    var w0 := w.(buffered := w.buffered - {w.nextSeq}, fec := InsertPayload(w.fec, w.nextSeq, payload));
    ForwardHeadKeepsShape(w0, payload);
    ForwardHeadKeepsRecent(w0, payload);
  }

  lemma {:induction false} DrainKeepsGood(w: Window)
    requires Good(w)
    ensures Good(Drain(w)) && HeadClear(Drain(w))
    decreases |w.buffered|
  {
    if w.nextSeq in w.buffered {
      DrainOneKeepsGood(w);
      DrainKeepsGood(DrainOne(w));
    }
  }

  // ---------------------------------------------------------------- accepting

  /** A complete payload that the window is still waiting for. */
  ghost predicate Acceptable(w: Window, s: nat) {
    w.nextSeq <= s <= MAX_MEDIA_SEQUENCE && s !in w.buffered && s !in w.fragments
  }

  lemma NoteKeepsFec(w: Window, s: nat, p: Bytes)
    requires Tidy(w)
    ensures FecOk(Note(w, s, p).fec) && Note(w, s, p).fec.frames == w.fec.frames
  {
    InsertPayloadKeepsOk(w.fec, s, p);
  }

  lemma AcceptedOnceGrows(w: Window, s: nat, p: Bytes)
    requires Good(w) && Acceptable(w, s)
    ensures Unwrapped(w) ==>
      var accepted := w.accepted + [(s, p)];
      forall i, j :: 0 <= i < j < |accepted| ==> accepted[i].0 != accepted[j].0
  {
    if Unwrapped(w) {
      forall i | 0 <= i < |w.accepted|
        ensures w.accepted[i].0 != s
      {
        AcceptedIsNotWanted(w, i, s);
      }
    }
  }

  lemma AcceptHeadKeepsAhead(w: Window, p: Bytes)
    requires Ahead(w) && Acceptable(w, w.nextSeq)
    ensures Ahead(ForwardHead(Note(w, w.nextSeq, p), p))
  {
    hide InsertPayload, FragmentAssembly.Valid;
    InsertPayloadKeepsFrames(w.fec, w.nextSeq, p);
    NextIsMedia(w);
  }

  lemma AcceptHeadKeepsTidy(w: Window, p: Bytes)
    requires Tidy(w) && w.nextSeq !in w.buffered
    ensures Tidy(ForwardHead(Note(w, w.nextSeq, p), p))
  {
    NoteKeepsFec(w, w.nextSeq, p);
  }

  lemma AcceptHeadKeepsConserved(w: Window, p: Bytes)
    requires Conserved(w)
    ensures Conserved(ForwardHead(Note(w, w.nextSeq, p), p))
  {
    LogGrows(w.log, Forwarded(w.nextSeq, p));
  }

  lemma AcceptHeadKeepsGood(w: Window, p: Bytes)
    requires Good(w) && Acceptable(w, w.nextSeq)
    ensures Good(ForwardHead(Note(w, w.nextSeq, p), p))
  {
    AcceptHeadKeepsAhead(w, p);
    AcceptHeadKeepsTidy(w, p);
    AcceptHeadKeepsConserved(w, p);
    AcceptedOnceGrows(w, w.nextSeq, p);
    ForwardHeadKeepsShape(Note(w, w.nextSeq, p), p);
    ForwardHeadKeepsRecent(Note(w, w.nextSeq, p), p);
  }

  /** The other branch of accepting: the payload waits in the buffer. */
  function Hold(w: Window, s: nat, p: Bytes, now: nat): Window {
    var w' := Note(w, s, p);
    w'.(buffered := w'.buffered[s := BufferedPacket(p, now)])
  }

  lemma HoldKeepsAhead(w: Window, s: nat, p: Bytes, now: nat)
    requires Ahead(w) && Acceptable(w, s)
    ensures Ahead(Hold(w, s, p, now))
  {
    InsertPayloadKeepsFrames(w.fec, s, p);
  }

  lemma HoldKeepsTidy(w: Window, s: nat, p: Bytes, now: nat)
    requires Tidy(w)
    ensures Tidy(Hold(w, s, p, now))
  {
    NoteKeepsFec(w, s, p);
  }

  lemma HoldKeepsGood(w: Window, s: nat, p: Bytes, now: nat)
    requires Good(w) && Acceptable(w, s)
    ensures Good(Hold(w, s, p, now))
  {
    HoldKeepsAhead(w, s, p, now);
    HoldKeepsTidy(w, s, p, now);
    BufferBagAdds(w.buffered, s, BufferedPacket(p, now));
    AcceptedOnceGrows(w, s, p);
  }

  lemma AcceptKeepsGood(w: Window, s: nat, p: Bytes, now: nat)
    requires Good(w) && HeadClear(w) && Acceptable(w, s)
    ensures Good(Accept(w, s, p, now)) && HeadClear(Accept(w, s, p, now))
  {
    if s == w.nextSeq {
      AcceptHeadKeepsGood(w, p);
      DrainKeepsGood(ForwardHead(Note(w, s, p), p));
    } else {
      HoldKeepsGood(w, s, p, now);
    }
  }

  // ---------------------------------------------------------------- recovering

  lemma DiscardAssemblyKeepsGood(w: Window, s: nat)
    requires Good(w)
    ensures Good(w.(fragments := w.fragments - {s}))
  {
    var w' := w.(fragments := w.fragments - {s});
    assert forall k :: k in w'.fragments ==> k in w.fragments && w'.fragments[k] == w.fragments[k];
    assert Ahead(w') && Tidy(w');
  }

  /** Every number in a batch is a media number. */
  ghost predicate MediaBatch(batch: seq<(nat, Bytes)>) {
    forall i :: 0 <= i < |batch| ==> batch[i].0 <= MAX_MEDIA_SEQUENCE
  }

  lemma {:induction false} AcceptAllKeepsGood(w: Window, batch: seq<(nat, Bytes)>, now: nat)
    requires Good(w) && HeadClear(w) && MediaBatch(batch)
    ensures Good(AcceptAll(w, batch, now).0) && HeadClear(AcceptAll(w, batch, now).0)
  {
    if batch != [] {
      var n := |batch| - 1;
      AcceptAllKeepsGood(w, batch[..n], now);
      var w', s := AcceptAll(w, batch[..n], now).0, batch[n].0;
      if Wanted(w', s) {
        DiscardAssemblyKeepsGood(w', s);
        AcceptKeepsGood(w'.(fragments := w'.fragments - {s}), s, batch[n].1, now);
      }
    }
  }

  lemma RecoveredAreMedia(v: FecView, nextSeq: nat, buffered: map<nat, BufferedPacket>)
    requires FecOk(v)
    ensures MediaBatch(RecoverReady(v, nextSeq, buffered).1)
  {
    var bases := SortedKeys(v.frames.Keys);
    var batch := Recovered(v, nextSeq, buffered, bases);
    forall i | 0 <= i < |batch|
      ensures batch[i].0 <= MAX_MEDIA_SEQUENCE
    {
      RecoveredComesFromAFrame(v, nextSeq, buffered, bases, i);
      var base :| base in v.frames && Yield(Examine(v.frames[base], v.payloads, buffered), nextSeq) == [batch[i]];
      var frame := v.frames[base];
      OneMissingIsWanted(frame, v.payloads, buffered, 0, frame.parity, None);
      var k :| 0 <= k < |frame.payloadLengths| && batch[i].0 == Member(frame, k);
      SequenceAfterIsModular(base, k);
    }
  }

  lemma PeelKeepsFec(v: FecView, nextSeq: nat, buffered: map<nat, BufferedPacket>)
    requires FecOk(v)
    ensures var v' := RecoverReady(v, nextSeq, buffered).0;
      FecOk(v') && SubMap(v'.frames, v.frames) && v'.payloads == v.payloads
  {
    SmallerSet(Stuck(v, buffered).Keys, v.frames.Keys);
  }

  lemma PeelKeepsGood(w: Window)
    requires Good(w)
    ensures Good(Peel(w).0) && (HeadClear(w) ==> HeadClear(Peel(w).0)) && MediaBatch(Peel(w).1)
  {
    RecoveredAreMedia(w.fec, w.nextSeq, w.buffered);
    PeelKeepsFec(w.fec, w.nextSeq, w.buffered);
    NewFecKeepsGood(w, Peel(w).0.fec);
  }

  lemma NewFecKeepsGood(w: Window, fec: FecView)
    requires Good(w) && FecOk(fec)
    ensures Good(w.(fec := fec))
  {
  }

  lemma {:induction false} RecoverFecKeepsGood(w: Window, now: nat)
    requires Good(w) && HeadClear(w)
    ensures Good(RecoverFec(w, now)) && HeadClear(RecoverFec(w, now))
    decreases |w.fec.frames|
  {
    PeelKeepsGood(w);
    var (w', recovered) := Peel(w);
    AcceptAllKeepsGood(w', recovered, now);
    var (w'', any) := AcceptAll(w', recovered, now);
    if recovered != [] && any {
      PeelingShrinks(w, now);
      RecoverFecKeepsGood(w'', now);
    }
  }

  // ---------------------------------------------------------------- expiring

  lemma SkipHeadKeepsTidy(w: Window, reason: SkipReason)
    requires Tidy(w)
    ensures Tidy(SkipHead(w, reason))
  {
    InsertSkipKeepsOk(w.skips, w.nextSeq);
  }

  lemma SkipHeadKeepsGood(w: Window, reason: SkipReason)
    requires Good(w) && Ahead(SkipHead(w, reason))
    ensures Good(SkipHead(w, reason))
  {
    SkipHeadKeepsTidy(w, reason);
    SkipHeadKeepsShape(w, reason);
    SkipHeadKeepsRecent(w, reason);
    LogGrows(w.log, Skipped(w.nextSeq, reason));
  }

  lemma DropKeepsGood(w: Window)
    requires Good(w) && w.nextSeq in w.fragments
    ensures Good(DropAssembly(w))
  {
    DiscardAssemblyKeepsGood(w, w.nextSeq);
    DropKeepsAhead(w);
    assert w.seen - {w.nextSeq} == w.seen;
    SkipHeadKeepsGood(w.(fragments := w.fragments - {w.nextSeq}), FragmentIncomplete);
  }

  lemma SkipKeepsGood(w: Window, delay: nat, now: nat)
    requires Good(w) && HeadAction(w, delay, now) == Skip
    ensures Good(SkipHead(w, NeverReceived)) && w.nextSeq < MAX_MEDIA_SEQUENCE
  {
    SkipKeepsAhead(w, delay, now);
    SkipHeadKeepsGood(w, NeverReceived);
  }

  lemma {:induction false} ExpireKeepsGood(w: Window, delay: nat, now: nat)
    requires Good(w)
    ensures Good(Expire(w, delay, now))
    decreases |w.fragments|, MAX_MEDIA_SEQUENCE - w.nextSeq
  {
    hide Shape, Conserved, Tidy, AcceptedOnce, RecentSkips, Overdue, DropAssembly, InsertSkip;
    match HeadAction(w, delay, now)
    case Stop =>
    case GiveUp =>
      DropKeepsAhead(w);
      DropKeepsGood(w);
      ExpireKeepsGood(DropAssembly(w), delay, now);
    case Skip =>
      SkipKeepsGood(w, delay, now);
      ExpireKeepsGood(SkipHead(w, NeverReceived), delay, now);
  }

  // ---------------------------------------------------------------- requesting repairs

  /** Asking for fragments changes when they were asked for, and nothing else. */
  ghost predicate SameAssemblies(a: map<nat, FragmentAssembly>, b: map<nat, FragmentAssembly>) {
    && a.Keys == b.Keys
    && forall k :: k in a ==>
      a[k].slots == b[k].slots && a[k].received == b[k].received && a[k].firstSeen == b[k].firstSeen
  }

  /** Issued requests are encodable, and at most 64 of them. */
  lemma {:induction false} RepairScanIsSound(fragments: map<nat, FragmentAssembly>, requests: seq<RepairRequest>,
                                             keys: seq<nat>, interval: nat, now: nat)
    requires AssembliesFit(fragments) && forall i :: 0 <= i < |keys| ==> keys[i] in fragments
    requires forall k :: k in fragments ==> k <= MAX_SEQUENCE
    requires |requests| <= MAX_REPAIR_REQUESTS_PER_TICK
    requires forall i :: 0 <= i < |requests| ==> ValidRepairRequest(requests[i])
    ensures var (marked, issued) := RepairScan(fragments, requests, keys, interval, now);
      && SameAssemblies(marked, fragments)
      && |issued| <= MAX_REPAIR_REQUESTS_PER_TICK
      && forall i :: 0 <= i < |issued| ==> ValidRepairRequest(issued[i])
    decreases |keys|
  {
    if keys != [] {
      var n := |keys| - 1;
      RepairScanIsSound(fragments, requests, keys[..n], interval, now);
      var (marked, issued) := RepairScan(fragments, requests, keys[..n], interval, now);
      MissingMaskIsExact(marked[keys[n]].slots, 0);
    }
  }

  /** A request for exactly what an assembly lacks. */
  predicate AsksForMissing(fragments: map<nat, FragmentAssembly>, r: RepairRequest) {
    && r.sequence in fragments && |fragments[r.sequence].slots| <= MAX_FRAGMENTS
    && r.missingMask == MissingMask(fragments[r.sequence].slots)
  }

  /** A request for all of the head, of which nothing has come although something waits behind it. */
  predicate AsksForGap(w: Window, r: RepairRequest) {
    && r == RepairRequest(w.nextSeq, REPAIR_ALL_FRAGMENTS_MASK)
    && w.nextSeq !in w.buffered && w.nextSeq !in w.fragments && (w.buffered != map[] || w.fragments != map[])
  }

  lemma {:induction false} RepairScanAsksForMissing(fragments: map<nat, FragmentAssembly>, requests: seq<RepairRequest>,
                                                    keys: seq<nat>, interval: nat, now: nat)
    requires AssembliesFit(fragments) && forall i :: 0 <= i < |keys| ==> keys[i] in fragments
    ensures var (marked, issued) := RepairScan(fragments, requests, keys, interval, now);
      && SameAssemblies(marked, fragments) && requests <= issued
      && forall i :: |requests| <= i < |issued| ==> AsksForMissing(fragments, issued[i])
    decreases |keys|
  {
    if keys != [] {
      RepairScanAsksForMissing(fragments, requests, keys[..|keys| - 1], interval, now);
    }
  }

  /** Every new request is for the head's gap or for exactly what some assembly lacks. */
  lemma RequestsAreExact(w: Window, interval: nat, now: nat)
    requires Good(w)
    ensures var w' := RequestRepairs(w, interval, now);
      && w.repairs <= w'.repairs
      && forall i :: |w.repairs| <= i < |w'.repairs| ==>
        AsksForGap(w, w'.repairs[i]) || AsksForMissing(w.fragments, w'.repairs[i])
  {
    hide Good, RepairScan, AsksForMissing, AsksForGap, SameAssemblies, AssembliesFit, GapRequest;
    GoodAssembliesFit(w);
    var gap := GapRequest(w, interval, now);
    GapRequestAsks(w, interval, now);
    RepairScanAsksForMissing(w.fragments, gap, SortedKeys(w.fragments.Keys), interval, now);
    var issued := RepairScan(w.fragments, gap, SortedKeys(w.fragments.Keys), interval, now).1;
    forall i | |w.repairs| <= i < |w.repairs + issued|
      ensures AsksForGap(w, (w.repairs + issued)[i]) || AsksForMissing(w.fragments, (w.repairs + issued)[i])
    {
      assert (w.repairs + issued)[i] == issued[i - |w.repairs|];
    }
  }

  lemma GoodAssembliesFit(w: Window)
    requires Good(w)
    ensures AssembliesFit(w.fragments)
  {
  }

  lemma GapRequestAsks(w: Window, interval: nat, now: nat)
    ensures forall i :: 0 <= i < |GapRequest(w, interval, now)| ==> AsksForGap(w, GapRequest(w, interval, now)[i])
  {
  }

  lemma RequestRepairsIsSound(w: Window, interval: nat, now: nat)
    requires Good(w)
    ensures var w' := RequestRepairs(w, interval, now);
      && SameAssemblies(w'.fragments, w.fragments)
      && w.repairs <= w'.repairs && |w'.repairs| <= |w.repairs| + MAX_REPAIR_REQUESTS_PER_TICK
      && (forall i :: 0 <= i < |w'.repairs| ==> ValidRepairRequest(w'.repairs[i]))
      && forall i :: |w.repairs| <= i < |w'.repairs| ==>
        AsksForGap(w, w'.repairs[i]) || AsksForMissing(w.fragments, w'.repairs[i])
  {
    hide Good, RepairScan, AsksForMissing, AsksForGap, SameAssemblies, AssembliesFit, GapRequest, ValidRepairRequest;
    RequestsAreExact(w, interval, now);
    GoodRequestsAreValid(w, interval, now);
    RepairScanIsSound(w.fragments, GapRequest(w, interval, now), SortedKeys(w.fragments.Keys), interval, now);
  }

  lemma GoodRequestsAreValid(w: Window, interval: nat, now: nat)
    requires Good(w)
    ensures AssembliesFit(w.fragments) && forall k :: k in w.fragments ==> k <= MAX_SEQUENCE
    ensures |GapRequest(w, interval, now)| <= 1
    ensures forall i :: 0 <= i < |w.repairs| ==> ValidRepairRequest(w.repairs[i])
    ensures forall i :: 0 <= i < |GapRequest(w, interval, now)| ==>
      ValidRepairRequest(GapRequest(w, interval, now)[i])
  {
  }

  lemma RequestRepairsKeepsGood(w: Window, interval: nat, now: nat)
    requires Good(w)
    ensures Good(RequestRepairs(w, interval, now)) && (HeadClear(w) ==> HeadClear(RequestRepairs(w, interval, now)))
  {
    RequestRepairsIsSound(w, interval, now);
    var w' := RequestRepairs(w, interval, now);
    SameAssembliesKeepGood(w, w'.fragments);
    NewRequestsKeepGood(w.(fragments := w'.fragments), w'.gapRequests, w'.repairs);
  }

  lemma NewFragmentsKeepHistory(w: Window, fragments: map<nat, FragmentAssembly>)
    requires Good(w)
    ensures var w' := w.(fragments := fragments); Shape(w') && Conserved(w') && AcceptedOnce(w') && RecentSkips(w')
  {
  }

  lemma SameAssembliesKeepGood(w: Window, fragments: map<nat, FragmentAssembly>)
    requires Good(w) && SameAssemblies(fragments, w.fragments)
    ensures Good(w.(fragments := fragments))
  {
    NewFragmentsKeepHistory(w, fragments);
    hide Shape, Conserved, AcceptedOnce, RecentSkips, FecOk, SkipsOk;
    var w' := w.(fragments := fragments);
    assert forall k :: k in w'.fragments ==> k in w.fragments && w'.fragments[k].slots == w.fragments[k].slots;
    assert Ahead(w') && Tidy(w');
  }

  lemma NewRequestsKeepGood(w: Window, gapRequests: map<nat, nat>, repairs: seq<RepairRequest>)
    requires Good(w) && gapRequests.Keys <= {w.nextSeq}
    requires forall i :: 0 <= i < |repairs| ==> ValidRepairRequest(repairs[i])
    ensures Good(w.(gapRequests := gapRequests, repairs := repairs))
  {
  }
}
