/**
  Parity recovery in a window that carries one stretch of the stream: every round makes
  only complete packets done, and when nothing more can be rebuilt all of them are.
*/
module StreamParity {
  import opened ByteStrings
  import opened Sequences
  import opened Wire
  import opened Assembly
  import opened FecRecovery
  import opened Window
  import opened WindowLaws
  import opened Integrity
  import opened StreamClosure
  import opened StreamWindow

  predicate Has(a: FragmentAssembly, i: nat) {
    i < |a.slots| && a.slots[i].Some?
  }

  /** Of a packet that is not done the window holds exactly what has arrived, and that is not all. */
  ghost predicate TracksOne(x: Stream, w: Window, known: Known, s: nat)
    requires InStream(x, s)
  {
    !Done(w, s) ==>
      && !AllIn(x, known, s)
      && forall i :: 0 <= i < |PiecesOf(x, s)| ==>
        (Piece(s, i) in known.parts <==> s in w.fragments && Has(w.fragments[s], i))
  }

  ghost predicate Tracks(x: Stream, w: Window, known: Known) {
    forall s :: InStream(x, s) ==> TracksOne(x, w, known, s)
  }

  ghost predicate TracksOthers(x: Stream, w: Window, known: Known, but: nat) {
    forall s :: InStream(x, s) && s != but ==> TracksOne(x, w, known, s)
  }

  /** What is held was held before, or has come in just now. */
  ghost predicate Since(w: Window, w': Window, now: nat) {
    && (forall s :: s in w'.buffered ==>
          w'.buffered[s].receivedAt == now || (s in w.buffered && w'.buffered[s] == w.buffered[s]))
    && forall s :: s in w'.fragments ==> s in w.fragments && w'.fragments[s].firstSeen == w.fragments[s].firstSeen
  }

  lemma SinceThenSince(a: Window, b: Window, c: Window, now: nat)
    requires Since(a, b, now) && Since(b, c, now)
    ensures Since(a, c, now)
  {
  }

  lemma DoneTracks(x: Stream, w: Window, w': Window, known: Known, s: nat)
    requires TracksOthers(x, w, known, s) && w'.fragments == w.fragments
    requires forall t :: Done(w', t) <==> Done(w, t) || t == s
    ensures Tracks(x, w', known)
  {
    forall t | InStream(x, t)
      ensures TracksOne(x, w', known, t)
    {
      assert t != s ==> TracksOne(x, w, known, t);
      assert t == s ==> Done(w', t);
    }
  }

  /** Without its assembly a packet is not tracked, the others are; nothing else depends on assemblies. */
  lemma DiscardCore(x: Stream, w: Window, g: Goal, s: nat)
    requires Good(w) && Core(x, w, g)
    ensures var w' := w.(fragments := w.fragments - {s});
      && Good(w') && Core(x, w', g)
      && forall t :: Done(w', t) <==> Done(w, t)
  {
    hide Good, Honest, CompleteSet, CacheLasts;
    DiscardAssemblyKeepsGood(w, s);
    DroppingStaysHonest(SourcesOf(x), w, s);
    var w' := w.(fragments := w.fragments - {s});
    if g.relied {
      SameStoreRemembers(x, w, w', g);
    }
  }

  lemma DiscardTracks(x: Stream, w: Window, known: Known, s: nat)
    requires Tracks(x, w, known)
    ensures TracksOthers(x, w.(fragments := w.fragments - {s}), known, s)
  {
    var w' := w.(fragments := w.fragments - {s});
    forall t | InStream(x, t) && t != s
      ensures TracksOne(x, w', known, t)
    {
      assert TracksOne(x, w, known, t);
    }
  }

  lemma {:induction false} DrainSince(w: Window, now: nat)
    ensures Since(w, Drain(w), now)
    decreases |w.buffered|
  {
    if w.nextSeq in w.buffered {
      DrainSince(DrainOne(w), now);
      assert Since(w, DrainOne(w), now);
      hide Drain;
      SinceThenSince(w, DrainOne(w), Drain(DrainOne(w)), now);
    }
  }

  lemma AcceptSince(w: Window, s: nat, p: Bytes, now: nat)
    ensures Since(w, Accept(w, s, p, now), now)
  {
    var w1 := ForwardHead(Note(w, s, p), p);
    DrainSince(w1, now);
    hide Drain;
    assert Since(w, w1, now);
    SinceThenSince(w, w1, Drain(w1), now);
  }

  /** One rebuilt packet, still wanted, replaces its fragments. */
  lemma AcceptRecoveredCore(x: Stream, w: Window, g: Goal, s: nat, now: nat)
    requires ValidStream(x) && Good(w) && Core(x, w, g) && InStream(x, s) && s in CompleteSet(x, g.known)
    requires Tracks(x, w, g.known) && Wanted(w, s)
    ensures var w' := AcceptRecovered(w, s, Whole(x, s), now);
      && Core(x, w', g) && Tracks(x, w', g.known) && w'.fec.frames == w.fec.frames && Since(w, w', now)
      && forall t :: Done(w', t) <==> Done(w, t) || t == s
  {
    hide Good, Core, CompleteSet, Tracks, TracksOthers, Since, Whole;
    var w1 := w.(fragments := w.fragments - {s});
    DiscardCore(x, w, g, s);
    DiscardTracks(x, w, g.known, s);
    AcceptCore(x, w1, g, s, now);
    DoneTracks(x, w1, Accept(w1, s, Whole(x, s), now), g.known, s);
    AcceptSince(w1, s, Whole(x, s), now);
    DiscardSince(w, s, now);
    SinceThenSince(w, w1, Accept(w1, s, Whole(x, s), now), now);
  }

  lemma DiscardSince(w: Window, s: nat, now: nat)
    ensures Since(w, w.(fragments := w.fragments - {s}), now)
  {
  }

  /** Payloads of packets of the stream that are complete. */
  ghost predicate CompleteBatch(x: Stream, known: Known, batch: seq<(nat, Bytes)>) {
    forall i :: 0 <= i < |batch| ==>
      InStream(x, batch[i].0) && batch[i].0 in CompleteSet(x, known) && batch[i].1 == Whole(x, batch[i].0)
  }

  ghost predicate AllTaken(w: Window, batch: seq<(nat, Bytes)>) {
    forall i :: 0 <= i < |batch| ==> Done(w, batch[i].0)
  }

  lemma CompleteIsMedia(x: Stream, known: Known, batch: seq<(nat, Bytes)>)
    requires ValidStream(x) && CompleteBatch(x, known, batch)
    ensures MediaBatch(batch)
  {
    hide CompleteSet;
  }

  /** Still working towards the goal, with more done and nothing lost. */
  ghost predicate Progress(x: Stream, w: Window, w': Window, g: Goal, now: nat) {
    Core(x, w', g) && Tracks(x, w', g.known) && w'.fec.frames == w.fec.frames && Since(w, w', now) && DoneGrows(w, w')
  }

  lemma ProgressOn(x: Stream, a: Window, b: Window, c: Window, g: Goal, now: nat)
    requires Progress(x, a, b, g, now) && Progress(x, b, c, g, now)
    ensures Progress(x, a, c, g, now)
  {
    hide Core, Tracks, Since, Done;
    SinceThenSince(a, b, c, now);
  }

  /** One packet of a batch, as it is taken or passed over. */
  ghost function AcceptNext(w: Window, s: nat, p: Bytes, now: nat): Window {
    if Wanted(w, s) then AcceptRecovered(w, s, p, now) else w
  }

  lemma AcceptNextCore(x: Stream, w: Window, g: Goal, s: nat, now: nat)
    requires ValidStream(x) && Good(w) && Core(x, w, g) && InStream(x, s) && s in CompleteSet(x, g.known)
    requires Tracks(x, w, g.known)
    ensures var w' := AcceptNext(w, s, Whole(x, s), now); Progress(x, w, w', g, now) && Done(w', s)
  {
    hide Good, Core, CompleteSet, Tracks, Since, Whole, Wanted, AcceptRecovered;
    if Wanted(w, s) {
      AcceptRecoveredCore(x, w, g, s, now);
    } else {
      NoChangeIsSince(w, now);
      UnwantedIsDone(w, s);
    }
  }

  lemma AcceptAllNext(w: Window, batch: seq<(nat, Bytes)>, now: nat)
    requires batch != []
    ensures var n := |batch| - 1;
      AcceptAll(w, batch, now).0 == AcceptNext(AcceptAll(w, batch[..n], now).0, batch[n].0, batch[n].1, now)
  {
    hide Wanted, AcceptRecovered;
  }

  lemma NoProgressYet(x: Stream, w: Window, g: Goal, now: nat)
    requires Core(x, w, g) && Tracks(x, w, g.known)
    ensures Progress(x, w, w, g, now)
  {
    hide Core, Tracks;
  }

  /** A batch of complete packets: all done afterwards, and nothing else is new. */
  lemma {:induction false} AcceptAllCore(x: Stream, w: Window, g: Goal, batch: seq<(nat, Bytes)>, now: nat)
    requires ValidStream(x) && Good(w) && HeadClear(w) && Core(x, w, g) && Tracks(x, w, g.known)
    requires CompleteBatch(x, g.known, batch)
    ensures var w' := AcceptAll(w, batch, now).0; Progress(x, w, w', g, now) && AllTaken(w', batch)
  {
    hide Good, Core, CompleteSet, Tracks, Since, Whole, HeadClear, AcceptNext, Progress, Done;
    if batch == [] {
      NoProgressYet(x, w, g, now);
    } else {
      var n := |batch| - 1;
      var w1 := AcceptAll(w, batch[..n], now).0;
      AcceptAllCore(x, w, g, batch[..n], now);
      AcceptAllNext(w, batch, now);
      hide AcceptAll;
      CompleteIsMedia(x, g.known, batch[..n]);
      AcceptAllKeepsGood(w, batch[..n], now);
      ProgressIsCore(x, w, w1, g, now);
      AcceptNextCore(x, w1, g, batch[n].0, now);
      ProgressOn(x, w, w1, AcceptNext(w1, batch[n].0, batch[n].1, now), g, now);
      TakenAfter(x, w1, AcceptNext(w1, batch[n].0, batch[n].1, now), g, batch, now);
    }
  }

  lemma ProgressIsCore(x: Stream, w: Window, w': Window, g: Goal, now: nat)
    requires Progress(x, w, w', g, now)
    ensures Core(x, w', g) && Tracks(x, w', g.known)
  {
    hide Core, Tracks;
  }

  lemma TakenAfter(x: Stream, w: Window, w': Window, g: Goal, batch: seq<(nat, Bytes)>, now: nat)
    requires batch != [] && AllTaken(w, batch[..|batch| - 1]) && Progress(x, w, w', g, now)
      && Done(w', batch[|batch| - 1].0)
    ensures AllTaken(w', batch)
  {
    hide Core, Tracks, Since, Done;
    var n := |batch| - 1;
    forall i | 0 <= i < |batch|
      ensures Done(w', batch[i].0)
    {
      if i < n {
        assert Done(w, batch[..n][i].0);
      }
    }
  }

  lemma NoChangeIsSince(w: Window, now: nat)
    ensures Since(w, w, now)
  {
  }

  lemma UnwantedIsDone(w: Window, s: nat)
    requires Good(w) && !Wanted(w, s)
    ensures Done(w, s)
  {
  }

  // ---------------------------------------------------------------- what a stored frame can tell

  /** A stored frame covers packets of the stream, one after another. */
  lemma FrameIsSpan(x: Stream, w: Window, g: Goal, base: nat)
    requires ValidStream(x) && ValidKnown(x, g.known) && Core(x, w, g) && base in w.fec.frames
    ensures var frame := w.fec.frames[base];
      && SpanOf(frame) in g.known.spans && IsSpan(x, SpanOf(frame)) && GenuineFrame(SourcesOf(x), frame)
      && forall i :: 0 <= i < |frame.payloadLengths| ==> Member(frame, i) == frame.baseSequence + i
  {
    var frame := w.fec.frames[base];
    hide CompleteSet, CacheLasts, OnlyComplete, Linear, HonestBuffer, HonestFragments;
    forall i | 0 <= i < |frame.payloadLengths|
      ensures Member(frame, i) == frame.baseSequence + i
    {
      SequenceAfterLinear(frame.baseSequence, i);
    }
  }

  lemma FoundIsDone(x: Stream, w: Window, g: Goal, s: nat)
    requires Core(x, w, g) && FecRecovery.Lookup(w.fec.payloads, w.buffered, s).Some?
    ensures Done(w, s)
  {
    hide CompleteSet, CacheLasts, OnlyComplete, Linear, Honest;
  }

  /** What the verdict on a stored frame says about the packets it covers. */
  ghost predicate Tells(w: Window, span: Span, verdict: Verdict) {
    match verdict
    case Unusable => false
    case NoneMissing => AllDone(w, span)
    case OneMissing(s, _) => InSpan(span, s) && forall t :: InSpan(span, t) && t != s ==> Done(w, t)
    case SeveralMissing => true
  }

  lemma VerdictTells(x: Stream, w: Window, g: Goal, base: nat)
    requires ValidStream(x) && ValidKnown(x, g.known) && Core(x, w, g) && base in w.fec.frames
    ensures Tells(w, SpanOf(w.fec.frames[base]), Examine(w.fec.frames[base], w.fec.payloads, w.buffered))
  {
    var frame := w.fec.frames[base];
    FrameIsSpan(x, w, g, base);
    HonestAgrees(x, w, frame);
    hide Core, Examine, Done, GenuineFrame;
    var verdict := Examine(frame, w.fec.payloads, w.buffered);
    forall t: nat | InSpan(SpanOf(frame), t) && FecRecovery.Lookup(w.fec.payloads, w.buffered, t).Some?
      ensures Done(w, t)
    {
      FoundIsDone(x, w, g, t);
    }
    VerdictTellsMembers(w, frame, GroupOf(SourcesOf(x), frame), verdict);
  }

  lemma HonestAgrees(x: Stream, w: Window, frame: FecFrame)
    requires Honest(SourcesOf(x), w) && GenuineFrame(SourcesOf(x), frame)
    ensures RightVerdict(frame, GroupOf(SourcesOf(x), frame), w.fec.payloads, w.buffered,
                         Examine(frame, w.fec.payloads, w.buffered))
  {
    ExamineIsRight(frame, GroupOf(SourcesOf(x), frame), w.fec.payloads, w.buffered);
  }

  lemma VerdictTellsMembers(w: Window, frame: FecFrame, group: seq<Bytes>, verdict: Verdict)
    requires |group| == |frame.payloadLengths|
    requires forall i :: 0 <= i < |group| ==> Member(frame, i) == frame.baseSequence + i
    requires RightVerdict(frame, group, w.fec.payloads, w.buffered, verdict)
    requires forall t :: InSpan(SpanOf(frame), t) && FecRecovery.Lookup(w.fec.payloads, w.buffered, t).Some? ==>
      Done(w, t)
    ensures Tells(w, SpanOf(frame), verdict)
  {
    hide Done, Member;
    forall t: nat | InSpan(SpanOf(frame), t)
      ensures Member(frame, t - frame.baseSequence) == t
    {
    }
    match verdict
    case NoneMissing =>
      forall t: nat | InSpan(SpanOf(frame), t)
        ensures Done(w, t)
      {
        assert FecRecovery.Lookup(w.fec.payloads, w.buffered, Member(frame, t - frame.baseSequence)).Some?;
      }
    case OneMissing(s, p) =>
      var k :| 0 <= k < |group| && s == Member(frame, k) && p == group[k]
        && forall i | 0 <= i < |group| ::
          FecRecovery.Lookup(w.fec.payloads, w.buffered, Member(frame, i)).None? <==> i == k;
      forall t: nat | InSpan(SpanOf(frame), t) && t != s
        ensures Done(w, t)
      {
        assert FecRecovery.Lookup(w.fec.payloads, w.buffered, Member(frame, t - frame.baseSequence)).Some?;
      }
    case SeveralMissing =>
  }

  // ---------------------------------------------------------------- one round

  /** What a round rebuilds is complete, and is the sender's. */
  lemma RebuiltIsComplete(x: Stream, w: Window, g: Goal)
    requires ValidStream(x) && ValidKnown(x, g.known) && Core(x, w, g)
    ensures CompleteBatch(x, g.known, Peel(w).1)
  {
    hide CompleteSet, CacheLasts, Linear, Examine;
    var bases := SortedKeys(w.fec.frames.Keys);
    var batch := Recovered(w.fec, w.nextSeq, w.buffered, bases);
    RecoveredAreGenuine(SourcesOf(x), w.fec, w.nextSeq, w.buffered);
    forall i | 0 <= i < |batch|
      ensures InStream(x, batch[i].0) && batch[i].0 in CompleteSet(x, g.known) && batch[i].1 == Whole(x, batch[i].0)
    {
      RecoveredComesFromAFrame(w.fec, w.nextSeq, w.buffered, bases, i);
      var base :| base in w.fec.frames &&
        Yield(Examine(w.fec.frames[base], w.fec.payloads, w.buffered), w.nextSeq) == [batch[i]];
      assert Genuine(SourcesOf(x), batch[i].0, batch[i].1);
      RebuiltFromFrame(x, w, g, base);
    }
  }

  lemma RebuiltFromFrame(x: Stream, w: Window, g: Goal, base: nat)
    requires ValidStream(x) && ValidKnown(x, g.known) && Core(x, w, g) && base in w.fec.frames
    ensures var verdict := Examine(w.fec.frames[base], w.fec.payloads, w.buffered);
      verdict.OneMissing? ==> verdict.sequence in CompleteSet(x, g.known)
  {
    hide CompleteSet, CacheLasts, Linear, Examine, Honest, Closed;
    var verdict, span := Examine(w.fec.frames[base], w.fec.payloads, w.buffered), SpanOf(w.fec.frames[base]);
    VerdictTells(x, w, g, base);
    FrameIsSpan(x, w, g, base);
    if verdict.OneMissing? {
      forall t | InSpan(span, t) && t != verdict.sequence
        ensures t in CompleteSet(x, g.known)
      {
        assert Done(w, t) && InStream(x, t);
      }
      CompleteFromSpan(x, g.known, span, verdict.sequence);
    }
  }

  lemma CompleteFromSpan(x: Stream, known: Known, span: Span, s: nat)
    requires ValidKnown(x, known) && span in known.spans && AllBut(span, CompleteSet(x, known), s)
    ensures s in CompleteSet(x, known)
  {
    CompleteIsClosed(x, known);
    hide CompleteSet;
  }

  /** Forgetting frames that are of no more use changes nothing else. */
  lemma PeelCore(x: Stream, w: Window, g: Goal, now: nat)
    requires Core(x, w, g) && Tracks(x, w, g.known)
    ensures var w' := Peel(w).0;
      && Core(x, w', g) && Tracks(x, w', g.known) && Since(w, w', now)
      && w'.nextSeq == w.nextSeq && w'.buffered == w.buffered
  {
    hide Examine, CompleteSet, CacheLasts, TracksOne, Linear, Honest, OnlyComplete;
    var w' := Peel(w).0;
    FewerFramesCore(x, w, w', g);
    FewerFramesTracks(x, w, w', g.known);
  }

  /** The same window but for its stored frames, of which there are fewer. */
  ghost predicate FewerFrames(w: Window, w': Window) {
    w' == w.(fec := w.fec.(frames := w'.fec.frames)) && SubMap(w'.fec.frames, w.fec.frames)
  }

  lemma FewerFramesTracks(x: Stream, w: Window, w': Window, known: Known)
    requires Tracks(x, w, known) && FewerFrames(w, w')
    ensures Tracks(x, w', known)
  {
    forall s | InStream(x, s)
      ensures TracksOne(x, w', known, s)
    {
      assert TracksOne(x, w, known, s);
    }
  }

  lemma FewerFramesHonest(sent: map<nat, Source>, w: Window, w': Window)
    requires Honest(sent, w) && FewerFrames(w, w')
    ensures Honest(sent, w')
  {
  }

  lemma FewerFramesRemember(x: Stream, w: Window, w': Window, g: Goal)
    requires CacheLasts(x, w, g) && FewerFrames(w, w')
    ensures CacheLasts(x, w', g)
  {
    hide CompleteSet, LastOf, Numbers;
    forall s | InFrame(w', s)
      ensures InFrame(w, s)
    {
      var base :| base in w'.fec.frames && InSpan(SpanOf(w'.fec.frames[base]), s);
      assert base in w.fec.frames && w'.fec.frames[base] == w.fec.frames[base];
    }
    assert forall s :: Done(w', s) <==> Done(w, s);
  }

  lemma FewerFramesCore(x: Stream, w: Window, w': Window, g: Goal)
    requires Core(x, w, g) && FewerFrames(w, w')
    ensures Core(x, w', g)
  {
    hide CompleteSet, CacheLasts, Honest;
    FewerFramesHonest(SourcesOf(x), w, w');
    if g.relied {
      FewerFramesRemember(x, w, w', g);
    }
  }

  /** After a round each frame that has arrived is still stored, or of no more use. */
  lemma RoundKeepsSpans(x: Stream, w: Window, w': Window, g: Goal)
    requires ValidStream(x) && ValidKnown(x, g.known) && Core(x, w, g) && SpansKept(w, g.known)
    requires w'.fec.frames == Stuck(w.fec, w.buffered) && DoneGrows(w, w') && AllTaken(w', Peel(w).1)
    ensures SpansKept(w', g.known)
  {
    hide Core, Examine, CompleteSet, Done;
    forall span | span in g.known.spans
      ensures Stored(w', span) || AllDone(w', span)
    {
      if Stored(w, span) && !Stored(w', span) {
        var base := span.first;
        var verdict := Examine(w.fec.frames[base], w.fec.payloads, w.buffered);
        VerdictTells(x, w, g, base);
        if verdict.OneMissing? {
          MissingIsTaken(w, w', base);
        }
      }
    }
  }

  /** The packet a used-up frame was missing has been taken, or lies behind the head. */
  lemma MissingIsTaken(w: Window, w': Window, base: nat)
    requires base in w.fec.frames && Examine(w.fec.frames[base], w.fec.payloads, w.buffered).OneMissing?
    requires DoneGrows(w, w') && AllTaken(w', Peel(w).1)
    ensures Done(w', Examine(w.fec.frames[base], w.fec.payloads, w.buffered).sequence)
  {
    hide Examine;
    var verdict, bases := Examine(w.fec.frames[base], w.fec.payloads, w.buffered), SortedKeys(w.fec.frames.Keys);
    if verdict.sequence < w.nextSeq {
      assert Done(w, verdict.sequence);
    } else {
      YieldIsRecovered(w.fec, w.nextSeq, w.buffered, bases, base);
      var batch := Recovered(w.fec, w.nextSeq, w.buffered, bases);
      var i :| 0 <= i < |batch| && batch[i] == (verdict.sequence, verdict.payload);
      assert Done(w', batch[i].0);
    }
  }

  // ---------------------------------------------------------------- rounds until nothing is left

  /** A round, as `RecoverFec` makes it. */
  ghost function Round(w: Window, now: nat): Window {
    AcceptAll(Peel(w).0, Peel(w).1, now).0
  }

  lemma PeelFrames(w: Window)
    ensures Peel(w).0.fec.frames == Stuck(w.fec, w.buffered) && Peel(w).0.nextSeq == w.nextSeq
      && Peel(w).0.buffered == w.buffered
  {
    hide Examine;
  }

  lemma RoundCore(x: Stream, w: Window, g: Goal, now: nat)
    requires ValidStream(x) && ValidKnown(x, g.known) && Good(w) && HeadClear(w)
    requires Core(x, w, g) && Tracks(x, w, g.known) && SpansKept(w, g.known)
    ensures var w' := Round(w, now);
      && Good(w') && HeadClear(w') && Core(x, w', g) && Tracks(x, w', g.known) && SpansKept(w', g.known)
      && Since(w, w', now)
  {
    hide Good, HeadClear, Core, Tracks, Since, SpansKept, CompleteBatch, AcceptAll, Peel, Stuck, Progress, Done;
    hide DoneGrows;
    var (w1, batch) := Peel(w);
    PeelKeepsGood(w);
    PeelCore(x, w, g, now);
    RebuiltIsComplete(x, w, g);
    CompleteIsMedia(x, g.known, batch);
    AcceptAllKeepsGood(w1, batch, now);
    AcceptAllCore(x, w1, g, batch, now);
    RoundIsProgress(x, w, w1, Round(w, now), g, now);
    PeelFrames(w);
    RoundKeepsSpans(x, w, Round(w, now), g);
  }

  lemma RoundIsProgress(x: Stream, w: Window, w1: Window, w': Window, g: Goal, now: nat)
    requires Since(w, w1, now) && w1.nextSeq == w.nextSeq && w1.buffered == w.buffered && Progress(x, w1, w', g, now)
    ensures Core(x, w', g) && Tracks(x, w', g.known) && w'.fec.frames == w1.fec.frames && Since(w, w', now)
      && DoneGrows(w, w')
  {
    hide Core, Tracks, Since;
    SinceThenSince(w, w1, w', now);
  }

  lemma {:induction false} RecoverFecCore(x: Stream, w: Window, g: Goal, now: nat)
    requires ValidStream(x) && ValidKnown(x, g.known) && Good(w) && HeadClear(w)
    requires Core(x, w, g) && Tracks(x, w, g.known) && SpansKept(w, g.known)
    ensures var w' := RecoverFec(w, now);
      && Core(x, w', g) && Tracks(x, w', g.known) && SpansKept(w', g.known) && Since(w, w', now)
    decreases |w.fec.frames|
  {
    hide Good, HeadClear, Core, Tracks, Since, SpansKept, AcceptAll, Peel;
    var (w1, recovered) := Peel(w);
    var (w2, any) := AcceptAll(w1, recovered, now);
    RoundCore(x, w, g, now);
    if recovered == [] {
      NothingToAccept(w1, recovered, now);
    } else if any {
      PeelingShrinks(w, now);
      RecoverFecCore(x, w2, g, now);
      SinceThenSince(w, w2, RecoverFec(w2, now), now);
    }
  }

  lemma NothingToAccept(w: Window, batch: seq<(nat, Bytes)>, now: nat)
    requires batch == []
    ensures AcceptAll(w, batch, now).0 == w
  {
  }

  // ---------------------------------------------------------------- the goal is reached

  /** Every packet passed or held was accepted. */
  lemma DoneWasAccepted(x: Stream, w: Window, s: nat) returns (i: nat)
    requires Good(w) && Linear(x, w) && InStream(x, s) && Done(w, s)
    ensures i < |w.accepted| && w.accepted[i].0 == s
  {
    hide Good, Conserved, ForwardBag;
    GoodConserves(w);
    if s in w.buffered {
      i := HeldWasAccepted(w, s);
    } else {
      i := ForwardedWasAccepted(x, w, s);
    }
  }

  lemma ForwardedWasAccepted(x: Stream, w: Window, s: nat) returns (i: nat)
    requires Good(w) && Linear(x, w) && InStream(x, s) && s < w.nextSeq
    ensures i < |w.accepted| && w.accepted[i].0 == s
  {
    hide Tidy, AcceptedOnce, RecentSkips, ForwardBag, BufferBag;
    var k := s - x.start;
    SequenceAfterLinear(w.start, k);
    ForwardedIsInBag(w.log, k);
    var pair := (s, w.log[k].payload);
    assert pair in multiset(w.accepted);
    i :| 0 <= i < |w.accepted| && w.accepted[i] == pair;
  }

  lemma {:induction false} ForwardedIsInBag(log: seq<Delivery>, k: nat)
    requires k < |log| && log[k].Forwarded?
    ensures (log[k].sequence, log[k].payload) in ForwardBag(log)
  {
    var n := |log| - 1;
    if k < n {
      ForwardedIsInBag(log[..n], k);
    }
  }

  /** Under a stored frame, what is neither in the cache nor buffered is not done. */
  lemma AbsentIsNotDone(x: Stream, w: Window, g: Goal, base: nat, i: nat)
    requires ValidStream(x) && ValidKnown(x, g.known) && Good(w) && Core(x, w, g) && base in w.fec.frames
    requires i < |w.fec.frames[base].payloadLengths| && Absent(w.fec, w.buffered, w.fec.frames[base], i)
    ensures !Done(w, base + i) && InSpan(SpanOf(w.fec.frames[base]), base + i)
      && w.fec.frames[base].baseSequence == base
  {
    hide Good, Linear, Core, CompleteSet, Member, GenuineFrame, Absent, InFrame, Done;
    GoodFilesFrames(w, base);
    FrameIsSpan(x, w, g, base);
    CoreIsLinear(x, w, g);
    SpansAreRelied(x, w, g, base);
    AbsentIsNotFound(w, base, i);
    if Done(w, base + i) {
      var k := DoneWasAccepted(x, w, base + i);
      UnderAFrame(w, base, base + i);
      RememberedIsCached(x, w, g, k);
    }
  }

  lemma AbsentIsNotFound(w: Window, base: nat, i: nat)
    requires base in w.fec.frames && Absent(w.fec, w.buffered, w.fec.frames[base], i)
    ensures Member(w.fec.frames[base], i) !in w.fec.payloads
  {
  }

  lemma UnderAFrame(w: Window, base: nat, s: nat)
    requires base in w.fec.frames && InSpan(SpanOf(w.fec.frames[base]), s)
    ensures InFrame(w, s)
  {
  }

  lemma GoodFilesFrames(w: Window, base: nat)
    requires Good(w) && base in w.fec.frames
    ensures w.fec.frames[base].baseSequence == base
  {
  }

  lemma SpansAreRelied(x: Stream, w: Window, g: Goal, base: nat)
    requires Core(x, w, g) && base in w.fec.frames
    ensures g.relied
  {
    hide CompleteSet, CacheLasts, Honest, OnlyComplete, Linear;
  }

  /** Some packet under each stored frame is still not done. */
  ghost predicate FramesOpen(w: Window) {
    forall base :: base in w.fec.frames ==> exists s :: InSpan(SpanOf(w.fec.frames[base]), s) && !Done(w, s)
  }

  ghost function DoneSet(x: Stream, w: Window): set<nat> {
    set s | x.start <= s < End(x) && Done(w, s)
  }

  lemma TwoAreOpen(x: Stream, w: Window, g: Goal, base: nat) returns (a: nat, b: nat)
    requires ValidStream(x) && ValidKnown(x, g.known) && Good(w) && Core(x, w, g)
    requires base in w.fec.frames && Peeled(w.fec, w.buffered)
    ensures a != b && InSpan(SpanOf(w.fec.frames[base]), a) && InSpan(SpanOf(w.fec.frames[base]), b)
    ensures !Done(w, a) && !Done(w, b)
  {
    hide Good, Core, Absent, Done;
    var frame := w.fec.frames[base];
    assert TwoAbsent(w.fec, w.buffered, frame);
    var i, j :| 0 <= i < j < |frame.payloadLengths| && Absent(w.fec, w.buffered, frame, i)
      && Absent(w.fec, w.buffered, frame, j);
    AbsentIsNotDone(x, w, g, base, i);
    AbsentIsNotDone(x, w, g, base, j);
    a, b := base + i, base + j;
  }

  lemma OneOfTwo(span: Span, packets: set<nat>, q: nat, a: nat, b: nat)
    requires AllBut(span, packets, q) && InSpan(span, a) && InSpan(span, b) && a != b
    ensures a in packets || b in packets
  {
  }

  lemma DoneIsClosed(x: Stream, w: Window, g: Goal)
    requires ValidStream(x) && ValidKnown(x, g.known) && Good(w) && Core(x, w, g) && Tracks(x, w, g.known)
    requires SpansKept(w, g.known) && Peeled(w.fec, w.buffered)
    ensures Closed(x, g.known, DoneSet(x, w))
  {
    hide Good, Core, Peeled, Done;
    forall s | InStream(x, s) && AllIn(x, g.known, s)
      ensures s in DoneSet(x, w)
    {
      assert TracksOne(x, w, g.known, s);
    }
    forall span, q | span in g.known.spans && AllBut(span, DoneSet(x, w), q)
      ensures q in DoneSet(x, w)
    {
      assert IsSpan(x, span);
      if !AllDone(w, span) {
        var a, b := TwoAreOpen(x, w, g, span.first);
        OneOfTwo(span, DoneSet(x, w), q, a, b);
      }
    }
  }

  /** When nothing more can be rebuilt, what is done is what is complete. */
  lemma GoalIsReached(x: Stream, w: Window, g: Goal)
    requires ValidStream(x) && ValidKnown(x, g.known) && Good(w) && Core(x, w, g) && Tracks(x, w, g.known)
    requires SpansKept(w, g.known) && Peeled(w.fec, w.buffered)
    ensures DoneSet(x, w) == CompleteSet(x, g.known) && FramesOpen(w)
  {
    hide Good, Core, Tracks, SpansKept, Peeled, CompleteSet, Closed, Done;
    DoneIsClosed(x, w, g);
    DoneIsComplete(x, w, g);
    LeastIs(x, g.known, DoneSet(x, w));
    forall base | base in w.fec.frames
      ensures exists s :: InSpan(SpanOf(w.fec.frames[base]), s) && !Done(w, s)
    {
      var a, b := TwoAreOpen(x, w, g, base);
    }
  }

  lemma DoneIsComplete(x: Stream, w: Window, g: Goal)
    requires Core(x, w, g)
    ensures DoneSet(x, w) <= CompleteSet(x, g.known)
  {
    hide CompleteSet, CacheLasts, Honest, Linear, Done;
  }
}
