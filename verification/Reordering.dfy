/**
  What the window is for: whatever the order in which packets, fragments and parity
  frames arrive, with any repetition and over any paths, what is complete leaves in
  order. As long as nothing waits for the reorder delay, what has been forwarded is
  exactly the gapless prefix of complete packets, and nothing has been skipped.
*/
module Reordering {
  import opened Sequences
  import opened Wire
  import opened FecRecovery
  import opened Window
  import opened WindowLaws
  import opened Receiver
  import opened Integrity
  import opened FlowHistory
  import opened StreamClosure
  import opened StreamWindow
  import opened StreamParity
  import opened StreamCourse
  import opened StreamRest
  import opened StreamPieces

  // ---------------------------------------------------------------- a parity frame arrives

  /** Stored without another frame being evicted. */
  ghost predicate StoredBeside(v: FecView, v': FecView, frame: FecFrame) {
    && v'.frames == v.frames[frame.baseSequence := frame]
    && v'.payloads == v.payloads && v'.payloadOrder == v.payloadOrder
  }

  lemma FrameIsStoredBeside(v: FecView, frame: FecFrame, bases: set<nat>)
    requires v.frames.Keys <= bases && |bases + {frame.baseSequence}| <= FEC_FRAME_TRACK_LIMIT
    ensures StoredBeside(v, InsertFrame(v, frame), frame)
  {
    var more := v.frames[frame.baseSequence := frame];
    SubsetIsNoLarger(more.Keys, bases + {frame.baseSequence});
    assert |more| == |more.Keys|;
  }

  lemma StoredAreOpenFirsts(x: Stream, w: Window, before: seq<Input>, relied: bool)
    requires Good(w) && AtRest(x, w, before, relied)
    ensures w.fec.frames.Keys <= OpenFirsts(x, KnownBy(before))
  {
    hide Linear, Honest, Tracks, SpansKept, KeysDone, Times, CacheInOrder, CompleteSet, KnownBy, Done;
    forall base | base in w.fec.frames
      ensures base in OpenFirsts(x, KnownBy(before))
    {
      GoodFilesFrames(w, base);
      var span := SpanOf(w.fec.frames[base]);
      var s :| InSpan(span, s) && !Done(w, s);
      OpenIsIncomplete(x, w, before, relied, s);
      assert span in KnownBy(before).spans && span.first == base;
    }
  }

  ghost predicate ParityOnCourse(x: Stream, before: seq<Input>, a: Input, config: Config, relied: bool) {
    a.ParityIn? && OnCourse(x, before, a, config, relied)
  }

  lemma ParityIsOfStream(x: Stream, before: seq<Input>, a: Input, config: Config, relied: bool)
    requires ParityOnCourse(x, before, a, config, relied)
    ensures ValidFrame(a.frame) && IsSpan(x, SpanOf(a.frame)) && GenuineFrame(SourcesOf(x), a.frame)
    ensures |OpenFirsts(x, KnownBy(before)) + {a.frame.baseSequence}| <= FEC_FRAME_TRACK_LIMIT && relied
  {
    hide InTime, NoRestart, TimerIsPending, KnownBy, ValidKnown, OpenFirsts, Retained, GenuineFrame;
  }

  lemma ParityLearns(before: seq<Input>, a: Input)
    requires a.ParityIn?
    ensures KnownBy(before + [a]) == KnownBy(before).(spans := KnownBy(before).spans + {SpanOf(a.frame)})
  {
    KnownNext(before, a);
  }

  lemma SpansKeptWith(x: Stream, w: Window, w0: Window, known: Known, frame: FecFrame)
    requires var more := known.(spans := known.spans + {SpanOf(frame)}); ValidKnown(x, more) && SpansKept(w, known)
    requires StoredBeside(w.fec, w0.fec, frame) && w0.nextSeq == w.nextSeq && w0.buffered == w.buffered
    ensures SpansKept(w0, known.(spans := known.spans + {SpanOf(frame)}))
  {
    var more := known.(spans := known.spans + {SpanOf(frame)});
    forall span | span in more.spans
      ensures Stored(w0, span) || AllDone(w0, span)
    {
      if span.first == frame.baseSequence {
        assert SpanOf(frame) in more.spans && SpanOf(frame).first == span.first;
      } else if AllDone(w, span) {
        assert forall s :: InSpan(span, s) ==> Done(w, s) && Done(w0, s);
      } else {
        assert Stored(w, span);
      }
    }
  }

  lemma SameTracks(x: Stream, w: Window, w0: Window, known: Known, more: Known)
    requires Tracks(x, w, known) && more.parts == known.parts
    requires w0.nextSeq == w.nextSeq && w0.buffered == w.buffered && w0.fragments == w.fragments
    ensures Tracks(x, w0, more)
  {
    forall s | InStream(x, s)
      ensures TracksOne(x, w0, more, s)
    {
      assert TracksOne(x, w, known, s);
    }
  }

  lemma FrameMakesReady(x: Stream, w: Window, w0: Window, before: seq<Input>, a: Input, config: Config, relied: bool)
    requires ValidStream(x) && Settled(w) && AtRest(x, w, before, relied)
      && ParityOnCourse(x, before, a, config, relied)
    requires w0 == w.(fec := w0.fec) && StoredBeside(w.fec, w0.fec, a.frame) && Honest(SourcesOf(x), w0)
    ensures Ready(x, w0, GoalOf(x, before, a, relied), before + [a])
  {
    hide Good, HeadClear, OnCourse, Core, Tracks, SpansKept, Times, KnownBy, CompleteSet, ValidKnown, LastInOrder;
    hide InTime;
    hide Honest, Linear, FramesOpen, FramesKnown, KeysDone, CacheInOrder, DoneSet;
    CourseIsInOrder(x, before, a, config, relied);
    StartCore(x, w, w0, before, a, config, relied);
    ParityLearns(before, a);
    SpansKeptWith(x, w, w0, KnownBy(before), a.frame);
    SameTracks(x, w, w0, KnownBy(before), KnownBy(before + [a]));
    RestTimes(x, w, before, a, relied);
    SameTimes(x, w, w0, before + [a]);
  }

  lemma SameTimes(x: Stream, w: Window, w0: Window, arrivals: seq<Input>)
    requires Times(x, w, arrivals) && w0.buffered == w.buffered && w0.fragments == w.fragments
    ensures Times(x, w0, arrivals)
  {
    hide CompleteBy, SeenBy;
  }

  lemma StoringIsHonest(x: Stream, w: Window, frame: FecFrame)
    requires Honest(SourcesOf(x), w) && GenuineFrame(SourcesOf(x), frame)
    ensures Honest(SourcesOf(x), WithFrame(w, frame))
  {
    InsertFrameStaysHonest(SourcesOf(x), w.fec, frame);
    hide InsertFrame, GenuineFrame, HonestStore;
  }

  /** Parity over the stream: what it rebuilds is accepted, and the rest is kept for later. */
  lemma ParityRests(x: Stream, w: Window, before: seq<Input>, a: Input, config: Config, relied: bool)
    requires ValidStream(x) && Settled(w) && AtRest(x, w, before, relied)
      && ParityOnCourse(x, before, a, config, relied)
    ensures ValidFrame(a.frame) && Settled(WithFrame(w, a.frame))
    ensures AtRest(x, RecoverAndAdvance(WithFrame(w, a.frame), config, a.now), before + [a], relied)
  {
    hide Good, HeadClear, OnCourse, AtRest, Ready, Rested, KnownBy, ValidKnown, LastInOrder, InTime, RecoverAndAdvance;
    hide InsertFrame, StoredBeside, OpenFirsts, Honest, GenuineFrame, Blank;
    var w0, g := WithFrame(w, a.frame), GoalOf(x, before, a, relied);
    CourseIsInOrder(x, before, a, config, relied);
    ParityIsOfStream(x, before, a, config, relied);
    WithFrameIsSettled(w, a.frame);
    StoredAreOpenFirsts(x, w, before, relied);
    FrameIsStoredBeside(w.fec, a.frame, OpenFirsts(x, KnownBy(before)));
    RestIsHonest(x, w, before, relied);
    StoringIsHonest(x, w, a.frame);
    FrameMakesReady(x, w, w0, before, a, config, relied);
    RecoverAndAdvanceRests(x, w0, g, before + [a], config, a.now);
    RecoverAndAdvanceContinues(w0, config, a.now);
    BackToRest(x, w, RecoverAndAdvance(w0, config, a.now), before, a, relied);
  }

  // ---------------------------------------------------------------- a timeout

  lemma {:induction false} ArrivedIsKnown(arrivals: seq<Input>, m: nat)
    requires m < |arrivals| && arrivals[m].PartIn?
    ensures arrivals[m].part in KnownBy(arrivals).parts
  {
    var n := |arrivals| - 1;
    if m < n {
      ArrivedIsKnown(arrivals[..n], m);
    }
  }

  /** While a piece at or past the head waits, the receiver knows that it has something pending. */
  lemma WaitingIsPending(x: Stream, w: Window, before: seq<Input>, relied: bool, part: Part)
    requires AtRest(x, w, before, relied) && part in KnownBy(before).parts && IsPart(x, part)
      && part.sequence >= w.nextSeq
    ensures PendingState(w)
  {
    hide Linear, Honest, SpansKept, FramesOpen, FramesKnown, KeysDone, Times, CacheInOrder, CompleteSet, KnownBy;
    assert part.WholeCopy? ==> AllIn(x, KnownBy(before), part.sequence);
    assert TracksOne(x, w, KnownBy(before), part.sequence);
    if part.sequence !in w.buffered {
      assert part.Piece? ==> Piece(part.sequence, part.piece) == part;
      assert part.sequence in w.fragments;
    }
  }

  lemma TimerRests(x: Stream, w: Window, before: seq<Input>, a: Input, config: Config, relied: bool)
    requires ValidStream(x) && Settled(w) && AtRest(x, w, before, relied) && a.TimerIn?
    requires OnCourse(x, before, a, config, relied)
    ensures AtRest(x, Advance(w, config, a.now), before + [a], relied)
  {
    hide Good, HeadClear, OnCourse, Ready, Rested, KnownBy, ValidKnown, LastInOrder, InTime, Advance, AtRest, Honest;
    var g := GoalOf(x, before, a, relied);
    CourseIsInOrder(x, before, a, config, relied);
    TimerIsReady(x, w, before, a, config, relied);
    AdvanceRests(x, w, g, before + [a], config, a.now);
    AdvanceContinues(w, config, a.now);
    BackToRest(x, w, Advance(w, config, a.now), before, a, relied);
  }

  lemma TimerIsReady(x: Stream, w: Window, before: seq<Input>, a: Input, config: Config, relied: bool)
    requires ValidStream(x) && Settled(w) && AtRest(x, w, before, relied) && a.TimerIn?
    requires OnCourse(x, before, a, config, relied)
    ensures Ready(x, w, GoalOf(x, before, a, relied), before + [a])
  {
    hide Good, HeadClear, OnCourse, Core, Tracks, SpansKept, Times, KnownBy, CompleteSet, ValidKnown, LastInOrder;
    hide InTime;
    hide Honest, Linear, FramesOpen, FramesKnown, KeysDone, CacheInOrder, DoneSet;
    CourseIsInOrder(x, before, a, config, relied);
    StartCore(x, w, w, before, a, config, relied);
    KnownNext(before, a);
    RestTimes(x, w, before, a, relied);
  }

  // ---------------------------------------------------------------- the receiver before the first piece

  lemma {:induction false} NoPartIsKnown(arrivals: seq<Input>)
    requires NoPart(arrivals)
    ensures KnownBy(arrivals).parts == {}
  {
    if arrivals != [] {
      var n := |arrivals| - 1;
      forall m | 0 <= m < n
        ensures !arrivals[..n][m].PartIn?
      {
        assert !arrivals[m].PartIn?;
      }
      NoPartIsKnown(arrivals[..n]);
    }
  }

  /** Parity alone: nothing is complete, and the head is where the stretch starts. */
  lemma NothingCompleteYet(x: Stream, arrivals: seq<Input>)
    requires ValidStream(x) && ValidKnown(x, KnownBy(arrivals)) && NoPart(arrivals)
    ensures CompleteBy(x, arrivals) == {} && HeadBy(x, arrivals) == x.start
  {
    NoPartIsKnown(arrivals);
    hide KnownBy, CompleteSet, ValidKnown;
    NothingFromParityAlone(x, KnownBy(arrivals));
  }

  ghost predicate AllStored(w: Window, known: Known) {
    forall span :: span in known.spans ==> Stored(w, span)
  }

  /** No flow is under way yet, and the parity that has come is all stored. */
  ghost predicate Waiting(x: Stream, s: Server, flows: seq<Flow>, arrivals: seq<Input>, relied: bool) {
    && !s.initialized && s.flows == flows && NoPart(arrivals)
    && HonestStore(SourcesOf(x), s.window.fec) && FramesKnown(s.window, KnownBy(arrivals))
    && AllStored(s.window, KnownBy(arrivals)) && (relied || KnownBy(arrivals).spans == {})
  }

  lemma WaitingFramesAreOpen(x: Stream, s: Server, flows: seq<Flow>, before: seq<Input>, relied: bool)
    requires ValidStream(x) && Sound(s) && ValidKnown(x, KnownBy(before)) && Waiting(x, s, flows, before, relied)
    ensures s.window.fec.frames.Keys <= OpenFirsts(x, KnownBy(before))
  {
    NothingCompleteYet(x, before);
    hide KnownBy, CompleteSet, HonestStore, AllStored, Blank;
    forall base | base in s.window.fec.frames
      ensures base in OpenFirsts(x, KnownBy(before))
    {
      GoodFilesFrames(s.window, base);
      var span := SpanOf(s.window.fec.frames[base]);
      assert IsSpan(x, span);
      assert InSpan(span, span.first) && span.first !in CompleteSet(x, KnownBy(before));
      assert span in KnownBy(before).spans && span.first == base;
    }
  }

  lemma StoringKeepsAll(x: Stream, w: Window, w0: Window, known: Known, frame: FecFrame)
    requires var more := known.(spans := known.spans + {SpanOf(frame)});
      ValidKnown(x, more) && FramesKnown(w, known) && AllStored(w, known)
    requires StoredBeside(w.fec, w0.fec, frame)
    ensures var more := known.(spans := known.spans + {SpanOf(frame)}); FramesKnown(w0, more) && AllStored(w0, more)
  {
    var more := known.(spans := known.spans + {SpanOf(frame)});
    forall span | span in more.spans
      ensures Stored(w0, span)
    {
      if span.first == frame.baseSequence {
        assert SpanOf(frame) in more.spans && SpanOf(frame).first == span.first;
      }
    }
  }

  lemma StoringGoesOnWaiting(x: Stream, s: Server, flows: seq<Flow>, before: seq<Input>, a: Input, config: Config,
                             relied: bool)
    requires ValidStream(x) && Sound(s) && Waiting(x, s, flows, before, relied)
      && ParityOnCourse(x, before, a, config, relied)
    ensures ValidFrame(a.frame)
    ensures Waiting(x, OnFec(s, a.frame, config, a.now), flows, before + [a], relied)
  {
    hide KnownBy, CompleteSet, HonestStore, AllStored, Blank, InsertFrame, StoredBeside, OpenFirsts, OnCourse;
    hide ValidKnown;
    hide FramesKnown, GenuineFrame, Settled, LastInOrder, InTime, NoPart;
    ParityIsOfStream(x, before, a, config, relied);
    CourseIsInOrder(x, before, a, config, relied);
    ParityLearns(before, a);
    HomeNext(before, a);
    KnownNext(before, a);
    LessIsValid(x, KnownBy(before), KnownBy(before + [a]));
    WaitingFramesAreOpen(x, s, flows, before, relied);
    InsertFrameStaysHonest(SourcesOf(x), s.window.fec, a.frame);
    FrameIsStoredBeside(s.window.fec, a.frame, OpenFirsts(x, KnownBy(before)));
    StoringKeepsAll(x, s.window, WithFrame(s.window, a.frame), KnownBy(before), a.frame);
  }

  lemma TimerGoesOnWaiting(x: Stream, s: Server, flows: seq<Flow>, before: seq<Input>, a: Input, config: Config,
                           relied: bool)
    requires Sound(s) && Waiting(x, s, flows, before, relied) && a.TimerIn?
    ensures Waiting(x, OnTimer(s, config, a.now), flows, before + [a], relied)
  {
    KnownNext(before, a);
    hide KnownBy, HonestStore, AllStored, FramesKnown, Settled, Blank;
  }

  /** With its first piece the flow is at rest: nothing of the stretch has come but parity. */
  lemma OpenedRests(x: Stream, s: Server, flows: seq<Flow>, before: seq<Input>, relied: bool, connection: nat)
    requires ValidStream(x) && Sound(s) && ValidKnown(x, KnownBy(before)) && Waiting(x, s, flows, before, relied)
    ensures AtRest(x, Open(s, connection, x.start).window, before, relied)
  {
    hide KnownBy, CompleteSet, HonestStore, Tracks, SpansKept, FramesOpen, Linear, Sound, Open, ValidKnown;
    hide Done, NoPart, HonestLog;
    var w := Open(s, connection, x.start).window;
    NothingCompleteYet(x, before);
    NoPartIsKnown(before);
    BlankIsLinear(x, s, connection);
    OpenedTracks(x, w, KnownBy(before));
    OpenedFrames(x, w, KnownBy(before));
    EmptyLogIsHonest(SourcesOf(x), w);
  }

  lemma BlankIsLinear(x: Stream, s: Server, connection: nat)
    requires ValidStream(x) && Sound(s) && !s.initialized
    ensures var w := Open(s, connection, x.start).window;
      && Linear(x, w) && w.nextSeq == x.start && w.buffered == map[] && w.fragments == map[] && w.log == []
      && w.accepted == [] && w.fec == s.window.fec && w.fec.payloads == map[] && w.fec.payloadOrder == []
  {
    OrderCounts(s.window.fec.payloadOrder, s.window.fec.payloads);
  }

  lemma EmptyLogIsHonest(sent: map<nat, Source>, w: Window)
    requires w.log == []
    ensures HonestLog(sent, w.log)
  {
  }

  lemma OpenedTracks(x: Stream, w: Window, known: Known)
    requires ValidStream(x) && known.parts == {} && w.fragments == map[]
    ensures Tracks(x, w, known)
  {
    forall s | InStream(x, s)
      ensures TracksOne(x, w, known, s)
    {
      assert WholeCopy(s) !in known.parts && Piece(s, 0) !in known.parts && |PiecesOf(x, s)| >= 1;
    }
  }

  lemma OpenedFrames(x: Stream, w: Window, known: Known)
    requires ValidKnown(x, known) && FramesKnown(w, known) && AllStored(w, known)
    requires w.nextSeq == x.start && w.buffered == map[]
    ensures SpansKept(w, known) && FramesOpen(w)
    ensures forall s :: InStream(x, s) ==> !Done(w, s)
  {
    forall base | base in w.fec.frames
      ensures exists s :: InSpan(SpanOf(w.fec.frames[base]), s) && !Done(w, s)
    {
      var span := SpanOf(w.fec.frames[base]);
      assert IsSpan(x, span);
      assert InSpan(span, span.first) && !Done(w, span.first);
    }
  }

  // ---------------------------------------------------------------- the receiver while the flow is under way

  ghost predicate UnderWay(x: Stream, s: Server, flows: seq<Flow>, arrivals: seq<Input>, relied: bool) {
    && s.initialized && s.flows == flows && !NoPart(arrivals) && Home(arrivals) in s.connections
    && AtRest(x, s.window, arrivals, relied)
  }

  function PacketOf(x: Stream, part: Part): Packet
    requires IsPart(x, part)
  {
    Packet(HeaderOf(x, part), PieceOf(x, part))
  }

  lemma StepInWindow(s: Server, connection: nat, packet: Packet, config: Config, now: nat)
    requires Sound(s) && s.initialized && ValidHeader(packet.header)
    requires s.window.nextSeq <= packet.header.sequence <= MAX_MEDIA_SEQUENCE
    ensures Settled(s.window)
    ensures var s' := OnOpenPacket(s, connection, packet, config, now);
      && s'.initialized && s'.flows == s.flows && s'.connections == s.connections + {connection}
      && s'.window == Deliver(s.window, packet.header, packet.payload, config, now)
  {
    hide Settled, Deliver;
  }

  lemma StepNearBelow(s: Server, connection: nat, packet: Packet, config: Config, now: nat)
    requires Sound(s) && s.initialized && ValidHeader(packet.header) && packet.header.sequence <= MAX_MEDIA_SEQUENCE
    requires packet.header.sequence < s.window.nextSeq
    requires connection in s.connections || s.window.nextSeq - packet.header.sequence < RESTART_BACKWARD_GAP
    ensures var s' := OnOpenPacket(s, connection, packet, config, now);
      s'.initialized && s'.flows == s.flows && s'.connections == s.connections && s'.window == s.window
  {
    hide Settled, Deliver, Reopen;
  }

  lemma HomeNext(before: seq<Input>, a: Input)
    ensures NoPart(before + [a]) <==> NoPart(before) && !a.PartIn?
    ensures Home(before + [a]) == if NoPart(before) && a.PartIn? then a.connection else Home(before)
  {
    var after := before + [a];
    assert after[..|before|] == before && after[|before|] == a;
    if !NoPart(before) {
      var m :| 0 <= m < |before| && before[m].PartIn?;
      assert after[m].PartIn?;
    } else if !a.PartIn? {
      forall m | 0 <= m < |after|
        ensures !after[m].PartIn?
      {
        assert m < |before| ==> !before[m].PartIn?;
      }
      NoHome(before);
    }
  }

  lemma {:induction false} NoHome(arrivals: seq<Input>)
    requires NoPart(arrivals)
    ensures Home(arrivals) == 0
  {
    if arrivals != [] {
      var front := arrivals[..|arrivals| - 1];
      forall m | 0 <= m < |front|
        ensures !front[m].PartIn?
      {
        assert !arrivals[m].PartIn?;
      }
    }
  }

  lemma NearOrHome(x: Stream, before: seq<Input>, a: Input, config: Config, relied: bool)
    requires OnCourse(x, before, a, config, relied) && a.PartIn?
    ensures a.connection == Home(before) || HeadBy(x, before) < a.part.sequence + RESTART_BACKWARD_GAP
    ensures IsPart(x, a.part) && (NoPart(before) ==> a.part.sequence == x.start)
  {
    hide InTime, TimerIsPending, KnownBy, ValidKnown, OpenFirsts, Retained, HeadBy, FramesFit;
  }

  /** A piece reaches an open flow at rest. */
  lemma PieceStep(x: Stream, s: Server, before: seq<Input>, a: Input, config: Config, relied: bool)
    requires ValidStream(x) && Sound(s) && s.initialized && AtRest(x, s.window, before, relied)
    requires PieceOnCourse(x, before, a, config, relied)
    requires a.connection in s.connections || HeadBy(x, before) < a.part.sequence + RESTART_BACKWARD_GAP
    ensures ValidHeader(HeaderOf(x, a.part)) && a.part.sequence <= MAX_MEDIA_SEQUENCE
    ensures var s' := OnOpenPacket(s, a.connection, PacketOf(x, a.part), config, a.now);
      && s'.initialized && s'.flows == s.flows && s.connections <= s'.connections
      && AtRest(x, s'.window, before + [a], relied)
  {
    hide Good, HeadClear, OnCourse, AtRest, KnownBy, ValidKnown, Deliver, OnOpenPacket, HeadBy, PieceOf;
    HeaderIsValid(x, a.part);
    SoundIsSettled(s);
    if a.part.sequence >= s.window.nextSeq {
      StepInWindow(s, a.connection, PacketOf(x, a.part), config, a.now);
      PieceRests(x, s.window, before, a, config, relied);
    } else {
      RestIsAtTheHead(x, s.window, before, relied);
      StepNearBelow(s, a.connection, PacketOf(x, a.part), config, a.now);
      CourseIsInOrder(x, before, a, config, relied);
      UnchangedRests(x, s.window, before, a, relied);
    }
  }

  lemma SoundIsSettled(s: Server)
    requires Sound(s)
    ensures Settled(s.window)
  {
  }

  // ---------------------------------------------------------------- one arrival, whatever it is

  function EventFor(x: Stream, a: Input): Event
    requires a.PartIn? ==> IsPart(x, a.part)
  {
    match a
    case PartIn(part, connection, now) => PacketArrives(connection, PacketOf(x, part), now)
    case ParityIn(frame, now) => FecArrives(frame, now)
    case TimerIn(now) => TimerFires(now)
  }

  ghost predicate InFlight(x: Stream, s: Server, flows: seq<Flow>, arrivals: seq<Input>, relied: bool) {
    Waiting(x, s, flows, arrivals, relied) || UnderWay(x, s, flows, arrivals, relied)
  }

  lemma PieceGoesOn(x: Stream, s: Server, flows: seq<Flow>, before: seq<Input>, a: Input, config: Config, relied: bool)
    requires ValidStream(x) && Sound(s) && InFlight(x, s, flows, before, relied)
    requires PieceOnCourse(x, before, a, config, relied)
    ensures ValidEvent(EventFor(x, a))
    ensures UnderWay(x, Step(s, EventFor(x, a), config), flows, before + [a], relied)
  {
    hide Good, HeadClear, OnCourse, AtRest, KnownBy, ValidKnown, Deliver, OnOpenPacket, HeadBy, PieceOf, Home;
    hide NoPart, Blank, HonestStore, FramesKnown, AllStored;
    HeaderIsValid(x, a.part);
    HomeNext(before, a);
    PieceIsNear(x, before, a, config, relied);
    if s.initialized {
      PieceStep(x, s, before, a, config, relied);
    } else {
      WaitingStarts(x, s, flows, before, a, config, relied);
      PieceStep(x, Open(s, a.connection, x.start), before, a, config, relied);
    }
  }

  lemma PieceIsNear(x: Stream, before: seq<Input>, a: Input, config: Config, relied: bool)
    requires PieceOnCourse(x, before, a, config, relied)
    ensures a.connection == Home(before) || HeadBy(x, before) < a.part.sequence + RESTART_BACKWARD_GAP
    ensures NoPart(before) ==> a.part.sequence == x.start
  {
    hide OnCourse, HeadBy;
    NearOrHome(x, before, a, config, relied);
  }

  lemma WaitingStarts(x: Stream, s: Server, flows: seq<Flow>, before: seq<Input>, a: Input, config: Config,
                      relied: bool)
    requires ValidStream(x) && Sound(s) && Waiting(x, s, flows, before, relied)
      && PieceOnCourse(x, before, a, config, relied)
    ensures var s1 := Open(s, a.connection, x.start);
      && s1.flows == flows && s1.initialized && a.connection in s1.connections && Sound(s1)
      && AtRest(x, s1.window, before, relied)
  {
    CourseIsInOrder(x, before, a, config, relied);
    KnownNext(before, a);
    LessIsValid(x, KnownBy(before), KnownBy(before + [a]));
    hide Good, HeadClear, OnCourse, AtRest, KnownBy, ValidKnown, HonestStore, FramesKnown, AllStored, Blank;
    hide LastInOrder, InTime;
    OpenedRests(x, s, flows, before, relied, a.connection);
  }

  lemma ParityGoesOn(x: Stream, s: Server, flows: seq<Flow>, before: seq<Input>, a: Input, config: Config, relied: bool)
    requires ValidStream(x) && Sound(s) && InFlight(x, s, flows, before, relied)
    requires ParityOnCourse(x, before, a, config, relied)
    ensures ValidEvent(EventFor(x, a))
    ensures InFlight(x, Step(s, EventFor(x, a), config), flows, before + [a], relied)
  {
    hide Good, HeadClear, OnCourse, AtRest, KnownBy, RecoverAndAdvance, Waiting, NoPart, Home, Blank;
    HomeNext(before, a);
    if Waiting(x, s, flows, before, relied) {
      StoringGoesOnWaiting(x, s, flows, before, a, config, relied);
    } else {
      SoundIsSettled(s);
      ParityRests(x, s.window, before, a, config, relied);
    }
  }

  lemma TimerGoesOn(x: Stream, s: Server, flows: seq<Flow>, before: seq<Input>, a: Input, config: Config, relied: bool)
    requires ValidStream(x) && Sound(s) && InFlight(x, s, flows, before, relied)
    requires a.TimerIn? && OnCourse(x, before, a, config, relied)
    ensures InFlight(x, Step(s, EventFor(x, a), config), flows, before + [a], relied)
  {
    hide Good, HeadClear, OnCourse, AtRest, KnownBy, Advance, Waiting, NoPart, Home, Blank, PendingState;
    HomeNext(before, a);
    if Waiting(x, s, flows, before, relied) {
      TimerGoesOnWaiting(x, s, flows, before, a, config, relied);
    } else {
      SoundIsSettled(s);
      TimerFindsPending(x, s, flows, before, a, config, relied);
      TimerRests(x, s.window, before, a, config, relied);
    }
  }

  lemma PendingPiece(x: Stream, before: seq<Input>, a: Input, config: Config, relied: bool) returns (part: Part)
    requires OnCourse(x, before, a, config, relied) && a.TimerIn? && !NoPart(before)
    ensures part in KnownBy(before).parts && IsPart(x, part) && part.sequence >= HeadBy(x, before)
  {
    CourseIsInOrder(x, before, a, config, relied);
    KnownNext(before, a);
    hide InTime, NoRestart, OpenFirsts, Retained, FramesFit, HeadBy, KnownBy, LastInOrder, OfStream;
    var m :| 0 <= m < |before| && before[m].PartIn? && before[m].part.sequence >= HeadBy(x, before);
    ArrivedIsKnown(before, m);
    part := before[m].part;
  }

  lemma TimerFindsPending(x: Stream, s: Server, flows: seq<Flow>, before: seq<Input>, a: Input, config: Config,
                          relied: bool)
    requires ValidStream(x) && Settled(s.window) && UnderWay(x, s, flows, before, relied)
    requires a.TimerIn? && OnCourse(x, before, a, config, relied)
    ensures PendingState(s.window)
  {
    hide Good, HeadClear, OnCourse, AtRest, KnownBy, NoPart, Home, PendingState, HeadBy;
    var part := PendingPiece(x, before, a, config, relied);
    SettledIsClear(s.window);
    RestIsAtTheHead(x, s.window, before, relied);
    WaitingIsPending(x, s.window, before, relied, part);
  }

  lemma SettledIsClear(w: Window)
    requires Settled(w)
    ensures HeadClear(w)
  {
    hide Good, HeadClear;
  }

  lemma InputGoesOn(x: Stream, s: Server, flows: seq<Flow>, before: seq<Input>, a: Input, config: Config, relied: bool)
    requires ValidStream(x) && Sound(s) && InFlight(x, s, flows, before, relied)
    requires OnCourse(x, before, a, config, relied)
    ensures OfStream(x, a) && ValidEvent(EventFor(x, a))
    ensures InFlight(x, Step(s, EventFor(x, a), config), flows, before + [a], relied)
  {
    hide Sound, InFlight, OnCourse, Step, Waiting, UnderWay, ValidEvent;
    CourseIsOfStream(x, before, a, config, relied);
    match a
    case PartIn(_, _, _) =>
      PieceGoesOn(x, s, flows, before, a, config, relied);
      FlowIsInFlight(x, Step(s, EventFor(x, a), config), flows, before + [a], relied);
    case ParityIn(_, _) => ParityGoesOn(x, s, flows, before, a, config, relied);
    case TimerIn(_) =>
      TimerIsValid(x, a);
      TimerGoesOn(x, s, flows, before, a, config, relied);
  }

  lemma TimerIsValid(x: Stream, a: Input)
    requires a.TimerIn?
    ensures ValidEvent(EventFor(x, a))
  {
  }

  lemma FlowIsInFlight(x: Stream, s: Server, flows: seq<Flow>, arrivals: seq<Input>, relied: bool)
    requires UnderWay(x, s, flows, arrivals, relied)
    ensures InFlight(x, s, flows, arrivals, relied)
  {
    hide Waiting, UnderWay;
  }

  lemma CourseIsOfStream(x: Stream, before: seq<Input>, a: Input, config: Config, relied: bool)
    requires OnCourse(x, before, a, config, relied)
    ensures OfStream(x, a) && (a.PartIn? ==> IsPart(x, a.part))
  {
    hide InTime, NoRestart, TimerIsPending, KnownBy, ValidKnown, OpenFirsts, Retained, HeadBy, FramesFit, GenuineFrame;
  }

  // ---------------------------------------------------------------- a run

  ghost predicate AllOfStream(x: Stream, arrivals: seq<Input>) {
    forall i :: 0 <= i < |arrivals| ==> OfStream(x, arrivals[i])
  }

  /** The events of the arrivals. */
  ghost function EventsFor(x: Stream, arrivals: seq<Input>): (events: seq<Event>)
    requires AllOfStream(x, arrivals)
    ensures |events| == |arrivals|
  {
    seq(|arrivals|, (i: nat) requires i < |arrivals| => EventFor(x, arrivals[i]))
  }

  /** Each arrival is on course, given those before it. */
  ghost predicate AllOnCourse(x: Stream, arrivals: seq<Input>, config: Config, relied: bool) {
    forall n :: 0 <= n < |arrivals| ==> OnCourse(x, arrivals[..n], arrivals[n], config, relied)
  }

  lemma CourseOfFront(x: Stream, arrivals: seq<Input>, config: Config, relied: bool)
    requires AllOnCourse(x, arrivals, config, relied) && arrivals != []
    ensures AllOnCourse(x, arrivals[..|arrivals| - 1], config, relied)
    ensures OnCourse(x, arrivals[..|arrivals| - 1], arrivals[|arrivals| - 1], config, relied)
  {
    hide OnCourse;
    var front := arrivals[..|arrivals| - 1];
    forall n | 0 <= n < |front|
      ensures OnCourse(x, front[..n], front[n], config, relied)
    {
      assert front[..n] == arrivals[..n];
    }
  }

  lemma AllAreOfStream(x: Stream, arrivals: seq<Input>, config: Config, relied: bool)
    requires ValidStream(x) && AllOnCourse(x, arrivals, config, relied)
    ensures AllOfStream(x, arrivals) && ValidEvents(EventsFor(x, arrivals))
  {
    hide OnCourse, ValidStream;
    forall i | 0 <= i < |arrivals|
      ensures OfStream(x, arrivals[i]) && ValidEvent(EventFor(x, arrivals[i]))
    {
      CourseIsOfStream(x, arrivals[..i], arrivals[i], config, relied);
      EventIsValid(x, arrivals[i]);
    }
  }

  lemma EventIsValid(x: Stream, a: Input)
    requires ValidStream(x) && OfStream(x, a)
    ensures ValidEvent(EventFor(x, a))
  {
    hide GenuineFrame;
  }

  /** No flow under way and no parity stored, as at the start and after an idle reset. */
  ghost predicate Unopened(s: Server) {
    Sound(s) && !s.initialized && s.window.fec == EMPTY_FEC
  }

  lemma UnopenedIsWaiting(x: Stream, s: Server, relied: bool)
    requires Unopened(s)
    ensures Waiting(x, s, s.flows, [], relied)
  {
  }

  lemma {:induction false} RunIsInFlight(x: Stream, s: Server, arrivals: seq<Input>, config: Config, relied: bool)
    requires ValidStream(x) && Unopened(s) && AllOnCourse(x, arrivals, config, relied)
    ensures AllOfStream(x, arrivals) && ValidEvents(EventsFor(x, arrivals))
    ensures InFlight(x, Run(s, EventsFor(x, arrivals), config), s.flows, arrivals, relied)
  {
    hide Sound, InFlight, OnCourse, Step, Waiting, UnderWay, ValidEvent, OfStream, AllOnCourse;
    AllAreOfStream(x, arrivals, config, relied);
    if arrivals == [] {
      UnopenedIsWaiting(x, s, relied);
      WaitingIsInFlight(x, s, s.flows, [], relied);
    } else {
      var n := |arrivals| - 1;
      CourseOfFront(x, arrivals, config, relied);
      RunIsInFlight(x, s, arrivals[..n], config, relied);
      assert EventsFor(x, arrivals)[..n] == EventsFor(x, arrivals[..n]);
      assert arrivals[..n] + [arrivals[n]] == arrivals;
      InputGoesOn(x, Run(s, EventsFor(x, arrivals[..n]), config), s.flows, arrivals[..n], arrivals[n], config, relied);
    }
  }

  lemma WaitingIsInFlight(x: Stream, s: Server, flows: seq<Flow>, arrivals: seq<Input>, relied: bool)
    requires Waiting(x, s, flows, arrivals, relied)
    ensures InFlight(x, s, flows, arrivals, relied)
  {
    hide Waiting, UnderWay;
  }

  // ---------------------------------------------------------------- a short stretch needs nothing more

  /** Of the stream, within one reorder delay of each other, from the first packet on, and no timeout. */
  ghost predicate Burst(x: Stream, arrivals: seq<Input>, config: Config) {
    && AllOfStream(x, arrivals) && ValidKnown(x, KnownBy(arrivals)) && |x.pieces| <= FEC_FRAME_TRACK_LIMIT
    && (forall i, j :: 0 <= i <= j < |arrivals| ==>
      arrivals[i].now <= arrivals[j].now < arrivals[i].now + config.maxReorderDelay)
    && (forall i :: 0 <= i < |arrivals| ==> !arrivals[i].TimerIn?)
    && forall i :: 0 <= i < |arrivals| ==> OpensAtStart(x, arrivals[..i], arrivals[i])
  }

  lemma {:induction false} RangeSize(packets: set<nat>, low: nat, high: nat)
    requires low <= high && forall s :: s in packets ==> low <= s < high
    ensures |packets| <= high - low
    decreases high
  {
    if low < high {
      RangeSize(packets - {high - 1}, low, high - 1);
      if high - 1 in packets {
        assert packets == (packets - {high - 1}) + {high - 1};
      } else {
        assert packets == packets - {high - 1};
      }
    } else {
      assert packets == {};
    }
  }

  lemma CompleteIsSmall(x: Stream, known: Known)
    ensures |CompleteSet(x, known)| <= |x.pieces|
  {
    hide Follows;
    RangeSize(CompleteSet(x, known), x.start, End(x));
  }

  lemma FirstsAreFew(x: Stream, known: Known, base: nat)
    requires ValidKnown(x, known) && x.start <= base < End(x)
    ensures |OpenFirsts(x, known) + {base}| <= |x.pieces|
  {
    hide CompleteSet;
    forall s | s in OpenFirsts(x, known) + {base}
      ensures x.start <= s < End(x)
    {
      if s != base {
        var span :| span in known.spans && span.first == s;
        assert IsSpan(x, span);
      }
    }
    RangeSize(OpenFirsts(x, known) + {base}, x.start, End(x));
  }

  lemma BurstIsRetained(x: Stream, before: seq<Input>, a: Input)
    requires ValidStream(x) && |x.pieces| <= FEC_FRAME_TRACK_LIMIT
    ensures Retained(x, before, a)
  {
    CompleteIsSmall(x, KnownBy(before + [a]));
    NothingFromParityAlone(x, KnownBy([]));
    assert before[..0] == [];
    hide KnownBy, CompleteSet, InUse;
  }

  lemma BurstIsInTime(x: Stream, before: seq<Input>, a: Input, config: Config)
    requires forall m :: 0 <= m < |before| ==> before[m].now <= a.now < before[m].now + config.maxReorderDelay
    requires a.now < a.now + config.maxReorderDelay
    ensures ClockGoesOn(before, a) && InTime(x, before + [a], a.now, config.maxReorderDelay)
  {
    hide HeadBy;
    var after := before + [a];
    assert forall m :: 0 <= m < |after| ==> after[m] == if m < |before| then before[m] else a;
  }

  /** A stretch of at most 256 packets, all within one reorder delay, is on course in any order. */
  lemma BurstIsOnCourse(x: Stream, arrivals: seq<Input>, config: Config, n: nat)
    requires ValidStream(x) && Burst(x, arrivals, config) && n < |arrivals|
    ensures OnCourse(x, arrivals[..n], arrivals[n], config, true)
  {
    hide KnownBy, CompleteSet, HeadBy, OpenFirsts, Retained, InTime, GenuineFrame, ValidKnown, ValidFrame;
    var before, a := arrivals[..n], arrivals[n];
    assert before + [a] == arrivals[..n + 1];
    KnownPrefix(arrivals, n + 1);
    KnownPrefix(arrivals, n);
    HeadInRange(x, before);
    LessIsValid(x, KnownBy(before), KnownBy(arrivals));
    LessIsValid(x, KnownBy(before + [a]), KnownBy(arrivals));
    BurstIsInTime(x, before, a, config);
    BurstIsRetained(x, before, a);
    if a.ParityIn? {
      FirstsAreFew(x, KnownBy(before), a.frame.baseSequence);
    }
  }

  lemma HeadInRange(x: Stream, arrivals: seq<Input>)
    ensures x.start <= HeadBy(x, arrivals) <= End(x)
  {
    hide CompleteSet;
  }

  // ---------------------------------------------------------------- what comes out

  /** Everything before number h, in order and without a skip. */
  function DeliveriesUpTo(x: Stream, h: nat): seq<Delivery>
    requires x.start <= h <= End(x)
  {
    seq(h - x.start, (i: nat) requires i < h - x.start => Forwarded(x.start + i, Whole(x, x.start + i)))
  }

  lemma RestHasForwardedThePrefix(x: Stream, w: Window, arrivals: seq<Input>, relied: bool)
    requires ValidStream(x) && Settled(w) && AtRest(x, w, arrivals, relied)
    ensures w.log == DeliveriesUpTo(x, HeadBy(x, arrivals))
  {
    hide Good, HeadClear, AtRest, KnownBy, HeadBy;
    SettledIsClear(w);
    RestIsAtTheHead(x, w, arrivals, relied);
    RestIsHonest(x, w, arrivals, relied);
    ShapeOfGood(w);
    LogIsThePrefix(x, w);
  }

  lemma ShapeOfGood(w: Window)
    requires Settled(w)
    ensures Shape(w)
  {
  }

  lemma LogIsThePrefix(x: Stream, w: Window)
    requires ValidStream(x) && Linear(x, w) && Honest(SourcesOf(x), w) && Shape(w)
    ensures w.log == DeliveriesUpTo(x, w.nextSeq)
  {
    hide Whole, HonestStore, HonestBuffer, HonestFragments;
    forall i | 0 <= i < |w.log|
      ensures w.log[i] == Forwarded(x.start + i, Whole(x, x.start + i))
    {
      SequenceAfterLinear(x.start, i);
      assert Genuine(SourcesOf(x), w.log[i].sequence, w.log[i].payload);
    }
  }

  lemma InFlightHasForwardedThePrefix(x: Stream, s: Server, flows: seq<Flow>, arrivals: seq<Input>, relied: bool)
    requires ValidStream(x) && Sound(s) && ValidKnown(x, KnownBy(arrivals)) && InFlight(x, s, flows, arrivals, relied)
    ensures s.flows == flows && s.window.log == DeliveriesUpTo(x, HeadBy(x, arrivals))
  {
    SoundIsSettled(s);
    if Waiting(x, s, flows, arrivals, relied) {
      NothingCompleteYet(x, arrivals);
    } else {
      hide Good, HeadClear, AtRest, KnownBy, HeadBy, Waiting, Home, NoPart, ValidKnown, DeliveriesUpTo;
      RestHasForwardedThePrefix(x, s.window, arrivals, relied);
    }
  }

  lemma CourseIsKnown(x: Stream, arrivals: seq<Input>, config: Config, relied: bool)
    requires AllOnCourse(x, arrivals, config, relied)
    ensures ValidKnown(x, KnownBy(arrivals))
  {
    hide OnCourse;
    if arrivals != [] {
      var n := |arrivals| - 1;
      CourseOfFront(x, arrivals, config, relied);
      assert arrivals[..n] + [arrivals[n]] == arrivals;
      CourseIsInOrder(x, arrivals[..n], arrivals[n], config, relied);
    }
  }

  /**
    Reordering is undone, over runs of any length. Let the pieces of a stretch of the
    stream and parity frames over it arrive in any order, any number of times and over any
    connections, the first piece being one of the first packet. Let no piece be a reorder
    delay old while it is at or past the head, no piece over a new connection be so far
    behind that it looks like a restart, and, where parity is relied on, let the stores be
    large enough for the parity of use. Then no flow ends, and what has been forwarded is
    exactly the gapless prefix of what is complete, in order, and nothing has been skipped.
  */
  lemma ReorderingIsUndone(x: Stream, s: Server, arrivals: seq<Input>, config: Config, relied: bool)
    requires ValidStream(x) && Unopened(s) && AllOnCourse(x, arrivals, config, relied)
    ensures AllOfStream(x, arrivals) && ValidEvents(EventsFor(x, arrivals))
    ensures var s' := Run(s, EventsFor(x, arrivals), config);
      s'.flows == s.flows && s'.window.log == DeliveriesUpTo(x, HeadBy(x, arrivals))
  {
    hide Sound, InFlight, Run, DeliveriesUpTo, HeadBy, AllOnCourse, KnownBy, ValidKnown, AllOfStream;
    RunIsInFlight(x, s, arrivals, config, relied);
    CourseIsKnown(x, arrivals, config, relied);
    InFlightHasForwardedThePrefix(x, Run(s, EventsFor(x, arrivals), config), s.flows, arrivals, relied);
  }
}
