/**
  A piece of the stretch arrives at a window at rest: a whole packet, a fragment that
  completes one, a fragment that does not, or one that is known already.
*/
module StreamPieces {
  import opened ByteStrings
  import opened Sequences
  import opened Wire
  import opened Assembly
  import opened Window
  import opened WindowLaws
  import opened Receiver
  import opened Integrity
  import opened FlowHistory
  import opened StreamClosure
  import opened StreamWindow
  import opened StreamParity
  import opened StreamCourse
  import opened StreamRest

  // ---------------------------------------------------------------- a piece arrives

  function HeaderOf(x: Stream, part: Part): PacketHeader
    requires IsPart(x, part)
  {
    match part
    case Piece(s, i) => PacketHeader(s, i, |PiecesOf(x, s)|)
    case WholeCopy(s) => PacketHeader(s, 0, 1)
  }

  function PieceOf(x: Stream, part: Part): Bytes
    requires IsPart(x, part)
  {
    match part
    case Piece(s, i) => PiecesOf(x, s)[i]
    case WholeCopy(s) => Whole(x, s)
  }

  /** A piece changes what is known of its own packet only. */
  lemma OthersTrack(x: Stream, w: Window, w': Window, known: Known, part: Part)
    requires Tracks(x, w, known) && w'.nextSeq == w.nextSeq && w'.buffered == w.buffered
    requires forall s :: s != part.sequence ==> (s in w'.fragments <==> s in w.fragments)
    requires forall s :: s in w'.fragments && s in w.fragments && s != part.sequence ==>
      w'.fragments[s] == w.fragments[s]
    ensures TracksOthers(x, w', known.(parts := known.parts + {part}), part.sequence)
  {
    var more := known.(parts := known.parts + {part});
    forall s | InStream(x, s) && s != part.sequence
      ensures TracksOne(x, w', more, s)
    {
      assert TracksOne(x, w, known, s);
      if AllIn(x, more, s) && WholeCopy(s) !in more.parts {
        forall i | 0 <= i < |PiecesOf(x, s)|
          ensures Piece(s, i) in known.parts
        {
          assert Piece(s, i) in more.parts;
        }
      }
    }
  }

  /** The arrival is one of the stream's pieces, in time. */
  ghost predicate PieceOnCourse(x: Stream, before: seq<Input>, a: Input, config: Config, relied: bool) {
    a.PartIn? && IsPart(x, a.part) && OnCourse(x, before, a, config, relied)
  }

  lemma CourseIsInOrder(x: Stream, before: seq<Input>, a: Input, config: Config, relied: bool)
    requires OnCourse(x, before, a, config, relied)
    ensures LastInOrder(before + [a], a.now) && ValidKnown(x, KnownBy(before + [a]))
    ensures InTime(x, before + [a], a.now, config.maxReorderDelay)
  {
    hide KnownBy, HeadBy, Retained, FramesFit, NoRestart, TimerIsPending, OfStream, InTime;
  }

  lemma AllInIsComplete(x: Stream, known: Known, s: nat)
    requires ValidKnown(x, known) && InStream(x, s) && AllIn(x, known, s)
    ensures s in CompleteSet(x, known)
  {
    CompleteIsClosed(x, known);
    hide CompleteSet;
  }

  lemma CompletedCore(x: Stream, w: Window, before: seq<Input>, a: Input, config: Config, relied: bool)
    requires ValidStream(x) && Settled(w) && AtRest(x, w, before, relied) && PieceOnCourse(x, before, a, config, relied)
    requires !Done(w, a.part.sequence) && AllIn(x, KnownBy(before + [a]), a.part.sequence)
    requires Acceptable(w.(fragments := w.fragments - {a.part.sequence}), a.part.sequence)
    ensures var s, w1 := a.part.sequence, w.(fragments := w.fragments - {a.part.sequence});
      var w0 := Accept(w1, s, Whole(x, s), a.now);
      && Core(x, w0, GoalOf(x, before, a, relied)) && w0.fragments == w1.fragments && w0.fec.frames == w.fec.frames
      && forall t :: Done(w0, t) <==> Done(w, t) || t == s
  {
    hide Good, HeadClear, OnCourse, Core, KnownBy, CompleteSet, Accept, Whole, AtRest, ValidKnown, Honest, AllIn;
    hide InTime, LastInOrder;
    var s, g := a.part.sequence, GoalOf(x, before, a, relied);
    CourseIsInOrder(x, before, a, config, relied);
    RestIsHonest(x, w, before, relied);
    StartCore(x, w, w, before, a, config, relied);
    AllInIsComplete(x, KnownBy(before + [a]), s);
    DiscardCore(x, w, g, s);
    AcceptCore(x, w.(fragments := w.fragments - {s}), g, s, a.now);
  }

  /** The last piece: the packet is taken whole, and is ready to be worked with. */
  lemma CompletedIsReady(x: Stream, w: Window, before: seq<Input>, a: Input, config: Config, relied: bool)
    requires ValidStream(x) && Settled(w) && AtRest(x, w, before, relied) && PieceOnCourse(x, before, a, config, relied)
    requires !Done(w, a.part.sequence) && AllIn(x, KnownBy(before + [a]), a.part.sequence)
    requires Acceptable(w.(fragments := w.fragments - {a.part.sequence}), a.part.sequence)
    ensures var s, w1 := a.part.sequence, w.(fragments := w.fragments - {a.part.sequence});
      Ready(x, Accept(w1, s, Whole(x, s), a.now), GoalOf(x, before, a, relied), before + [a])
  {
    hide Settled, OnCourse, Core, Tracks, TracksOthers, SpansKept, Times, KnownBy, CompleteSet, Accept, Whole, Since;
    hide AtRest;
    hide ValidKnown, LastInOrder, AllIn, InTime, Acceptable, Done;
    var s, g := a.part.sequence, GoalOf(x, before, a, relied);
    var w0 := Accept(w.(fragments := w.fragments - {s}), s, Whole(x, s), a.now);
    CourseIsInOrder(x, before, a, config, relied);
    CompletedCore(x, w, before, a, config, relied);
    CompletedTracks(x, w, w0, before, a, relied);
    CompletedSince(w, s, Whole(x, s), a.now);
    RestTimes(x, w, before, a, relied);
    CoreBuffersTheStream(x, w0, g);
    SinceKeepsTimes(x, w, w0, before + [a], a.now);
    CompletedSpans(x, w, w0, before, a, relied);
  }

  lemma RestIsHonest(x: Stream, w: Window, arrivals: seq<Input>, relied: bool)
    requires AtRest(x, w, arrivals, relied)
    ensures Honest(SourcesOf(x), w) && Linear(x, w)
  {
    hide Honest, Linear, Tracks, SpansKept, FramesOpen, Times, CacheInOrder, CompleteSet, KnownBy;
  }

  lemma RestTimes(x: Stream, w: Window, before: seq<Input>, a: Input, relied: bool)
    requires AtRest(x, w, before, relied) && ValidKnown(x, KnownBy(before + [a]))
    ensures Times(x, w, before + [a])
  {
    hide Honest, Linear, Tracks, SpansKept, FramesOpen, Times, CacheInOrder, CompleteSet, KnownBy, ValidKnown;
    TimesLater(x, w, before, a);
  }

  lemma CompletedTracks(x: Stream, w: Window, w0: Window, before: seq<Input>, a: Input, relied: bool)
    requires AtRest(x, w, before, relied) && a.PartIn?
    requires w0.fragments == w.fragments - {a.part.sequence}
    requires forall t :: Done(w0, t) <==> Done(w, t) || t == a.part.sequence
    ensures Tracks(x, w0, KnownBy(before + [a]))
  {
    hide Honest, Linear, SpansKept, FramesOpen, Times, CacheInOrder, CompleteSet, KnownBy, Tracks;
    KnownNext(before, a);
    var w1 := w.(fragments := w.fragments - {a.part.sequence});
    OthersTrack(x, w, w1, KnownBy(before), a.part);
    DoneTracks(x, w1, w0, KnownBy(before + [a]), a.part.sequence);
  }

  lemma CompletedSince(w: Window, s: nat, p: Bytes, now: nat)
    ensures Since(w, Accept(w.(fragments := w.fragments - {s}), s, p, now), now)
  {
    var w1 := w.(fragments := w.fragments - {s});
    hide Accept, Since;
    DiscardSince(w, s, now);
    AcceptSince(w1, s, p, now);
    SinceThenSince(w, w1, Accept(w1, s, p, now), now);
  }

  lemma CompletedSpans(x: Stream, w: Window, w0: Window, before: seq<Input>, a: Input, relied: bool)
    requires AtRest(x, w, before, relied) && a.PartIn? && w0.fec.frames == w.fec.frames
    requires forall t :: Done(w0, t) <==> Done(w, t) || t == a.part.sequence
    ensures SpansKept(w0, KnownBy(before + [a]))
  {
    hide Honest, Linear, Tracks, SpansKept, FramesOpen, Times, CacheInOrder, CompleteSet, KnownBy;
    KnownNext(before, a);
    SpansStay(w, w0, KnownBy(before));
    SameSpans(w0, KnownBy(before), KnownBy(before + [a]));
  }

  lemma SameSpans(w: Window, known: Known, more: Known)
    requires SpansKept(w, known) && more.spans == known.spans
    ensures SpansKept(w, more)
  {
  }

  lemma CompleteRests(x: Stream, w: Window, before: seq<Input>, a: Input, config: Config, relied: bool)
    requires ValidStream(x) && Settled(w) && AtRest(x, w, before, relied) && PieceOnCourse(x, before, a, config, relied)
    requires !Done(w, a.part.sequence) && AllIn(x, KnownBy(before + [a]), a.part.sequence)
    requires var w1 := w.(fragments := w.fragments - {a.part.sequence}); Settled(w1) && Acceptable(w1, a.part.sequence)
    ensures var s, w1 := a.part.sequence, w.(fragments := w.fragments - {a.part.sequence});
      AtRest(x, Complete(w1, s, Whole(x, s), config, a.now), before + [a], relied)
  {
    var s, g := a.part.sequence, GoalOf(x, before, a, relied);
    var w1 := w.(fragments := w.fragments - {s});
    hide Good, HeadClear, OnCourse, Ready, Rested, AtRest, Accept, Whole, KnownBy, ValidKnown, LastInOrder, InTime;
    hide AllIn, RecoverAndAdvance;
    CourseIsInOrder(x, before, a, config, relied);
    CompletedIsReady(x, w, before, a, config, relied);
    AcceptKeepsGood(w1, s, Whole(x, s), a.now);
    RecoverAndAdvanceRests(x, Accept(w1, s, Whole(x, s), a.now), g, before + [a], config, a.now);
    CompleteContinues(w1, s, Whole(x, s), config, a.now);
    BackToRest(x, w, Complete(w1, s, Whole(x, s), config, a.now), before, a, relied);
  }

  // ---------------------------------------------------------------- a piece, whatever it is

  lemma EntryHolds(x: Stream, w: Window, before: seq<Input>, relied: bool, part: Part, now: nat)
    requires AtRest(x, w, before, relied) && IsPart(x, part) && part.Piece? && !Done(w, part.sequence)
    ensures var a := EntryFor(w, HeaderOf(x, part), now);
      && HonestAssembly(SourcesOf(x), part.sequence, a) && |a.slots| == |PiecesOf(x, part.sequence)|
      && (a.firstSeen == now || SeenBy(before, part.sequence, a.firstSeen))
      && forall i :: 0 <= i < |a.slots| ==> (Piece(part.sequence, i) in KnownBy(before).parts <==> Has(a, i))
  {
    hide Linear, SpansKept, FramesOpen, CacheInOrder, CompleteSet, KnownBy, SeenBy;
    assert TracksOne(x, w, KnownBy(before), part.sequence);
    if part.sequence in w.fragments {
      assert HonestAssembly(SourcesOf(x), part.sequence, w.fragments[part.sequence]);
    }
  }

  /** The assembly with the piece in it. */
  lemma InsertedHolds(x: Stream, known: Known, part: Part, a: FragmentAssembly)
    requires IsPart(x, part) && part.Piece? && |a.slots| == |PiecesOf(x, part.sequence)|
    requires HonestAssembly(SourcesOf(x), part.sequence, a)
    requires forall i :: 0 <= i < |a.slots| ==> (Piece(part.sequence, i) in known.parts <==> Has(a, i))
    ensures a.Insert(part.piece, PieceOf(x, part)).None? <==> part in known.parts
    ensures part !in known.parts ==>
      var b, more := a.Insert(part.piece, PieceOf(x, part)).value, known.(parts := known.parts + {part});
      && HonestAssembly(SourcesOf(x), part.sequence, b) && |b.slots| == |a.slots| && b.firstSeen == a.firstSeen
      && forall i :: 0 <= i < |b.slots| ==> (Piece(part.sequence, i) in more.parts <==> Has(b, i))
  {
  }

  lemma CompleteHoldsAll(x: Stream, known: Known, s: nat, a: FragmentAssembly)
    requires InStream(x, s) && HonestAssembly(SourcesOf(x), s, a) && a.Valid() && |a.slots| == |PiecesOf(x, s)|
    requires WholeCopy(s) !in known.parts
    requires forall i :: 0 <= i < |a.slots| ==> (Piece(s, i) in known.parts <==> Has(a, i))
    ensures a.IsComplete() <==> AllIn(x, known, s)
    ensures a.IsComplete() ==> AllFilled(a.slots) && Concat(Values(a.slots)) == Whole(x, s)
  {
    FilledIsAll(a.slots);
    if AllFilled(a.slots) {
      CompleteIsWhole(a.slots, PiecesOf(x, s));
    } else {
      var i :| 0 <= i < |a.slots| && a.slots[i].None?;
      assert Piece(s, i) !in known.parts;
    }
  }

  /** The window with a piece added to an assembly that is still not full. */
  ghost predicate Collected(x: Stream, w: Window, w0: Window, before: seq<Input>, a: Input, b: FragmentAssembly) {
    && a.PartIn? && IsPart(x, a.part) && a.part.Piece? && w0 == w.(fragments := w.fragments[a.part.sequence := b])
    && HonestAssembly(SourcesOf(x), a.part.sequence, b) && |b.slots| == |PiecesOf(x, a.part.sequence)|
    && (b.firstSeen == a.now || SeenBy(before, a.part.sequence, b.firstSeen))
    && !AllIn(x, KnownBy(before + [a]), a.part.sequence)
    && forall i :: 0 <= i < |b.slots| ==> (Piece(a.part.sequence, i) in KnownBy(before + [a]).parts <==> Has(b, i))
  }

  lemma CollectedTracks(x: Stream, w: Window, w0: Window, before: seq<Input>, a: Input, b: FragmentAssembly,
                        relied: bool)
    requires AtRest(x, w, before, relied) && Collected(x, w, w0, before, a, b)
    ensures Tracks(x, w0, KnownBy(before + [a]))
  {
    hide Honest, Linear, SpansKept, FramesOpen, Times, CacheInOrder, CompleteSet, KnownBy, SeenBy;
    KnownNext(before, a);
    OthersTrack(x, w, w0, KnownBy(before), a.part);
    assert TracksOne(x, w0, KnownBy(before + [a]), a.part.sequence);
  }

  lemma CollectedTimes(x: Stream, w: Window, w0: Window, before: seq<Input>, a: Input, b: FragmentAssembly)
    requires Times(x, w, before + [a]) && Collected(x, w, w0, before, a, b)
    ensures Times(x, w0, before + [a])
  {
    hide CompleteBy, KnownBy, AllIn;
    var s, after := a.part.sequence, before + [a];
    if b.firstSeen == a.now {
      assert after[|before|] == a;
      assert SeenBy(after, s, b.firstSeen);
    } else {
      SeenLater(before, a, s, b.firstSeen);
    }
    hide SeenBy;
  }

  lemma CollectedIsReady(x: Stream, w: Window, w0: Window, before: seq<Input>, a: Input, b: FragmentAssembly,
                         config: Config, relied: bool)
    requires ValidStream(x) && Settled(w) && AtRest(x, w, before, relied) && PieceOnCourse(x, before, a, config, relied)
    requires Collected(x, w, w0, before, a, b)
    ensures Ready(x, w0, GoalOf(x, before, a, relied), before + [a])
  {
    hide Good, HeadClear, OnCourse, Core, Tracks, SpansKept, Times, KnownBy, CompleteSet, AtRest, ValidKnown;
    hide LastInOrder, AllIn, InTime;
    hide SeenBy, Honest, HonestAssembly;
    CourseIsInOrder(x, before, a, config, relied);
    RestIsHonest(x, w, before, relied);
    UpdatedIsHonest(SourcesOf(x), w, a.part.sequence, b);
    StartCore(x, w, w0, before, a, config, relied);
    CollectedTracks(x, w, w0, before, a, b, relied);
    RestTimes(x, w, before, a, relied);
    CollectedTimes(x, w, w0, before, a, b);
    CollectedSpans(x, w, w0, before, a, relied);
  }

  lemma CollectedSpans(x: Stream, w: Window, w0: Window, before: seq<Input>, a: Input, relied: bool)
    requires AtRest(x, w, before, relied) && a.PartIn?
    requires w0.fec == w.fec && w0.nextSeq == w.nextSeq && w0.buffered == w.buffered
    ensures SpansKept(w0, KnownBy(before + [a]))
  {
    hide Honest, Linear, Tracks, SpansKept, FramesOpen, Times, CacheInOrder, CompleteSet, KnownBy;
    KnownNext(before, a);
    assert forall s :: Done(w0, s) <==> Done(w, s);
    SpansStay(w, w0, KnownBy(before));
    SameSpans(w0, KnownBy(before), KnownBy(before + [a]));
  }

  /** A fragment that does not complete its packet. */
  lemma CollectedRests(x: Stream, w: Window, before: seq<Input>, a: Input, b: FragmentAssembly, config: Config,
                       relied: bool)
    requires ValidStream(x) && Settled(w) && AtRest(x, w, before, relied) && PieceOnCourse(x, before, a, config, relied)
    requires var w0 := w.(fragments := w.fragments[a.part.sequence := b]);
      Collected(x, w, w0, before, a, b) && Settled(w0)
    ensures AtRest(x, Advance(w.(fragments := w.fragments[a.part.sequence := b]), config, a.now), before + [a], relied)
  {
    hide Good, HeadClear, OnCourse, Ready, Rested, AtRest, KnownBy, ValidKnown, LastInOrder, InTime, Advance, Collected;
    var w0, g := w.(fragments := w.fragments[a.part.sequence := b]), GoalOf(x, before, a, relied);
    CourseIsInOrder(x, before, a, config, relied);
    CollectedIsReady(x, w, w0, before, a, b, config, relied);
    AdvanceRests(x, w0, g, before + [a], config, a.now);
    AdvanceContinues(w0, config, a.now);
    BackToRest(x, w, Advance(w0, config, a.now), before, a, relied);
  }

  lemma HeaderIsValid(x: Stream, part: Part)
    requires ValidStream(x) && IsPart(x, part)
    ensures ValidHeader(HeaderOf(x, part)) && part.sequence <= MAX_MEDIA_SEQUENCE
  {
  }

  /** The packet whole: a copy of it, or the only piece it is cut into. */
  predicate IsWhole(x: Stream, part: Part)
    requires IsPart(x, part)
  {
    part.WholeCopy? || |PiecesOf(x, part.sequence)| == 1
  }

  lemma WholeIsAll(x: Stream, known: Known, part: Part)
    requires IsPart(x, part) && IsWhole(x, part) && part in known.parts
    ensures AllIn(x, known, part.sequence) && Whole(x, part.sequence) == PieceOf(x, part)
  {
    if part.Piece? {
      assert PiecesOf(x, part.sequence) == [PieceOf(x, part)];
      ConcatOne(PieceOf(x, part));
    }
  }

  lemma PieceIsKnown(x: Stream, before: seq<Input>, a: Input)
    requires a.PartIn?
    ensures a.part in KnownBy(before + [a]).parts
    ensures KnownBy(before + [a]) == KnownBy(before).(parts := KnownBy(before).parts + {a.part})
  {
    KnownNext(before, a);
  }

  /** A packet sent whole. */
  lemma WholeRests(x: Stream, w: Window, before: seq<Input>, a: Input, config: Config, relied: bool)
    requires ValidStream(x) && Settled(w) && AtRest(x, w, before, relied) && PieceOnCourse(x, before, a, config, relied)
    requires w.nextSeq <= a.part.sequence && a.part.sequence !in w.buffered && IsWhole(x, a.part)
    requires ValidHeader(HeaderOf(x, a.part)) && a.part.sequence <= MAX_MEDIA_SEQUENCE
    ensures AtRest(x, Deliver(w, HeaderOf(x, a.part), PieceOf(x, a.part), config, a.now), before + [a], relied)
  {
    hide Good, HeadClear, OnCourse, AtRest, KnownBy, Deliver, Complete, Acceptable, Whole;
    PieceIsKnown(x, before, a);
    WholeIsAll(x, KnownBy(before + [a]), a.part);
    DeliverIsComplete(w, HeaderOf(x, a.part), PieceOf(x, a.part), config, a.now);
    CompleteRests(x, w, before, a, config, relied);
  }

  lemma NoCopyYet(x: Stream, before: seq<Input>, a: Input)
    requires a.PartIn? && a.part.Piece? && IsPart(x, a.part) && !AllIn(x, KnownBy(before), a.part.sequence)
    ensures WholeCopy(a.part.sequence) !in KnownBy(before + [a]).parts
  {
    KnownNext(before, a);
    hide KnownBy;
  }

  lemma WaitedFor(x: Stream, w: Window, before: seq<Input>, relied: bool, s: nat)
    requires AtRest(x, w, before, relied) && InStream(x, s) && !Done(w, s)
    ensures !AllIn(x, KnownBy(before), s)
  {
    hide Linear, Honest, SpansKept, FramesOpen, FramesKnown, KeysDone, Times, CacheInOrder, CompleteSet, KnownBy, AllIn;
    assert TracksOne(x, w, KnownBy(before), s);
  }

  /** A fragment that is new to its assembly. */
  lemma NewFragmentRests(x: Stream, w: Window, before: seq<Input>, a: Input, b: FragmentAssembly, config: Config,
                         relied: bool)
    requires ValidStream(x) && Settled(w) && AtRest(x, w, before, relied) && PieceOnCourse(x, before, a, config, relied)
    requires w.nextSeq <= a.part.sequence <= MAX_MEDIA_SEQUENCE && a.part.sequence !in w.buffered
    requires b.Valid() && b.received >= 1 && a.part.Piece? && !AllIn(x, KnownBy(before), a.part.sequence)
    requires HonestAssembly(SourcesOf(x), a.part.sequence, b) && |b.slots| == |PiecesOf(x, a.part.sequence)|
    requires b.firstSeen == a.now || SeenBy(before, a.part.sequence, b.firstSeen)
    requires forall i :: 0 <= i < |b.slots| ==>
      (Piece(a.part.sequence, i) in KnownBy(before + [a]).parts <==> Has(b, i))
    ensures AtRest(x, Collect(w, HeaderOf(x, a.part), b, config, a.now), before + [a], relied)
  {
    hide Good, HeadClear, OnCourse, AtRest, KnownBy, Collect, Complete, Acceptable, Whole, Advance, SeenBy, AllIn;
    hide HonestAssembly, Has, FragmentAssembly.Valid, FragmentAssembly.IsComplete;
    NoCopyYet(x, before, a);
    CompleteHoldsAll(x, KnownBy(before + [a]), a.part.sequence, b);
    if b.IsComplete() {
      CollectIsComplete(w, HeaderOf(x, a.part), b, config, a.now);
      CompleteRests(x, w, before, a, config, relied);
    } else {
      CollectIsAdvance(w, HeaderOf(x, a.part), b, config, a.now);
      CollectedRests(x, w, before, a, b, config, relied);
    }
  }

  lemma FragmentRests(x: Stream, w: Window, before: seq<Input>, a: Input, config: Config, relied: bool)
    requires ValidStream(x) && Settled(w) && AtRest(x, w, before, relied) && PieceOnCourse(x, before, a, config, relied)
    requires w.nextSeq <= a.part.sequence && a.part.sequence !in w.buffered && !IsWhole(x, a.part)
    requires ValidHeader(HeaderOf(x, a.part)) && a.part.sequence <= MAX_MEDIA_SEQUENCE
    ensures AtRest(x, Deliver(w, HeaderOf(x, a.part), PieceOf(x, a.part), config, a.now), before + [a], relied)
  {
    hide Good, HeadClear, OnCourse, AtRest, KnownBy, Deliver, Collect, SeenBy, PieceOf, EntryFor, HonestAssembly, Has;
    hide FragmentAssembly.Valid, ValidKnown;
    var h, p := HeaderOf(x, a.part), PieceOf(x, a.part);
    var entry := EntryFor(w, h, a.now);
    CourseIsInOrder(x, before, a, config, relied);
    PieceIsKnown(x, before, a);
    EntryHolds(x, w, before, relied, a.part, a.now);
    DeliverIsCollect(w, h, p, config, a.now);
    InsertedHolds(x, KnownBy(before), a.part, entry);
    if a.part in KnownBy(before).parts {
      UnchangedRests(x, w, before, a, relied);
    } else {
      WaitedFor(x, w, before, relied, a.part.sequence);
      NewFragmentRests(x, w, before, a, entry.Insert(h.fragment, p).value, config, relied);
    }
  }

  /** Any piece at or past the head, new or repeated. */
  lemma PieceRests(x: Stream, w: Window, before: seq<Input>, a: Input, config: Config, relied: bool)
    requires ValidStream(x) && Settled(w) && AtRest(x, w, before, relied) && PieceOnCourse(x, before, a, config, relied)
    requires w.nextSeq <= a.part.sequence
    ensures ValidHeader(HeaderOf(x, a.part)) && a.part.sequence <= MAX_MEDIA_SEQUENCE
    ensures AtRest(x, Deliver(w, HeaderOf(x, a.part), PieceOf(x, a.part), config, a.now), before + [a], relied)
  {
    hide Good, HeadClear, OnCourse, AtRest, KnownBy, Deliver, ValidKnown, PieceOf;
    HeaderIsValid(x, a.part);
    CourseIsInOrder(x, before, a, config, relied);
    if a.part.sequence in w.buffered {
      DeliverIgnores(w, HeaderOf(x, a.part), PieceOf(x, a.part), config, a.now);
      UnchangedRests(x, w, before, a, relied);
    } else if IsWhole(x, a.part) {
      WholeRests(x, w, before, a, config, relied);
    } else {
      FragmentRests(x, w, before, a, config, relied);
    }
  }
}
