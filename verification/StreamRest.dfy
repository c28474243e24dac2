/**
  The window between two arrivals of the stretch: it has done exactly what can be known
  to be complete. An arrival gives it a goal, working towards the goal keeps it ready,
  and it comes to rest again with nothing overdue.
*/
module StreamRest {
  import opened FecRecovery
  import opened Window
  import opened WindowLaws
  import opened Receiver
  import opened RunLaws
  import opened Integrity
  import opened StreamClosure
  import opened StreamWindow
  import opened StreamParity
  import opened StreamCourse

  // ---------------------------------------------------------------- the window between arrivals

  /** A piece at or past q had arrived by time t. */
  ghost predicate SeenBy(arrivals: seq<Input>, q: nat, t: nat) {
    exists m :: 0 <= m < |arrivals| && arrivals[m].PartIn? && arrivals[m].part.sequence >= q && arrivals[m].now <= t
  }

  /** Nothing is held for longer than some piece at or past each gap before it. */
  ghost predicate Times(x: Stream, w: Window, arrivals: seq<Input>) {
    && (forall s :: s in w.fragments ==> SeenBy(arrivals, s, w.fragments[s].firstSeen))
    && forall s, q :: s in w.buffered && x.start <= q < s && q !in CompleteBy(x, arrivals) ==>
      SeenBy(arrivals, q, w.buffered[s].receivedAt)
  }

  /** The cache is the last payloads accepted, and what was accepted later was completed later. */
  ghost predicate CacheInOrder(x: Stream, w: Window, arrivals: seq<Input>) {
    && w.fec.payloadOrder == LastOf(Numbers(w.accepted), FEC_PAYLOAD_TRACK_LIMIT)
    && forall i, j ::
      0 <= i < |w.accepted| && 0 <= j <= |arrivals| && w.accepted[i].0 !in CompleteBy(x, arrivals[..j]) ==>
        |CompleteBy(x, arrivals[..j])| <= i
  }

  ghost predicate AtRest(x: Stream, w: Window, arrivals: seq<Input>, relied: bool) {
    var known := KnownBy(arrivals);
    && Linear(x, w) && Honest(SourcesOf(x), w)
    && DoneSet(x, w) == CompleteSet(x, known) && Tracks(x, w, known)
    && FramesKnown(w, known) && SpansKept(w, known) && FramesOpen(w) && KeysDone(w)
    && Times(x, w, arrivals)
    && (if relied then CacheInOrder(x, w, arrivals) else known.spans == {})
  }

  ghost function GoalOf(x: Stream, before: seq<Input>, a: Input, relied: bool): Goal {
    Goal(KnownBy(before + [a]), HeadBy(x, before), |CompleteBy(x, before)|, relied)
  }

  lemma KnownNext(before: seq<Input>, a: Input)
    ensures KnownBy(before + [a]) == Learn(KnownBy(before), a)
    ensures LessKnown(KnownBy(before), KnownBy(before + [a]))
  {
    assert (before + [a])[..|before|] == before;
  }

  lemma {:induction false} KnownPrefix(arrivals: seq<Input>, j: nat)
    requires j <= |arrivals|
    ensures LessKnown(KnownBy(arrivals[..j]), KnownBy(arrivals))
    decreases |arrivals|
  {
    if j == |arrivals| {
      assert arrivals[..j] == arrivals;
    } else {
      var n := |arrivals| - 1;
      KnownPrefix(arrivals[..n], j);
      assert arrivals[..n][..j] == arrivals[..j];
      assert arrivals == arrivals[..n] + [arrivals[n]];
      KnownNext(arrivals[..n], arrivals[n]);
    }
  }

  lemma LessIsValid(x: Stream, less: Known, more: Known)
    requires LessKnown(less, more) && ValidKnown(x, more)
    ensures ValidKnown(x, less)
  {
  }

  lemma SubsetIsNoLarger(a: set<nat>, b: set<nat>)
    requires a <= b
    ensures |a| <= |b|
  {
    SmallerSet(a, b);
  }

  /** The head is where the gapless prefix ends. */
  lemma RestIsAtTheHead(x: Stream, w: Window, arrivals: seq<Input>, relied: bool)
    requires ValidStream(x) && HeadClear(w) && AtRest(x, w, arrivals, relied)
    ensures w.nextSeq == HeadBy(x, arrivals)
  {
    hide Honest, Tracks, FramesKnown, SpansKept, FramesOpen, KeysDone, Times, CacheInOrder, CompleteSet, KnownBy;
    var done := DoneSet(x, w);
    EndIs(x, done, w.nextSeq);
  }

  /** What is complete at rest has been accepted, each packet once. */
  lemma CompleteWasAccepted(x: Stream, w: Window, arrivals: seq<Input>, relied: bool)
    requires ValidStream(x) && Good(w) && AtRest(x, w, arrivals, relied)
    ensures |CompleteBy(x, arrivals)| <= |w.accepted|
  {
    hide Good, Honest, Tracks, FramesKnown, SpansKept, FramesOpen, KeysDone, Times, CacheInOrder, CompleteSet;
    hide KnownBy, Linear;
    var numbers := Numbers(w.accepted);
    forall s | s in CompleteBy(x, arrivals)
      ensures s in numbers
    {
      assert s in DoneSet(x, w);
      var i := DoneWasAccepted(x, w, s);
      assert numbers[i] == s;
    }
    ElementsFit(numbers, CompleteBy(x, arrivals));
  }

  lemma {:induction false} ElementsFit(s: seq<nat>, packets: set<nat>)
    requires forall p :: p in packets ==> p in s
    ensures |packets| <= |s|
  {
    if s == [] {
      assert packets == {};
    } else {
      var n := |s| - 1;
      assert forall p :: p in packets - {s[n]} ==> p in s[..n];
      ElementsFit(s[..n], packets - {s[n]});
    }
  }

  // ---------------------------------------------------------------- an arrival sets a goal

  /** The window as an arrival leaves it before anything is done with what is held: its frames may differ. */
  ghost predicate SameFlow(w: Window, w0: Window) {
    && w0.start == w.start && w0.log == w.log && w0.nextSeq == w.nextSeq && w0.buffered == w.buffered
    && w0.accepted == w.accepted && w0.fec.payloads == w.fec.payloads && w0.fec.payloadOrder == w.fec.payloadOrder
  }

  /** Stored frames were stored before, or are the one that has just arrived. */
  ghost predicate FramesFrom(w: Window, w0: Window, a: Input) {
    forall base :: base in w0.fec.frames ==>
      || (base in w.fec.frames && w0.fec.frames[base] == w.fec.frames[base])
      || (a.ParityIn? && w0.fec.frames[base] == a.frame)
  }

  lemma CompleteStays(x: Stream, before: seq<Input>, a: Input)
    requires ValidKnown(x, KnownBy(before + [a]))
    ensures CompleteBy(x, before) <= CompleteBy(x, before + [a])
  {
    KnownNext(before, a);
    hide KnownBy, CompleteSet;
    CompleteGrows(x, KnownBy(before), KnownBy(before + [a]));
  }

  /** A packet under a stored frame is in use: the frame has just come, or some packet under it is open. */
  lemma StoredIsInUse(x: Stream, w: Window, w0: Window, before: seq<Input>, a: Input, relied: bool, s: nat)
    requires AtRest(x, w, before, relied) && FramesFrom(w, w0, a) && InFrame(w0, s)
    ensures InUse(x, before, a, s)
  {
    hide Linear, Honest, Tracks, SpansKept, KeysDone, Times, CacheInOrder, CompleteSet, KnownBy;
    var base :| base in w0.fec.frames && InSpan(SpanOf(w0.fec.frames[base]), s);
    var span := SpanOf(w0.fec.frames[base]);
    if base in w.fec.frames && w0.fec.frames[base] == w.fec.frames[base] {
      var t :| InSpan(span, t) && !Done(w, t);
      OpenIsIncomplete(x, w, before, relied, t);
      assert IsOpen(x, before, span);
    }
  }

  lemma OpenIsIncomplete(x: Stream, w: Window, before: seq<Input>, relied: bool, t: nat)
    requires AtRest(x, w, before, relied) && !Done(w, t)
    ensures t !in CompleteBy(x, before)
  {
    hide Linear, Honest, Tracks, FramesKnown, SpansKept, FramesOpen, KeysDone, Times, CacheInOrder, CompleteSet;
    hide KnownBy, Done;
  }

  /** What is complete but not done yet lies at or past the head. */
  lemma NewIsPastTheHead(x: Stream, w: Window, before: seq<Input>, relied: bool, known: Known, s: nat)
    requires ValidStream(x) && HeadClear(w) && AtRest(x, w, before, relied) && s in CompleteSet(x, known) && !Done(w, s)
    ensures s >= HeadBy(x, before) && s !in CompleteBy(x, before)
  {
    hide Linear, Honest, Tracks, FramesKnown, SpansKept, FramesOpen, KeysDone, Times, CacheInOrder, CompleteSet;
    hide KnownBy;
    RestIsAtTheHead(x, w, before, relied);
    OpenIsIncomplete(x, w, before, relied, s);
  }

  lemma PrefixSets(x: Stream, before: seq<Input>, j: nat)
    requires j <= |before| && ValidKnown(x, KnownBy(before))
    ensures |CompleteBy(x, before[..j])| <= |CompleteBy(x, before)|
  {
    KnownPrefix(before, j);
    hide KnownBy, CompleteSet;
    CompleteGrows(x, KnownBy(before[..j]), KnownBy(before));
    SubsetIsNoLarger(CompleteBy(x, before[..j]), CompleteBy(x, before));
  }

  /** Retention makes the cache last until the goal is reached. */
  lemma StartRemembers(x: Stream, w: Window, w0: Window, before: seq<Input>, a: Input)
    requires ValidStream(x) && Good(w) && HeadClear(w) && AtRest(x, w, before, true)
    requires ValidKnown(x, KnownBy(before + [a])) && Retained(x, before, a)
    requires SameFlow(w, w0) && FramesFrom(w, w0, a)
    ensures CacheLasts(x, w0, GoalOf(x, before, a, true))
  {
    KnownNext(before, a);
    LessIsValid(x, KnownBy(before), KnownBy(before + [a]));
    CompleteWasAccepted(x, w, before, true);
    hide Good, HeadClear, Linear, Honest, Tracks, FramesKnown, SpansKept, FramesOpen, KeysDone, Times, CompleteSet;
    hide KnownBy, InUse;
    hide LastOf, Numbers, CompleteBy, HeadBy, Done, FramesFrom, ValidKnown;
    var complete := CompleteBy(x, before + [a]);
    forall i | 0 <= i < |w0.accepted| && (w0.accepted[i].0 >= HeadBy(x, before) || InFrame(w0, w0.accepted[i].0))
      ensures |complete| <= i + FEC_PAYLOAD_TRACK_LIMIT
    {
      AcceptedWasRetained(x, w, w0, before, a, i);
    }
    if exists s :: s in complete && !Done(w0, s) {
      var s :| s in complete && !Done(w0, s);
      NewWasRetained(x, w, w0, before, a, s);
    }
    RemembersIs(x, w0, before, a);
  }

  lemma RemembersIs(x: Stream, w0: Window, before: seq<Input>, a: Input)
    requires var complete := CompleteBy(x, before + [a]);
      && w0.fec.payloadOrder == LastOf(Numbers(w0.accepted), FEC_PAYLOAD_TRACK_LIMIT)
      && |CompleteBy(x, before)| <= |w0.accepted|
      && (forall i ::
            0 <= i < |w0.accepted| && (w0.accepted[i].0 >= HeadBy(x, before) || InFrame(w0, w0.accepted[i].0)) ==>
              |complete| <= i + FEC_PAYLOAD_TRACK_LIMIT)
      && (|complete| <= |CompleteBy(x, before)| + FEC_PAYLOAD_TRACK_LIMIT || forall s :: s in complete ==> Done(w0, s))
    ensures CacheLasts(x, w0, GoalOf(x, before, a, true))
  {
    hide CompleteSet, KnownBy, LastOf, Numbers, PrefixEnd, Done;
  }

  lemma AcceptedWasRetained(x: Stream, w: Window, w0: Window, before: seq<Input>, a: Input, i: nat)
    requires ValidStream(x) && Good(w) && AtRest(x, w, before, true) && Retained(x, before, a)
    requires ValidKnown(x, KnownBy(before + [a])) && SameFlow(w, w0) && FramesFrom(w, w0, a) && i < |w.accepted|
    requires w.accepted[i].0 >= HeadBy(x, before) || InFrame(w0, w.accepted[i].0)
    ensures |CompleteBy(x, before + [a])| <= i + FEC_PAYLOAD_TRACK_LIMIT
  {
    var s := w.accepted[i].0;
    AcceptedIsComplete(x, w, before, true, i);
    CompleteStays(x, before, a);
    hide Good, Linear, Honest, Tracks, FramesKnown, SpansKept, FramesOpen, KeysDone, Times, CompleteBy, KnownBy;
    hide InFrame;
    hide LastOf, Numbers, FramesFrom, ValidKnown, HeadBy;
    if InFrame(w0, s) {
      StoredIsInUse(x, w, w0, before, a, true, s);
    }
    assert InUse(x, before, a, s);
    var j :| 0 <= j <= |before| && s !in CompleteBy(x, before[..j]) &&
      |CompleteBy(x, before + [a])| <= |CompleteBy(x, before[..j])| + FEC_PAYLOAD_TRACK_LIMIT;
  }

  lemma AcceptedIsComplete(x: Stream, w: Window, before: seq<Input>, relied: bool, i: nat)
    requires ValidStream(x) && Good(w) && AtRest(x, w, before, relied) && i < |w.accepted|
    ensures w.accepted[i].0 in CompleteBy(x, before)
  {
    hide Tracks, FramesKnown, SpansKept, FramesOpen, KeysDone, Times, CacheInOrder, CompleteSet, KnownBy;
    AcceptedIsDone(x, w, i);
    assert w.accepted[i].0 in DoneSet(x, w);
  }

  lemma NewWasRetained(x: Stream, w: Window, w0: Window, before: seq<Input>, a: Input, s: nat)
    requires ValidStream(x) && HeadClear(w) && AtRest(x, w, before, true) && Retained(x, before, a)
    requires ValidKnown(x, KnownBy(before + [a])) && ValidKnown(x, KnownBy(before)) && SameFlow(w, w0)
    requires s in CompleteBy(x, before + [a]) && !Done(w0, s)
    ensures |CompleteBy(x, before + [a])| <= |CompleteBy(x, before)| + FEC_PAYLOAD_TRACK_LIMIT
  {
    assert !Done(w, s);
    hide HeadClear, Linear, Honest, Tracks, FramesKnown, SpansKept, FramesOpen, KeysDone, Times, CacheInOrder;
    hide KnownBy, Done;
    hide ValidKnown, CompleteSet, HeadBy;
    NewIsPastTheHead(x, w, before, true, KnownBy(before + [a]), s);
    assert InUse(x, before, a, s);
    var j :| 0 <= j <= |before| && s !in CompleteBy(x, before[..j]) &&
      |CompleteBy(x, before + [a])| <= |CompleteBy(x, before[..j])| + FEC_PAYLOAD_TRACK_LIMIT;
    PrefixSets(x, before, j);
  }

  /** From rest, an arrival sets the goal: all that is complete with it. */
  lemma StartCore(x: Stream, w: Window, w0: Window, before: seq<Input>, a: Input, config: Config, relied: bool)
    requires ValidStream(x) && Good(w) && HeadClear(w) && AtRest(x, w, before, relied)
    requires OnCourse(x, before, a, config, relied)
    requires SameFlow(w, w0) && FramesFrom(w, w0, a) && Honest(SourcesOf(x), w0)
    ensures Core(x, w0, GoalOf(x, before, a, relied))
  {
    hide Good, HeadClear, Honest, Tracks, SpansKept, FramesOpen, Times, CacheInOrder, CompleteSet, KnownBy, CacheLasts;
    hide Retained;
    hide InTime, NoRestart, TimerIsPending, FramesFit, OfStream, HeadBy, ValidKnown;
    RestIsAtTheHead(x, w, before, relied);
    StartFrames(x, w, w0, before, a, relied);
    StartOnlyComplete(x, w, w0, before, a, relied);
    if relied {
      StartRemembers(x, w, w0, before, a);
    } else {
      KnownNext(before, a);
    }
  }

  lemma StartFrames(x: Stream, w: Window, w0: Window, before: seq<Input>, a: Input, relied: bool)
    requires AtRest(x, w, before, relied) && SameFlow(w, w0) && FramesFrom(w, w0, a)
    ensures FramesKnown(w0, KnownBy(before + [a])) && KeysDone(w0) && Linear(x, w0)
  {
    hide Honest, Tracks, SpansKept, FramesOpen, Times, CacheInOrder, CompleteSet, KnownBy;
    KnownNext(before, a);
  }

  lemma StartOnlyComplete(x: Stream, w: Window, w0: Window, before: seq<Input>, a: Input, relied: bool)
    requires AtRest(x, w, before, relied) && SameFlow(w, w0) && ValidKnown(x, KnownBy(before + [a]))
    ensures OnlyComplete(x, w0, KnownBy(before + [a]))
  {
    hide Linear, Honest, Tracks, FramesKnown, SpansKept, FramesOpen, KeysDone, Times, CacheInOrder, CompleteSet;
    hide KnownBy, ValidKnown;
    CompleteStays(x, before, a);
    forall s | InStream(x, s) && Done(w0, s)
      ensures s in CompleteSet(x, KnownBy(before + [a]))
    {
      assert s in DoneSet(x, w);
    }
  }

  // ---------------------------------------------------------------- how long things are held

  lemma SeenLater(before: seq<Input>, a: Input, q: nat, t: nat)
    requires SeenBy(before, q, t)
    ensures SeenBy(before + [a], q, t)
  {
    var m :| 0 <= m < |before| && before[m].PartIn? && before[m].part.sequence >= q && before[m].now <= t;
    assert (before + [a])[m] == before[m];
  }

  lemma TimesLater(x: Stream, w: Window, before: seq<Input>, a: Input)
    requires Times(x, w, before) && ValidKnown(x, KnownBy(before + [a]))
    ensures Times(x, w, before + [a])
  {
    hide CompleteBy, SeenBy, KnownBy, ValidKnown;
    CompleteStays(x, before, a);
    forall s | s in w.fragments
      ensures SeenBy(before + [a], s, w.fragments[s].firstSeen)
    {
      SeenLater(before, a, s, w.fragments[s].firstSeen);
    }
    forall s, q | s in w.buffered && x.start <= q < s && q !in CompleteBy(x, before + [a])
      ensures SeenBy(before + [a], q, w.buffered[s].receivedAt)
    {
      SeenLater(before, a, q, w.buffered[s].receivedAt);
    }
  }

  predicate LastInOrder(arrivals: seq<Input>, now: nat) {
    forall m :: 0 <= m < |arrivals| ==> arrivals[m].now <= now
  }

  lemma {:induction false} KnownPart(arrivals: seq<Input>, part: Part) returns (m: nat)
    requires part in KnownBy(arrivals).parts
    ensures m < |arrivals| && arrivals[m].PartIn? && arrivals[m].part == part
  {
    var n := |arrivals| - 1;
    if arrivals[n].PartIn? && arrivals[n].part == part {
      m := n;
    } else {
      m := KnownPart(arrivals[..n], part);
    }
  }

  /** A packet completed just now, beyond a gap: some piece beyond the gap has arrived by now. */
  lemma NewIsSeen(x: Stream, arrivals: seq<Input>, s: nat, q: nat, now: nat)
    requires ValidStream(x) && ValidKnown(x, KnownBy(arrivals)) && LastInOrder(arrivals, now)
    requires s in CompleteBy(x, arrivals) && q !in CompleteBy(x, arrivals) && q < s
    ensures SeenBy(arrivals, q, now)
  {
    hide KnownBy, CompleteSet, ValidKnown;
    SomePieceIsBeyond(x, KnownBy(arrivals), q, s);
    var part :| part in KnownBy(arrivals).parts && part.sequence >= q;
    var m := KnownPart(arrivals, part);
  }

  lemma SinceKeepsTimes(x: Stream, w: Window, w': Window, arrivals: seq<Input>, now: nat)
    requires ValidStream(x) && ValidKnown(x, KnownBy(arrivals)) && LastInOrder(arrivals, now)
    requires Times(x, w, arrivals) && Since(w, w', now) && OnlyComplete(x, w', KnownBy(arrivals))
    requires forall s :: s in w'.buffered ==> InStream(x, s)
    ensures Times(x, w', arrivals)
  {
    hide KnownBy, CompleteSet, SeenBy, ValidKnown, LastInOrder;
    forall s, q | s in w'.buffered && x.start <= q < s && q !in CompleteBy(x, arrivals)
      ensures SeenBy(arrivals, q, w'.buffered[s].receivedAt)
    {
      if w'.buffered[s].receivedAt == now {
        assert Done(w', s);
        NewIsSeen(x, arrivals, s, q, now);
      }
    }
  }

  lemma CoreBuffersTheStream(x: Stream, w: Window, g: Goal)
    requires Core(x, w, g)
    ensures forall s :: s in w.buffered ==> InStream(x, s)
    ensures OnlyComplete(x, w, g.known)
  {
    hide CompleteSet, CacheLasts, Linear;
  }

  // ---------------------------------------------------------------- nothing is overdue

  /** Everything pending has been seen by a piece at or past the head, none of which is old. */
  lemma NothingIsOverdue(x: Stream, w: Window, arrivals: seq<Input>, now: nat, delay: nat)
    requires ValidStream(x) && Ahead(w) && HeadClear(w) && Linear(x, w) && HonestBuffer(SourcesOf(x), w.buffered)
    requires w.nextSeq == HeadBy(x, arrivals) && Times(x, w, arrivals)
    requires InTime(x, arrivals, now, delay) && LastInOrder(arrivals, now)
    requires w.nextSeq < End(x) ==> w.nextSeq !in CompleteBy(x, arrivals)
    ensures Expire(w, delay, now) == w
  {
    hide KnownBy, CompleteSet, HeadBy, Whole, PiecesOf, Expire;
    forall t | t in PendingTimes(w)
      ensures Elapsed(now, t) < delay
    {
      if s :| s in w.buffered && w.buffered[s].receivedAt == t {
        assert s in SourcesOf(x);
        SeenIsYoung(x, arrivals, w.nextSeq, w.nextSeq, t, now, delay);
      } else {
        var s :| s in w.fragments && w.fragments[s].firstSeen == t;
        SeenIsYoung(x, arrivals, w.nextSeq, s, t, now, delay);
      }
    }
    NoneOverdueStops(w, delay, now);
  }

  lemma SeenIsYoung(x: Stream, arrivals: seq<Input>, head: nat, q: nat, t: nat, now: nat, delay: nat)
    requires head == HeadBy(x, arrivals) && q >= head && SeenBy(arrivals, q, t)
    requires InTime(x, arrivals, now, delay) && LastInOrder(arrivals, now)
    ensures Elapsed(now, t) < delay
  {
    hide HeadBy;
    var m :| 0 <= m < |arrivals| && arrivals[m].PartIn? && arrivals[m].part.sequence >= q && arrivals[m].now <= t;
  }

  lemma NoneOverdueStops(w: Window, delay: nat, now: nat)
    requires Ahead(w) && forall t :: t in PendingTimes(w) ==> Elapsed(now, t) < delay
    ensures Expire(w, delay, now) == w
  {
    if w.nextSeq in w.fragments {
      assert w.fragments[w.nextSeq].firstSeen in PendingTimes(w);
    }
  }

  // ---------------------------------------------------------------- repairs

  /** Two windows that differ only in when repairs were asked for. */
  ghost predicate SameButRequests(w: Window, w': Window) {
    && w' == w.(gapRequests := w'.gapRequests, fragments := w'.fragments, repairs := w'.repairs)
    && SameAssemblies(w'.fragments, w.fragments)
  }

  lemma AskingChangesRequestsOnly(w: Window, config: Config, now: nat)
    requires Settled(w)
    ensures Settled(AskRepairs(w, config, now)) && SameButRequests(w, AskRepairs(w, config, now))
  {
    if config.repairInterval.Some? {
      RequestRepairsIsSound(w, config.repairInterval.value, now);
      RequestRepairsKeepsGood(w, config.repairInterval.value, now);
    }
    hide Good, HeadClear, SameAssemblies;
  }

  lemma RequestsTrack(x: Stream, w: Window, w': Window, known: Known)
    requires SameButRequests(w, w') && Tracks(x, w, known)
    ensures Tracks(x, w', known)
  {
    forall s | InStream(x, s)
      ensures TracksOne(x, w', known, s)
    {
      assert TracksOne(x, w, known, s);
    }
  }

  lemma RequestsAreHonest(sent: map<nat, Source>, w: Window, w': Window)
    requires SameButRequests(w, w') && Honest(sent, w)
    ensures Honest(sent, w')
  {
    forall s | s in w'.fragments
      ensures HonestAssembly(sent, s, w'.fragments[s])
    {
      assert HonestAssembly(sent, s, w.fragments[s]);
    }
    hide HonestStore, HonestBuffer, HonestLog, HonestAssembly;
  }

  lemma RequestsCore(x: Stream, w: Window, w': Window, g: Goal)
    requires SameButRequests(w, w') && Core(x, w, g)
    ensures Core(x, w', g)
  {
    hide CompleteSet, CacheLasts, Honest, SameAssemblies;
    RequestsAreHonest(SourcesOf(x), w, w');
    if g.relied {
      SameStoreRemembers(x, w, w', g);
    }
  }

  lemma RequestsTimes(x: Stream, w: Window, w': Window, arrivals: seq<Input>)
    requires SameButRequests(w, w') && Times(x, w, arrivals)
    ensures Times(x, w', arrivals)
  {
    hide CompleteBy, SeenBy;
  }

  // ---------------------------------------------------------------- reaching the goal

  /** Everything an advance needs to end at rest. */
  ghost predicate Ready(x: Stream, w: Window, g: Goal, arrivals: seq<Input>) {
    && g.known == KnownBy(arrivals) && Core(x, w, g) && Tracks(x, w, g.known) && SpansKept(w, g.known)
    && Times(x, w, arrivals)
  }

  /** At rest, up to the order in which packets were accepted. */
  ghost predicate Rested(x: Stream, w: Window, g: Goal, arrivals: seq<Input>) {
    Ready(x, w, g, arrivals) && FramesOpen(w) && DoneSet(x, w) == CompleteSet(x, g.known)
  }

  lemma RecoveringStaysReady(x: Stream, w: Window, g: Goal, arrivals: seq<Input>, now: nat)
    requires ValidStream(x) && ValidKnown(x, KnownBy(arrivals)) && LastInOrder(arrivals, now)
    requires Settled(w) && Ready(x, w, g, arrivals)
    ensures Settled(RecoverFec(w, now)) && Ready(x, RecoverFec(w, now), g, arrivals)
  {
    hide Good, HeadClear, Core, Tracks, SpansKept, Times, KnownBy, Since, LastInOrder, ValidKnown;
    RecoverFecCore(x, w, g, now);
    RecoverFecKeepsGood(w, now);
    var w' := RecoverFec(w, now);
    CoreBuffersTheStream(x, w', g);
    SinceKeepsTimes(x, w, w', arrivals, now);
  }

  lemma RecoveredIsRested(x: Stream, w: Window, g: Goal, arrivals: seq<Input>, now: nat)
    requires ValidStream(x) && ValidKnown(x, KnownBy(arrivals)) && LastInOrder(arrivals, now)
    requires Settled(w) && Ready(x, w, g, arrivals)
    ensures Settled(RecoverFec(w, now)) && Rested(x, RecoverFec(w, now), g, arrivals)
  {
    hide Good, HeadClear, Core, Tracks, SpansKept, Times, KnownBy, LastInOrder, ValidKnown, FramesOpen, DoneSet;
    hide CompleteSet, Peeled;
    RecoveringStaysReady(x, w, g, arrivals, now);
    RecoverFecPeels(w, now);
    GoalIsReached(x, RecoverFec(w, now), g);
  }

  /** Asking for repairs changes nothing that matters, and then nothing is overdue. */
  lemma RestedAdvances(x: Stream, w: Window, g: Goal, arrivals: seq<Input>, config: Config, now: nat)
    requires ValidStream(x) && Settled(w) && Rested(x, w, g, arrivals)
      && InTime(x, arrivals, now, config.maxReorderDelay)
    requires LastInOrder(arrivals, now)
    ensures var asked := AskRepairs(w, config, now);
      && Good(asked) && AdvanceFrom(asked, config, now) == asked && Rested(x, asked, g, arrivals)
  {
    hide Good, HeadClear, Core, Tracks, SpansKept, Times, KnownBy, FramesOpen, CompleteSet, InTime, SameAssemblies;
    hide AskRepairs, LastInOrder;
    var asked := AskRepairs(w, config, now);
    AskingChangesRequestsOnly(w, config, now);
    RequestsCore(x, w, asked, g);
    RequestsTrack(x, w, asked, g.known);
    RequestsTimes(x, w, asked, arrivals);
    RequestsSpans(x, w, asked, g.known);
    RestedIsNotOverdue(x, asked, g, arrivals, now, config.maxReorderDelay);
    NothingToDrain(asked);
  }

  lemma RequestsSpans(x: Stream, w: Window, w': Window, known: Known)
    requires SameButRequests(w, w')
    ensures SpansKept(w, known) ==> SpansKept(w', known)
    ensures FramesOpen(w) ==> FramesOpen(w')
    ensures DoneSet(x, w') == DoneSet(x, w)
  {
    hide SameAssemblies;
    assert forall s :: Done(w', s) <==> Done(w, s);
    if SpansKept(w, known) {
      SpansStay(w, w', known);
    }
    if FramesOpen(w) {
      forall base | base in w'.fec.frames
        ensures exists s :: InSpan(SpanOf(w'.fec.frames[base]), s) && !Done(w', s)
      {
        var s :| InSpan(SpanOf(w.fec.frames[base]), s) && !Done(w, s);
        assert !Done(w', s);
      }
    }
  }

  lemma NothingToDrain(w: Window)
    requires HeadClear(w)
    ensures Drain(w) == w
  {
  }

  lemma RestedIsNotOverdue(x: Stream, w: Window, g: Goal, arrivals: seq<Input>, now: nat, delay: nat)
    requires ValidStream(x) && Settled(w) && Rested(x, w, g, arrivals) && InTime(x, arrivals, now, delay)
    requires LastInOrder(arrivals, now)
    ensures Expire(w, delay, now) == w
  {
    RestedIsAtTheHead(x, w, g, arrivals);
    GoodIsTidy(w);
    CoreIsLinear(x, w, g);
    hide Good, Core, Tracks, SpansKept, Times, KnownBy, FramesOpen, CompleteSet, InTime, Linear, HonestStore;
    hide HonestFragments, Expire;
    NothingIsOverdue(x, w, arrivals, now, delay);
  }

  lemma RestedIsAtTheHead(x: Stream, w: Window, g: Goal, arrivals: seq<Input>)
    requires ValidStream(x) && HeadClear(w) && Rested(x, w, g, arrivals)
    ensures w.nextSeq == HeadBy(x, arrivals) && (w.nextSeq < End(x) ==> w.nextSeq !in CompleteBy(x, arrivals))
  {
    CoreIsLinear(x, w, g);
    hide Core, Honest, Tracks, SpansKept, FramesOpen, Times, CompleteSet, KnownBy;
    EndIs(x, DoneSet(x, w), w.nextSeq);
  }

  /** An advance from a ready window ends at rest. */
  lemma AdvanceRests(x: Stream, w: Window, g: Goal, arrivals: seq<Input>, config: Config, now: nat)
    requires ValidStream(x) && ValidKnown(x, KnownBy(arrivals)) && LastInOrder(arrivals, now)
    requires Settled(w) && Ready(x, w, g, arrivals) && InTime(x, arrivals, now, config.maxReorderDelay)
    ensures Rested(x, Advance(w, config, now), g, arrivals)
  {
    hide Good, HeadClear, Ready, Rested, InTime, KnownBy, LastInOrder, ValidKnown, AskRepairs, AdvanceFrom, RecoverFec;
    RecoveredIsRested(x, w, g, arrivals, now);
    RestedAdvances(x, RecoverFec(w, now), g, arrivals, config, now);
  }

  lemma RecoverAndAdvanceRests(x: Stream, w: Window, g: Goal, arrivals: seq<Input>, config: Config, now: nat)
    requires ValidStream(x) && ValidKnown(x, KnownBy(arrivals)) && LastInOrder(arrivals, now)
    requires Settled(w) && Ready(x, w, g, arrivals) && InTime(x, arrivals, now, config.maxReorderDelay)
    ensures Rested(x, RecoverAndAdvance(w, config, now), g, arrivals)
  {
    hide Good, HeadClear, Ready, Rested, InTime, KnownBy, LastInOrder, ValidKnown, Advance, RecoverFec;
    RecoveringStaysReady(x, w, g, arrivals, now);
    AdvanceRests(x, RecoverFec(w, now), g, arrivals, config, now);
  }

  // ---------------------------------------------------------------- back to rest

  /** Whatever has been accepted since was completed since. */
  lemma LaterWasCompletedLater(x: Stream, w: Window, w': Window, before: seq<Input>, i: nat, j: nat)
    requires ValidStream(x) && Good(w) && AtRest(x, w, before, true) && ValidKnown(x, KnownBy(before))
    requires w.accepted <= w'.accepted && i < |w'.accepted| && j <= |before|
    requires w'.accepted[i].0 !in CompleteBy(x, before[..j])
    ensures |CompleteBy(x, before[..j])| <= i
  {
    hide Good, KnownBy, CompleteBy, ValidKnown, Numbers, LastOf, Linear, Honest, Tracks, FramesKnown, SpansKept;
    hide FramesOpen, Times;
    hide KeysDone, DoneSet;
    if i < |w.accepted| {
      assert w'.accepted[i] == w.accepted[i];
    } else {
      CompleteWasAccepted(x, w, before, true);
      PrefixSets(x, before, j);
    }
  }

  lemma CacheNext(x: Stream, w: Window, w': Window, before: seq<Input>, a: Input)
    requires ValidStream(x) && Good(w) && AtRest(x, w, before, true) && ValidKnown(x, KnownBy(before + [a]))
    requires Good(w') && Core(x, w', GoalOf(x, before, a, true)) && w.accepted <= w'.accepted
    ensures CacheInOrder(x, w', before + [a])
  {
    hide Good, KnownBy, CompleteBy, ValidKnown, Numbers, LastOf, AtRest, Core;
    var after := before + [a];
    KnownNext(before, a);
    LessIsValid(x, KnownBy(before), KnownBy(after));
    forall i, j | 0 <= i < |w'.accepted| && 0 <= j <= |after| && w'.accepted[i].0 !in CompleteBy(x, after[..j])
      ensures |CompleteBy(x, after[..j])| <= i
    {
      if j == |after| {
        assert after[..j] == after;
        AcceptedIsInGoal(x, w', before, a, i);
      } else {
        assert after[..j] == before[..j];
        LaterWasCompletedLater(x, w, w', before, i, j);
      }
    }
    CoreCaches(x, w', before, a);
  }

  lemma CoreCaches(x: Stream, w: Window, before: seq<Input>, a: Input)
    requires Core(x, w, GoalOf(x, before, a, true))
    ensures w.fec.payloadOrder == LastOf(Numbers(w.accepted), FEC_PAYLOAD_TRACK_LIMIT)
  {
    hide Linear, Honest, OnlyComplete, FramesKnown, KeysDone, CompleteSet, KnownBy;
  }

  lemma AcceptedIsInGoal(x: Stream, w: Window, before: seq<Input>, a: Input, i: nat)
    requires ValidStream(x) && Good(w) && Core(x, w, GoalOf(x, before, a, true)) && i < |w.accepted|
    ensures w.accepted[i].0 in CompleteBy(x, before + [a])
  {
    hide FramesKnown, KeysDone, CacheLasts, CompleteSet, KnownBy;
    AcceptedIsDone(x, w, i);
  }

  lemma BackToRest(x: Stream, w: Window, w': Window, before: seq<Input>, a: Input, relied: bool)
    requires ValidStream(x) && Good(w) && AtRest(x, w, before, relied) && ValidKnown(x, KnownBy(before + [a]))
    requires Good(w') && Rested(x, w', GoalOf(x, before, a, relied), before + [a]) && w.accepted <= w'.accepted
    ensures AtRest(x, w', before + [a], relied)
  {
    if relied {
      RestedIsCore(x, w', GoalOf(x, before, a, relied), before + [a]);
      CacheNext(x, w, w', before, a);
    }
    hide Good, CompleteSet, KnownBy, ValidKnown, Linear, Honest, Tracks, SpansKept, FramesOpen, Times, CacheInOrder;
    hide CacheLasts;
    hide OnlyComplete, DoneSet;
  }

  lemma RestedIsCore(x: Stream, w: Window, g: Goal, arrivals: seq<Input>)
    requires Rested(x, w, g, arrivals)
    ensures Core(x, w, g)
  {
    hide Core;
  }

  // ---------------------------------------------------------------- arrivals that change nothing

  /** Nothing new is complete and nothing new is tracked. */
  lemma UnchangedRests(x: Stream, w: Window, before: seq<Input>, a: Input, relied: bool)
    requires ValidStream(x) && AtRest(x, w, before, relied) && ValidKnown(x, KnownBy(before + [a])) && !a.ParityIn?
    requires a.PartIn? ==> IsPart(x, a.part) && (a.part in KnownBy(before).parts || Done(w, a.part.sequence))
    ensures AtRest(x, w, before + [a], relied)
  {
    KnownNext(before, a);
    SameComplete(x, w, before, a, relied);
    UnchangedTracks(x, w, before, a, relied);
    hide CompleteSet, KnownBy, ValidKnown, Linear, Honest, Tracks, Times, DoneSet, CacheInOrder, SpansKept;
    hide FramesOpen, FramesKnown;
    TimesLater(x, w, before, a);
    if relied {
      SameCache(x, w, before, a);
    }
  }

  lemma SameComplete(x: Stream, w: Window, before: seq<Input>, a: Input, relied: bool)
    requires ValidStream(x) && AtRest(x, w, before, relied) && ValidKnown(x, KnownBy(before + [a])) && !a.ParityIn?
    requires a.PartIn? ==> IsPart(x, a.part) && (a.part in KnownBy(before).parts || Done(w, a.part.sequence))
    ensures CompleteBy(x, before + [a]) == CompleteBy(x, before)
  {
    KnownNext(before, a);
    LessIsValid(x, KnownBy(before), KnownBy(before + [a]));
    CompleteStays(x, before, a);
    var known, more := KnownBy(before), KnownBy(before + [a]);
    CompleteIsClosed(x, known);
    hide KnownBy, CompleteSet, ValidKnown, Linear, Honest, Tracks, Times, CacheInOrder, SpansKept, FramesOpen;
    hide FramesKnown, KeysDone;
    var complete := CompleteSet(x, known);
    forall s | InStream(x, s) && AllIn(x, more, s)
      ensures s in complete
    {
      if a.PartIn? && a.part.sequence == s && a.part !in known.parts {
        assert s in DoneSet(x, w);
      } else {
        SameAllIn(x, known, more, a, s);
      }
    }
    assert more.spans == known.spans;
    hide AllIn, AllBut;
    CompleteIsLeast(x, more, complete);
  }

  lemma SameAllIn(x: Stream, known: Known, more: Known, a: Input, s: nat)
    requires InStream(x, s) && more == Learn(known, a) && AllIn(x, more, s)
    requires a.PartIn? && a.part.sequence == s ==> a.part in known.parts
    ensures AllIn(x, known, s)
  {
    if WholeCopy(s) !in more.parts {
      forall i | 0 <= i < |PiecesOf(x, s)|
        ensures Piece(s, i) in known.parts
      {
        assert Piece(s, i) in more.parts;
      }
    }
  }

  lemma UnchangedTracks(x: Stream, w: Window, before: seq<Input>, a: Input, relied: bool)
    requires AtRest(x, w, before, relied) && !a.ParityIn?
    requires a.PartIn? ==> a.part in KnownBy(before).parts || Done(w, a.part.sequence)
    ensures Tracks(x, w, KnownBy(before + [a]))
  {
    KnownNext(before, a);
    hide CompleteSet, KnownBy, Linear, Honest, Times, DoneSet, CacheInOrder, SpansKept, FramesOpen, FramesKnown;
    hide KeysDone;
    var known, more := KnownBy(before), KnownBy(before + [a]);
    forall s | InStream(x, s)
      ensures TracksOne(x, w, more, s)
    {
      assert TracksOne(x, w, known, s);
      if !Done(w, s) && AllIn(x, more, s) {
        SameAllIn(x, known, more, a, s);
      }
    }
  }

  lemma SameCache(x: Stream, w: Window, before: seq<Input>, a: Input)
    requires CacheInOrder(x, w, before) && CompleteBy(x, before + [a]) == CompleteBy(x, before)
    ensures CacheInOrder(x, w, before + [a])
  {
    hide CompleteBy, LastOf, Numbers;
    var after := before + [a];
    forall i, j | 0 <= i < |w.accepted| && 0 <= j <= |after| && w.accepted[i].0 !in CompleteBy(x, after[..j])
      ensures |CompleteBy(x, after[..j])| <= i
    {
      if j == |after| {
        assert after[..j] == after && before[..|before|] == before;
      } else {
        assert after[..j] == before[..j];
      }
    }
  }
}
