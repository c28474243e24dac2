/**
  The reorder window while it carries one stretch of the stream: what its moves keep
  as they work towards the packets that are now complete. Nothing here depends on time.
*/
module StreamWindow {
  import opened ByteStrings
  import opened Sequences
  import opened Wire
  import opened FecRecovery
  import opened Window
  import opened WindowLaws
  import opened Integrity
  import opened StreamClosure

  function SourcesOf(x: Stream): map<nat, Source> {
    map s | x.start <= s < End(x) :: Source(Whole(x, s), PiecesOf(x, s))
  }

  predicate Done(w: Window, s: nat) {
    s < w.nextSeq || s in w.buffered
  }

  /** What one event works towards, and where it starts from. */
  datatype Goal = Goal(known: Known, head: nat, floor: nat, relied: bool)

  // ---------------------------------------------------------------- what is kept

  /** The flow began with the stretch, and has forwarded all it has passed. */
  ghost predicate Linear(x: Stream, w: Window) {
    && w.start == x.start && w.nextSeq == x.start + |w.log| <= End(x)
    && forall i :: 0 <= i < |w.log| ==> w.log[i].Forwarded?
  }

  ghost predicate OnlyComplete(x: Stream, w: Window, known: Known) {
    forall s :: InStream(x, s) && Done(w, s) ==> s in CompleteSet(x, known)
  }

  function SpanOf(frame: FecFrame): Span {
    Span(frame.baseSequence, |frame.payloadLengths|)
  }

  predicate Stored(w: Window, span: Span) {
    span.first in w.fec.frames && SpanOf(w.fec.frames[span.first]) == span
  }

  ghost predicate AllDone(w: Window, span: Span) {
    forall s :: InSpan(span, s) ==> Done(w, s)
  }

  /** Stored frames have arrived. */
  ghost predicate FramesKnown(w: Window, known: Known) {
    forall base :: base in w.fec.frames ==> SpanOf(w.fec.frames[base]) in known.spans
  }

  /** A frame that has arrived is stored, or of no more use. */
  ghost predicate SpansKept(w: Window, known: Known) {
    forall span :: span in known.spans ==> Stored(w, span) || AllDone(w, span)
  }

  predicate KeysDone(w: Window) {
    forall s :: s in w.fec.payloads ==> Done(w, s)
  }

  function Numbers(accepted: seq<(nat, Bytes)>): (numbers: seq<nat>)
    ensures |numbers| == |accepted|
  {
    seq(|accepted|, (i: nat) requires i < |accepted| => accepted[i].0)
  }

  ghost predicate InFrame(w: Window, s: nat) {
    exists base :: base in w.fec.frames && InSpan(SpanOf(w.fec.frames[base]), s)
  }

  /**
    The payload cache is the last 4096 payloads accepted, and will still hold, when the
    goal is reached, everything at or past the old head or under a stored frame.
  */
  ghost predicate CacheLasts(x: Stream, w: Window, g: Goal) {
    var count := |CompleteSet(x, g.known)|;
    && w.fec.payloadOrder == LastOf(Numbers(w.accepted), FEC_PAYLOAD_TRACK_LIMIT)
    && g.floor <= |w.accepted|
    && (forall i :: 0 <= i < |w.accepted| && (w.accepted[i].0 >= g.head || InFrame(w, w.accepted[i].0)) ==>
          count <= i + FEC_PAYLOAD_TRACK_LIMIT)
    && (count <= g.floor + FEC_PAYLOAD_TRACK_LIMIT || forall s :: s in CompleteSet(x, g.known) ==> Done(w, s))
  }

  ghost predicate Core(x: Stream, w: Window, g: Goal) {
    && Linear(x, w) && g.head <= w.nextSeq
    && Honest(SourcesOf(x), w) && OnlyComplete(x, w, g.known)
    && FramesKnown(w, g.known) && KeysDone(w)
    && (if g.relied then CacheLasts(x, w, g) else g.known.spans == {})
  }

  // ---------------------------------------------------------------- what has been accepted

  lemma {:induction false} DistinctFits(s: seq<nat>, packets: set<nat>)
    requires Distinct(s) && forall i :: 0 <= i < |s| ==> s[i] in packets
    ensures |s| <= |packets|
  {
    if s != [] {
      var n := |s| - 1;
      DistinctFits(s[..n], packets - {s[n]});
    }
  }

  lemma AcceptedIsDone(x: Stream, w: Window, i: nat)
    requires Ahead(w) && Shape(w) && Conserved(w) && Linear(x, w) && HonestBuffer(SourcesOf(x), w.buffered)
      && ValidStream(x)
    requires i < |w.accepted|
    ensures InStream(x, w.accepted[i].0) && Done(w, w.accepted[i].0)
  {
    var (s, p) := w.accepted[i];
    assert (s, p) in multiset(w.accepted);
    if (s, p) in ForwardBag(w.log) {
      ForwardedLieBehind(w.start, w.log, s, p);
    } else {
      assert (s, p) in BufferBag(w.buffered);
    }
  }

  lemma HeldWasAccepted(w: Window, s: nat) returns (i: nat)
    requires Conserved(w) && s in w.buffered
    ensures i < |w.accepted| && w.accepted[i].0 == s
  {
    var pair := (s, w.buffered[s].payload);
    assert pair in BufferBag(w.buffered);
    assert pair in multiset(w.accepted);
    i :| 0 <= i < |w.accepted| && w.accepted[i] == pair;
  }

  /** No more has been accepted than is complete. */
  lemma AcceptedFits(x: Stream, w: Window, known: Known)
    requires ValidStream(x) && Good(w) && Linear(x, w) && HonestBuffer(SourcesOf(x), w.buffered)
      && OnlyComplete(x, w, known)
    ensures |w.accepted| <= |CompleteSet(x, known)|
  {
    var numbers := Numbers(w.accepted);
    forall i | 0 <= i < |numbers|
      ensures numbers[i] in CompleteSet(x, known)
    {
      AcceptedIsDone(x, w, i);
    }
    assert Distinct(numbers);
    DistinctFits(numbers, CompleteSet(x, known));
  }

  lemma RecentIsKept<T>(s: seq<T>, i: nat, n: nat)
    requires i < |s| <= i + n
    ensures s[i] in LastOf(s, n)
  {
    if |s| > n {
      assert s[|s| - n..][i - (|s| - n)] == s[i];
    }
  }

  /** What is accepted at or past the old head, or under a stored frame, is in the cache. */
  lemma RememberedIsCached(x: Stream, w: Window, g: Goal, i: nat)
    requires ValidStream(x) && Good(w) && Core(x, w, g) && g.relied && i < |w.accepted|
    requires w.accepted[i].0 >= g.head || InFrame(w, w.accepted[i].0)
    ensures w.accepted[i].0 in w.fec.payloads
  {
    AcceptedFits(x, w, g.known);
    RecentIsKept(Numbers(w.accepted), i, FEC_PAYLOAD_TRACK_LIMIT);
  }

  // ---------------------------------------------------------------- one packet leaves the buffer

  ghost predicate SameDone(w: Window, w': Window) {
    forall s :: Done(w', s) <==> Done(w, s)
  }

  ghost predicate DoneGrows(w: Window, w': Window) {
    forall s :: Done(w, s) ==> Done(w', s)
  }

  lemma SpansStay(w: Window, w': Window, known: Known)
    requires SpansKept(w, known) && w'.fec.frames == w.fec.frames && DoneGrows(w, w')
    ensures SpansKept(w', known)
  {
    forall span | span in known.spans
      ensures Stored(w', span) || AllDone(w', span)
    {
      assert Stored(w, span) || AllDone(w, span);
    }
  }

  lemma DrainOneMoves(x: Stream, w: Window)
    requires ValidStream(x) && Linear(x, w) && HonestBuffer(SourcesOf(x), w.buffered) && w.nextSeq in w.buffered
    ensures Linear(x, DrainOne(w)) && SameDone(w, DrainOne(w)) && DrainOne(w).nextSeq == w.nextSeq + 1
    ensures DrainOne(w).fragments == w.fragments && DrainOne(w).accepted == w.accepted
    ensures DrainOne(w).fec.frames == w.fec.frames
  {
    hide InsertPayload, Whole, PiecesOf;
    InsertPayloadKeepsFrames(w.fec, w.nextSeq, w.buffered[w.nextSeq].payload);
  }

  lemma DrainOneKeys(w: Window)
    requires KeysDone(w) && w.nextSeq in w.buffered && SameDone(w, DrainOne(w))
    ensures KeysDone(DrainOne(w))
  {
    var p := w.buffered[w.nextSeq].payload;
    EnforcedPayloadsAreOld(
      w.fec.(payloads := w.fec.payloads[w.nextSeq := p], payloadOrder := w.fec.payloadOrder + [w.nextSeq]));
  }

  lemma SameStoreRemembers(x: Stream, w: Window, w': Window, g: Goal)
    requires CacheLasts(x, w, g) && w'.fec == w.fec && w'.accepted == w.accepted && DoneGrows(w, w')
    ensures CacheLasts(x, w', g)
  {
    hide CompleteSet, Done, LastOf;
    forall s | InFrame(w', s)
      ensures InFrame(w, s)
    {
    }
  }

  /** A payload cached already is not remembered again. */
  lemma CachedAlready(w: Window)
    requires w.nextSeq in w.buffered && w.nextSeq in w.fec.payloads
    ensures DrainOne(w).fec == w.fec && DrainOne(w).accepted == w.accepted
  {
  }

  lemma DrainOneRemembers(x: Stream, w: Window, g: Goal)
    requires ValidStream(x) && Good(w) && Core(x, w, g) && g.relied && w.nextSeq in w.buffered
    requires SameDone(w, DrainOne(w))
    ensures CacheLasts(x, DrainOne(w), g)
  {
    GoodConserves(w);
    hide Good, Conserved, DrainOne, CacheLasts, Honest, OnlyComplete, FramesKnown, KeysDone, Linear;
    var i := HeldWasAccepted(w, w.nextSeq);
    RememberedIsCached(x, w, g, i);
    CachedAlready(w);
    SameStoreRemembers(x, w, DrainOne(w), g);
  }

  lemma GoodConserves(w: Window)
    requires Good(w)
    ensures Conserved(w)
  {
  }

  lemma DrainOneCore(x: Stream, w: Window, g: Goal)
    requires ValidStream(x) && Good(w) && Core(x, w, g) && w.nextSeq in w.buffered
    ensures Core(x, DrainOne(w), g) && SameDone(w, DrainOne(w))
    ensures DrainOne(w).fragments == w.fragments && DrainOne(w).fec.frames == w.fec.frames
  {
    hide Good, DrainOne, KeysDone, CacheLasts, HonestStore, HonestFragments, CompleteSet, Linear;
    DrainOneMoves(x, w);
    DrainOneKeys(w);
    DrainOneStaysHonest(SourcesOf(x), w);
    if g.relied {
      DrainOneRemembers(x, w, g);
    }
  }

  lemma {:induction false} DrainCore(x: Stream, w: Window, g: Goal)
    requires ValidStream(x) && Good(w) && Core(x, w, g)
    ensures Core(x, Drain(w), g) && SameDone(w, Drain(w))
    ensures Drain(w).fragments == w.fragments && Drain(w).fec.frames == w.fec.frames
    decreases |w.buffered|
  {
    hide Good, Core, DrainOne, Done;
    if w.nextSeq in w.buffered {
      DrainOneCore(x, w, g);
      DrainOneKeepsGood(w);
      RemovalShrinks(w.buffered, w.nextSeq);
      DrainOneLess(w);
      DrainCore(x, DrainOne(w), g);
    }
  }

  lemma DrainOneLess(w: Window)
    requires w.nextSeq in w.buffered
    ensures |DrainOne(w).buffered| < |w.buffered|
  {
    RemovalShrinks(w.buffered, w.nextSeq);
  }

  // ---------------------------------------------------------------- one packet comes in

  /** The packet is done now and noted; it has gone out through the head, or into the buffer. */
  ghost predicate Took(w: Window, w': Window, s: nat, p: Bytes) {
    && w'.fec == InsertPayload(w.fec, s, p) && w'.accepted == w.accepted + [(s, p)] && w'.fragments == w.fragments
    && forall t :: Done(w', t) <==> Done(w, t) || t == s
  }

  lemma ForwardTakes(x: Stream, w: Window, s: nat, p: Bytes)
    requires ValidStream(x) && Linear(x, w) && s == w.nextSeq && InStream(x, s) && s !in w.buffered
    ensures var w' := ForwardHead(Note(w, s, p), p); Took(w, w', s, p) && Linear(x, w') && w'.nextSeq == w.nextSeq + 1
  {
    hide InsertPayload;
  }

  lemma HoldTakes(x: Stream, w: Window, s: nat, p: Bytes, now: nat)
    requires Linear(x, w) && s > w.nextSeq
    ensures var w' := Hold(w, s, p, now); Took(w, w', s, p) && Linear(x, w') && w'.nextSeq == w.nextSeq
  {
    hide InsertPayload;
  }

  lemma TakingGrows(w: Window, w': Window, s: nat, p: Bytes)
    requires Took(w, w', s, p)
    ensures DoneGrows(w, w') && w'.fec.frames == w.fec.frames
  {
    InsertPayloadKeepsFrames(w.fec, s, p);
    hide InsertPayload, Done;
  }

  lemma TakingKeys(w: Window, w': Window, s: nat, p: Bytes)
    requires KeysDone(w) && Took(w, w', s, p)
    ensures KeysDone(w')
  {
    EnforcedPayloadsAreOld(w.fec.(payloads := w.fec.payloads[s := p], payloadOrder := w.fec.payloadOrder + [s]));
    hide Done, EnforcePayloadLimit;
  }

  lemma {:induction false} EnforcedOrder(v: FecView)
    requires Distinct(v.payloadOrder) && forall s :: s in v.payloads <==> s in v.payloadOrder
    ensures EnforcePayloadLimit(v).payloadOrder == LastOf(v.payloadOrder, FEC_PAYLOAD_TRACK_LIMIT)
    decreases |v.payloadOrder|
  {
    OrderCounts(v.payloadOrder, v.payloads);
    if |v.payloads| > FEC_PAYLOAD_TRACK_LIMIT {
      LastOfRest(v.payloadOrder, FEC_PAYLOAD_TRACK_LIMIT);
      WithoutTheOldest(v.payloadOrder, v.payloads);
      hide LastOf, Distinct;
      EnforcedOrder(v.(payloads := v.payloads - {v.payloadOrder[0]}, payloadOrder := v.payloadOrder[1..]));
    }
  }

  lemma LastOfRest<T>(s: seq<T>, n: nat)
    requires |s| > n
    ensures LastOf(s[1..], n) == LastOf(s, n)
  {
  }

  lemma WithoutTheOldest(order: seq<nat>, payloads: map<nat, Bytes>)
    requires order != [] && Distinct(order) && forall s :: s in payloads <==> s in order
    ensures Distinct(order[1..]) && forall s :: s in payloads - {order[0]} <==> s in order[1..]
  {
    assert forall s :: s in order <==> s == order[0] || s in order[1..];
  }

  lemma {:induction false} OrderCounts(order: seq<nat>, payloads: map<nat, Bytes>)
    requires Distinct(order) && forall s :: s in payloads <==> s in order
    ensures |order| == |payloads|
    decreases |order|
  {
    if order == [] {
      assert payloads == map[];
    } else {
      var rest, fewer := order[1..], payloads - {order[0]};
      assert forall s :: s in order <==> s == order[0] || s in rest;
      OrderCounts(rest, fewer);
      RemovalShrinks(payloads, order[0]);
    }
  }

  lemma InsertedOrder(v: FecView, s: nat, p: Bytes)
    requires FecOk(v) && s <= MAX_MEDIA_SEQUENCE && s !in v.payloads
    ensures InsertPayload(v, s, p).payloadOrder == LastOf(v.payloadOrder + [s], FEC_PAYLOAD_TRACK_LIMIT)
  {
    EnforcedOrder(v.(payloads := v.payloads[s := p], payloadOrder := v.payloadOrder + [s]));
  }

  lemma NumbersGrow(accepted: seq<(nat, Bytes)>, s: nat, p: Bytes)
    ensures Numbers(accepted + [(s, p)]) == Numbers(accepted) + [s]
  {
  }

  /** The cache goes on being the last payloads accepted. */
  lemma TakingKeepsOrder(w: Window, w': Window, s: nat, p: Bytes)
    requires Tidy(w) && KeysDone(w) && Took(w, w', s, p) && !Done(w, s) && s <= MAX_MEDIA_SEQUENCE
    requires w.fec.payloadOrder == LastOf(Numbers(w.accepted), FEC_PAYLOAD_TRACK_LIMIT)
    ensures w'.fec.payloadOrder == LastOf(Numbers(w'.accepted), FEC_PAYLOAD_TRACK_LIMIT)
  {
    hide InsertPayload, Numbers, LastOf;
    InsertedOrder(w.fec, s, p);
    NumbersGrow(w.accepted, s, p);
    LastOfAppend(Numbers(w.accepted), s, FEC_PAYLOAD_TRACK_LIMIT);
  }

  lemma TakingRemembers(x: Stream, w: Window, w': Window, g: Goal, s: nat, p: Bytes)
    requires Tidy(w) && KeysDone(w) && Took(w, w', s, p) && !Done(w, s) && s <= MAX_MEDIA_SEQUENCE
    requires CacheLasts(x, w, g) && s in CompleteSet(x, g.known)
    ensures CacheLasts(x, w', g)
  {
    TakingKeepsOrder(w, w', s, p);
    TakingGrows(w, w', s, p);
    hide CompleteSet, Tidy, KeysDone, LastOf, Numbers, InsertPayload, Done;
    var count := |CompleteSet(x, g.known)|;
    forall i | 0 <= i < |w'.accepted| && (w'.accepted[i].0 >= g.head || InFrame(w', w'.accepted[i].0))
      ensures count <= i + FEC_PAYLOAD_TRACK_LIMIT
    {
      if i < |w.accepted| {
        assert w'.accepted[i] == w.accepted[i];
        assert InFrame(w', w'.accepted[i].0) ==> InFrame(w, w.accepted[i].0);
      }
    }
  }

  lemma TakingCore(x: Stream, w: Window, w': Window, g: Goal, s: nat, p: Bytes)
    requires Tidy(w) && Core(x, w, g) && Took(w, w', s, p) && !Done(w, s) && s in CompleteSet(x, g.known)
    requires s <= MAX_MEDIA_SEQUENCE && Linear(x, w') && w'.nextSeq >= w.nextSeq && Honest(SourcesOf(x), w')
    ensures Core(x, w', g)
  {
    TakingGrows(w, w', s, p);
    TakingKeys(w, w', s, p);
    hide Tidy, CompleteSet, FramesKnown, KeysDone, CacheLasts, Honest, Linear, InsertPayload;
    if g.relied {
      TakingRemembers(x, w, w', g, s, p);
    }
  }

  /** Accepting a complete packet that was not done makes it done, and nothing else. */
  lemma AcceptCore(x: Stream, w: Window, g: Goal, s: nat, now: nat)
    requires ValidStream(x) && Good(w) && Core(x, w, g) && InStream(x, s) && s in CompleteSet(x, g.known)
    requires !Done(w, s) && Acceptable(w, s)
    ensures var w' := Accept(w, s, Whole(x, s), now);
      && Core(x, w', g) && w'.fragments == w.fragments && w'.fec.frames == w.fec.frames
      && forall t :: Done(w', t) <==> Done(w, t) || t == s
  {
    var p := Whole(x, s);
    HeldOrForwardedIsHonest(x, w, s, now);
    GoodIsTidy(w);
    if s == w.nextSeq {
      var w1 := ForwardHead(Note(w, s, p), p);
      AcceptHeadKeepsGood(w, p);
      ForwardTakes(x, w, s, p);
      hide Good, Tidy, Core, Honest, CompleteSet, Linear, ForwardHead, Note, Whole;
      CoreIsLinear(x, w, g);
      TakingGrows(w, w1, s, p);
      TakingCore(x, w, w1, g, s, p);
      DrainCore(x, w1, g);
      hide Done;
    } else {
      HoldTakes(x, w, s, p, now);
      hide Good, Tidy, Core, Honest, CompleteSet, Linear, Whole;
      TakingGrows(w, Hold(w, s, p, now), s, p);
      TakingCore(x, w, Hold(w, s, p, now), g, s, p);
    }
  }

  lemma CoreIsLinear(x: Stream, w: Window, g: Goal)
    requires Core(x, w, g)
    ensures Linear(x, w) && g.head <= w.nextSeq && Honest(SourcesOf(x), w)
  {
  }

  lemma GoodIsTidy(w: Window)
    requires Good(w)
    ensures Tidy(w) && Ahead(w)
  {
  }

  lemma HeldOrForwardedIsHonest(x: Stream, w: Window, s: nat, now: nat)
    requires Honest(SourcesOf(x), w) && InStream(x, s)
    ensures Honest(SourcesOf(x), Hold(w, s, Whole(x, s), now))
    ensures s == w.nextSeq ==> Honest(SourcesOf(x), ForwardHead(Note(w, s, Whole(x, s)), Whole(x, s)))
  {
    var p := Whole(x, s);
    RememberingStaysHonest(SourcesOf(x), w.fec, s, p);
    if s == w.nextSeq {
      ForwardHeadStaysHonest(SourcesOf(x), Note(w, s, p), p);
    }
  }
}
