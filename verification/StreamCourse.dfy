/**
  What arrives while a receiver is fed one stretch of the stream, what can be known of
  the stretch at each point, and what is asked of each arrival for it to come in time.
*/
module StreamCourse {
  import opened Wire
  import opened FecRecovery
  import opened Receiver
  import opened Integrity
  import opened StreamClosure
  import opened StreamWindow

  /** What happens at the receiver: a piece of the stream, a parity frame over it, or a timeout. */
  datatype Input =
    | PartIn(part: Part, connection: nat, now: nat)
    | ParityIn(frame: FecFrame, now: nat)
    | TimerIn(now: nat)

  /** Of the stream: a piece of it, or parity over at least two of its packets. */
  ghost predicate OfStream(x: Stream, a: Input) {
    match a
    case PartIn(part, _, _) => IsPart(x, part)
    case ParityIn(frame, _) => ValidFrame(frame) && IsSpan(x, SpanOf(frame)) && GenuineFrame(SourcesOf(x), frame)
    case TimerIn(_) => true
  }

  function Learn(known: Known, a: Input): Known {
    match a
    case PartIn(part, _, _) => known.(parts := known.parts + {part})
    case ParityIn(frame, _) => known.(spans := known.spans + {SpanOf(frame)})
    case TimerIn(_) => known
  }

  function KnownBy(arrivals: seq<Input>): Known {
    if arrivals == [] then Known({}, {}) else Learn(KnownBy(arrivals[..|arrivals| - 1]), arrivals[|arrivals| - 1])
  }

  ghost function CompleteBy(x: Stream, arrivals: seq<Input>): set<nat> {
    CompleteSet(x, KnownBy(arrivals))
  }

  ghost function HeadBy(x: Stream, arrivals: seq<Input>): nat {
    PrefixEnd(x, KnownBy(arrivals))
  }

  predicate NoPart(arrivals: seq<Input>) {
    forall m :: 0 <= m < |arrivals| ==> !arrivals[m].PartIn?
  }

  /** The connection of the first piece. */
  function Home(arrivals: seq<Input>): nat {
    if arrivals == [] then 0 else
    var front, last := arrivals[..|arrivals| - 1], arrivals[|arrivals| - 1];
    if NoPart(front) then (if last.PartIn? then last.connection else 0) else Home(front)
  }

  // ---------------------------------------------------------------- what is asked of each arrival

  /** The clock does not run backwards. */
  predicate ClockGoesOn(before: seq<Input>, a: Input) {
    forall m :: 0 <= m < |before| ==> before[m].now <= a.now
  }

  /** No piece at or past the head, as it is with this arrival, is a reorder delay old. */
  ghost predicate InTime(x: Stream, after: seq<Input>, now: nat, delay: nat) {
    forall m :: 0 <= m < |after| && after[m].PartIn? && after[m].part.sequence >= HeadBy(x, after) ==>
      now < after[m].now + delay
  }

  /** A piece comes over the connection of the first one, or is less than the restart gap behind the head. */
  ghost predicate NoRestart(x: Stream, before: seq<Input>, a: Input) {
    a.PartIn? ==> a.connection == Home(before) || HeadBy(x, before) < a.part.sequence + RESTART_BACKWARD_GAP
  }

  predicate OpensAtStart(x: Stream, before: seq<Input>, a: Input) {
    a.PartIn? && NoPart(before) ==> a.part.sequence == x.start
  }

  /** A timeout comes only before the first piece, or while something waits. */
  ghost predicate TimerIsPending(x: Stream, before: seq<Input>, a: Input) {
    a.TimerIn? && !NoPart(before) ==>
      exists m :: 0 <= m < |before| && before[m].PartIn? && before[m].part.sequence >= HeadBy(x, before)
  }

  /** The spans that have arrived with some packet not complete yet, by their first packets. */
  ghost function OpenFirsts(x: Stream, known: Known): set<nat> {
    set span | span in known.spans && (exists s :: InSpan(span, s) && s !in CompleteSet(x, known)) :: span.first
  }

  /** At most 256 parity frames are of use at a time. */
  ghost predicate FramesFit(x: Stream, before: seq<Input>, a: Input) {
    a.ParityIn? ==> |OpenFirsts(x, KnownBy(before)) + {a.frame.baseSequence}| <= FEC_FRAME_TRACK_LIMIT
  }

  /** At or past the head, or under a parity frame that has just come or is still of use. */
  ghost predicate InUse(x: Stream, before: seq<Input>, a: Input, s: nat) {
    || s >= HeadBy(x, before)
    || (a.ParityIn? && InSpan(SpanOf(a.frame), s))
    || exists span :: span in KnownBy(before).spans && InSpan(span, s) && IsOpen(x, before, span)
  }

  ghost predicate IsOpen(x: Stream, arrivals: seq<Input>, span: Span) {
    exists t :: InSpan(span, t) && t !in CompleteBy(x, arrivals)
  }

  /** No packet in use was completed more than 4096 completions ago. */
  ghost predicate Retained(x: Stream, before: seq<Input>, a: Input) {
    var complete := CompleteBy(x, before + [a]);
    forall s :: s in complete && InUse(x, before, a, s) ==>
      exists j :: 0 <= j <= |before| && s !in CompleteBy(x, before[..j]) &&
        |complete| <= |CompleteBy(x, before[..j])| + FEC_PAYLOAD_TRACK_LIMIT
  }

  /** All that is asked of when an arrival comes; what concerns parity only if parity is used at all. */
  ghost predicate InGoodTime(x: Stream, before: seq<Input>, a: Input, config: Config, relied: bool) {
    && ClockGoesOn(before, a) && InTime(x, before + [a], a.now, config.maxReorderDelay)
    && NoRestart(x, before, a) && OpensAtStart(x, before, a) && TimerIsPending(x, before, a)
    && FramesFit(x, before, a) && (if relied then Retained(x, before, a) else !a.ParityIn?)
  }

  /** Of the stream, and in good time. */
  ghost predicate OnCourse(x: Stream, before: seq<Input>, a: Input, config: Config, relied: bool) {
    OfStream(x, a) && ValidKnown(x, KnownBy(before + [a])) && InGoodTime(x, before, a, config, relied)
  }
}
