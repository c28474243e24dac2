/**
  Sender, channel and receiver together, in the other direction: not only is nothing
  forwarded that was not sent, but all that was sent is forwarded, in order, if parity
  makes up for what was lost. One packet may be lost of each parity group.
*/
module LossRecovery {
  import opened ByteStrings
  import opened Sequences
  import opened Wire
  import opened Window
  import opened Receiver
  import opened Integrity
  import opened FecEncoder
  import opened Sender
  import EndToEnd
  import opened StreamClosure
  import opened StreamWindow
  import opened StreamCourse
  import opened Reordering

  // ---------------------------------------------------------------- what was sent, as a stream

  /** Every number taken so far was sent under. */
  predicate InFull(log: seq<Sent>) {
    forall i :: 0 <= i < |log| ==> log[i].sequence == i
  }

  ghost predicate AllWellSent(log: seq<Sent>) {
    forall i :: 0 <= i < |log| ==> WellSent(log[i])
  }

  lemma {:induction false} RisingIsAtLeast(log: seq<Sent>, i: nat)
    requires i < |log| && forall a, b :: 0 <= a < b < |log| ==> log[a].sequence < log[b].sequence
    ensures log[i].sequence >= i
  {
    if i > 0 {
      RisingIsAtLeast(log, i - 1);
    }
  }

  lemma {:induction false} RisingIsAtMost(log: seq<Sent>, i: nat)
    requires i < |log| && forall a, b :: 0 <= a < b < |log| ==> log[a].sequence < log[b].sequence
    requires forall a :: 0 <= a < |log| ==> log[a].sequence < |log|
    ensures log[i].sequence <= i
    decreases |log| - i
  {
    if i + 1 < |log| {
      RisingIsAtMost(log, i + 1);
    }
  }

  /** If nothing ingested failed to go out, the numbers are 0, 1, 2 and so on. */
  lemma EverythingWentOut(ingests: seq<Ingest>, settings: Settings)
    requires ValidSettings(settings)
    requires var o := SendAll(ingests, settings); o.used == |o.log| <= MAX_MEDIA_SEQUENCE
    ensures InFull(SendAll(ingests, settings).log) && AllWellSent(SendAll(ingests, settings).log)
  {
    SendAllIsNumbered(ingests, settings);
    hide SendAll, WellSent;
    var log := SendAll(ingests, settings).log;
    forall i | 0 <= i < |log|
      ensures log[i].sequence == i
    {
      RisingIsAtLeast(log, i);
      RisingIsAtMost(log, i);
    }
  }

  function StreamOf(log: seq<Sent>): Stream {
    Stream(0, seq(|log|, (i: nat) requires i < |log| => log[i].pieces))
  }

  lemma LogIsAStream(log: seq<Sent>)
    requires AllWellSent(log) && |log| <= MAX_MEDIA_SEQUENCE
    ensures ValidStream(StreamOf(log)) && End(StreamOf(log)) == |log|
    ensures forall k :: 0 <= k < |log| ==>
      PiecesOf(StreamOf(log), k) == log[k].pieces && Whole(StreamOf(log), k) == log[k].payload
  {
    forall k | 0 <= k < |log|
      ensures PiecesOf(StreamOf(log), k) == log[k].pieces && Whole(StreamOf(log), k) == log[k].payload
    {
      assert WellSent(log[k]);
    }
  }

  // ---------------------------------------------------------------- parity groups, as spans

  /** The group is that stretch of what was sent. */
  ghost predicate GroupOfLog(log: seq<Sent>, group: seq<SourcePacket>) {
    && Sendable(group) && |group| >= 2 && group[0].sequence + |group| <= |log|
    && forall i :: 0 <= i < |group| ==>
      group[i] == SourcePacket(group[0].sequence + i, log[group[0].sequence + i].payload)
  }

  ghost predicate StartApart(groups: seq<seq<SourcePacket>>) {
    forall g, h :: 0 <= g < h < |groups| ==>
      groups[g] != [] && groups[h] != [] && groups[g][0].sequence < groups[h][0].sequence
  }

  lemma RunIsOfLog(run: Stretch, log: seq<Sent>, sizes: seq<nat>, mode: GroupMode, mtu: Option<nat>)
    requires |sizes| == |log| && InFull(log) && Spans(run, EndToEnd.CallsOf(log, sizes), mode, mtu)
    requires Sendable(run.packets) && |run.packets| >= 2
    ensures GroupOfLog(log, run.packets) && run.packets[0].sequence == run.end - |run.packets|
  {
    hide Sendable;
    var calls, first := EndToEnd.CallsOf(log, sizes), run.end - |run.packets|;
    forall i | 0 <= i < |run.packets|
      ensures run.packets[i] == SourcePacket(first + i, log[first + i].payload)
    {
      assert run.packets[i] == Sources(calls)[first + i] == calls[first + i].source;
    }
  }

  lemma GroupsAreOfLog(log: seq<Sent>, sizes: seq<nat>, mode: GroupMode, mtu: Option<nat>)
    requires InFull(log) && AllWellSent(log) && |sizes| == |log| && EndToEnd.ValidSizes(sizes) && ValidMode(mode)
    ensures var groups := EndToEnd.ParityGroups(log, sizes, mode, mtu);
      StartApart(groups) && forall g :: 0 <= g < |groups| ==> GroupOfLog(log, groups[g])
  {
    assert EndToEnd.Rising(log);
    EndToEnd.CallsAreValid(log, sizes);
    var calls, groups := EndToEnd.CallsOf(log, sizes), EndToEnd.ParityGroups(log, sizes, mode, mtu);
    var runs := GroupsLieInOrder(Encoder(mode, mtu, []), calls);
    hide EndToEnd.CallsOf, EndToEnd.ParityGroups, GroupOfLog, Sendable, Spans;
    forall g | 0 <= g < |groups|
      ensures GroupOfLog(log, groups[g]) && groups[g] == runs[g].packets && |groups[g]| >= 2
      ensures groups[g][0].sequence == runs[g].end - |runs[g].packets|
    {
      assert groups[g] == runs[g].packets;
      RunIsOfLog(runs[g], log, sizes, mode, mtu);
    }
  }

  lemma GroupIsASpan(log: seq<Sent>, group: seq<SourcePacket>)
    requires InFull(log) && AllWellSent(log) && |log| <= MAX_MEDIA_SEQUENCE && GroupOfLog(log, group)
    ensures ValidFrame(FrameFor(group)) && SpanOf(FrameFor(group)) == Span(group[0].sequence, |group|)
    ensures OfStream(StreamOf(log), ParityIn(FrameFor(group), 0))
    ensures ParseFrame(FecDatagram(FrameFor(group))) == Ok(Wire.ParityFrame(FrameFor(group)))
  {
    var x := StreamOf(log);
    LogIsAStream(log);
    hide AllWellSent, Sendable, Whole, PiecesOf, GenuineFrame, ValidFrame;
    forall i | 0 <= i < |group|
      ensures Genuine(SourcesOf(x), group[i].sequence, group[i].payload)
    {
    }
    EndToEnd.ParityIsGenuine(group, SourcesOf(x));
  }

  // ---------------------------------------------------------------- what a datagram is

  /** What an arrival brings, read off the datagram alone. */
  function InputOf(a: EndToEnd.Arrival): Input
    requires EndToEnd.Parses(a)
  {
    match a
    case Timeout(now) => TimerIn(now)
    case Datagram(connection, data, now) =>
      match ParseFrame(data).value
      case MediaFrame(packet) =>
        var h := packet.header;
        PartIn(if h.fragments == 1 then WholeCopy(h.sequence) else Piece(h.sequence, h.fragment), connection, now)
      case ParityFrame(frame) => ParityIn(frame, now)
  }

  lemma MediaIsAPart(log: seq<Sent>, k: nat, a: EndToEnd.Arrival)
    requires InFull(log) && AllWellSent(log) && |log| <= MAX_MEDIA_SEQUENCE
    requires k < |log| && a.Datagram? && a.data in log[k].datagrams
    ensures EndToEnd.Parses(a) && InputOf(a).PartIn? && IsPart(StreamOf(log), InputOf(a).part)
    ensures EventFor(StreamOf(log), InputOf(a)) == EndToEnd.EventOf(a)
  {
    var pieces := log[k].pieces;
    LogIsAStream(log);
    assert WellSent(log[k]);
    hide AllWellSent, ValidStream, Whole, PiecesOf;
    if a.data in FragmentPackets(k, pieces) {
      var i :| 0 <= i < |pieces| && a.data == FragmentPackets(k, pieces)[i];
      MediaDatagramParses(PacketHeader(k, i, |pieces|), pieces[i]);
      if |pieces| == 1 {
        assert pieces == [pieces[0]];
        ConcatOne(pieces[0]);
      }
    } else {
      MediaDatagramParses(PacketHeader(k, 0, 1), log[k].payload);
    }
  }

  ghost predicate FromGroups(groups: seq<seq<SourcePacket>>, span: Span) {
    exists g :: 0 <= g < |groups| && groups[g] != [] && span == Span(groups[g][0].sequence, |groups[g]|)
  }

  /** Of the stream, its parity from one of these groups. */
  ghost predicate FromWire(x: Stream, groups: seq<seq<SourcePacket>>, a: Input) {
    OfStream(x, a) && (a.ParityIn? ==> FromGroups(groups, SpanOf(a.frame)))
  }

  lemma ParityIsOfAGroup(log: seq<Sent>, groups: seq<seq<SourcePacket>>, g: nat, a: EndToEnd.Arrival)
    requires InFull(log) && AllWellSent(log) && |log| <= MAX_MEDIA_SEQUENCE && g < |groups|
      && GroupOfLog(log, groups[g])
    requires a.Datagram? && ValidFrame(FrameFor(groups[g])) && a.data == FecDatagram(FrameFor(groups[g]))
    ensures EndToEnd.Parses(a) && FromWire(StreamOf(log), groups, InputOf(a))
    ensures EventFor(StreamOf(log), InputOf(a)) == EndToEnd.EventOf(a)
  {
    GroupIsASpan(log, groups[g]);
    hide AllWellSent, GenuineFrame, FrameFor, GroupOfLog, ValidFrame;
    assert InputOf(a) == ParityIn(FrameFor(groups[g]), a.now);
  }

  /** Whatever the sender puts on the wire, first or again, is of its stream. */
  lemma WireIsOfStream(log: seq<Sent>, sizes: seq<nat>, mode: GroupMode, mtu: Option<nat>, a: EndToEnd.Arrival)
    requires InFull(log) && AllWellSent(log) && |log| <= MAX_MEDIA_SEQUENCE
    requires |sizes| == |log| && EndToEnd.ValidSizes(sizes) && ValidMode(mode)
    requires a.Datagram? ==>
      EndToEnd.OnWire(log, EndToEnd.ParityGroups(log, sizes, mode, mtu), a.data) || EndToEnd.Resent(log, a.data)
    ensures EndToEnd.Parses(a) && FromWire(StreamOf(log), EndToEnd.ParityGroups(log, sizes, mode, mtu), InputOf(a))
    ensures EventFor(StreamOf(log), InputOf(a)) == EndToEnd.EventOf(a)
  {
    if a.Datagram? {
      var groups := EndToEnd.ParityGroups(log, sizes, mode, mtu);
      GroupsAreOfLog(log, sizes, mode, mtu);
      hide EndToEnd.Resent, EndToEnd.ParityGroups, GroupOfLog, WellSent;
      if EndToEnd.Resent(log, a.data) {
        EndToEnd.ResentWasSent(log, a.data);
      }
      if k :| 0 <= k < |log| && a.data in log[k].datagrams {
        MediaIsAPart(log, k, a);
      } else {
        var g :| 0 <= g < |groups| && Sendable(groups[g]) && ValidFrame(FrameFor(groups[g]))
          && a.data == FecDatagram(FrameFor(groups[g]));
        ParityIsOfAGroup(log, groups, g, a);
      }
    }
  }

  // ---------------------------------------------------------------- what a run of datagrams tells

  ghost predicate AllFromWire(x: Stream, groups: seq<seq<SourcePacket>>, inputs: seq<Input>) {
    forall i :: 0 <= i < |inputs| ==> FromWire(x, groups, inputs[i])
  }

  /** Parts of the stream, and spans of the groups. */
  lemma {:induction false} KnownFromWire(x: Stream, groups: seq<seq<SourcePacket>>, inputs: seq<Input>)
    requires AllFromWire(x, groups, inputs)
    ensures forall part :: part in KnownBy(inputs).parts ==> IsPart(x, part)
    ensures forall span :: span in KnownBy(inputs).spans ==> IsSpan(x, span) && FromGroups(groups, span)
  {
    hide FromGroups, GenuineFrame;
    if inputs != [] {
      KnownFromWire(x, groups, inputs[..|inputs| - 1]);
    }
  }

  /** The groups start apart, so no two spans start together. */
  lemma WireIsValid(x: Stream, groups: seq<seq<SourcePacket>>, inputs: seq<Input>)
    requires AllFromWire(x, groups, inputs) && StartApart(groups)
    ensures ValidKnown(x, KnownBy(inputs))
  {
    KnownFromWire(x, groups, inputs);
    hide KnownBy;
    var spans := KnownBy(inputs).spans;
    forall a, b | a in spans && b in spans && a.first == b.first
      ensures a == b
    {
      var g :| 0 <= g < |groups| && groups[g] != [] && a == Span(groups[g][0].sequence, |groups[g]|);
      var h :| 0 <= h < |groups| && groups[h] != [] && b == Span(groups[h][0].sequence, |groups[h]|);
      assert g < h || h < g || g == h;
    }
  }

  ghost predicate AllInGoodTime(x: Stream, inputs: seq<Input>, config: Config, relied: bool) {
    forall n :: 0 <= n < |inputs| ==> InGoodTime(x, inputs[..n], inputs[n], config, relied)
  }

  lemma WireIsOnCourse(x: Stream, groups: seq<seq<SourcePacket>>, inputs: seq<Input>, config: Config, relied: bool)
    requires AllFromWire(x, groups, inputs) && StartApart(groups) && AllInGoodTime(x, inputs, config, relied)
    ensures AllOnCourse(x, inputs, config, relied)
  {
    hide InGoodTime, FromWire, StartApart, KnownBy, ValidKnown;
    forall n | 0 <= n < |inputs|
      ensures OnCourse(x, inputs[..n], inputs[n], config, relied)
    {
      assert inputs[..n] + [inputs[n]] == inputs[..n + 1];
      WireIsValid(x, groups, inputs[..n + 1]);
      WireIsOf(x, groups, inputs[n]);
    }
  }

  lemma WireIsOf(x: Stream, groups: seq<seq<SourcePacket>>, a: Input)
    requires FromWire(x, groups, a)
    ensures OfStream(x, a)
  {
  }

  // ---------------------------------------------------------------- everything comes out

  function InputsOf(arrivals: seq<EndToEnd.Arrival>): (inputs: seq<Input>)
    requires forall i :: 0 <= i < |arrivals| ==> EndToEnd.Parses(arrivals[i])
    ensures |inputs| == |arrivals|
  {
    seq(|arrivals|, (i: nat) requires i < |arrivals| => InputOf(arrivals[i]))
  }

  /** Everything that was sent, once each and in order. */
  function AllDelivered(log: seq<Sent>): seq<Delivery> {
    seq(|log|, (i: nat) requires i < |log| => Forwarded(log[i].sequence, log[i].payload))
  }

  /** Every datagram was put on the wire by the sender, for the first time or as a repair. */
  ghost predicate AllOnWire(log: seq<Sent>, groups: seq<seq<SourcePacket>>, arrivals: seq<EndToEnd.Arrival>) {
    forall i :: 0 <= i < |arrivals| && arrivals[i].Datagram? ==>
      EndToEnd.OnWire(log, groups, arrivals[i].data) || EndToEnd.Resent(log, arrivals[i].data)
  }

  ghost predicate AllParse(arrivals: seq<EndToEnd.Arrival>) {
    forall i :: 0 <= i < |arrivals| ==> EndToEnd.Parses(arrivals[i])
  }

  lemma DatagramsAreInputs(log: seq<Sent>, sizes: seq<nat>, mode: GroupMode, mtu: Option<nat>,
                           arrivals: seq<EndToEnd.Arrival>)
    requires InFull(log) && AllWellSent(log) && |log| <= MAX_MEDIA_SEQUENCE
    requires |sizes| == |log| && EndToEnd.ValidSizes(sizes) && ValidMode(mode)
    requires AllOnWire(log, EndToEnd.ParityGroups(log, sizes, mode, mtu), arrivals)
    ensures AllParse(arrivals)
    ensures AllFromWire(StreamOf(log), EndToEnd.ParityGroups(log, sizes, mode, mtu), InputsOf(arrivals))
    ensures AllOfStream(StreamOf(log), InputsOf(arrivals))
    ensures EventsFor(StreamOf(log), InputsOf(arrivals)) == EndToEnd.EventsOf(arrivals)
  {
    hide EndToEnd.ParityGroups, EndToEnd.OnWire, EndToEnd.Resent, EndToEnd.Parses, InputOf, EventFor, EndToEnd.EventOf;
    hide InFull, AllWellSent, StreamOf, GenuineFrame, ValidFrame, IsSpan;
    forall i | 0 <= i < |arrivals|
      ensures EndToEnd.Parses(arrivals[i])
      ensures FromWire(StreamOf(log), EndToEnd.ParityGroups(log, sizes, mode, mtu), InputOf(arrivals[i]))
      ensures EventFor(StreamOf(log), InputOf(arrivals[i])) == EndToEnd.EventOf(arrivals[i])
    {
      WireIsOfStream(log, sizes, mode, mtu, arrivals[i]);
    }
  }

  /**
    What is complete comes out: whatever the sender's datagrams, parity and repairs among
    them, that reach a fresh receiver in good time, it has forwarded exactly what was sent
    before the first packet that they do not complete, in order.
  */
  lemma WhatIsCompleteComesOut(log: seq<Sent>, sizes: seq<nat>, mode: GroupMode, mtu: Option<nat>, s: Server,
                               arrivals: seq<EndToEnd.Arrival>, config: Config, relied: bool)
    requires InFull(log) && AllWellSent(log) && |log| <= MAX_MEDIA_SEQUENCE
    requires |sizes| == |log| && EndToEnd.ValidSizes(sizes) && ValidMode(mode) && Unopened(s) && AllParse(arrivals)
    requires AllOnWire(log, EndToEnd.ParityGroups(log, sizes, mode, mtu), arrivals)
    requires AllInGoodTime(StreamOf(log), InputsOf(arrivals), config, relied)
    ensures Sound(s) && ValidEvents(EndToEnd.EventsOf(arrivals)) && HeadBy(StreamOf(log), InputsOf(arrivals)) <= |log|
    ensures ValidKnown(StreamOf(log), KnownBy(InputsOf(arrivals)))
    ensures var s' := Run(s, EndToEnd.EventsOf(arrivals), config);
      s'.flows == s.flows && s'.window.log == AllDelivered(log)[..HeadBy(StreamOf(log), InputsOf(arrivals))]
  {
    hide EndToEnd.ParityGroups, AllOnWire, AllInGoodTime, InFull, AllWellSent, StreamOf, InputsOf, EventsFor;
    hide EndToEnd.EventsOf;
    hide StartApart, GroupOfLog, AllFromWire, AllOnCourse, Run, Sound, KnownBy, HeadBy, DeliveriesUpTo, AllDelivered;
    hide AllOfStream, ValidKnown, EndToEnd.Parses;
    var x, inputs, groups := StreamOf(log), InputsOf(arrivals), EndToEnd.ParityGroups(log, sizes, mode, mtu);
    LogIsAStream(log);
    DatagramsAreInputs(log, sizes, mode, mtu, arrivals);
    GroupsAreOfLog(log, sizes, mode, mtu);
    WireIsOnCourse(x, groups, inputs, config, relied);
    WireIsValid(x, groups, inputs);
    ReorderingIsUndone(x, s, inputs, config, relied);
    HeadInRange(x, inputs);
    DeliveredIsAPrefix(log, HeadBy(x, inputs));
  }

  lemma DeliveredIsAPrefix(log: seq<Sent>, h: nat)
    requires InFull(log) && AllWellSent(log) && |log| <= MAX_MEDIA_SEQUENCE && h <= |log|
    ensures StreamOf(log).start <= h <= End(StreamOf(log))
    ensures DeliveriesUpTo(StreamOf(log), h) == AllDelivered(log)[..h]
  {
    LogIsAStream(log);
    hide AllWellSent, Whole;
  }

  /**
    Parity makes up for loss: let everything ingested go out; let every packet arrive whole
    or in all its pieces, except at most one of a parity group whose frame then arrives; let
    all that happen in any order, with any repetition, over any paths, in good time. Then
    the receiver has forwarded everything that was sent, byte for byte and in order.
  */
  lemma OneLossPerGroupIsHarmless(ingests: seq<Ingest>, settings: Settings, mode: GroupMode, sizes: seq<nat>, s: Server,
                                  arrivals: seq<EndToEnd.Arrival>, config: Config)
    requires ValidSettings(settings) && ValidMode(mode) && Unopened(s) && AllParse(arrivals)
    requires var o := SendAll(ingests, settings);
      && o.used == |o.log| == |sizes| <= MAX_MEDIA_SEQUENCE && EndToEnd.ValidSizes(sizes)
      && AllOnWire(o.log, EndToEnd.ParityGroups(o.log, sizes, mode, settings.mtu), arrivals)
      && AllInGoodTime(StreamOf(o.log), InputsOf(arrivals), config, true)
      && OneLossEach(StreamOf(o.log), KnownBy(InputsOf(arrivals)))
    ensures ValidEvents(EndToEnd.EventsOf(arrivals))
    ensures var s' := Run(s, EndToEnd.EventsOf(arrivals), config);
      s'.flows == s.flows && s'.window.log == AllDelivered(SendAll(ingests, settings).log)
  {
    hide SendAll, EndToEnd.ParityGroups, AllOnWire, AllInGoodTime, InFull, AllWellSent, StreamOf, InputsOf;
    hide EndToEnd.EventsOf;
    hide Run, Sound, KnownBy, OneLossEach, ValidKnown, EndToEnd.Parses;
    var log := SendAll(ingests, settings).log;
    EverythingWentOut(ingests, settings);
    LogIsAStream(log);
    WhatIsCompleteComesOut(log, sizes, mode, settings.mtu, s, arrivals, config, true);
    OneLossIsRepaired(StreamOf(log), KnownBy(InputsOf(arrivals)));
    assert AllDelivered(log)[..|log|] == AllDelivered(log);
  }
}
