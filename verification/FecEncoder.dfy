/**
  The sender's parity encoder: collects consecutive packets into groups and emits,
  for each full or interrupted group, one frame with the exclusive-or of its payloads.
*/
module FecEncoder {
  import opened ByteStrings
  import opened Sequences
  import opened Wire
  import opened FecRecovery

  const ADAPTIVE_GROUP_SIZES := {3, 4, 6}

  datatype GroupMode = Disabled | Adaptive | Fixed(size: nat)

  datatype SourcePacket = SourcePacket(sequence: nat, payload: Bytes)

  /** One recorded packet, with the group size the path health then suggested. */
  datatype Call = Call(source: SourcePacket, adaptive: nat)

  datatype Encoder = Encoder(mode: GroupMode, mtu: Option<nat>, packets: seq<SourcePacket>)

  function ModeFor(disabled: bool, groupSize: nat): Option<GroupMode> {
    if disabled then Some(Disabled)
    else if groupSize == 0 then Some(Adaptive)
    else if groupSize == 1 || groupSize > MAX_FEC_GROUP_PACKETS then None
    else Some(Fixed(groupSize))
  }

  function Minus(a: nat, b: nat): nat {
    if a >= b then a - b else 0
  }

  function PayloadFits(length: nat, groupSize: nat, mtu: Option<nat>): bool {
    match mtu
    case None => true
    case Some(limit) => length <= Minus(limit, FEC_FIXED_LEN + groupSize * 2)
  }

  function Target(mode: GroupMode, adaptive: nat): Option<nat> {
    match mode
    case Disabled => None
    case Adaptive => Some(adaptive)
    case Fixed(size) => Some(size)
  }

  function Payloads(group: seq<SourcePacket>): (payloads: seq<Bytes>)
    ensures |payloads| == |group|
  {
    seq(|group|, (i: nat) requires i < |group| => group[i].payload)
  }

  function Lengths(group: seq<SourcePacket>): (lengths: seq<nat>)
    ensures |lengths| == |group|
  {
    seq(|group|, (i: nat) requires i < |group| => |group[i].payload|)
  }

  function FrameFor(group: seq<SourcePacket>): FecFrame
    requires group != []
  {
    FecFrame(group[0].sequence, Lengths(group), Parity(Payloads(group), LongestLength(Payloads(group))))
  }

  /** The group that a flush turns into a frame; nothing if all its payloads are empty. */
  function Flushed(packets: seq<SourcePacket>): seq<seq<SourcePacket>> {
    if packets == [] || LongestLength(Payloads(packets)) == 0 then [] else [packets]
  }

  function FlushedOrCleared(packets: seq<SourcePacket>): seq<seq<SourcePacket>> {
    if |packets| >= 2 then Flushed(packets) else []
  }

  predicate Interrupts(packets: seq<SourcePacket>, sequence: nat) {
    packets != [] && NextSequence(packets[|packets| - 1].sequence) != sequence
  }

  predicate TooLarge(mtu: Option<nat>, payload: Bytes, groupSize: nat) {
    |payload| > U16_MAX || !PayloadFits(|payload|, groupSize, mtu)
  }

  /** The encoder after one packet, and the groups flushed on the way. */
  function Record(e: Encoder, call: Call): (Encoder, seq<seq<SourcePacket>>) {
    match Target(e.mode, call.adaptive)
    case None => (e, [])
    case Some(groupSize) =>
      if TooLarge(e.mtu, call.source.payload, groupSize) then (e.(packets := []), FlushedOrCleared(e.packets)) else
      var interrupted := Interrupts(e.packets, call.source.sequence);
      var early := if interrupted then FlushedOrCleared(e.packets) else [];
      var packets := (if interrupted then [] else e.packets) + [call.source];
      if |packets| >= groupSize then (e.(packets := []), early + Flushed(packets)) else (e.(packets := packets), early)
  }

  function RecordAll(e: Encoder, calls: seq<Call>): (Encoder, seq<seq<SourcePacket>>) {
    if calls == [] then (e, []) else
    var n := |calls| - 1;
    var (e', groups) := RecordAll(e, calls[..n]);
    var (e'', more) := Record(e', calls[n]);
    (e'', groups + more)
  }

  // ---------------------------------------------------------------- the encoder, updated in place

  method XorPayload(parity: array<bv8>, payload: Bytes)
    requires |payload| <= parity.Length
    modifies parity
    ensures parity[..] == XorInto(old(parity[..]), payload)
  {
    ghost var before := parity[..];
    for i := 0 to |payload|
      invariant forall k :: 0 <= k < parity.Length ==> parity[k] == if k < i then before[k] ^ payload[k] else before[k]
    {
      parity[i] := parity[i] ^ payload[i];
    }
    NoOpXor(before, payload);
  }

  lemma NoOpXor(parity: Bytes, payload: Bytes)
    ensures forall k :: |payload| <= k < |parity| ==> XorInto(parity, payload)[k] == parity[k]
  {
    forall k | |payload| <= k < |parity|
      ensures XorInto(parity, payload)[k] == parity[k]
    {
      XorMove(parity[k], 0, 0);
    }
  }

  lemma ParityGrows(group: seq<Bytes>, payload: Bytes, length: nat)
    ensures Parity(group + [payload], length) == XorInto(Parity(group, length), payload)
  {
    assert (group + [payload])[..|group|] == group;
  }

  lemma PayloadsGrow(group: seq<SourcePacket>, i: nat)
    requires i < |group|
    ensures Payloads(group[..i + 1]) == Payloads(group[..i]) + [group[i].payload]
    ensures Lengths(group[..i + 1]) == Lengths(group[..i]) + [|group[i].payload|]
  {
  }

  method BuildFrame(group: seq<SourcePacket>) returns (frame: FecFrame)
    requires group != []
    ensures frame == FrameFor(group)
  {
    var length := LongestLength(Payloads(group));
    LongestLengthIsMaximum(Payloads(group));
    var parity := new bv8[length](_ => 0);
    var lengths := [];
    assert parity[..] == Parity([], length);
    for i := 0 to |group|
      invariant lengths == Lengths(group[..i])
      invariant parity[..] == Parity(Payloads(group[..i]), length)
    {
      lengths := lengths + [|group[i].payload|];
      PayloadsGrow(group, i);
      ParityGrows(Payloads(group[..i]), group[i].payload, length);
      assert |group[i].payload| == |Payloads(group)[i]|;
      XorPayload(parity, group[i].payload);
    }
    assert group[..|group|] == group;
    frame := FecFrame(group[0].sequence, lengths, parity[..]);
  }

  /** The datagrams of the flushed groups. */
  function Datagrams(groups: seq<seq<SourcePacket>>): seq<Bytes>
    requires forall i :: 0 <= i < |groups| ==> groups[i] != [] && ValidFrame(FrameFor(groups[i]))
  {
    seq(|groups|, (i: nat) requires i < |groups| => FecDatagram(FrameFor(groups[i])))
  }

  class FecEncoder {
    const mode: GroupMode
    const mtu: Option<nat>
    var packets: seq<SourcePacket>

    ghost function View(): Encoder
      reads this
    {
      Encoder(mode, mtu, packets)
    }

    constructor (mode: GroupMode, mtu: Option<nat>)
      ensures View() == Encoder(mode, mtu, [])
    {
      this.mode, this.mtu, packets := mode, mtu, [];
    }

    method Flush() returns (sent: seq<Bytes>)
      requires packets != [] ==> Sendable(packets)
      modifies this
      ensures packets == [] && AllSendable(Flushed(old(packets))) && sent == Datagrams(Flushed(old(packets)))
    {
      sent := [];
      if packets == [] {
        return;
      }
      if LongestLength(Payloads(packets)) != 0 {
        SendableFrameIsValid(packets);
        var frame := BuildFrame(packets);
        var datagram := EncodeFecFrame(frame);
        sent := [datagram];
      }
      packets := [];
    }

    method FlushOrClear() returns (sent: seq<Bytes>)
      requires packets != [] ==> Sendable(packets)
      modifies this
      ensures packets == [] && AllSendable(FlushedOrCleared(old(packets)))
        && sent == Datagrams(FlushedOrCleared(old(packets)))
    {
      if |packets| >= 2 {
        sent := Flush();
      } else {
        packets := [];
        sent := [];
      }
    }

    method RecordPacket(call: Call) returns (sent: seq<Bytes>)
      requires GroupOk(View()) && ValidCall(call)
      modifies this
      ensures GroupOk(View()) && View() == Record(old(View()), call).0
      ensures var groups := Record(old(View()), call).1; AllSendable(groups) && sent == Datagrams(groups)
    {
      RecordKeepsGroupOk(View(), call);
      sent := [];
      var target := Target(mode, call.adaptive);
      if target.None? {
        return;
      }
      if TooLarge(mtu, call.source.payload, target.value) {
        sent := FlushOrClear();
        return;
      }
      if Interrupts(packets, call.source.sequence) {
        sent := FlushOrClear();
      }
      packets := packets + [call.source];
      if |packets| >= target.value {
        var more := Flush();
        sent := sent + more;
      }
    }
  }

  // ---------------------------------------------------------------- groups

  /** Cyclically consecutive numbers. */
  ghost predicate Consecutive(group: seq<SourcePacket>) {
    forall i :: 0 <= i < |group| ==> group[i].sequence == SequenceAfter(group[0].sequence, i)
  }

  ghost predicate Sendable(group: seq<SourcePacket>) {
    && 1 <= |group| <= MAX_FEC_GROUP_PACKETS
    && group[0].sequence <= MAX_MEDIA_SEQUENCE
    && Consecutive(group)
    && forall i :: 0 <= i < |group| ==> |group[i].payload| <= U16_MAX
  }

  ghost predicate AllSendable(groups: seq<seq<SourcePacket>>) {
    && (forall i :: 0 <= i < |groups| ==> groups[i] != [] && ValidFrame(FrameFor(groups[i])))
    && forall i :: 0 <= i < |groups| ==> Sendable(groups[i])
  }

  predicate ValidCall(call: Call) {
    call.source.sequence <= MAX_MEDIA_SEQUENCE && call.adaptive in ADAPTIVE_GROUP_SIZES
  }

  predicate ValidMode(mode: GroupMode) {
    mode.Fixed? ==> 2 <= mode.size <= MAX_FEC_GROUP_PACKETS
  }

  /** The modes assumed below are exactly those a configuration can select. */
  lemma ValidModesAreTheConfigurable(mode: GroupMode)
    ensures ValidMode(mode) <==> exists disabled, groupSize :: ModeFor(disabled, groupSize) == Some(mode)
    ensures forall disabled, groupSize :: ModeFor(disabled, groupSize) == Some(mode) ==>
      && (mode == Disabled <==> disabled) && (mode == Adaptive <==> !disabled && groupSize == 0)
      && (mode.Fixed? ==> mode.size == groupSize)
  {
    match mode
    case Disabled => assert ModeFor(true, 0) == Some(mode);
    case Adaptive => assert ModeFor(false, 0) == Some(mode);
    case Fixed(size) =>
      if ValidMode(mode) {
        assert ModeFor(false, size) == Some(mode);
      }
  }

  /** A group is flushed before it reaches this many packets. */
  function Cap(mode: GroupMode): nat {
    match mode
    case Disabled => 1
    case Adaptive => 6
    case Fixed(size) => size
  }

  ghost predicate GroupOk(e: Encoder) {
    ValidMode(e.mode) && |e.packets| < Cap(e.mode) && (e.packets != [] ==> Sendable(e.packets))
  }

  lemma SendableFrameIsValid(group: seq<SourcePacket>)
    requires Sendable(group)
    ensures ValidFrame(FrameFor(group))
  {
    LongestLengthIsMaximum(Payloads(group));
    var frame := FrameFor(group);
    forall i | 0 <= i < |frame.payloadLengths|
      ensures frame.payloadLengths[i] <= U16_MAX && frame.payloadLengths[i] <= |frame.parity|
    {
      assert frame.payloadLengths[i] == |Payloads(group)[i]|;
    }
  }

  lemma ConsecutiveGrows(packets: seq<SourcePacket>, source: SourcePacket)
    requires packets != [] ==> Sendable(packets)
    requires !Interrupts(packets, source.sequence) && source.sequence <= MAX_MEDIA_SEQUENCE
    requires |source.payload| <= U16_MAX && |packets| < MAX_FEC_GROUP_PACKETS
    ensures Sendable(packets + [source])
  {
    if packets != [] {
      assert SequenceAfter(packets[0].sequence, |packets|) == NextSequence(packets[|packets| - 1].sequence);
    }
  }

  /** The pending group stays well formed and everything flushed can be encoded. */
  lemma RecordKeepsGroupOk(e: Encoder, call: Call)
    requires GroupOk(e) && ValidCall(call)
    ensures GroupOk(Record(e, call).0) && AllSendable(Record(e, call).1)
    ensures forall i :: 0 <= i < |Record(e, call).1| ==> |Record(e, call).1[i]| >= 2
  {
    if e.packets != [] {
      SendableFrameIsValid(e.packets);
    }
    var target := Target(e.mode, call.adaptive);
    if target.Some? && !TooLarge(e.mtu, call.source.payload, target.value) {
      var kept := if Interrupts(e.packets, call.source.sequence) then [] else e.packets;
      ConsecutiveGrows(kept, call.source);
      SendableFrameIsValid(kept + [call.source]);
    }
  }

  // ---------------------------------------------------------------- where groups lie in the call sequence

  /** A flushed group together with the calls it covers: `end - |packets|` up to `end`. */
  datatype Stretch = Stretch(packets: seq<SourcePacket>, end: nat)

  function Sources(calls: seq<Call>): (sources: seq<SourcePacket>)
    ensures |sources| == |calls|
  {
    seq(|calls|, (i: nat) requires i < |calls| => calls[i].source)
  }

  /** The run is that stretch of calls, each of which fitted the group size asked for then. */
  ghost predicate Spans(run: Stretch, calls: seq<Call>, mode: GroupMode, mtu: Option<nat>) {
    && |run.packets| <= run.end <= |calls|
    && run.packets == Sources(calls)[run.end - |run.packets|..run.end]
    && forall i :: run.end - |run.packets| <= i < run.end ==>
      var target := Target(mode, calls[i].adaptive);
      target.Some? && PayloadFits(|calls[i].source.payload|, target.value, mtu)
  }

  /** The runs lie in the calls one after another, all of them before `bound`. */
  ghost predicate Placed(runs: seq<Stretch>, bound: nat, calls: seq<Call>, mode: GroupMode, mtu: Option<nat>) {
    && (forall i :: 0 <= i < |runs| ==> Spans(runs[i], calls, mode, mtu) && runs[i].end <= bound)
    && (forall i, j :: 0 <= i < j < |runs| ==> runs[i].end <= runs[j].end - |runs[j].packets|)
  }

  /** The groups lie in the calls in order, and the pending packets after them all. */
  ghost predicate InOrder(runs: seq<Stretch>, pending: Stretch, calls: seq<Call>, mode: GroupMode, mtu: Option<nat>) {
    && pending.end == |calls| && Spans(pending, calls, mode, mtu)
    && Placed(runs, pending.end - |pending.packets|, calls, mode, mtu)
  }

  function Groups(runs: seq<Stretch>): seq<seq<SourcePacket>> {
    seq(|runs|, (i: nat) requires i < |runs| => runs[i].packets)
  }

  lemma SpansLater(run: Stretch, calls: seq<Call>, call: Call, mode: GroupMode, mtu: Option<nat>)
    requires Spans(run, calls, mode, mtu)
    ensures Spans(run, calls + [call], mode, mtu)
  {
    var later := calls + [call];
    assert Sources(later)[..|calls|] == Sources(calls);
    assert Sources(later)[run.end - |run.packets|..run.end] == Sources(calls)[run.end - |run.packets|..run.end];
    assert forall i :: 0 <= i < |calls| ==> later[i] == calls[i];
  }

  lemma SpansOneMore(run: Stretch, calls: seq<Call>, call: Call, mode: GroupMode, mtu: Option<nat>)
    requires Spans(run, calls, mode, mtu) && run.end == |calls|
    requires var target := Target(mode, call.adaptive);
      target.Some? && PayloadFits(|call.source.payload|, target.value, mtu)
    ensures Spans(Stretch(run.packets + [call.source], |calls| + 1), calls + [call], mode, mtu)
  {
    var later, first := calls + [call], run.end - |run.packets|;
    assert Sources(later) == Sources(calls) + [call.source];
    assert Sources(later)[first..|calls| + 1] == Sources(calls)[first..] + [call.source];
    assert forall i :: 0 <= i < |calls| ==> later[i] == calls[i];
  }

  /** What one call adds to the runs, and what is pending after it. */
  function NewRuns(e: Encoder, call: Call, n: nat): (seq<Stretch>, Stretch) {
    match Target(e.mode, call.adaptive)
    case None => ([], Stretch([], n + 1))
    case Some(groupSize) =>
      var early := FlushedOrCleared(e.packets);
      if TooLarge(e.mtu, call.source.payload, groupSize) then (AsRuns(early, n), Stretch([], n + 1)) else
      if Interrupts(e.packets, call.source.sequence) then (AsRuns(early, n), Stretch([call.source], n + 1)) else
      var packets := e.packets + [call.source];
      if |packets| >= groupSize then (AsRuns(Flushed(packets), n + 1), Stretch([], n + 1))
        else ([], Stretch(packets, n + 1))
  }

  function AsRuns(groups: seq<seq<SourcePacket>>, end: nat): seq<Stretch> {
    seq(|groups|, (i: nat) requires i < |groups| => Stretch(groups[i], end))
  }

  lemma NewRunsAreTheGroups(e: Encoder, call: Call, n: nat)
    requires GroupOk(e) && ValidCall(call)
    ensures Groups(NewRuns(e, call, n).0) == Record(e, call).1
    ensures NewRuns(e, call, n).1.packets == Record(e, call).0.packets && NewRuns(e, call, n).1.end == n + 1
  {
  }

  lemma PlacedLater(runs: seq<Stretch>, bound: nat, calls: seq<Call>, call: Call, mode: GroupMode, mtu: Option<nat>)
    requires Placed(runs, bound, calls, mode, mtu)
    ensures Placed(runs, bound, calls + [call], mode, mtu)
  {
    forall i | 0 <= i < |runs|
      ensures Spans(runs[i], calls + [call], mode, mtu)
    {
      SpansLater(runs[i], calls, call, mode, mtu);
    }
  }

  /** Whatever of a run was flushed can be placed after the runs before it. */
  lemma PlacedOneMore(runs: seq<Stretch>, run: Stretch, flushed: seq<seq<SourcePacket>>, calls: seq<Call>,
                      mode: GroupMode, mtu: Option<nat>)
    requires Spans(run, calls, mode, mtu) && Placed(runs, run.end - |run.packets|, calls, mode, mtu)
    requires flushed == [] || flushed == [run.packets]
    ensures Placed(runs + AsRuns(flushed, run.end), run.end, calls, mode, mtu)
  {
    if flushed != [] {
      assert AsRuns(flushed, run.end) == [run];
    }
  }

  lemma InOrderGrows(e: Encoder, runs: seq<Stretch>, calls: seq<Call>, call: Call)
    requires GroupOk(e) && ValidCall(call)
    requires InOrder(runs, Stretch(e.packets, |calls|), calls, e.mode, e.mtu)
    ensures var (more, pending) := NewRuns(e, call, |calls|);
      InOrder(runs + more, pending, calls + [call], e.mode, e.mtu)
  {
    var n, later := |calls|, calls + [call];
    PlacedLater(runs, n - |e.packets|, calls, call, e.mode, e.mtu);
    var target := Target(e.mode, call.adaptive);
    if target.None? {
      assert runs + [] == runs;
    } else if TooLarge(e.mtu, call.source.payload, target.value) {
      EarlyFlushPlaced(e, runs, calls, call);
    } else {
      PendingGrows(e, runs, calls, call);
      if Interrupts(e.packets, call.source.sequence) {
        EarlyFlushPlaced(e, runs, calls, call);
      } else {
        assert runs + [] == runs;
      }
    }
  }

  lemma EarlyFlushPlaced(e: Encoder, runs: seq<Stretch>, calls: seq<Call>, call: Call)
    requires InOrder(runs, Stretch(e.packets, |calls|), calls, e.mode, e.mtu)
    requires Placed(runs, |calls| - |e.packets|, calls + [call], e.mode, e.mtu)
    ensures Placed(runs + AsRuns(FlushedOrCleared(e.packets), |calls|), |calls|, calls + [call], e.mode, e.mtu)
  {
    SpansLater(Stretch(e.packets, |calls|), calls, call, e.mode, e.mtu);
    PlacedOneMore(runs, Stretch(e.packets, |calls|), FlushedOrCleared(e.packets), calls + [call], e.mode, e.mtu);
  }

  /** The pending packets and the new one, as the stretch they make. */
  function Longer(packets: seq<SourcePacket>, source: SourcePacket, n: nat): Stretch {
    Stretch(packets + [source], n + 1)
  }

  lemma PendingGrows(e: Encoder, runs: seq<Stretch>, calls: seq<Call>, call: Call)
    requires InOrder(runs, Stretch(e.packets, |calls|), calls, e.mode, e.mtu)
    requires Placed(runs, |calls| - |e.packets|, calls + [call], e.mode, e.mtu)
    requires var target := Target(e.mode, call.adaptive);
      target.Some? && PayloadFits(|call.source.payload|, target.value, e.mtu)
    ensures var n, later, run := |calls|, calls + [call], Longer(e.packets, call.source, |calls|);
      && Spans(Stretch([call.source], n + 1), later, e.mode, e.mtu)
      && Spans(run, later, e.mode, e.mtu)
      && Placed(runs + AsRuns(Flushed(run.packets), n + 1), n + 1, later, e.mode, e.mtu)
  {
    AlonePending(calls, call, e.mode, e.mtu);
    SpansOneMore(Stretch(e.packets, |calls|), calls, call, e.mode, e.mtu);
    var run := Longer(e.packets, call.source, |calls|);
    PlacedOneMore(runs, run, Flushed(run.packets), calls + [call], e.mode, e.mtu);
  }

  lemma AlonePending(calls: seq<Call>, call: Call, mode: GroupMode, mtu: Option<nat>)
    requires var target := Target(mode, call.adaptive);
      target.Some? && PayloadFits(|call.source.payload|, target.value, mtu)
    ensures Spans(Stretch([call.source], |calls| + 1), calls + [call], mode, mtu)
  {
    SpansOneMore(Stretch([], |calls|), calls, call, mode, mtu);
    assert [] + [call.source] == [call.source];
  }

  lemma RecordKeepsSettings(e: Encoder, call: Call)
    ensures Record(e, call).0.mode == e.mode && Record(e, call).0.mtu == e.mtu
  {
  }

  /** What a list of calls leads to, given where the flushed groups lie. */
  ghost predicate Grouped(e: Encoder, calls: seq<Call>, runs: seq<Stretch>) {
    var (e', groups) := RecordAll(e, calls);
    && GroupOk(e') && e'.mode == e.mode && e'.mtu == e.mtu
    && Groups(runs) == groups && AllSendable(groups)
    && InOrder(runs, Stretch(e'.packets, |calls|), calls, e.mode, e.mtu)
    && forall i :: 0 <= i < |groups| ==> 2 <= |groups[i]| <= Cap(e.mode)
  }

  lemma GroupedOneMore(e: Encoder, calls: seq<Call>, call: Call, runs: seq<Stretch>)
    requires Grouped(e, calls, runs) && ValidCall(call)
    ensures Grouped(e, calls + [call], runs + NewRuns(RecordAll(e, calls).0, call, |calls|).0)
  {
    hide Record, RecordAll, NewRuns, GroupOk, InOrder, Sendable, Cap, Groups;
    var e' := RecordAll(e, calls).0;
    RecordOneMore(e, calls, call);
    RecordKeepsSettings(e', call);
    FlushedSizes(e', call);
    NewRunsAreTheGroups(e', call, |calls|);
    GroupsAppend(runs, NewRuns(e', call, |calls|).0);
    InOrderGrows(e', runs, calls, call);
  }

  /**
    Over any sequence of calls: the flushed groups are disjoint stretches of the calls,
    in order, of cyclically consecutive numbers, two to the group-size cap of them, and
    every frame can be encoded.
  */
  lemma {:induction false} GroupsLieInOrder(e: Encoder, calls: seq<Call>) returns (runs: seq<Stretch>)
    requires GroupOk(e) && e.packets == [] && forall i :: 0 <= i < |calls| ==> ValidCall(calls[i])
    ensures Grouped(e, calls, runs)
  {
    if calls == [] {
      runs := [];
    } else {
      var n := |calls| - 1;
      var before := GroupsLieInOrder(e, calls[..n]);
      GroupedOneMore(e, calls[..n], calls[n], before);
      assert calls[..n] + [calls[n]] == calls;
      runs := before + NewRuns(RecordAll(e, calls[..n]).0, calls[n], n).0;
    }
  }

  lemma GroupsAppend(a: seq<Stretch>, b: seq<Stretch>)
    ensures Groups(a + b) == Groups(a) + Groups(b)
  {
  }

  lemma FlushedSizes(e: Encoder, call: Call)
    requires GroupOk(e) && ValidCall(call)
    ensures GroupOk(Record(e, call).0) && AllSendable(Record(e, call).1)
    ensures forall i :: 0 <= i < |Record(e, call).1| ==> 2 <= |Record(e, call).1[i]| <= Cap(e.mode)
  {
    RecordKeepsGroupOk(e, call);
  }

  // ---------------------------------------------------------------- frame sizes

  /**
    A member admitted for groups of `target` keeps the frame within the MTU and the excess of the
    group over `target`.
  */
  lemma FrameSize(group: seq<SourcePacket>, targets: seq<nat>, mtu: nat, slack: nat)
    requires Sendable(group) && |targets| == |group| && LongestLength(Payloads(group)) > 0
    requires forall i :: 0 <= i < |group| ==>
      PayloadFits(|group[i].payload|, targets[i], Some(mtu)) && |group| <= targets[i] + slack
    ensures ValidFrame(FrameFor(group)) && |FecPayload(FrameFor(group))| <= mtu + 2 * slack
  {
    SendableFrameIsValid(group);
    LongestLengthIsMaximum(Payloads(group));
    var k :| 0 <= k < |group| && |Payloads(group)[k]| == LongestLength(Payloads(group));
    assert PayloadFits(|group[k].payload|, targets[k], Some(mtu));
  }

  function Targets(run: Stretch, calls: seq<Call>, mode: GroupMode): seq<nat>
    requires |run.packets| <= run.end <= |calls| && mode != Disabled
  {
    assert forall i :: 0 <= i < |calls| ==> Target(mode, calls[i].adaptive).Some?;
    var first := run.end - |run.packets|;
    seq<nat>(|run.packets|, (i: nat) requires i < |run.packets| => Target(mode, calls[first + i].adaptive).value)
  }

  /** Frames stay within the MTU with a fixed group size, and within six bytes of it with an adaptive one. */
  lemma FramesFitTheMtu(e: Encoder, calls: seq<Call>, mtu: nat) returns (runs: seq<Stretch>)
    requires GroupOk(e) && e.packets == [] && e.mtu == Some(mtu) && e.mode != Disabled
    requires forall i :: 0 <= i < |calls| ==> ValidCall(calls[i])
    ensures Groups(runs) == RecordAll(e, calls).1 && AllSendable(Groups(runs))
    ensures forall i :: 0 <= i < |runs| ==>
      |FecPayload(FrameFor(Groups(runs)[i]))| <= if e.mode.Fixed? then mtu else mtu + 6
  {
    runs := GroupsLieInOrder(e, calls);
    forall i | 0 <= i < |runs|
      ensures |FecPayload(FrameFor(Groups(runs)[i]))| <= if e.mode.Fixed? then mtu else mtu + 6
    {
      FlushedAreNonEmpty(e, calls, i);
      assert Groups(runs)[i] == runs[i].packets;
      OneFrameFits(runs[i], calls, e.mode, mtu);
    }
  }

  lemma OneFrameFits(run: Stretch, calls: seq<Call>, mode: GroupMode, mtu: nat)
    requires Spans(run, calls, mode, Some(mtu)) && mode != Disabled && ValidMode(mode)
    requires Sendable(run.packets) && |run.packets| <= Cap(mode) && LongestLength(Payloads(run.packets)) > 0
    requires forall i :: 0 <= i < |calls| ==> ValidCall(calls[i])
    ensures ValidFrame(FrameFor(run.packets))
    ensures |FecPayload(FrameFor(run.packets))| <= if mode.Fixed? then mtu else mtu + 6
  {
    hide FrameFor, LongestLength, Sendable, Payloads, FecPayload, ValidFrame;
    var first, targets := run.end - |run.packets|, Targets(run, calls, mode);
    var slack := if mode.Fixed? then 0 else 3;
    forall i | 0 <= i < |run.packets|
      ensures PayloadFits(|run.packets[i].payload|, targets[i], Some(mtu)) && |run.packets| <= targets[i] + slack
    {
      assert run.packets[i] == Sources(calls)[first + i] == calls[first + i].source;
      assert ValidCall(calls[first + i]);
    }
    FrameSize(run.packets, targets, mtu, slack);
  }

  lemma {:induction false} FlushedAreNonEmpty(e: Encoder, calls: seq<Call>, i: nat)
    requires i < |RecordAll(e, calls).1|
    ensures LongestLength(Payloads(RecordAll(e, calls).1[i])) > 0
  {
    var n := |calls| - 1;
    if i < |RecordAll(e, calls[..n]).1| {
      FlushedAreNonEmpty(e, calls[..n], i);
    }
  }

  lemma RecordOneMore(e: Encoder, calls: seq<Call>, call: Call)
    ensures RecordAll(e, calls + [call]) ==
            (Record(RecordAll(e, calls).0, call).0, RecordAll(e, calls).1 + Record(RecordAll(e, calls).0, call).1)
  {
    assert (calls + [call])[..|calls|] == calls;
  }

  lemma RecordQuietly(e: Encoder, calls: seq<Call>, before: Encoder, call: Call, after: Encoder,
                      flushed: seq<seq<SourcePacket>>)
    requires RecordAll(e, calls) == (before, []) && Record(before, call) == (after, flushed)
    ensures RecordAll(e, calls + [call]) == (after, flushed)
  {
    RecordOneMore(e, calls, call);
    assert [] + flushed == flushed;
  }

  // One byte, then empty payloads; groups of three are asked for first, then groups of six.

  function TrialGroup(n: nat): (group: seq<SourcePacket>)
    ensures |group| == n
  {
    seq(n, (i: nat) => SourcePacket(i, if i == 0 then [1] else []))
  }

  function TrialCalls(n: nat): (calls: seq<Call>)
    ensures |calls| == n
  {
    seq(n, (i: nat) => Call(SourcePacket(i, if i == 0 then [1] else []), if i == 0 then 3 else 6))
  }

  /** An empty payload always fits, and joins the group it continues. */
  lemma EmptyPayloadJoins(e: Encoder, i: nat)
    requires e.mode == Adaptive && |e.packets| == i >= 1 && e.packets[i - 1].sequence == i - 1 && i < 6
    ensures var packet := SourcePacket(i, []);
      var group := e.packets + [packet];
      Record(e, Call(packet, 6)) == if i < 5 then (e.(packets := group), []) else (e.(packets := []), Flushed(group))
  {
    var group := e.packets + [SourcePacket(i, [])];
    assert [] + Flushed(group) == Flushed(group);
  }

  lemma {:induction false} TrialBuildsUp(n: nat)
    requires 1 <= n <= 5
    ensures RecordAll(Encoder(Adaptive, Some(17), []), TrialCalls(n)) ==
      (Encoder(Adaptive, Some(17), TrialGroup(n)), [])
  {
    var e, i := Encoder(Adaptive, Some(17), []), n - 1;
    assert TrialGroup(n) == TrialGroup(i) + [SourcePacket(i, if i == 0 then [1] else [])];
    assert TrialCalls(n) ==
      TrialCalls(i) + [Call(SourcePacket(i, if i == 0 then [1] else []), if i == 0 then 3 else 6)];
    if i == 0 {
      FirstOfTrial(e);
      RecordQuietly(e, [], e, TrialCalls(1)[0], e.(packets := TrialGroup(1)), []);
    } else {
      TrialBuildsUp(i);
      EmptyPayloadJoins(e.(packets := TrialGroup(i)), i);
      RecordQuietly(e, TrialCalls(i), e.(packets := TrialGroup(i)), TrialCalls(n)[i], e.(packets := TrialGroup(n)), []);
    }
  }

  lemma FirstOfTrial(e: Encoder)
    requires e == Encoder(Adaptive, Some(17), [])
    ensures var none: seq<seq<SourcePacket>> := []; Record(e, TrialCalls(1)[0]) == (e.(packets := TrialGroup(1)), none)
  {
    assert e.packets + [TrialCalls(1)[0].source] == TrialGroup(1);
  }

  lemma TrialGroupFrame()
    ensures var group := TrialGroup(6);
      && Flushed(group) == [group] && Sendable(group) && ValidFrame(FrameFor(group))
      && |FecPayload(FrameFor(group))| == 17 + 6
  {
    var group := TrialGroup(6);
    LongestLengthIsMaximum(Payloads(group));
    assert |Payloads(group)[0]| == 1;
    forall i | 0 <= i < 6
      ensures group[i].sequence == SequenceAfter(0, i)
    {
      SequenceAfterLinear(0, i);
    }
    SendableFrameIsValid(group);
  }

  /**
    The six bytes are really used: with an MTU of 17, one byte admitted while groups of
    three were asked for, in a group that grows to six, yields 23 bytes.
  */
  lemma AdaptiveFrameCanExceedTheMtu()
    ensures forall i :: 0 <= i < 6 ==> ValidCall(TrialCalls(6)[i])
    ensures RecordAll(Encoder(Adaptive, Some(17), []), TrialCalls(6)).1 == [TrialGroup(6)]
    ensures Sendable(TrialGroup(6)) && ValidFrame(FrameFor(TrialGroup(6)))
    ensures |FecPayload(FrameFor(TrialGroup(6)))| == 17 + 6
  {
    var e := Encoder(Adaptive, Some(17), []);
    TrialBuildsUp(5);
    EmptyPayloadJoins(e.(packets := TrialGroup(5)), 5);
    assert TrialGroup(6) == TrialGroup(5) + [SourcePacket(5, [])];
    assert TrialCalls(6) == TrialCalls(5) + [Call(SourcePacket(5, []), 6)];
    RecordQuietly(e, TrialCalls(5), e.(packets := TrialGroup(5)), TrialCalls(6)[5], e, Flushed(TrialGroup(6)));
    TrialGroupFrame();
  }

  // ---------------------------------------------------------------- meaning

  /** A flushed frame is the parity of its group, and its member numbers are the group's. */
  lemma FlushedFrameIsParity(group: seq<SourcePacket>)
    requires Sendable(group)
    ensures ValidFrame(FrameFor(group)) && FrameOf(FrameFor(group), Payloads(group))
    ensures forall i :: 0 <= i < |group| ==> Member(FrameFor(group), i) == group[i].sequence
  {
    SendableFrameIsValid(group);
    LongestLengthIsMaximum(Payloads(group));
    var frame := FrameFor(group);
    forall i | 0 <= i < |group|
      ensures frame.payloadLengths[i] == |Payloads(group)[i]| <= |frame.parity|
    {
    }
  }
}
