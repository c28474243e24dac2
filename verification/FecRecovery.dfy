/**
  The receiver's parity store: recent parity frames, recent payloads, and the
  search for frames from which exactly one missing payload can be rebuilt.
*/
module FecRecovery {
  import opened ByteStrings
  import opened Sequences
  import opened Wire

  const FEC_FRAME_TRACK_LIMIT := 256
  const FEC_PAYLOAD_TRACK_LIMIT := 4096

  datatype BufferedPacket = BufferedPacket(payload: Bytes, receivedAt: nat)

  datatype FecView = FecView(
    frames: map<nat, FecFrame>, frameOrder: seq<nat>, payloads: map<nat, Bytes>, payloadOrder: seq<nat>)

  const EMPTY_FEC := FecView(map[], [], map[], [])

  datatype Verdict =
    | Unusable
    | SeveralMissing
    | NoneMissing
    | OneMissing(sequence: nat, payload: Bytes)

  // ---------------------------------------------------------------- what each operation computes

  function Lookup(payloads: map<nat, Bytes>, buffered: map<nat, BufferedPacket>, sequence: nat): Option<Bytes> {
    if sequence in payloads then Some(payloads[sequence])
    else if sequence in buffered then Some(buffered[sequence].payload)
    else None
  }

  function Member(frame: FecFrame, index: nat): nat {
    SequenceAfter(frame.baseSequence, index)
  }

  /** Scans the members from `i` on, folding present ones out of `parity`. */
  function Scan(frame: FecFrame, payloads: map<nat, Bytes>, buffered: map<nat, BufferedPacket>,
                i: nat, parity: Bytes, missing: Option<nat>): Verdict
    requires i <= |frame.payloadLengths|
    requires missing.Some? ==> missing.value < |frame.payloadLengths| && frame.payloadLengths[missing.value] <= |parity|
    decreases |frame.payloadLengths| - i
  {
    if i == |frame.payloadLengths| then
      match missing
      case None => NoneMissing
      case Some(k) => OneMissing(Member(frame, k), parity[..frame.payloadLengths[k]])
    else if frame.payloadLengths[i] > |parity| then Unusable
    else
      match Lookup(payloads, buffered, Member(frame, i))
      case Some(payload) =>
        if |payload| != frame.payloadLengths[i] then Unusable
        else Scan(frame, payloads, buffered, i + 1, XorInto(parity, payload), missing)
      case None =>
        if missing.None? then Scan(frame, payloads, buffered, i + 1, parity, Some(i)) else SeveralMissing
  }

  function Examine(frame: FecFrame, payloads: map<nat, Bytes>, buffered: map<nat, BufferedPacket>): Verdict {
    Scan(frame, payloads, buffered, 0, frame.parity, None)
  }

  /** The frames that stay: those with more than one member missing. */
  function Stuck(v: FecView, buffered: map<nat, BufferedPacket>): map<nat, FecFrame> {
    map base | base in v.frames && Examine(v.frames[base], v.payloads, buffered).SeveralMissing? :: v.frames[base]
  }

  /** What one frame yields: a rebuilt payload that is still wanted, or nothing. */
  function Yield(verdict: Verdict, nextSeq: nat): seq<(nat, Bytes)> {
    if verdict.OneMissing? && verdict.sequence >= nextSeq then [(verdict.sequence, verdict.payload)] else []
  }

  function Recovered(v: FecView, nextSeq: nat, buffered: map<nat, BufferedPacket>, bases: seq<nat>): seq<(nat, Bytes)>
    requires forall i :: 0 <= i < |bases| ==> bases[i] in v.frames
  {
    if bases == [] then [] else
    var n := |bases| - 1;
    Recovered(v, nextSeq, buffered, bases[..n])
    + Yield(Examine(v.frames[bases[n]], v.payloads, buffered), nextSeq)
  }

  /** Everything recoverable now, in ascending order of frame. */
  function RecoverReady(v: FecView, nextSeq: nat, buffered: map<nat, BufferedPacket>): (FecView, seq<(nat, Bytes)>) {
    (v.(frames := Stuck(v, buffered)), Recovered(v, nextSeq, buffered, SortedKeys(v.frames.Keys)))
  }

  function EnforceFrameLimit(v: FecView): FecView
    decreases |v.frameOrder|
  {
    if |v.frames| <= FEC_FRAME_TRACK_LIMIT || v.frameOrder == [] then v
    else EnforceFrameLimit(v.(frames := v.frames - {v.frameOrder[0]}, frameOrder := v.frameOrder[1..]))
  }

  function EnforcePayloadLimit(v: FecView): FecView
    decreases |v.payloadOrder|
  {
    if |v.payloads| <= FEC_PAYLOAD_TRACK_LIMIT || v.payloadOrder == [] then v
    else EnforcePayloadLimit(v.(payloads := v.payloads - {v.payloadOrder[0]}, payloadOrder := v.payloadOrder[1..]))
  }

  function InsertFrame(v: FecView, frame: FecFrame): FecView {
    var base := frame.baseSequence;
    EnforceFrameLimit(v.(frames := v.frames[base := frame],
                         frameOrder := if base in v.frames then v.frameOrder else v.frameOrder + [base]))
  }

  function InsertPayload(v: FecView, sequence: nat, payload: Bytes): FecView {
    if sequence > MAX_MEDIA_SEQUENCE || sequence in v.payloads then v
    else
      EnforcePayloadLimit(
        v.(payloads := v.payloads[sequence := payload], payloadOrder := v.payloadOrder + [sequence]))
  }

  // ---------------------------------------------------------------- the store, updated in place

  class FecState {
    var frames: map<nat, FecFrame>
    var frameOrder: seq<nat>
    var payloads: map<nat, Bytes>
    var payloadOrder: seq<nat>

    ghost function View(): FecView
      reads this
    {
      FecView(frames, frameOrder, payloads, payloadOrder)
    }

    constructor ()
      ensures View() == EMPTY_FEC
    {
      frames, frameOrder, payloads, payloadOrder := map[], [], map[], [];
    }

    method Clear()
      modifies this
      ensures View() == EMPTY_FEC
    {
      frames, frameOrder, payloads, payloadOrder := map[], [], map[], [];
    }

    method Insert(frame: FecFrame)
      modifies `frames, `frameOrder
      ensures View() == InsertFrame(old(View()), frame)
    {
      var base := frame.baseSequence;
      if base !in frames {
        frameOrder := frameOrder + [base];
      }
      frames := frames[base := frame];
      while |frames| > FEC_FRAME_TRACK_LIMIT && frameOrder != []
        invariant EnforceFrameLimit(View()) == InsertFrame(old(View()), frame)
        decreases |frameOrder|
      {
        var oldest := frameOrder[0];
        frameOrder := frameOrder[1..];
        frames := frames - {oldest};
      }
    }

    method Remember(sequence: nat, payload: Bytes)
      modifies `payloads, `payloadOrder
      ensures View() == InsertPayload(old(View()), sequence, payload)
    {
      if sequence > MAX_MEDIA_SEQUENCE || sequence in payloads {
        return;
      }
      payloadOrder := payloadOrder + [sequence];
      payloads := payloads[sequence := payload];
      while |payloads| > FEC_PAYLOAD_TRACK_LIMIT && payloadOrder != []
        invariant EnforcePayloadLimit(View()) == InsertPayload(old(View()), sequence, payload)
        decreases |payloadOrder|
      {
        var oldest := payloadOrder[0];
        payloadOrder := payloadOrder[1..];
        payloads := payloads - {oldest};
      }
    }

    method ExamineFrame(frame: FecFrame, buffered: map<nat, BufferedPacket>) returns (verdict: Verdict)
      ensures verdict == Examine(frame, payloads, buffered)
    {
      var parity := frame.parity;
      var missing: Option<nat> := None;
      for i := 0 to |frame.payloadLengths|
        invariant missing.Some? ==> missing.value < i && frame.payloadLengths[missing.value] <= |parity|
        invariant Scan(frame, payloads, buffered, i, parity, missing) == Examine(frame, payloads, buffered)
      {
        if frame.payloadLengths[i] > |parity| {
          return Unusable;
        }
        var present := Lookup(payloads, buffered, Member(frame, i));
        if present.Some? {
          if |present.value| != frame.payloadLengths[i] {
            return Unusable;
          }
          parity := XorInto(parity, present.value);
        } else if missing.None? {
          missing := Some(i);
        } else {
          return SeveralMissing;
        }
      }
      if missing.None? {
        return NoneMissing;
      }
      return OneMissing(Member(frame, missing.value), parity[..frame.payloadLengths[missing.value]]);
    }

    /** One frame's turn: it stays only if several members are missing. */
    method TakeFrame(base: nat, nextSeq: nat, buffered: map<nat, BufferedPacket>) returns (found: seq<(nat, Bytes)>)
      requires base in frames
      modifies `frames
      ensures var verdict := Examine(old(frames)[base], payloads, buffered);
        && frames == (if verdict.SeveralMissing? then old(frames) else old(frames) - {base})
        && found == Yield(verdict, nextSeq)
    {
      var verdict := ExamineFrame(frames[base], buffered);
      if !verdict.SeveralMissing? {
        frames := frames - {base};
      }
      found := Yield(verdict, nextSeq);
    }

    method RecoverAmong(bases: seq<nat>, nextSeq: nat, buffered: map<nat, BufferedPacket>)
      returns (recovered: seq<(nat, Bytes)>)
      requires Ascending(bases) && forall i :: 0 <= i < |bases| ==> bases[i] in frames
      modifies `frames
      ensures frames == StuckAmong(old(View()), buffered, bases)
      ensures recovered == Recovered(old(View()), nextSeq, buffered, bases)
    {
      ghost var before := View();
      recovered := [];
      assert frames == StuckAmong(before, buffered, bases[..0])
        && Recovered(before, nextSeq, buffered, bases[..0]) == [];
      hide StuckAmong, Recovered, Examine, Yield;
      for i := 0 to |bases|
        invariant frames == StuckAmong(before, buffered, bases[..i])
        invariant recovered == Recovered(before, nextSeq, buffered, bases[..i])
      {
        PrefixNext(bases, i);
        AscendingIsNew(bases, i);
        StuckAmongNext(before, nextSeq, buffered, bases[..i], bases[i]);
        var found := TakeFrame(bases[i], nextSeq, buffered);
        recovered := recovered + found;
      }
      assert bases[..|bases|] == bases;
    }

    method Recover(nextSeq: nat, buffered: map<nat, BufferedPacket>) returns (recovered: seq<(nat, Bytes)>)
      modifies `frames
      ensures (View(), recovered) == RecoverReady(old(View()), nextSeq, buffered)
    {
      AllExamined(View(), buffered, SortedKeys(frames.Keys));
      recovered := RecoverAmong(SortedKeys(frames.Keys), nextSeq, buffered);
    }
  }

  /** The frames left after the ones listed have been examined. */
  ghost function StuckAmong(v: FecView, buffered: map<nat, BufferedPacket>, done: seq<nat>): map<nat, FecFrame> {
    map base | base in v.frames
      && (base in done ==> Examine(v.frames[base], v.payloads, buffered).SeveralMissing?) :: v.frames[base]
  }

  lemma StuckAmongNext(v: FecView, nextSeq: nat, buffered: map<nat, BufferedPacket>, done: seq<nat>, base: nat)
    requires base in v.frames && base !in done
    requires forall i :: 0 <= i < |done| ==> done[i] in v.frames
    ensures var now, verdict := StuckAmong(v, buffered, done), Examine(v.frames[base], v.payloads, buffered);
      && base in now && now[base] == v.frames[base]
      && StuckAmong(v, buffered, done + [base]) == (if verdict.SeveralMissing? then now else now - {base})
      && Recovered(v, nextSeq, buffered, done + [base]) ==
        Recovered(v, nextSeq, buffered, done) + Yield(verdict, nextSeq)
  {
    assert (done + [base])[..|done|] == done;
  }

  lemma AllExamined(v: FecView, buffered: map<nat, BufferedPacket>, bases: seq<nat>)
    requires forall base :: base in v.frames ==> base in bases
    ensures StuckAmong(v, buffered, bases) == Stuck(v, buffered)
  {
  }

  // ---------------------------------------------------------------- store invariants

  predicate Distinct<T(==)>(s: seq<T>) {
    forall i, j :: 0 <= i < j < |s| ==> s[i] != s[j]
  }

  /** Every stored frame is well formed and filed under its base; both stores are bounded. */
  ghost predicate FecOk(v: FecView) {
    && (forall base :: base in v.frames ==> ValidFrame(v.frames[base]) && v.frames[base].baseSequence == base)
    && (forall base :: base in v.frames ==> base in v.frameOrder)
    && |v.frames| <= FEC_FRAME_TRACK_LIMIT
    && (forall s :: s in v.payloads <==> s in v.payloadOrder)
    && Distinct(v.payloadOrder)
    && |v.payloads| <= FEC_PAYLOAD_TRACK_LIMIT
    && (forall s :: s in v.payloads ==> s <= MAX_MEDIA_SEQUENCE)
  }

  ghost predicate SubMap<K, V>(a: map<K, V>, b: map<K, V>) {
    forall k :: k in a ==> k in b && a[k] == b[k]
  }

  lemma {:induction false} EnforceFrameLimitBounds(v: FecView)
    requires forall base :: base in v.frames ==> base in v.frameOrder
    ensures var r := EnforceFrameLimit(v);
      && SubMap(r.frames, v.frames) && |r.frames| <= FEC_FRAME_TRACK_LIMIT
      && (forall base :: base in r.frames ==> base in r.frameOrder)
      && r.payloads == v.payloads && r.payloadOrder == v.payloadOrder
    decreases |v.frameOrder|
  {
    assert v.frameOrder == [] ==> v.frames == map[];
    if |v.frames| > FEC_FRAME_TRACK_LIMIT {
      var v' := v.(frames := v.frames - {v.frameOrder[0]}, frameOrder := v.frameOrder[1..]);
      assert forall base :: base in v.frameOrder ==> base == v.frameOrder[0] || base in v'.frameOrder;
      EnforceFrameLimitBounds(v');
    }
  }

  lemma {:induction false} EnforcePayloadLimitBounds(v: FecView)
    requires forall s :: s in v.payloads <==> s in v.payloadOrder
    requires Distinct(v.payloadOrder)
    ensures var r := EnforcePayloadLimit(v);
      && SubMap(r.payloads, v.payloads) && |r.payloads| <= FEC_PAYLOAD_TRACK_LIMIT
      && (forall s :: s in r.payloads <==> s in r.payloadOrder) && Distinct(r.payloadOrder)
      && r.frames == v.frames && r.frameOrder == v.frameOrder
    decreases |v.payloadOrder|
  {
    assert v.payloadOrder == [] ==> v.payloads == map[];
    if |v.payloads| > FEC_PAYLOAD_TRACK_LIMIT {
      var v' := v.(payloads := v.payloads - {v.payloadOrder[0]}, payloadOrder := v.payloadOrder[1..]);
      assert forall s :: s in v.payloadOrder <==> s == v.payloadOrder[0] || s in v'.payloadOrder;
      EnforcePayloadLimitBounds(v');
    }
  }

  lemma InsertFrameKeepsOk(v: FecView, frame: FecFrame)
    requires FecOk(v) && ValidFrame(frame)
    ensures FecOk(InsertFrame(v, frame))
    ensures SubMap(InsertFrame(v, frame).frames, v.frames[frame.baseSequence := frame])
    ensures InsertFrame(v, frame).payloads == v.payloads
  {
    var base := frame.baseSequence;
    EnforceFrameLimitBounds(v.(frames := v.frames[base := frame],
                               frameOrder := if base in v.frames then v.frameOrder else v.frameOrder + [base]));
  }

  /** The oldest bases of the queue go with their frames, and no more of them than the limit asks for. */
  ghost predicate DropsOldestFrames(v: FecView, v': FecView, n: nat) {
    && n <= |v.frameOrder| && v'.frameOrder == v.frameOrder[n..]
    && (forall base :: base in v'.frames <==> base in v.frames && base !in v.frameOrder[..n])
    && (forall base :: base in v'.frames ==> v'.frames[base] == v.frames[base])
    && |v'.frames| <= 256 && (n > 0 ==> |v'.frames| == 256)
  }

  lemma DropsNoFrame(v: FecView)
    requires |v.frames| <= 256
    ensures DropsOldestFrames(v, v, 0)
  {
  }

  lemma DropsOneFrameMore(v: FecView, rest: FecView, v': FecView, n: nat)
    requires |v.frames| > 256 && v.frameOrder != []
    requires rest == v.(frames := v.frames - {v.frameOrder[0]}, frameOrder := v.frameOrder[1..])
    requires DropsOldestFrames(rest, v', n)
    ensures DropsOldestFrames(v, v', n + 1)
  {
    var oldest := v.frameOrder[0];
    assert v.frameOrder[..n + 1] == [oldest] + rest.frameOrder[..n];
    assert rest.frames.Keys == v.frames.Keys - {oldest};
    if n == 0 {
      assert v'.frames == rest.frames;
    }
  }

  lemma NoFrameUnqueued(v: FecView)
    requires (forall base :: base in v.frames ==> base in v.frameOrder) && |v.frames| > 256
    ensures v.frameOrder != []
    ensures forall base :: base in v.frames - {v.frameOrder[0]} ==> base in v.frameOrder[1..]
  {
    assert v.frameOrder == [] ==> v.frames == map[];
    assert forall base :: base in v.frameOrder ==> base == v.frameOrder[0] || base in v.frameOrder[1..];
  }

  lemma {:induction false} FrameLimitIsExact(v: FecView) returns (n: nat)
    requires forall base :: base in v.frames ==> base in v.frameOrder
    ensures DropsOldestFrames(v, EnforceFrameLimit(v), n)
    decreases |v.frameOrder|
  {
    hide DropsOldestFrames;
    if |v.frames| > FEC_FRAME_TRACK_LIMIT {
      NoFrameUnqueued(v);
      var rest := v.(frames := v.frames - {v.frameOrder[0]}, frameOrder := v.frameOrder[1..]);
      var m := FrameLimitIsExact(rest);
      assert EnforceFrameLimit(v) == EnforceFrameLimit(rest);
      hide EnforceFrameLimit;
      DropsOneFrameMore(v, rest, EnforceFrameLimit(rest), m);
      n := m + 1;
    } else {
      DropsNoFrame(v);
      n := 0;
    }
  }

  /**
    A frame is stored under its base; beyond 256 frames those of the oldest bases queued go,
    as few as it takes, and all others stay.
  */
  lemma StoredFramesAreTheLatest(v: FecView, frame: FecFrame) returns (n: nat)
    requires FecOk(v)
    ensures var base := frame.baseSequence;
      var queue := if base in v.frames then v.frameOrder else v.frameOrder + [base];
      DropsOldestFrames(v.(frames := v.frames[base := frame], frameOrder := queue), InsertFrame(v, frame), n)
  {
    var base := frame.baseSequence;
    n := FrameLimitIsExact(v.(frames := v.frames[base := frame],
                              frameOrder := if base in v.frames then v.frameOrder else v.frameOrder + [base]));
  }

  lemma InsertPayloadKeepsOk(v: FecView, sequence: nat, payload: Bytes)
    requires FecOk(v)
    ensures FecOk(InsertPayload(v, sequence, payload))
    ensures SubMap(InsertPayload(v, sequence, payload).payloads, v.payloads[sequence := payload] + v.payloads)
    ensures InsertPayload(v, sequence, payload).frames == v.frames
  {
    if sequence <= MAX_MEDIA_SEQUENCE && sequence !in v.payloads {
      EnforcePayloadLimitBounds(
        v.(payloads := v.payloads[sequence := payload], payloadOrder := v.payloadOrder + [sequence]));
    }
  }

  // ---------------------------------------------------------------- what a verdict means

  ghost predicate Absent(v: FecView, buffered: map<nat, BufferedPacket>, frame: FecFrame, i: nat) {
    Lookup(v.payloads, buffered, Member(frame, i)).None?
  }

  /** At least two members are in neither the payload cache nor the reorder buffer. */
  ghost predicate TwoAbsent(v: FecView, buffered: map<nat, BufferedPacket>, frame: FecFrame) {
    exists i, j :: 0 <= i < j < |frame.payloadLengths| && Absent(v, buffered, frame, i) && Absent(v, buffered, frame, j)
  }

  lemma {:induction false} SeveralMissingMeansTwoAbsent(v: FecView, buffered: map<nat, BufferedPacket>, frame: FecFrame,
                                                         i: nat, parity: Bytes, missing: Option<nat>)
    requires i <= |frame.payloadLengths|
    requires missing.Some? ==> missing.value < i && frame.payloadLengths[missing.value] <= |parity|
    requires missing.Some? ==> Absent(v, buffered, frame, missing.value)
    requires Scan(frame, v.payloads, buffered, i, parity, missing).SeveralMissing?
    ensures TwoAbsent(v, buffered, frame)
    decreases |frame.payloadLengths| - i
  {
    match Lookup(v.payloads, buffered, Member(frame, i))
    case Some(payload) => SeveralMissingMeansTwoAbsent(v, buffered, frame, i + 1, XorInto(parity, payload), missing);
    case None =>
      if missing.None? {
        SeveralMissingMeansTwoAbsent(v, buffered, frame, i + 1, parity, Some(i));
      } else {
        assert Absent(v, buffered, frame, missing.value) && Absent(v, buffered, frame, i);
      }
  }

  /** No stored frame is left from which something could be rebuilt. */
  ghost predicate Peeled(v: FecView, buffered: map<nat, BufferedPacket>) {
    forall base :: base in v.frames ==> TwoAbsent(v, buffered, v.frames[base])
  }

  lemma RecoverReadyPeels(v: FecView, nextSeq: nat, buffered: map<nat, BufferedPacket>)
    ensures Peeled(RecoverReady(v, nextSeq, buffered).0, buffered)
  {
    var r := RecoverReady(v, nextSeq, buffered).0;
    forall base | base in r.frames
      ensures TwoAbsent(r, buffered, r.frames[base])
    {
      SeveralMissingMeansTwoAbsent(r, buffered, r.frames[base], 0, r.frames[base].parity, None);
    }
  }

  lemma {:induction false} OneMissingIsWanted(frame: FecFrame, payloads: map<nat, Bytes>,
                                              buffered: map<nat, BufferedPacket>, i: nat, parity: Bytes,
                                              missing: Option<nat>)
    requires i <= |frame.payloadLengths|
    requires missing.Some? ==> missing.value < i && frame.payloadLengths[missing.value] <= |parity|
    requires missing.Some? ==> Lookup(payloads, buffered, Member(frame, missing.value)).None?
    requires Scan(frame, payloads, buffered, i, parity, missing).OneMissing?
    ensures var s := Scan(frame, payloads, buffered, i, parity, missing).sequence;
      s !in payloads && s !in buffered && exists k :: 0 <= k < |frame.payloadLengths| && s == Member(frame, k)
    decreases |frame.payloadLengths| - i
  {
    if i < |frame.payloadLengths| {
      match Lookup(payloads, buffered, Member(frame, i))
      case Some(payload) => OneMissingIsWanted(frame, payloads, buffered, i + 1, XorInto(parity, payload), missing);
      case None => OneMissingIsWanted(frame, payloads, buffered, i + 1, parity, Some(i));
    }
  }

  predicate AllWanted(recovered: seq<(nat, Bytes)>, nextSeq: nat, payloads: map<nat, Bytes>,
                      buffered: map<nat, BufferedPacket>) {
    forall i :: 0 <= i < |recovered| ==>
      recovered[i].0 >= nextSeq && recovered[i].0 !in payloads && recovered[i].0 !in buffered
  }

  lemma YieldIsWanted(frame: FecFrame, payloads: map<nat, Bytes>, buffered: map<nat, BufferedPacket>, nextSeq: nat)
    ensures AllWanted(Yield(Examine(frame, payloads, buffered), nextSeq), nextSeq, payloads, buffered)
  {
    if Examine(frame, payloads, buffered).OneMissing? {
      OneMissingIsWanted(frame, payloads, buffered, 0, frame.parity, None);
    }
    hide Scan;
  }

  lemma {:induction false} OnlyWantedAmong(v: FecView, nextSeq: nat, buffered: map<nat, BufferedPacket>,
                                           bases: seq<nat>)
    requires forall i :: 0 <= i < |bases| ==> bases[i] in v.frames
    ensures AllWanted(Recovered(v, nextSeq, buffered, bases), nextSeq, v.payloads, buffered)
  {
    if bases != [] {
      var n := |bases| - 1;
      OnlyWantedAmong(v, nextSeq, buffered, bases[..n]);
      YieldIsWanted(v.frames[bases[n]], v.payloads, buffered, nextSeq);
      hide Yield, Examine;
    }
  }

  /** A pass returns only what is at or past the head and held neither in the cache nor in the buffer. */
  lemma OnlyWantedIsRecovered(v: FecView, nextSeq: nat, buffered: map<nat, BufferedPacket>)
    ensures AllWanted(RecoverReady(v, nextSeq, buffered).1, nextSeq, v.payloads, buffered)
  {
    OnlyWantedAmong(v, nextSeq, buffered, SortedKeys(v.frames.Keys));
  }

  // ---------------------------------------------------------------- the verdict on any frame, genuine or not

  /** Member i is held, with the length the frame gives for it, or not held; either way the parity is long enough. */
  predicate MemberFits(frame: FecFrame, payloads: map<nat, Bytes>, buffered: map<nat, BufferedPacket>, i: nat,
                       length: nat)
    requires i < |frame.payloadLengths|
  {
    && frame.payloadLengths[i] <= length
    && match Lookup(payloads, buffered, Member(frame, i))
       case Some(payload) => |payload| == frame.payloadLengths[i]
       case None => true
  }

  /** How many members from i on are not held. */
  function AbsentFrom(frame: FecFrame, payloads: map<nat, Bytes>, buffered: map<nat, BufferedPacket>, i: nat): nat
    requires i <= |frame.payloadLengths|
    decreases |frame.payloadLengths| - i
  {
    if i == |frame.payloadLengths| then 0 else
    var here := if Lookup(payloads, buffered, Member(frame, i)).None? then 1 else 0;
    here + AbsentFrom(frame, payloads, buffered, i + 1)
  }

  lemma {:induction false} ScanVerdictIff(frame: FecFrame, payloads: map<nat, Bytes>,
                                          buffered: map<nat, BufferedPacket>, i: nat, parity: Bytes,
                                          missing: Option<nat>)
    requires i <= |frame.payloadLengths|
    requires missing.Some? ==> missing.value < |frame.payloadLengths| && frame.payloadLengths[missing.value] <= |parity|
    ensures var verdict := Scan(frame, payloads, buffered, i, parity, missing);
      var fit := forall k :: i <= k < |frame.payloadLengths| ==> MemberFits(frame, payloads, buffered, k, |parity|);
      var absent := AbsentFrom(frame, payloads, buffered, i) + (if missing.Some? then 1 else 0);
      && (verdict.NoneMissing? <==> fit && absent == 0)
      && (verdict.OneMissing? <==> fit && absent == 1)
      && (verdict.SeveralMissing? ==> absent >= 2)
    decreases |frame.payloadLengths| - i
  {
    if i < |frame.payloadLengths| && frame.payloadLengths[i] <= |parity| {
      match Lookup(payloads, buffered, Member(frame, i))
      case Some(payload) =>
        if |payload| == frame.payloadLengths[i] {
          ScanVerdictIff(frame, payloads, buffered, i + 1, XorInto(parity, payload), missing);
        } else {
          assert !MemberFits(frame, payloads, buffered, i, |parity|);
        }
      case None =>
        if missing.None? {
          ScanVerdictIff(frame, payloads, buffered, i + 1, parity, Some(i));
        }
    } else if i < |frame.payloadLengths| {
      assert !MemberFits(frame, payloads, buffered, i, |parity|);
    }
  }

  /**
    The verdict on any frame: something is rebuilt exactly if one member is not held and the
    lengths given fit the parity and every member that is; nothing is missing exactly if they fit
    and all are held; and frames kept as stuck miss two members at least.
  */
  lemma VerdictIff(frame: FecFrame, payloads: map<nat, Bytes>, buffered: map<nat, BufferedPacket>)
    ensures var verdict := Examine(frame, payloads, buffered);
      var fit := forall k :: 0 <= k < |frame.payloadLengths| ==>
          MemberFits(frame, payloads, buffered, k, |frame.parity|);
      var absent := AbsentFrom(frame, payloads, buffered, 0);
      && (verdict.NoneMissing? <==> fit && absent == 0)
      && (verdict.OneMissing? <==> fit && absent == 1)
      && (verdict.SeveralMissing? ==> absent >= 2)
  {
    ScanVerdictIff(frame, payloads, buffered, 0, frame.parity, None);
  }

  /** If anything is recovered then at least one frame was used up. */
  lemma {:induction false} RecoveredUsesAFrame(v: FecView, nextSeq: nat, buffered: map<nat, BufferedPacket>,
                                               bases: seq<nat>)
    requires forall i :: 0 <= i < |bases| ==> bases[i] in v.frames
    ensures Recovered(v, nextSeq, buffered, bases) != [] ==>
      exists base :: base in v.frames && base !in Stuck(v, buffered)
  {
    if bases != [] {
      var n := |bases| - 1;
      RecoveredUsesAFrame(v, nextSeq, buffered, bases[..n]);
      if Yield(Examine(v.frames[bases[n]], v.payloads, buffered), nextSeq) != [] {
        assert bases[n] in v.frames && bases[n] !in Stuck(v, buffered);
      }
    }
  }

  lemma SmallerMap<V>(small: map<nat, V>, big: map<nat, V>, gone: nat)
    requires small.Keys <= big.Keys && gone in big && gone !in small
    ensures |small| < |big|
  {
    SmallerSet(small.Keys, big.Keys - {gone});
  }

  lemma {:induction false} SmallerSet(small: set<nat>, big: set<nat>)
    requires small <= big
    ensures |small| <= |big|
    decreases small
  {
    if small != {} {
      var x :| x in small;
      SmallerSet(small - {x}, big - {x});
    }
  }

  /** Peeling makes progress: a productive pass leaves strictly fewer frames. */
  lemma RecoverReadyShrinks(v: FecView, nextSeq: nat, buffered: map<nat, BufferedPacket>)
    ensures var (v', recovered) := RecoverReady(v, nextSeq, buffered);
      recovered != [] ==> |v'.frames| < |v.frames|
  {
    var bases := SortedKeys(v.frames.Keys);
    RecoveredUsesAFrame(v, nextSeq, buffered, bases);
    if Recovered(v, nextSeq, buffered, bases) != [] {
      var base :| base in v.frames && base !in Stuck(v, buffered);
      SmallerMap(Stuck(v, buffered), v.frames, base);
    }
  }

  // ---------------------------------------------------------------- erasure correction

  /** Exclusive-or of byte b over the members from i on. */
  function SuffixByte(group: seq<Bytes>, i: nat, b: nat): bv8
    requires i <= |group|
    decreases |group| - i
  {
    if i == |group| then 0 else ByteAt(group[i], b) ^ SuffixByte(group, i + 1, b)
  }

  lemma XorMove(a: bv8, b: bv8, c: bv8)
    ensures a ^ (b ^ c) == (a ^ b) ^ c && (a ^ (b ^ c)) ^ b == a ^ c && 0 ^ a == a && a ^ 0 == a && (0 ^ b) ^ c == b ^ c
  {
  }

  lemma {:induction false} PrefixSuffix(group: seq<Bytes>, i: nat, b: nat)
    requires i <= |group|
    ensures ParityByte(group[..i], b) ^ SuffixByte(group, i, b) == ParityByte(group, b)
    decreases |group| - i
  {
    if i == |group| {
      assert group[..i] == group;
      XorMove(ParityByte(group, b), 0, 0);
    } else {
      PrefixSuffix(group, i + 1, b);
      assert group[..i + 1][..i] == group[..i];
      XorMove(ParityByte(group[..i], b), ByteAt(group[i], b), SuffixByte(group, i + 1, b));
    }
  }

  function MissingByte(group: seq<Bytes>, missing: Option<nat>, b: nat): bv8
    requires missing.Some? ==> missing.value < |group|
  {
    match missing
    case None => 0
    case Some(k) => ByteAt(group[k], b)
  }

  /** The frame is the parity of `group`, whose members are `base`, its successor, and so on. */
  ghost predicate FrameOf(frame: FecFrame, group: seq<Bytes>) {
    && |frame.payloadLengths| == |group|
    && (forall i :: 0 <= i < |group| ==> frame.payloadLengths[i] == |group[i]| <= |frame.parity|)
    && frame.parity == Parity(group, |frame.parity|)
  }

  /** Whatever the receiver holds for a member is that member's payload. */
  ghost predicate Agrees(frame: FecFrame, group: seq<Bytes>, payloads: map<nat, Bytes>,
                         buffered: map<nat, BufferedPacket>)
    requires |frame.payloadLengths| == |group|
  {
    forall i :: 0 <= i < |group| ==>
      var found := Lookup(payloads, buffered, Member(frame, i));
      found.Some? ==> found.value == group[i]
  }

  /** What is left in the accumulator: the missing member and everything not yet scanned. */
  ghost predicate Balanced(group: seq<Bytes>, parity: Bytes, i: nat, missing: Option<nat>)
    requires i <= |group| && (missing.Some? ==> missing.value < |group|)
  {
    forall b :: 0 <= b < |parity| ==> parity[b] == MissingByte(group, missing, b) ^ SuffixByte(group, i, b)
  }

  /** The verdict on a genuine frame, from how many members are absent. */
  ghost predicate RightVerdict(frame: FecFrame, group: seq<Bytes>, payloads: map<nat, Bytes>,
                               buffered: map<nat, BufferedPacket>, verdict: Verdict)
    requires |frame.payloadLengths| == |group|
  {
    match verdict
    case Unusable => false
    case NoneMissing => forall i :: 0 <= i < |group| ==> Lookup(payloads, buffered, Member(frame, i)).Some?
    case OneMissing(s, p) =>
      exists k | 0 <= k < |group| ::
        && s == Member(frame, k) && p == group[k]
        && forall i | 0 <= i < |group| :: Lookup(payloads, buffered, Member(frame, i)).None? <==> i == k
    case SeveralMissing =>
      exists i, j | 0 <= i < j < |group| ::
        && Lookup(payloads, buffered, Member(frame, i)).None?
        && Lookup(payloads, buffered, Member(frame, j)).None?
  }

  lemma {:induction false} ScanIsRight(frame: FecFrame, group: seq<Bytes>, payloads: map<nat, Bytes>,
                                       buffered: map<nat, BufferedPacket>, i: nat, parity: Bytes, missing: Option<nat>)
    requires FrameOf(frame, group) && Agrees(frame, group, payloads, buffered)
    requires i <= |group| && |parity| == |frame.parity|
    requires missing.Some? ==> missing.value < i
    requires forall k :: 0 <= k < i ==> (Lookup(payloads, buffered, Member(frame, k)).None? <==> missing == Some(k))
    requires Balanced(group, parity, i, missing)
    ensures RightVerdict(frame, group, payloads, buffered, Scan(frame, payloads, buffered, i, parity, missing))
    decreases |group| - i
  {
    if i == |group| {
      if missing.Some? {
        var k := missing.value;
        forall b | 0 <= b < |group[k]|
          ensures parity[b] == group[k][b]
        {
          XorMove(ByteAt(group[k], b), 0, 0);
        }
        assert parity[..|group[k]|] == group[k];
      }
    } else {
      match Lookup(payloads, buffered, Member(frame, i))
      case Some(payload) =>
        forall b | 0 <= b < |parity|
          ensures XorInto(parity, payload)[b] == MissingByte(group, missing, b) ^ SuffixByte(group, i + 1, b)
        {
          XorMove(MissingByte(group, missing, b), ByteAt(group[i], b), SuffixByte(group, i + 1, b));
        }
        ScanIsRight(frame, group, payloads, buffered, i + 1, XorInto(parity, payload), missing);
      case None =>
        if missing.None? {
          forall b | 0 <= b < |parity|
            ensures parity[b] == MissingByte(group, Some(i), b) ^ SuffixByte(group, i + 1, b)
          {
            XorMove(SuffixByte(group, i, b), 0, 0);
          }
          ScanIsRight(frame, group, payloads, buffered, i + 1, parity, Some(i));
        }
    }
  }

  /** Examining a genuine frame: never unusable, and a single absent member comes back exactly. */
  lemma ExamineIsRight(frame: FecFrame, group: seq<Bytes>, payloads: map<nat, Bytes>,
                       buffered: map<nat, BufferedPacket>)
    requires FrameOf(frame, group) && Agrees(frame, group, payloads, buffered)
    ensures RightVerdict(frame, group, payloads, buffered, Examine(frame, payloads, buffered))
  {
    forall b | 0 <= b < |frame.parity|
      ensures frame.parity[b] == MissingByte(group, None, b) ^ SuffixByte(group, 0, b)
    {
      PrefixSuffix(group, 0, b);
      assert group[..0] == [];
    }
    ScanIsRight(frame, group, payloads, buffered, 0, frame.parity, None);
  }

  lemma {:induction false} YieldIsRecovered(v: FecView, nextSeq: nat, buffered: map<nat, BufferedPacket>,
                                            bases: seq<nat>, base: nat)
    requires forall i :: 0 <= i < |bases| ==> bases[i] in v.frames
    requires base in bases
    ensures var y := Yield(Examine(v.frames[base], v.payloads, buffered), nextSeq);
      y != [] ==> y[0] in Recovered(v, nextSeq, buffered, bases)
  {
    var n := |bases| - 1;
    if base != bases[n] {
      assert base in bases[..n];
      YieldIsRecovered(v, nextSeq, buffered, bases[..n], base);
    }
  }

  /** Everything recovered is the yield of some frame. */
  lemma {:induction false} RecoveredComesFromAFrame(v: FecView, nextSeq: nat, buffered: map<nat, BufferedPacket>,
                                                    bases: seq<nat>, i: nat)
    requires forall k :: 0 <= k < |bases| ==> bases[k] in v.frames
    requires i < |Recovered(v, nextSeq, buffered, bases)|
    ensures exists base | base in v.frames ::
      Yield(Examine(v.frames[base], v.payloads, buffered), nextSeq) == [Recovered(v, nextSeq, buffered, bases)[i]]
  {
    var n := |bases| - 1;
    if i < |Recovered(v, nextSeq, buffered, bases[..n])| {
      RecoveredComesFromAFrame(v, nextSeq, buffered, bases[..n], i);
    } else {
      assert Yield(Examine(v.frames[bases[n]], v.payloads, buffered), nextSeq) ==
        [Recovered(v, nextSeq, buffered, bases)[i]];
    }
  }

  /**
    Erasure correction: a stored genuine frame with exactly one absent member, still
    wanted, makes the search return that member's sequence number and exact bytes.
  */
  lemma ErasureIsCorrected(v: FecView, nextSeq: nat, buffered: map<nat, BufferedPacket>, base: nat, group: seq<Bytes>,
                           k: nat)
    requires base in v.frames && FrameOf(v.frames[base], group)
    requires Agrees(v.frames[base], group, v.payloads, buffered)
    requires k < |group| && Member(v.frames[base], k) >= nextSeq
    requires forall i :: 0 <= i < |group| ==> (Absent(v, buffered, v.frames[base], i) <==> i == k)
    ensures (Member(v.frames[base], k), group[k]) in RecoverReady(v, nextSeq, buffered).1
    ensures base !in RecoverReady(v, nextSeq, buffered).0.frames
  {
    var frame := v.frames[base];
    ExamineIsRight(frame, group, v.payloads, buffered);
    forall i | 0 <= i < |group|
      ensures Lookup(v.payloads, buffered, Member(frame, i)).None? <==> i == k
    {
      assert Absent(v, buffered, frame, i) <==> i == k;
    }
    assert Examine(frame, v.payloads, buffered) == OneMissing(Member(frame, k), group[k]);
    YieldIsRecovered(v, nextSeq, buffered, SortedKeys(v.frames.Keys), base);
  }
}
