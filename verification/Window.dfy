/**
  The receiver's reorder window as a value, and what each of its operations
  computes. The class in ReorderServer updates its fields to exactly these
  values; the theorems about runs are proved about these functions.

  Besides the receiver's own state a window records, for the current flow, where
  the flow started, what was forwarded or skipped, which payloads were accepted
  as complete, and which repair requests were issued.
*/
module Window {
  import opened ByteStrings
  import opened Sequences
  import opened Wire
  import opened Assembly
  import opened FecRecovery

  const MAX_REPAIR_REQUESTS_PER_TICK := 64
  const SKIPPED_SEQUENCE_TRACK_LIMIT := 4096

  datatype SkipReason = NeverReceived | FragmentIncomplete

  datatype Delivery =
    | Forwarded(sequence: nat, payload: Bytes)
    | Skipped(sequence: nat, reason: SkipReason)

  datatype Skips = Skips(order: seq<nat>, lookup: set<nat>)

  datatype Window = Window(
    nextSeq: nat, buffered: map<nat, BufferedPacket>, fragments: map<nat, FragmentAssembly>, seen: set<nat>,
    skips: Skips, gapRequests: map<nat, nat>, fec: FecView,
    start: nat, log: seq<Delivery>, accepted: seq<(nat, Bytes)>, repairs: seq<RepairRequest>)

  function EmptyWindow(start: nat, repairs: seq<RepairRequest>): Window {
    Window(start, map[], map[], {}, Skips([], {}), map[], EMPTY_FEC, start, [], [], repairs)
  }

  /**
    The head is a media number and nothing pending lies behind it; assemblies are
    well formed and apart from the buffer.
  */
  predicate Ahead(w: Window) {
    && w.nextSeq <= MAX_MEDIA_SEQUENCE
    && (forall k :: k in w.buffered ==> w.nextSeq <= k <= MAX_MEDIA_SEQUENCE)
    && (forall k :: k in w.fragments ==> w.nextSeq <= k <= MAX_MEDIA_SEQUENCE && k !in w.buffered)
    && (forall k :: k in w.fragments ==> w.fragments[k].Valid())
    && (forall base :: base in w.fec.frames ==> w.fec.frames[base].baseSequence <= MAX_MEDIA_SEQUENCE)
  }

  function Elapsed(now: nat, since: nat): nat {
    if now >= since then now - since else 0
  }

  // ---------------------------------------------------------------- delivering

  /** The head goes out and the window moves on by one. */
  function ForwardHead(w: Window, payload: Bytes): Window {
    w.(log := w.log + [Forwarded(w.nextSeq, payload)],
       gapRequests := w.gapRequests - {w.nextSeq},
       seen := w.seen - {w.nextSeq},
       nextSeq := NextSequence(w.nextSeq))
  }

  /** One buffered packet leaves the buffer through the head. */
  function DrainOne(w: Window): Window
    requires w.nextSeq in w.buffered
  {
    var payload := w.buffered[w.nextSeq].payload;
    ForwardHead(w.(buffered := w.buffered - {w.nextSeq}, fec := InsertPayload(w.fec, w.nextSeq, payload)), payload)
  }

  function Drain(w: Window): Window
    decreases |w.buffered|
  {
    if w.nextSeq in w.buffered then Drain(DrainOne(w)) else w
  }

  /** Accepted payloads are remembered for parity whether or not they are next. */
  function Note(w: Window, sequence: nat, payload: Bytes): Window {
    w.(seen := w.seen + {sequence}, fec := InsertPayload(w.fec, sequence, payload),
       accepted := w.accepted + [(sequence, payload)])
  }

  function Accept(w: Window, sequence: nat, payload: Bytes, now: nat): Window {
    var w' := Note(w, sequence, payload);
    if sequence == w.nextSeq then Drain(ForwardHead(w', payload))
    else w'.(buffered := w'.buffered[sequence := BufferedPacket(payload, now)])
  }

  // ---------------------------------------------------------------- parity recovery

  predicate Wanted(w: Window, sequence: nat) {
    sequence >= w.nextSeq && sequence !in w.seen && sequence !in w.buffered
  }

  /** A recovered payload replaces whatever fragments were collected for it. */
  function AcceptRecovered(w: Window, sequence: nat, payload: Bytes, now: nat): Window {
    Accept(w.(fragments := w.fragments - {sequence}), sequence, payload, now)
  }

  function AcceptAll(w: Window, recovered: seq<(nat, Bytes)>, now: nat): (Window, bool) {
    if recovered == [] then (w, false) else
    var n := |recovered| - 1;
    var (w', any) := AcceptAll(w, recovered[..n], now);
    if Wanted(w', recovered[n].0) then (AcceptRecovered(w', recovered[n].0, recovered[n].1, now), true) else (w', any)
  }

  function Peel(w: Window): (Window, seq<(nat, Bytes)>) {
    var (fec, recovered) := RecoverReady(w.fec, w.nextSeq, w.buffered);
    (w.(fec := fec), recovered)
  }

  /** Peels until a pass brings nothing new; every productive pass uses up a stored frame. */
  function RecoverFec(w: Window, now: nat): Window
    decreases |w.fec.frames|
  {
    var (w', recovered) := Peel(w);
    if recovered == [] then w' else
    var (w'', any) := AcceptAll(w', recovered, now);
    if !any then w'' else
    PeelingShrinks(w, now);
    RecoverFec(w'', now)
  }

  lemma {:induction false} DrainKeepsFrames(w: Window)
    ensures Drain(w).fec.frames == w.fec.frames
    decreases |w.buffered|
  {
    if w.nextSeq in w.buffered {
      InsertPayloadKeepsFrames(w.fec, w.nextSeq, w.buffered[w.nextSeq].payload);
      DrainKeepsFrames(DrainOne(w));
    }
  }

  lemma {:induction false} EnforcePayloadLimitKeepsFrames(v: FecView)
    ensures EnforcePayloadLimit(v).frames == v.frames
    decreases |v.payloadOrder|
  {
    if |v.payloads| > FEC_PAYLOAD_TRACK_LIMIT && v.payloadOrder != [] {
      EnforcePayloadLimitKeepsFrames(v.(payloads := v.payloads - {v.payloadOrder[0]},
        payloadOrder := v.payloadOrder[1..]));
    }
  }

  lemma InsertPayloadKeepsFrames(v: FecView, sequence: nat, payload: Bytes)
    ensures InsertPayload(v, sequence, payload).frames == v.frames
  {
    EnforcePayloadLimitKeepsFrames(
      v.(payloads := v.payloads[sequence := payload], payloadOrder := v.payloadOrder + [sequence]));
  }

  lemma {:induction false} AcceptAllKeepsFrames(w: Window, recovered: seq<(nat, Bytes)>, now: nat)
    ensures AcceptAll(w, recovered, now).0.fec.frames == w.fec.frames
  {
    if recovered != [] {
      var n := |recovered| - 1;
      AcceptAllKeepsFrames(w, recovered[..n], now);
      var w' := AcceptAll(w, recovered[..n], now).0;
      var (s, p) := recovered[n];
      InsertPayloadKeepsFrames(w'.fec, s, p);
      DrainKeepsFrames(ForwardHead(Note(w'.(fragments := w'.fragments - {s}), s, p), p));
    }
  }

  lemma PeelingShrinks(w: Window, now: nat)
    ensures var (w', recovered) := Peel(w);
      recovered != [] ==> |AcceptAll(w', recovered, now).0.fec.frames| < |w.fec.frames|
  {
    RecoverReadyShrinks(w.fec, w.nextSeq, w.buffered);
    AcceptAllKeepsFrames(Peel(w).0, Peel(w).1, now);
  }

  // ---------------------------------------------------------------- skipping

  function TrimSkips(r: Skips): Skips
    decreases |r.order|
  {
    if |r.order| <= SKIPPED_SEQUENCE_TRACK_LIMIT then r
    else TrimSkips(Skips(r.order[1..], r.lookup - {r.order[0]}))
  }

  function InsertSkip(r: Skips, sequence: nat): Skips {
    TrimSkips(if sequence in r.lookup then r else Skips(r.order + [sequence], r.lookup + {sequence}))
  }

  function SkipHead(w: Window, reason: SkipReason): Window {
    w.(log := w.log + [Skipped(w.nextSeq, reason)],
       gapRequests := w.gapRequests - {w.nextSeq},
       skips := InsertSkip(w.skips, w.nextSeq),
       nextSeq := NextSequence(w.nextSeq))
  }

  /** Giving up on an incomplete packet at the head. */
  function DropAssembly(w: Window): Window {
    SkipHead(w.(fragments := w.fragments - {w.nextSeq}, seen := w.seen - {w.nextSeq}), FragmentIncomplete)
  }

  function PendingTimes(w: Window): set<nat> {
    (set k | k in w.buffered :: w.buffered[k].receivedAt) + (set k | k in w.fragments :: w.fragments[k].firstSeen)
  }

  /** Something pending has waited for at least `delay`. */
  predicate Overdue(w: Window, delay: nat, now: nat) {
    PendingTimes(w) != {} && Elapsed(now, Least(PendingTimes(w))) >= delay
  }

  datatype Head = Stop | GiveUp | Skip

  /** What the expiry loop does with the head of the window. */
  function HeadAction(w: Window, delay: nat, now: nat): Head {
    if w.nextSeq in w.buffered then Stop
    else if w.nextSeq in w.fragments then
      if Elapsed(now, w.fragments[w.nextSeq].firstSeen) < delay then Stop else GiveUp
    else if Overdue(w, delay, now) then Skip else Stop
  }

  lemma RemovalShrinks<V>(m: map<nat, V>, k: nat)
    requires k in m
    ensures |m - {k}| == |m| - 1
  {
    assert (m - {k}).Keys == m.Keys - {k};
  }

  lemma DropKeepsAhead(w: Window)
    requires Ahead(w) && w.nextSeq in w.fragments
    ensures Ahead(DropAssembly(w)) && |DropAssembly(w).fragments| < |w.fragments|
  {
    RemovalShrinks(w.fragments, w.nextSeq);
    var w' := DropAssembly(w);
    assert forall k :: k in w'.fragments ==> k in w.fragments && w'.fragments[k] == w.fragments[k] && k != w.nextSeq;
  }

  lemma OverdueIsPending(w: Window, delay: nat, now: nat)
    requires Overdue(w, delay, now)
    ensures exists k :: k in w.buffered.Keys + w.fragments.Keys
  {
    var t :| t in PendingTimes(w);
    var k :| k in w.buffered.Keys + w.fragments.Keys;
  }

  lemma SkipKeepsAhead(w: Window, delay: nat, now: nat)
    requires Ahead(w) && HeadAction(w, delay, now) == Skip
    ensures Ahead(SkipHead(w, NeverReceived)) && w.nextSeq < MAX_MEDIA_SEQUENCE
  {
    OverdueIsPending(w, delay, now);
    var k :| k in w.buffered.Keys + w.fragments.Keys;
    assert w.nextSeq < k <= MAX_MEDIA_SEQUENCE;
  }

  function Expire(w: Window, delay: nat, now: nat): Window
    requires Ahead(w)
    decreases |w.fragments|, MAX_MEDIA_SEQUENCE - w.nextSeq
  {
    match HeadAction(w, delay, now)
    case Stop => w
    case GiveUp =>
      DropKeepsAhead(w);
      Expire(DropAssembly(w), delay, now)
    case Skip =>
      SkipKeepsAhead(w, delay, now);
      Expire(SkipHead(w, NeverReceived), delay, now)
  }

  // ---------------------------------------------------------------- repair requests

  predicate RequestDue(last: Option<nat>, interval: nat, now: nat) {
    last.None? || Elapsed(now, last.value) >= interval
  }

  /** The head is wholly missing, something waits behind it, and it was not asked for lately. */
  predicate GapDue(w: Window, interval: nat, now: nat) {
    && w.nextSeq !in w.buffered && w.nextSeq !in w.fragments
    && (w.buffered != map[] || w.fragments != map[])
    && RequestDue(if w.nextSeq in w.gapRequests then Some(w.gapRequests[w.nextSeq]) else None, interval, now)
  }

  predicate AssembliesFit(fragments: map<nat, FragmentAssembly>) {
    forall k :: k in fragments ==> |fragments[k].slots| <= MAX_FRAGMENTS
  }

  /** The assemblies with the listed keys, in that order, until 64 requests are out. */
  function RepairScan(fragments: map<nat, FragmentAssembly>, requests: seq<RepairRequest>, keys: seq<nat>,
                      interval: nat, now: nat): (r: (map<nat, FragmentAssembly>, seq<RepairRequest>))
    requires AssembliesFit(fragments) && forall i :: 0 <= i < |keys| ==> keys[i] in fragments
    ensures r.0.Keys == fragments.Keys && AssembliesFit(r.0)
    decreases |keys|
  {
    if keys == [] then (fragments, requests) else
    var n := |keys| - 1;
    var (marked, issued) := RepairScan(fragments, requests, keys[..n], interval, now);
    var a := marked[keys[n]];
    if |issued| < MAX_REPAIR_REQUESTS_PER_TICK && RequestDue(a.lastRepairRequest, interval, now)
      && MissingMask(a.slots) != 0 then
      (marked[keys[n] := a.(lastRepairRequest := Some(now))], issued + [RepairRequest(keys[n], MissingMask(a.slots))])
    else (marked, issued)
  }

  function GapRequest(w: Window, interval: nat, now: nat): seq<RepairRequest> {
    if GapDue(w, interval, now) then [RepairRequest(w.nextSeq, REPAIR_ALL_FRAGMENTS_MASK)] else []
  }

  function RequestRepairs(w: Window, interval: nat, now: nat): Window
    requires AssembliesFit(w.fragments)
  {
    var (marked, issued) :=
      RepairScan(w.fragments, GapRequest(w, interval, now), SortedKeys(w.fragments.Keys), interval, now);
    w.(gapRequests := if GapDue(w, interval, now) then w.gapRequests[w.nextSeq := now] else w.gapRequests,
       fragments := marked, repairs := w.repairs + issued)
  }
}
