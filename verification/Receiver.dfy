/**
  The receiving task: one step per datagram or timeout, over one flow after
  another. A step is a function of the state; a run is a sequence of steps.
*/
module Receiver {
  import opened ByteStrings
  import opened Sequences
  import opened Wire
  import opened Assembly
  import opened FecRecovery
  import opened Window
  import opened WindowLaws

  const RESTART_BACKWARD_GAP := 4096
  const RESTART_CONFIRM_PACKETS := MAX_FRAGMENTS + 1

  datatype Config = Config(maxReorderDelay: nat, repairInterval: Option<nat>)

  datatype Detector = Detector(count: nat, highestSeq: nat)

  /** What the restart detector is shown: a packet far behind, or something that clears it. */
  datatype Observation = Far(sequence: nat) | Cleared

  datatype Ending = IdleReset | Restarted

  /** A finished flow: the window as it was when the flow ended. */
  datatype Flow = Flow(last: Window, ending: Ending)

  datatype Server = Server(
    initialized: bool, window: Window, detector: Detector, connections: set<nat>,
    flows: seq<Flow>, history: seq<Observation>)

  datatype Event =
    | PacketArrives(connection: nat, packet: Packet, now: nat)
    | FecArrives(frame: FecFrame, now: nat)
    | TimerFires(now: nat)

  const START := Server(false, EmptyWindow(0, []), Detector(0, 0), {}, [], [])

  /** What the datagram parser guarantees. */
  predicate ValidEvent(e: Event) {
    match e
    case PacketArrives(_, packet, _) => ValidHeader(packet.header) && packet.header.sequence <= MAX_MEDIA_SEQUENCE
    case FecArrives(frame, _) => ValidFrame(frame)
    case TimerFires(_) => true
  }

  // ---------------------------------------------------------------- one window's work

  ghost predicate Settled(w: Window) {
    Good(w) && HeadClear(w)
  }

  ghost function AskRepairs(w: Window, config: Config, now: nat): Window
    requires Good(w)
  {
    match config.repairInterval
    case Some(interval) => RequestRepairs(w, interval, now)
    case None => w
  }

  ghost function Advance(w: Window, config: Config, now: nat): (w': Window)
    requires Settled(w)
    ensures Settled(w')
  {
    RecoverFecKeepsGood(w, now);
    var recovered := RecoverFec(w, now);
    if config.repairInterval.Some? then
      RequestRepairsKeepsGood(recovered, config.repairInterval.value, now);
      AdvanceFrom(AskRepairs(recovered, config, now), config, now)
    else
      AdvanceFrom(AskRepairs(recovered, config, now), config, now)
  }

  ghost function AdvanceFrom(w: Window, config: Config, now: nat): (w': Window)
    requires Good(w)
    ensures Settled(w')
  {
    ExpireKeepsGood(w, config.maxReorderDelay, now);
    DrainKeepsGood(Expire(w, config.maxReorderDelay, now));
    Drain(Expire(w, config.maxReorderDelay, now))
  }

  /** Something new is held: recover what parity now allows, move the window on. */
  ghost function RecoverAndAdvance(w: Window, config: Config, now: nat): (w': Window)
    requires Settled(w)
    ensures Settled(w')
  {
    RecoverFecKeepsGood(w, now);
    Advance(RecoverFec(w, now), config, now)
  }

  /** A payload is whole: accept it and see what that allows. */
  ghost function Complete(w: Window, sequence: nat, payload: Bytes, config: Config, now: nat): (w': Window)
    requires Settled(w) && Acceptable(w, sequence)
    ensures Settled(w')
  {
    AcceptKeepsGood(w, sequence, payload, now);
    RecoverAndAdvance(Accept(w, sequence, payload, now), config, now)
  }

  lemma CollectKeepsGood(w: Window, sequence: nat, a: FragmentAssembly)
    requires Settled(w) && w.nextSeq <= sequence <= MAX_MEDIA_SEQUENCE && sequence !in w.buffered
    requires a.Valid() && 1 <= a.received < |a.slots|
    ensures Settled(w.(fragments := w.fragments[sequence := a]))
  {
    NewFragmentsKeepHistory(w, w.fragments[sequence := a]);
    hide Shape, Conserved, AcceptedOnce, RecentSkips, FecOk, SkipsOk;
    assert Ahead(w.(fragments := w.fragments[sequence := a]));
  }

  /** The assembly a fragment belongs to: the one being collected, or a fresh one. */
  function EntryFor(w: Window, h: PacketHeader, now: nat): FragmentAssembly {
    if h.sequence in w.fragments then w.fragments[h.sequence] else EmptyAssembly(h.fragments, now)
  }

  lemma EntryIsValid(w: Window, h: PacketHeader, now: nat)
    requires Good(w) && ValidHeader(h) && h.fragments != 1
    ensures EntryFor(w, h, now).Valid()
  {
    EmptyHasNoneFilled(h.fragments);
  }

  ghost function Collect(w: Window, h: PacketHeader, a: FragmentAssembly, config: Config, now: nat): (w': Window)
    requires Settled(w) && w.nextSeq <= h.sequence <= MAX_MEDIA_SEQUENCE && h.sequence !in w.buffered
    requires a.Valid() && a.received >= 1
    ensures Settled(w')
  {
    FilledIsAll(a.slots);
    if a.IsComplete() then
      DiscardAssemblyKeepsGood(w, h.sequence);
      Complete(w.(fragments := w.fragments - {h.sequence}), h.sequence, Concat(Values(a.slots)), config, now)
    else
      CollectKeepsGood(w, h.sequence, a);
      Advance(w.(fragments := w.fragments[h.sequence := a]), config, now)
  }

  /** A packet at or past the head. */
  ghost function Deliver(w: Window, h: PacketHeader, payload: Bytes, config: Config, now: nat): (w': Window)
    requires Settled(w) && ValidHeader(h) && w.nextSeq <= h.sequence <= MAX_MEDIA_SEQUENCE
    ensures Settled(w')
  {
    if h.sequence in w.seen || h.sequence in w.buffered then w
    else if h.fragments == 1 then
      DiscardAssemblyKeepsGood(w, h.sequence);
      Complete(w.(fragments := w.fragments - {h.sequence}), h.sequence, payload, config, now)
    else
      EntryIsValid(w, h, now);
      var entry := EntryFor(w, h, now);
      if |entry.slots| != h.fragments || entry.Insert(h.fragment, payload).None? then w
      else
        InsertKeepsValid(entry, h.fragment, payload);
        Collect(w, h, entry.Insert(h.fragment, payload).value, config, now)
  }

  // Delivery, branch by branch.

  lemma DeliverIgnores(w: Window, h: PacketHeader, payload: Bytes, config: Config, now: nat)
    requires Settled(w) && ValidHeader(h) && w.nextSeq <= h.sequence <= MAX_MEDIA_SEQUENCE && h.sequence in w.buffered
    ensures Deliver(w, h, payload, config, now) == w
  {
    hide Complete, Collect;
  }

  lemma DeliverIsComplete(w: Window, h: PacketHeader, payload: Bytes, config: Config, now: nat)
    requires Settled(w) && ValidHeader(h) && w.nextSeq <= h.sequence <= MAX_MEDIA_SEQUENCE
    requires h.sequence !in w.buffered && h.fragments == 1
    ensures var w' := w.(fragments := w.fragments - {h.sequence});
      && Settled(w') && Acceptable(w', h.sequence)
      && Deliver(w, h, payload, config, now) == Complete(w', h.sequence, payload, config, now)
  {
    DiscardAssemblyKeepsGood(w, h.sequence);
    hide Complete, Collect;
  }

  lemma DeliverIsCollect(w: Window, h: PacketHeader, payload: Bytes, config: Config, now: nat)
    requires Settled(w) && ValidHeader(h) && w.nextSeq <= h.sequence <= MAX_MEDIA_SEQUENCE
    requires h.sequence !in w.buffered && h.fragments != 1
    ensures EntryFor(w, h, now).Valid()
    ensures |EntryFor(w, h, now).slots| != h.fragments ==> Deliver(w, h, payload, config, now) == w
    ensures |EntryFor(w, h, now).slots| == h.fragments ==>
      match EntryFor(w, h, now).Insert(h.fragment, payload)
      case None => Deliver(w, h, payload, config, now) == w
      case Some(a) =>
        a.Valid() && a.received >= 1 && Deliver(w, h, payload, config, now) == Collect(w, h, a, config, now)
  {
    EntryIsValid(w, h, now);
    if |EntryFor(w, h, now).slots| == h.fragments && EntryFor(w, h, now).Insert(h.fragment, payload).Some? {
      InsertKeepsValid(EntryFor(w, h, now), h.fragment, payload);
    }
    hide Complete, Collect;
  }

  lemma CollectIsComplete(w: Window, h: PacketHeader, a: FragmentAssembly, config: Config, now: nat)
    requires Settled(w) && w.nextSeq <= h.sequence <= MAX_MEDIA_SEQUENCE && h.sequence !in w.buffered
    requires a.Valid() && a.received >= 1 && a.IsComplete()
    ensures AllFilled(a.slots)
    ensures var w' := w.(fragments := w.fragments - {h.sequence});
      && Settled(w') && Acceptable(w', h.sequence)
      && Collect(w, h, a, config, now) == Complete(w', h.sequence, Concat(Values(a.slots)), config, now)
  {
    FilledIsAll(a.slots);
    DiscardAssemblyKeepsGood(w, h.sequence);
    hide Complete, Advance;
  }

  lemma CollectIsAdvance(w: Window, h: PacketHeader, a: FragmentAssembly, config: Config, now: nat)
    requires Settled(w) && w.nextSeq <= h.sequence <= MAX_MEDIA_SEQUENCE && h.sequence !in w.buffered
    requires a.Valid() && a.received >= 1 && !a.IsComplete()
    ensures var w' := w.(fragments := w.fragments[h.sequence := a]);
      Settled(w') && Collect(w, h, a, config, now) == Advance(w', config, now)
  {
    FilledIsAll(a.slots);
    CollectKeepsGood(w, h.sequence, a);
    hide Complete, Advance, Good;
  }

  // ---------------------------------------------------------------- restart detection

  function Bump(d: Detector, sequence: nat): Detector {
    if d.count == 0 || sequence >= d.highestSeq then Detector(d.count + 1, Max(d.highestSeq, sequence))
    else Detector(1, sequence)
  }

  function Observe(d: Detector, sequence: nat, nextSeq: nat): (Detector, bool) {
    if Elapsed(nextSeq, sequence) < RESTART_BACKWARD_GAP then (Detector(0, 0), false)
    else (Bump(d, sequence), Bump(d, sequence).count >= RESTART_CONFIRM_PACKETS)
  }

  function ObservationOf(sequence: nat, nextSeq: nat): Observation {
    if Elapsed(nextSeq, sequence) < RESTART_BACKWARD_GAP then Cleared else Far(sequence)
  }

  // ---------------------------------------------------------------- steps

  /** No flow is under way; parity frames may already have come in. */
  predicate Blank(w: Window) {
    w == EmptyWindow(0, w.repairs).(fec := w.fec) && w.fec.payloads == map[]
  }

  ghost predicate Sound(s: Server) {
    Settled(s.window) && (!s.initialized ==> Blank(s.window) && s.connections == {})
  }

  predicate PendingState(w: Window) {
    w.buffered != map[] || w.fragments != map[] || w.seen != {}
  }

  function CloseFlow(s: Server, ending: Ending, start: nat): Server {
    s.(window := EmptyWindow(start, s.window.repairs), flows := s.flows + [Flow(s.window, ending)])
  }

  ghost function OnTimer(s: Server, config: Config, now: nat): (s': Server)
    requires Sound(s)
    ensures Sound(s')
  {
    if !s.initialized then s
    else if PendingState(s.window) then s.(window := Advance(s.window, config, now))
    else
      EmptyWindowIsGood(0, s.window.repairs);
      CloseFlow(s, IdleReset, 0).(initialized := false, detector := Detector(0, 0), connections := {},
                                  history := s.history + [Cleared])
  }

  function WithFrame(w: Window, frame: FecFrame): Window {
    w.(fec := InsertFrame(w.fec, frame))
  }

  lemma WithFrameIsSettled(w: Window, frame: FecFrame)
    requires Settled(w) && ValidFrame(frame)
    ensures Settled(WithFrame(w, frame)) && (Blank(w) ==> Blank(WithFrame(w, frame)))
  {
    InsertFrameKeepsOk(w.fec, frame);
    NewFecKeepsGood(w, InsertFrame(w.fec, frame));
  }

  /** A parity frame is stored at once, and made use of if a flow is under way. */
  ghost function OnFec(s: Server, frame: FecFrame, config: Config, now: nat): (s': Server)
    requires Sound(s) && ValidFrame(frame)
    ensures Sound(s')
  {
    WithFrameIsSettled(s.window, frame);
    var w := WithFrame(s.window, frame);
    s.(window := if s.initialized then RecoverAndAdvance(w, config, now) else w)
  }

  /** The first packet after start or an idle reset opens a flow at its own number. */
  ghost function Open(s: Server, connection: nat, sequence: nat): (s': Server)
    requires Sound(s) && sequence <= MAX_MEDIA_SEQUENCE
    ensures Sound(s') && s'.initialized
  {
    if s.initialized then s
    else s.(initialized := true, window := s.window.(nextSeq := sequence, start := sequence),
      connections := {connection})
  }

  datatype Classification = InWindow | RestartsFlow | LateAfterSkip | DuplicateBelow

  /** How a packet of an open flow is taken. */
  function Classify(s: Server, connection: nat, sequence: nat): Classification {
    if sequence >= s.window.nextSeq then InWindow
    else if connection !in s.connections && Observe(s.detector, sequence, s.window.nextSeq).1 then RestartsFlow
    else if sequence in s.window.skips.lookup then LateAfterSkip
    else DuplicateBelow
  }

  /** The detector's share of a packet: shown if foreign and behind, cleared if in the window. */
  function Watch(s: Server, connection: nat, sequence: nat): Server {
    if sequence >= s.window.nextSeq then
      s.(detector := Detector(0, 0), history := s.history + [Cleared], connections := s.connections + {connection})
    else if connection in s.connections then s
    else s.(detector := Observe(s.detector, sequence, s.window.nextSeq).0,
            history := s.history + [ObservationOf(sequence, s.window.nextSeq)])
  }

  /** A confirmed restart: everything held is discarded and the packet opens a new flow. */
  ghost function Reopen(s: Server, connection: nat, packet: Packet, config: Config, now: nat): (s': Server)
    requires Sound(s) && s.initialized && ValidHeader(packet.header) && packet.header.sequence <= MAX_MEDIA_SEQUENCE
    ensures Sound(s')
  {
    var h := packet.header;
    EmptyWindowIsGood(h.sequence, s.window.repairs);
    var reopened := CloseFlow(s, Restarted, h.sequence);
    reopened.(connections := {connection}, window := Deliver(reopened.window, h, packet.payload, config, now))
  }

  ghost function OnOpenPacket(s: Server, connection: nat, packet: Packet, config: Config, now: nat): (s': Server)
    requires Sound(s) && s.initialized && ValidHeader(packet.header) && packet.header.sequence <= MAX_MEDIA_SEQUENCE
    ensures Sound(s')
  {
    var h := packet.header;
    var watched := Watch(s, connection, h.sequence);
    match Classify(s, connection, h.sequence)
    case InWindow => watched.(window := Deliver(s.window, h, packet.payload, config, now))
    case RestartsFlow => Reopen(watched, connection, packet, config, now)
    case LateAfterSkip => watched
    case DuplicateBelow => watched
  }

  ghost function OnPacket(s: Server, connection: nat, packet: Packet, config: Config, now: nat): (s': Server)
    requires Sound(s) && ValidHeader(packet.header) && packet.header.sequence <= MAX_MEDIA_SEQUENCE
    ensures Sound(s')
  {
    OnOpenPacket(Open(s, connection, packet.header.sequence), connection, packet, config, now)
  }

  ghost function Step(s: Server, e: Event, config: Config): (s': Server)
    requires Sound(s) && ValidEvent(e)
    ensures Sound(s')
  {
    match e
    case PacketArrives(connection, packet, now) => OnPacket(s, connection, packet, config, now)
    case FecArrives(frame, now) => OnFec(s, frame, config, now)
    case TimerFires(now) => OnTimer(s, config, now)
  }

  predicate ValidEvents(es: seq<Event>) {
    forall i :: 0 <= i < |es| ==> ValidEvent(es[i])
  }

  ghost function Run(s: Server, es: seq<Event>, config: Config): (s': Server)
    requires Sound(s) && ValidEvents(es)
    ensures Sound(s')
  {
    if es == [] then s else Step(Run(s, es[..|es| - 1], config), es[|es| - 1], config)
  }

  lemma RunNext(s: Server, es: seq<Event>, i: nat, config: Config)
    requires Sound(s) && ValidEvents(es) && i < |es|
    ensures ValidEvents(es[..i]) && ValidEvents(es[..i + 1]) && ValidEvent(es[i])
    ensures Run(s, es[..i + 1], config) == Step(Run(s, es[..i], config), es[i], config)
  {
    assert es[..i + 1][..i] == es[..i];
  }
}
