/**
  When parity frames stay within the MTU although the suggested group size changes
  from packet to packet. A payload is admitted under the size suggested when it comes;
  the group it joins may be flushed at a larger one. Stated for a sequence of
  suggestions: it is safe, for all payloads, exactly when no stretch of calls that can
  make up a group has a suggestion below the stretch's length that leaves room for a byte.
*/
module AdaptiveMtu {
  import opened ByteStrings
  import opened Sequences
  import opened Wire
  import opened FecEncoder

  predicate ValidSuggestions(sizes: seq<nat>) {
    forall t :: 0 <= t < |sizes| ==> sizes[t] in ADAPTIVE_GROUP_SIZES
  }

  predicate ValidSources(sources: seq<SourcePacket>) {
    forall t :: 0 <= t < |sources| ==> sources[t].sequence <= MAX_MEDIA_SEQUENCE
  }

  function CallsFor(sources: seq<SourcePacket>, sizes: seq<nat>): (calls: seq<Call>)
    requires |sizes| == |sources|
    ensures |calls| == |sources|
  {
    seq(|sources|, (t: nat) requires t < |sources| => Call(sources[t], sizes[t]))
  }

  /** The encoder after the first n calls, and the groups flushed by then. */
  function After(sources: seq<SourcePacket>, sizes: seq<nat>, mtu: nat, n: nat): (Encoder, seq<seq<SourcePacket>>)
    requires n <= |sources| == |sizes|
  {
    RecordAll(Encoder(Adaptive, Some(mtu), []), CallsFor(sources, sizes)[..n])
  }

  lemma AfterNext(sources: seq<SourcePacket>, sizes: seq<nat>, mtu: nat, n: nat)
    requires n < |sources| == |sizes|
    ensures var (before, groups) := After(sources, sizes, mtu, n);
      var (after, more) := Record(before, Call(sources[n], sizes[n]));
      After(sources, sizes, mtu, n + 1) == (after, groups + more)
  {
    assert CallsFor(sources, sizes)[..n + 1][..n] == CallsFor(sources, sizes)[..n];
  }

  /** A flushed group's frame is longer than the MTU. */
  ghost predicate Exceeds(group: seq<SourcePacket>, mtu: nat) {
    group != [] && ValidFrame(FrameFor(group)) && |FecPayload(FrameFor(group))| > mtu
  }

  ghost predicate Overshoots(sources: seq<SourcePacket>, sizes: seq<nat>, mtu: nat)
    requires |sizes| == |sources|
  {
    var groups := After(sources, sizes, mtu, |sources|).1;
    exists g :: 0 <= g < |groups| && Exceeds(groups[g], mtu)
  }

  // ---------------------------------------------------------------- the condition on the suggestions

  /** Calls a to b can be in one group: none before b makes it flush. */
  predicate Grows(sizes: seq<nat>, a: nat, b: nat) {
    a < b < |sizes| && forall t :: a <= t < b ==> t - a + 1 < sizes[t]
  }

  /** And can be a whole one: b makes it flush, or there is a later call that can. */
  predicate CanBeFlushed(sizes: seq<nat>, a: nat, b: nat) {
    Grows(sizes, a, b) && (b - a + 1 >= sizes[b] || b + 1 < |sizes|)
  }

  /** A byte can be admitted under `size` that does not fit in a group of `count`. */
  predicate Room(mtu: nat, size: nat, count: nat) {
    size < count && FEC_FIXED_LEN + 2 * size < mtu < FEC_FIXED_LEN + 2 * count + U16_MAX
  }

  predicate Unsafe(sizes: seq<nat>, mtu: nat, a: nat, b: nat, i: nat) {
    CanBeFlushed(sizes, a, b) && a <= i <= b && Room(mtu, sizes[i], b - a + 1)
  }

  // ---------------------------------------------------------------- where groups come from

  /** Calls a up to but excluding n, each admitted under its own suggestion. */
  predicate Admitted(sources: seq<SourcePacket>, sizes: seq<nat>, mtu: nat, a: nat, n: nat)
    requires a <= n <= |sources| == |sizes|
  {
    forall t :: a <= t < n ==> !TooLarge(Some(mtu), sources[t].payload, sizes[t])
  }

  predicate IsPending(packets: seq<SourcePacket>, sources: seq<SourcePacket>, sizes: seq<nat>, mtu: nat, n: nat)
    requires n <= |sources| == |sizes|
  {
    && |packets| <= n
    && var a := n - |packets|;
      && packets == sources[a..n] && Admitted(sources, sizes, mtu, a, n)
      && forall t :: a <= t < n ==> t - a + 1 < sizes[t]
  }

  predicate IsFlushed(group: seq<SourcePacket>, sources: seq<SourcePacket>, sizes: seq<nat>, mtu: nat, n: nat, a: nat,
                      b: nat)
    requires n <= |sources| == |sizes|
  {
    && Grows(sizes, a, b) && b < n && (b - a + 1 >= sizes[b] || b + 1 < n)
    && group == sources[a..b + 1] && Admitted(sources, sizes, mtu, a, b + 1)
  }

  ghost predicate Originates(group: seq<SourcePacket>, sources: seq<SourcePacket>, sizes: seq<nat>, mtu: nat, n: nat)
    requires n <= |sources| == |sizes|
  {
    LongestLength(Payloads(group)) > 0 && exists a, b :: IsFlushed(group, sources, sizes, mtu, n, a, b)
  }

  ghost predicate AllOriginate(groups: seq<seq<SourcePacket>>, sources: seq<SourcePacket>, sizes: seq<nat>, mtu: nat,
                               n: nat)
    requires n <= |sources| == |sizes|
  {
    forall g :: 0 <= g < |groups| ==> Originates(groups[g], sources, sizes, mtu, n)
  }

  lemma OriginatesLater(group: seq<SourcePacket>, sources: seq<SourcePacket>, sizes: seq<nat>, mtu: nat, n: nat)
    requires n < |sources| == |sizes| && Originates(group, sources, sizes, mtu, n)
    ensures Originates(group, sources, sizes, mtu, n + 1)
  {
    var a, b :| IsFlushed(group, sources, sizes, mtu, n, a, b);
    assert IsFlushed(group, sources, sizes, mtu, n + 1, a, b);
  }

  lemma MoreOriginate(groups: seq<seq<SourcePacket>>, more: seq<seq<SourcePacket>>, sources: seq<SourcePacket>,
                      sizes: seq<nat>, mtu: nat, n: nat)
    requires n < |sources| == |sizes|
    requires AllOriginate(groups, sources, sizes, mtu, n) && AllOriginate(more, sources, sizes, mtu, n + 1)
    ensures AllOriginate(groups + more, sources, sizes, mtu, n + 1)
  {
    forall g | 0 <= g < |groups|
      ensures Originates(groups[g], sources, sizes, mtu, n + 1)
    {
      OriginatesLater(groups[g], sources, sizes, mtu, n);
    }
  }

  /** What is pending, if it is flushed because of the next call. */
  lemma PendingOriginates(packets: seq<SourcePacket>, sources: seq<SourcePacket>, sizes: seq<nat>, mtu: nat, n: nat)
    requires n < |sources| == |sizes| && IsPending(packets, sources, sizes, mtu, n)
    ensures AllOriginate(FlushedOrCleared(packets), sources, sizes, mtu, n + 1)
  {
    if |packets| >= 2 {
      assert IsFlushed(packets, sources, sizes, mtu, n + 1, n - |packets|, n - 1);
    }
  }

  /** The group the next call joins: still pending, or flushed because it is large enough. */
  lemma JoinedOriginates(kept: seq<SourcePacket>, sources: seq<SourcePacket>, sizes: seq<nat>, mtu: nat, n: nat)
    requires n < |sources| == |sizes| && ValidSuggestions(sizes) && IsPending(kept, sources, sizes, mtu, n)
    requires !TooLarge(Some(mtu), sources[n].payload, sizes[n])
    ensures var packets := kept + [sources[n]];
      if |packets| >= sizes[n] then AllOriginate(Flushed(packets), sources, sizes, mtu, n + 1)
      else IsPending(packets, sources, sizes, mtu, n + 1)
  {
    var a, packets := n - |kept|, kept + [sources[n]];
    assert packets == sources[a..n + 1];
    if |packets| >= sizes[n] {
      assert IsFlushed(packets, sources, sizes, mtu, n + 1, a, n);
    }
  }

  /** One call: the pending group stays a stretch of calls, and so is what it flushes. */
  lemma OneCall(packets: seq<SourcePacket>, sources: seq<SourcePacket>, sizes: seq<nat>, mtu: nat, n: nat)
    requires n < |sources| == |sizes| && ValidSuggestions(sizes) && IsPending(packets, sources, sizes, mtu, n)
    ensures var (after, more) := Record(Encoder(Adaptive, Some(mtu), packets), Call(sources[n], sizes[n]));
      && after == Encoder(Adaptive, Some(mtu), after.packets) && IsPending(after.packets, sources, sizes, mtu, n + 1)
      && AllOriginate(more, sources, sizes, mtu, n + 1)
  {
    PendingOriginates(packets, sources, sizes, mtu, n);
    var none: seq<SourcePacket> := [];
    assert IsPending(none, sources, sizes, mtu, n) && IsPending(none, sources, sizes, mtu, n + 1);
    if !TooLarge(Some(mtu), sources[n].payload, sizes[n]) {
      JoinedOriginates(if Interrupts(packets, sources[n].sequence) then none else packets, sources, sizes, mtu, n);
    }
    hide IsPending, Originates, FlushedOrCleared, Flushed, PayloadFits;
  }

  /** After n calls: a pending stretch, and groups that are stretches too. */
  ghost predicate InStretches(sources: seq<SourcePacket>, sizes: seq<nat>, mtu: nat, n: nat)
    requires n <= |sources| == |sizes|
  {
    var (e, groups) := After(sources, sizes, mtu, n);
    && e == Encoder(Adaptive, Some(mtu), e.packets) && IsPending(e.packets, sources, sizes, mtu, n)
    && AllOriginate(groups, sources, sizes, mtu, n)
  }

  lemma NextInStretches(sources: seq<SourcePacket>, sizes: seq<nat>, mtu: nat, n: nat)
    requires n < |sources| == |sizes| && ValidSuggestions(sizes) && InStretches(sources, sizes, mtu, n)
    ensures InStretches(sources, sizes, mtu, n + 1)
  {
    hide Record, IsPending, After, AllOriginate, ValidSuggestions;
    var packets, groups := After(sources, sizes, mtu, n).0.packets, After(sources, sizes, mtu, n).1;
    OneCall(packets, sources, sizes, mtu, n);
    MoreOriginate(groups, Record(Encoder(Adaptive, Some(mtu), packets), Call(sources[n], sizes[n])).1, sources, sizes,
      mtu, n);
    AfterNext(sources, sizes, mtu, n);
  }

  lemma {:induction false} GroupsOriginate(sources: seq<SourcePacket>, sizes: seq<nat>, mtu: nat, n: nat)
    requires n <= |sources| == |sizes| && ValidSuggestions(sizes)
    ensures InStretches(sources, sizes, mtu, n)
  {
    if n == 0 {
      assert CallsFor(sources, sizes)[..0] == [];
    } else {
      hide InStretches;
      GroupsOriginate(sources, sizes, mtu, n - 1);
      NextInStretches(sources, sizes, mtu, n - 1);
    }
  }

  /** The longest payload of an overlong frame was admitted under too small a suggestion. */
  lemma OverlongIsUnsafe(group: seq<SourcePacket>, sources: seq<SourcePacket>, sizes: seq<nat>, mtu: nat, a: nat,
                         b: nat)
    returns (i: nat)
    requires |sources| == |sizes| && IsFlushed(group, sources, sizes, mtu, |sources|, a, b)
    requires LongestLength(Payloads(group)) > 0 && Exceeds(group, mtu)
    ensures Unsafe(sizes, mtu, a, b, i)
  {
    LongestLengthIsMaximum(Payloads(group));
    var k :| 0 <= k < |group| && |Payloads(group)[k]| == LongestLength(Payloads(group));
    i := a + k;
    assert group[k] == sources[i] && !TooLarge(Some(mtu), sources[i].payload, sizes[i]);
  }

  // ---------------------------------------------------------------- a run that overshoots

  /** Empty payloads that start no group, then the stretch with one payload in it, then more of the former. */
  function Witness(count: nat, a: nat, b: nat, i: nat, length: nat): (sources: seq<SourcePacket>)
    ensures |sources| == count
  {
    seq(count, (t: nat) =>
      if a <= t <= b then SourcePacket(5 + t - a, if t == i then Zeros(length) else []) else SourcePacket(0, []))
  }

  function Zeros(length: nat): (zeros: Bytes)
    ensures |zeros| == length
  {
    seq(length, (_: nat) => 0)
  }

  lemma {:induction false} NothingBeforeTheStretch(sizes: seq<nat>, mtu: nat, a: nat, b: nat, i: nat, length: nat,
                                                   n: nat)
    requires ValidSuggestions(sizes) && n <= a <= b < |sizes|
    ensures After(Witness(|sizes|, a, b, i, length), sizes, mtu, n) ==
            (Encoder(Adaptive, Some(mtu), if n == 0 then [] else [SourcePacket(0, [])]), [])
  {
    var sources := Witness(|sizes|, a, b, i, length);
    if n == 0 {
      assert CallsFor(sources, sizes)[..0] == [];
    } else {
      NothingBeforeTheStretch(sizes, mtu, a, b, i, length, n - 1);
      assert sources[n - 1] == SourcePacket(0, []);
      hide RecordAll, After, Witness;
      var pending: seq<SourcePacket> := if n == 1 then [] else [SourcePacket(0, [])];
      StepFrom(sources, sizes, mtu, n - 1, pending);
      AloneIsPending(pending, SourcePacket(0, []), sizes[n - 1], mtu);
    }
  }

  /** A packet that fits and does not continue the pending one, or has none to continue, is pending alone. */
  lemma AloneIsPending(pending: seq<SourcePacket>, source: SourcePacket, size: nat, mtu: nat)
    requires |pending| <= 1 && (pending == [] || Interrupts(pending, source.sequence)) && size >= 2
    requires !TooLarge(Some(mtu), source.payload, size)
    ensures var none: seq<seq<SourcePacket>> := [];
      Record(Encoder(Adaptive, Some(mtu), pending), Call(source, size)) ==
        (Encoder(Adaptive, Some(mtu), [source]), none)
  {
    assert [] + [source] == [source];
  }

  /** A packet that fits and continues the pending group joins it. */
  lemma NextJoins(pending: seq<SourcePacket>, source: SourcePacket, size: nat, mtu: nat)
    requires pending != [] && NextSequence(pending[|pending| - 1].sequence) == source.sequence
    requires !TooLarge(Some(mtu), source.payload, size)
    ensures var none: seq<seq<SourcePacket>> := [];
      var group := pending + [source];
      Record(Encoder(Adaptive, Some(mtu), pending), Call(source, size)) ==
      if |group| < size then (Encoder(Adaptive, Some(mtu), group), none)
        else (Encoder(Adaptive, Some(mtu), []), Flushed(group))
  {
    assert [] + Flushed(pending + [source]) == Flushed(pending + [source]);
  }

  /** One that does not continue it has it flushed. */
  lemma InterruptionFlushes(pending: seq<SourcePacket>, source: SourcePacket, size: nat, mtu: nat)
    requires |pending| >= 2 && Interrupts(pending, source.sequence) && size >= 2
    requires !TooLarge(Some(mtu), source.payload, size)
    ensures Record(Encoder(Adaptive, Some(mtu), pending), Call(source, size)).1 == Flushed(pending)
  {
  }

  /** One call from a state with nothing flushed yet. */
  lemma StepFrom(sources: seq<SourcePacket>, sizes: seq<nat>, mtu: nat, n: nat, pending: seq<SourcePacket>)
    requires n < |sources| == |sizes| && After(sources, sizes, mtu, n) == (Encoder(Adaptive, Some(mtu), pending), [])
    ensures After(sources, sizes, mtu, n + 1) ==
      Record(Encoder(Adaptive, Some(mtu), pending), Call(sources[n], sizes[n]))
  {
    hide Record;
    AfterNext(sources, sizes, mtu, n);
    var (after, more) := Record(Encoder(Adaptive, Some(mtu), pending), Call(sources[n], sizes[n]));
    assert [] + more == more;
  }

  /** The next packet of the stretch continues the packets before it. */
  lemma StretchContinues(count: nat, a: nat, b: nat, i: nat, length: nat, m: nat)
    requires a < m <= b < count && b - a < MAX_FEC_GROUP_PACKETS
    ensures var sources := Witness(count, a, b, i, length);
      var pending := sources[a..m];
      && |pending| == m - a && NextSequence(pending[|pending| - 1].sequence) == sources[m].sequence
      && pending + [sources[m]] == sources[a..m + 1]
  {
    var sources := Witness(count, a, b, i, length);
    assert sources[a..m][m - a - 1] == sources[m - 1];
  }

  lemma WitnessFits(sizes: seq<nat>, mtu: nat, a: nat, b: nat, i: nat, length: nat, t: nat)
    requires t < |sizes| && Fits(sizes, mtu, i, length) && a <= i <= b
    ensures !TooLarge(Some(mtu), Witness(|sizes|, a, b, i, length)[t].payload, sizes[t])
  {
  }

  predicate Fits(sizes: seq<nat>, mtu: nat, i: nat, length: nat) {
    i < |sizes| && length <= U16_MAX && PayloadFits(length, sizes[i], Some(mtu))
  }

  lemma StretchIsShort(sizes: seq<nat>, a: nat, b: nat)
    requires ValidSuggestions(sizes) && Grows(sizes, a, b)
    ensures b - a < MAX_FEC_GROUP_PACKETS
  {
    assert b - 1 - a + 1 < sizes[b - 1];
  }

  lemma StretchStarts(sizes: seq<nat>, mtu: nat, a: nat, b: nat, i: nat, length: nat)
    requires ValidSuggestions(sizes) && Grows(sizes, a, b) && a <= i <= b && Fits(sizes, mtu, i, length)
    ensures var sources := Witness(|sizes|, a, b, i, length);
      After(sources, sizes, mtu, a + 1) == (Encoder(Adaptive, Some(mtu), sources[a..a + 1]), [])
  {
    var sources := Witness(|sizes|, a, b, i, length);
    var pending := if a == 0 then [] else [SourcePacket(0, [])];
    WitnessFits(sizes, mtu, a, b, i, length, a);
    NothingBeforeTheStretch(sizes, mtu, a, b, i, length, a);
    AloneIsPending(pending, sources[a], sizes[a], mtu);
    assert sources[a..a + 1] == [sources[a]];
    hide After, Record, Witness, TooLarge;
    StepFrom(sources, sizes, mtu, a, pending);
  }

  lemma {:induction false} StretchIsPending(sizes: seq<nat>, mtu: nat, a: nat, b: nat, i: nat, length: nat, n: nat)
    requires ValidSuggestions(sizes) && Grows(sizes, a, b) && a < n <= b && a <= i <= b && Fits(sizes, mtu, i, length)
    ensures var sources := Witness(|sizes|, a, b, i, length);
      After(sources, sizes, mtu, n) == (Encoder(Adaptive, Some(mtu), sources[a..n]), [])
  {
    hide After, Record, Witness, TooLarge, ValidSuggestions, Fits, NextSequence, Flushed;
    var sources, m := Witness(|sizes|, a, b, i, length), n - 1;
    if m == a {
      StretchStarts(sizes, mtu, a, b, i, length);
    } else {
      assert m - a + 1 < sizes[m];
      StretchIsShort(sizes, a, b);
      WitnessFits(sizes, mtu, a, b, i, length, m);
      StretchIsPending(sizes, mtu, a, b, i, length, m);
      StretchContinues(|sizes|, a, b, i, length, m);
      NextJoins(sources[a..m], sources[m], sizes[m], mtu);
      StepFrom(sources, sizes, mtu, m, sources[a..m]);
    }
  }

  /** Once the stretch is through, or one call later, it has been flushed whole. */
  lemma StretchIsFlushed(sizes: seq<nat>, mtu: nat, a: nat, b: nat, i: nat, length: nat) returns (n: nat)
    requires ValidSuggestions(sizes) && CanBeFlushed(sizes, a, b) && a <= i <= b && Fits(sizes, mtu, i, length)
      && length > 0
    ensures n <= |sizes|
    ensures var sources := Witness(|sizes|, a, b, i, length); After(sources, sizes, mtu, n).1 == [sources[a..b + 1]]
  {
    hide After, Record, TooLarge, LongestLength, Payloads;
    var sources := Witness(|sizes|, a, b, i, length);
    var group := sources[a..b + 1];
    StretchIsShort(sizes, a, b);
    StretchIsPending(sizes, mtu, a, b, i, length, b);
    StretchIsNotEmpty(sizes, a, b, i, length);
    StretchContinues(|sizes|, a, b, i, length, b);
    WitnessFits(sizes, mtu, a, b, i, length, b);
    NextJoins(sources[a..b], sources[b], sizes[b], mtu);
    StepFrom(sources, sizes, mtu, b, sources[a..b]);
    if b - a + 1 >= sizes[b] {
      n := b + 1;
    } else {
      n := b + 2;
      StretchIsInterrupted(sizes, mtu, a, b, i, length);
      StepFrom(sources, sizes, mtu, b + 1, group);
    }
  }

  lemma StretchIsInterrupted(sizes: seq<nat>, mtu: nat, a: nat, b: nat, i: nat, length: nat)
    requires ValidSuggestions(sizes) && a < b && b + 1 < |sizes| && a <= i <= b && Fits(sizes, mtu, i, length)
    requires b - a < MAX_FEC_GROUP_PACKETS
    ensures var sources := Witness(|sizes|, a, b, i, length);
      var group := sources[a..b + 1];
      Record(Encoder(Adaptive, Some(mtu), group), Call(sources[b + 1], sizes[b + 1])).1 == Flushed(group)
  {
    var sources := Witness(|sizes|, a, b, i, length);
    var group := sources[a..b + 1];
    assert group[b - a] == sources[b];
    WitnessFits(sizes, mtu, a, b, i, length, b + 1);
    hide Record, TooLarge;
    InterruptionFlushes(group, sources[b + 1], sizes[b + 1], mtu);
  }

  lemma StretchIsNotEmpty(sizes: seq<nat>, a: nat, b: nat, i: nat, length: nat)
    requires a <= i <= b < |sizes|
    ensures LongestLength(Payloads(Witness(|sizes|, a, b, i, length)[a..b + 1])) >= length
  {
    var sources := Witness(|sizes|, a, b, i, length);
    var group := sources[a..b + 1];
    assert group[i - a] == sources[i] && |sources[i].payload| == length;
    assert Payloads(group)[i - a] == group[i - a].payload;
    LongestLengthIsMaximum(Payloads(group));
  }

  lemma StretchIsSendable(sizes: seq<nat>, a: nat, b: nat, i: nat, length: nat)
    requires ValidSuggestions(sizes) && Grows(sizes, a, b) && length <= U16_MAX
    ensures Sendable(Witness(|sizes|, a, b, i, length)[a..b + 1])
  {
    var group := Witness(|sizes|, a, b, i, length)[a..b + 1];
    assert sizes[b - 1] in ADAPTIVE_GROUP_SIZES && b - 1 - a + 1 < sizes[b - 1];
    forall t | 0 <= t < |group|
      ensures group[t].sequence == SequenceAfter(5, t)
    {
      SequenceAfterLinear(5, t);
    }
  }

  lemma {:induction false} FlushedStaysFlushed(sources: seq<SourcePacket>, sizes: seq<nat>, mtu: nat, n: nat, m: nat)
    requires n <= m <= |sources| == |sizes|
    ensures After(sources, sizes, mtu, n).1 <= After(sources, sizes, mtu, m).1
    decreases m - n
  {
    hide RecordAll, Record;
    if n < m {
      AfterNext(sources, sizes, mtu, n);
      FlushedStaysFlushed(sources, sizes, mtu, n + 1, m);
    }
  }

  /** An unsafe stretch, with the longest payload its suggestion admits, overshoots. */
  lemma UnsafeOvershoots(sizes: seq<nat>, mtu: nat, a: nat, b: nat, i: nat) returns (sources: seq<SourcePacket>)
    requires ValidSuggestions(sizes) && Unsafe(sizes, mtu, a, b, i)
    ensures |sources| == |sizes| && ValidSources(sources) && Overshoots(sources, sizes, mtu)
  {
    var length := Min(mtu - FEC_FIXED_LEN - 2 * sizes[i], U16_MAX);
    sources := Witness(|sizes|, a, b, i, length);
    var group := sources[a..b + 1];
    StretchIsSendable(sizes, a, b, i, length);
    SendableFrameIsValid(group);
    StretchIsNotEmpty(sizes, a, b, i, length);
    var n := StretchIsFlushed(sizes, mtu, a, b, i, length);
    FlushedStaysFlushed(sources, sizes, mtu, n, |sizes|);
    assert Exceeds(group, mtu);
    hide After, Exceeds;
    assert After(sources, sizes, mtu, |sizes|).1[0] == group;
    WitnessIsValid(sizes, a, b, i, length);
  }

  lemma WitnessIsValid(sizes: seq<nat>, a: nat, b: nat, i: nat, length: nat)
    requires ValidSuggestions(sizes) && Grows(sizes, a, b)
    ensures ValidSources(Witness(|sizes|, a, b, i, length))
  {
    assert sizes[b - 1] in ADAPTIVE_GROUP_SIZES && b - 1 - a + 1 < sizes[b - 1];
  }

  // ---------------------------------------------------------------- the exact condition

  /**
    With adaptive group sizes, some packets make a parity frame longer than the MTU exactly
    when the suggestions contain an unsafe stretch. In particular every frame fits, for
    all packets, if each suggestion is at least the size of every group that can span it.
  */
  lemma FramesFitIffSuggestionsSafe(sizes: seq<nat>, mtu: nat)
    requires ValidSuggestions(sizes)
    ensures (exists sources :: |sources| == |sizes| && ValidSources(sources) && Overshoots(sources, sizes, mtu)) <==>
            (exists a, b, i :: Unsafe(sizes, mtu, a, b, i))
  {
    if a, b, i :| Unsafe(sizes, mtu, a, b, i) {
      var sources := UnsafeOvershoots(sizes, mtu, a, b, i);
    }
    forall sources | |sources| == |sizes| && ValidSources(sources) && Overshoots(sources, sizes, mtu)
      ensures exists a, b, i :: Unsafe(sizes, mtu, a, b, i)
    {
      SomeStretchIsUnsafe(sources, sizes, mtu);
    }
  }

  lemma SomeStretchIsUnsafe(sources: seq<SourcePacket>, sizes: seq<nat>, mtu: nat)
    requires |sources| == |sizes| && ValidSuggestions(sizes) && Overshoots(sources, sizes, mtu)
    ensures exists a, b, i :: Unsafe(sizes, mtu, a, b, i)
  {
    hide After, Exceeds, Unsafe, IsFlushed;
    var groups := After(sources, sizes, mtu, |sources|).1;
    var g :| 0 <= g < |groups| && Exceeds(groups[g], mtu);
    GroupsOriginate(sources, sizes, mtu, |sources|);
    assert Originates(groups[g], sources, sizes, mtu, |sources|);
    var a, b :| IsFlushed(groups[g], sources, sizes, mtu, |sources|, a, b);
    var i := OverlongIsUnsafe(groups[g], sources, sizes, mtu, a, b);
  }

  /** Frames fit while every suggestion is at least the size of each group that can span it. */
  lemma SafeWhileGroupsStaySmall(sources: seq<SourcePacket>, sizes: seq<nat>, mtu: nat)
    requires |sources| == |sizes| && ValidSuggestions(sizes)
    requires forall a, b, i :: CanBeFlushed(sizes, a, b) && a <= i <= b ==> sizes[i] >= b - a + 1
    ensures !Overshoots(sources, sizes, mtu)
  {
    if Overshoots(sources, sizes, mtu) {
      SomeStretchIsUnsafe(sources, sizes, mtu);
    }
  }

  /** A rise: one byte admitted for groups of three is carried into a group of six. */
  lemma RisingSuggestionOvershoots() returns (sources: seq<SourcePacket>)
    ensures |sources| == 6 && ValidSources(sources) && Overshoots(sources, [3, 6, 6, 6, 6, 6], 17)
  {
    sources := UnsafeOvershoots([3, 6, 6, 6, 6, 6], 17, 0, 5, 0);
  }

  /** A fall: a group of five, waiting to be six, takes in one byte admitted for groups of three. */
  lemma FallingSuggestionOvershoots() returns (sources: seq<SourcePacket>)
    ensures |sources| == 6 && ValidSources(sources) && Overshoots(sources, [6, 6, 6, 6, 6, 3], 17)
  {
    sources := UnsafeOvershoots([6, 6, 6, 6, 6, 3], 17, 0, 5, 5);
  }

  /** A suggestion that never changes is safe. */
  lemma ConstantSuggestionIsSafe(sources: seq<SourcePacket>, sizes: seq<nat>, size: nat, mtu: nat)
    requires |sources| == |sizes| && ValidSuggestions(sizes) && forall t :: 0 <= t < |sizes| ==> sizes[t] == size
    ensures !Overshoots(sources, sizes, mtu)
  {
    forall a, b, i | CanBeFlushed(sizes, a, b) && a <= i <= b
      ensures sizes[i] >= b - a + 1
    {
      assert b - 1 - a + 1 < sizes[b - 1];
    }
    SafeWhileGroupsStaySmall(sources, sizes, mtu);
  }
}
