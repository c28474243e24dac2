/**
  Which groups the parity encoder sends out, in closed form over the calls: no account of
  its state, only of which packets are admitted, which follow one another, and where a
  stretch reaches the size asked for.
*/
module GroupsSent {
  import opened ByteStrings
  import opened Sequences
  import opened FecEncoder

  /** The size a group is to reach, as of this call. */
  function SizeAsked(mode: GroupMode, call: Call): nat
    requires mode != Disabled
  {
    if mode.Fixed? then mode.size else call.adaptive
  }

  /** A payload that fits in a frame: its length in 16 bits, and with an MTU in what the header of the frame leaves. */
  predicate Admits(mode: GroupMode, mtu: Option<nat>, call: Call)
    requires mode != Disabled
  {
    var length := |call.source.payload|;
    length <= 65535 && (mtu.Some? ==> length == 0 || length + 10 + 2 * SizeAsked(mode, call) <= mtu.value)
  }

  /** The first call of the group that call n is in. */
  function First(mode: GroupMode, mtu: Option<nat>, calls: seq<Call>, n: nat): (first: nat)
    requires mode != Disabled && n < |calls|
    ensures first <= n
  {
    if n > 0 && Joins(mode, mtu, calls, n) && n - First(mode, mtu, calls, n - 1) < SizeAsked(mode, calls[n - 1]) then
      First(mode, mtu, calls, n - 1)
    else n
  }

  /** Call n is admitted, as the one before it was, and its number is the next. */
  predicate Joins(mode: GroupMode, mtu: Option<nat>, calls: seq<Call>, n: nat)
    requires mode != Disabled && 0 < n < |calls|
  {
    && Admits(mode, mtu, calls[n - 1]) && Admits(mode, mtu, calls[n])
    && calls[n].source.sequence == NextSequence(calls[n - 1].source.sequence)
  }

  /** The group reaches its size with call n. */
  predicate FullAt(mode: GroupMode, mtu: Option<nat>, calls: seq<Call>, n: nat)
    requires mode != Disabled && n < |calls|
  {
    n - First(mode, mtu, calls, n) + 1 >= SizeAsked(mode, calls[n])
  }

  /** The group from its first call to call n. */
  function GroupTo(mode: GroupMode, mtu: Option<nat>, calls: seq<Call>, n: nat): seq<SourcePacket>
    requires mode != Disabled && n < |calls|
  {
    Sources(calls)[First(mode, mtu, calls, n)..n + 1]
  }

  predicate SomeByte(group: seq<SourcePacket>) {
    exists i :: 0 <= i < |group| && |group[i].payload| > 0
  }

  /**
    With `seen` calls made, the group that ends with call n has been sent out: it is full, or
    it has two packets or more and the next call does not join it; and it is not all empty.
  */
  predicate GoesOut(mode: GroupMode, mtu: Option<nat>, calls: seq<Call>, n: nat, seen: nat)
    requires mode != Disabled && n < seen <= |calls|
  {
    && Admits(mode, mtu, calls[n]) && SomeByte(GroupTo(mode, mtu, calls, n))
    && (FullAt(mode, mtu, calls, n)
        || (n > First(mode, mtu, calls, n) && n + 1 < seen && !Joins(mode, mtu, calls, n + 1)))
  }

  /** The groups that end before call n, in order. */
  function GroupsOut(mode: GroupMode, mtu: Option<nat>, calls: seq<Call>, n: nat, seen: nat): seq<seq<SourcePacket>>
    requires mode != Disabled && n <= seen <= |calls|
  {
    if n == 0 then [] else
    GroupsOut(mode, mtu, calls, n - 1, seen)
    + (if GoesOut(mode, mtu, calls, n - 1, seen) then [GroupTo(mode, mtu, calls, n - 1)] else [])
  }

  /** What the encoder still holds after `seen` calls. */
  function Held(mode: GroupMode, mtu: Option<nat>, calls: seq<Call>, seen: nat): seq<SourcePacket>
    requires mode != Disabled && seen <= |calls|
  {
    if seen == 0 || !Admits(mode, mtu, calls[seen - 1]) || FullAt(mode, mtu, calls, seen - 1) then []
    else GroupTo(mode, mtu, calls, seen - 1)
  }

  // ---------------------------------------------------------------- the encoder's own terms

  lemma AdmitsIsNotTooLarge(mode: GroupMode, mtu: Option<nat>, call: Call)
    requires mode != Disabled
    ensures Target(mode, call.adaptive) == Some(SizeAsked(mode, call))
    ensures Admits(mode, mtu, call) <==> !TooLarge(mtu, call.source.payload, SizeAsked(mode, call))
  {
  }

  lemma FlushedIff(group: seq<SourcePacket>)
    ensures Flushed(group) == if SomeByte(group) then [group] else []
  {
    LongestLengthIsMaximum(Payloads(group));
    if SomeByte(group) {
      var i :| 0 <= i < |group| && |group[i].payload| > 0;
      assert |Payloads(group)[i]| > 0;
    } else if group != [] {
      assert forall i :: 0 <= i < |group| ==> |Payloads(group)[i]| == 0;
    }
  }

  // ---------------------------------------------------------------- one call

  lemma {:induction false} EarlierGoOutAlike(mode: GroupMode, mtu: Option<nat>, calls: seq<Call>, n: nat, seen: nat)
    requires mode != Disabled && n < seen < |calls|
    ensures GroupsOut(mode, mtu, calls, n, seen) == GroupsOut(mode, mtu, calls, n, seen + 1)
  {
    if n > 0 {
      EarlierGoOutAlike(mode, mtu, calls, n - 1, seen);
      hide GroupTo, SomeByte, Admits, FullAt, Joins;
    }
  }

  lemma GroupEnds(mode: GroupMode, mtu: Option<nat>, calls: seq<Call>, n: nat)
    requires mode != Disabled && n < |calls|
    ensures var group := GroupTo(mode, mtu, calls, n);
      group != [] && group[|group| - 1] == calls[n].source && |group| == n - First(mode, mtu, calls, n) + 1
  {
    hide First;
  }

  /** Call n joins the group before it, if that is still held, or begins its own. */
  lemma GroupNext(mode: GroupMode, mtu: Option<nat>, calls: seq<Call>, n: nat)
    requires mode != Disabled && n < |calls|
    ensures GroupTo(mode, mtu, calls, n) ==
            (if n > 0 && Joins(mode, mtu, calls, n) && !FullAt(mode, mtu, calls, n - 1)
             then GroupTo(mode, mtu, calls, n - 1) else []) + [calls[n].source]
  {
    hide Joins;
    var sources, first := Sources(calls), First(mode, mtu, calls, n);
    assert sources[first..n + 1] == sources[first..n] + [calls[n].source];
  }

  /** What call n sends out of the group held before it. */
  function SentEarly(mode: GroupMode, mtu: Option<nat>, calls: seq<Call>, n: nat): seq<seq<SourcePacket>>
    requires mode != Disabled && n < |calls|
  {
    var held := Held(mode, mtu, calls, n);
    if held != [] && !Joins(mode, mtu, calls, n) then FlushedOrCleared(held) else []
  }

  /** What call n sends out of its own group. */
  function SentFull(mode: GroupMode, mtu: Option<nat>, calls: seq<Call>, n: nat): seq<seq<SourcePacket>>
    requires mode != Disabled && n < |calls|
  {
    if Admits(mode, mtu, calls[n]) && FullAt(mode, mtu, calls, n) then Flushed(GroupTo(mode, mtu, calls, n)) else []
  }

  lemma HeldIs(mode: GroupMode, mtu: Option<nat>, calls: seq<Call>, n: nat)
    requires mode != Disabled && n < |calls|
    ensures Held(mode, mtu, calls, n) != [] ==>
      && n > 0 && Held(mode, mtu, calls, n) == GroupTo(mode, mtu, calls, n - 1)
      && Admits(mode, mtu, calls[n - 1]) && !FullAt(mode, mtu, calls, n - 1)
      && Held(mode, mtu, calls, n)[|Held(mode, mtu, calls, n)| - 1] == calls[n - 1].source
    ensures n > 0 && Admits(mode, mtu, calls[n - 1]) && !FullAt(mode, mtu, calls, n - 1) ==>
      Held(mode, mtu, calls, n) == GroupTo(mode, mtu, calls, n - 1) && Held(mode, mtu, calls, n) != []
  {
    if n > 0 {
      GroupEnds(mode, mtu, calls, n - 1);
    }
    hide GroupTo, Admits, FullAt;
  }

  lemma RefusedSends(e: Encoder, calls: seq<Call>, n: nat)
    requires e.mode != Disabled && n < |calls| && e.packets == Held(e.mode, e.mtu, calls, n)
    requires !Admits(e.mode, e.mtu, calls[n])
    ensures Held(e.mode, e.mtu, calls, n + 1) == [] && Record(e, calls[n]).0 == e.(packets := [])
    ensures Record(e, calls[n]).1 == SentEarly(e.mode, e.mtu, calls, n) && SentFull(e.mode, e.mtu, calls, n) == []
  {
    AdmitsIsNotTooLarge(e.mode, e.mtu, calls[n]);
    HeldIs(e.mode, e.mtu, calls, n);
    hide Admits, TooLarge, GroupTo, Flushed, Target, First, Held;
    assert Held(e.mode, e.mtu, calls, n + 1) == [] by {
      HeldIs(e.mode, e.mtu, calls, n);
    }
  }

  /** The packets of the group that call n joins or begins, before it and with it. */
  lemma JoinedGroup(e: Encoder, calls: seq<Call>, n: nat)
    requires e.mode != Disabled && n < |calls| && e.packets == Held(e.mode, e.mtu, calls, n)
    requires Admits(e.mode, e.mtu, calls[n])
    ensures Interrupts(e.packets, calls[n].source.sequence) <==>
            e.packets != [] && !Joins(e.mode, e.mtu, calls, n)
    ensures (if Interrupts(e.packets, calls[n].source.sequence) then [] else e.packets) + [calls[n].source] ==
            GroupTo(e.mode, e.mtu, calls, n)
    ensures |GroupTo(e.mode, e.mtu, calls, n)| >= SizeAsked(e.mode, calls[n]) <==> FullAt(e.mode, e.mtu, calls, n)
  {
    HeldIs(e.mode, e.mtu, calls, n);
    GroupNext(e.mode, e.mtu, calls, n);
    GroupEnds(e.mode, e.mtu, calls, n);
    hide Admits, GroupTo, First, Held;
  }

  lemma AdmittedSends(e: Encoder, calls: seq<Call>, n: nat)
    requires e.mode != Disabled && n < |calls| && e.packets == Held(e.mode, e.mtu, calls, n)
    requires Admits(e.mode, e.mtu, calls[n])
    ensures Record(e, calls[n]) ==
            (e.(packets := Held(e.mode, e.mtu, calls, n + 1)),
             SentEarly(e.mode, e.mtu, calls, n) + SentFull(e.mode, e.mtu, calls, n))
  {
    AdmitsIsNotTooLarge(e.mode, e.mtu, calls[n]);
    JoinedGroup(e, calls, n);
    hide Admits, TooLarge, GroupTo, Flushed, FlushedOrCleared, Target, First, Interrupts, FullAt, Joins;
    var early := SentEarly(e.mode, e.mtu, calls, n);
    assert early + [] == early;
  }

  lemma RecordSends(e: Encoder, calls: seq<Call>, n: nat)
    requires e.mode != Disabled && n < |calls| && e.packets == Held(e.mode, e.mtu, calls, n)
    ensures Record(e, calls[n]) ==
            (e.(packets := Held(e.mode, e.mtu, calls, n + 1)),
             SentEarly(e.mode, e.mtu, calls, n) + SentFull(e.mode, e.mtu, calls, n))
  {
    hide Record, Held, SentEarly, SentFull, Admits;
    if Admits(e.mode, e.mtu, calls[n]) {
      AdmittedSends(e, calls, n);
    } else {
      RefusedSends(e, calls, n);
      var early := SentEarly(e.mode, e.mtu, calls, n);
      assert early + [] == early;
    }
  }

  /** What position n contributes to the groups out. */
  function SentAt(mode: GroupMode, mtu: Option<nat>, calls: seq<Call>, n: nat, seen: nat): seq<seq<SourcePacket>>
    requires mode != Disabled && n < seen <= |calls|
  {
    if GoesOut(mode, mtu, calls, n, seen) then [GroupTo(mode, mtu, calls, n)] else []
  }

  lemma LastSends(mode: GroupMode, mtu: Option<nat>, calls: seq<Call>, n: nat)
    requires mode != Disabled && n < |calls|
    ensures SentAt(mode, mtu, calls, n, n + 1) == SentFull(mode, mtu, calls, n)
  {
    FlushedIff(GroupTo(mode, mtu, calls, n));
    hide Admits, GroupTo, Flushed, First, SomeByte, Joins, FullAt;
  }

  lemma BeforeSends(mode: GroupMode, mtu: Option<nat>, calls: seq<Call>, n: nat)
    requires mode != Disabled && 0 < n < |calls|
    ensures SentAt(mode, mtu, calls, n - 1, n + 1) ==
            SentAt(mode, mtu, calls, n - 1, n) + SentEarly(mode, mtu, calls, n)
  {
    FlushedIff(GroupTo(mode, mtu, calls, n - 1));
    HeldIs(mode, mtu, calls, n);
    GroupEnds(mode, mtu, calls, n - 1);
    hide Admits, GroupTo, Flushed, First, SomeByte, Joins, FullAt;
  }

  lemma OutUnfolds(mode: GroupMode, mtu: Option<nat>, calls: seq<Call>, n: nat, seen: nat)
    requires mode != Disabled && n < seen <= |calls|
    ensures GroupsOut(mode, mtu, calls, 0, seen) == []
    ensures GroupsOut(mode, mtu, calls, n + 1, seen) ==
            GroupsOut(mode, mtu, calls, n, seen) + SentAt(mode, mtu, calls, n, seen)
  {
    hide GoesOut, GroupTo;
  }

  lemma NothingEarly(mode: GroupMode, mtu: Option<nat>, calls: seq<Call>)
    requires mode != Disabled && calls != []
    ensures SentEarly(mode, mtu, calls, 0) == []
  {
  }

  /** The groups out after n + 1 calls are those out after n and those that call n sends. */
  lemma OutNext(mode: GroupMode, mtu: Option<nat>, calls: seq<Call>, n: nat)
    requires mode != Disabled && n < |calls|
    ensures GroupsOut(mode, mtu, calls, n + 1, n + 1) ==
            GroupsOut(mode, mtu, calls, n, n) + (SentEarly(mode, mtu, calls, n) + SentFull(mode, mtu, calls, n))
  {
    hide GroupsOut, SentAt, SentFull, SentEarly;
    LastSends(mode, mtu, calls, n);
    OutUnfolds(mode, mtu, calls, n, n + 1);
    if n > 0 {
      EarlierGoOutAlike(mode, mtu, calls, n - 1, n);
      OutUnfolds(mode, mtu, calls, n - 1, n);
      OutUnfolds(mode, mtu, calls, n - 1, n + 1);
      BeforeSends(mode, mtu, calls, n);
    } else {
      NothingEarly(mode, mtu, calls);
      OutOfNone(mode, mtu, calls);
    }
  }

  lemma OutOfNone(mode: GroupMode, mtu: Option<nat>, calls: seq<Call>)
    requires mode != Disabled
    ensures GroupsOut(mode, mtu, calls, 0, 0) == []
  {
  }

  /**
    The groups the encoder sends out over any calls, in every mode but the disabled one and
    with or without an MTU, and what it holds in the end.
  */
  lemma {:induction false} GroupsSentInClosedForm(mode: GroupMode, mtu: Option<nat>, calls: seq<Call>, n: nat)
    requires mode != Disabled && n <= |calls|
    ensures RecordAll(Encoder(mode, mtu, []), calls[..n]) ==
            (Encoder(mode, mtu, Held(mode, mtu, calls, n)), GroupsOut(mode, mtu, calls, n, n))
  {
    hide Record, Held, GroupsOut, SentEarly, SentFull;
    var e := Encoder(mode, mtu, []);
    if n == 0 {
      NothingSentYet(mode, mtu, calls);
    } else {
      GroupsSentInClosedForm(mode, mtu, calls, n - 1);
      RecordOneMore(e, calls[..n - 1], calls[n - 1]);
      assert calls[..n - 1] + [calls[n - 1]] == calls[..n];
      RecordSends(RecordAll(e, calls[..n - 1]).0, calls, n - 1);
      OutNext(mode, mtu, calls, n - 1);
    }
  }

  lemma NothingSentYet(mode: GroupMode, mtu: Option<nat>, calls: seq<Call>)
    requires mode != Disabled
    ensures calls[..0] == [] && Held(mode, mtu, calls, 0) == [] && GroupsOut(mode, mtu, calls, 0, 0) == []
    ensures RecordAll(Encoder(mode, mtu, []), []) == (Encoder(mode, mtu, []), [])
  {
  }

  /** A disabled encoder sends nothing. */
  lemma {:induction false} DisabledSendsNothing(mtu: Option<nat>, calls: seq<Call>)
    ensures RecordAll(Encoder(Disabled, mtu, []), calls) == (Encoder(Disabled, mtu, []), [])
  {
    if calls != [] {
      var e, n := Encoder(Disabled, mtu, []), |calls| - 1;
      DisabledSendsNothing(mtu, calls[..n]);
      RecordQuietly(e, calls[..n], e, calls[n], e, []);
      assert calls[..n] + [calls[n]] == calls;
    }
  }
}
