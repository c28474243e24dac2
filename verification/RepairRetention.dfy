/**
  What the sender's cache keeps: after an insertion, the last packets of the queue up to
  the limit; over runs, exactly what is younger than the time to live and among the last
  packets stored. And which requests it answers.
*/
module RepairRetention {
  import opened ByteStrings
  import opened Wire
  import opened FecRecovery
  import opened Window
  import opened WindowLaws
  import opened RepairCache
  import opened RepairTiming

  // ---------------------------------------------------------------- one insertion

  /** The queue with a number put in: at the end if it is new. */
  function QueueWith(c: Cache, sequence: nat): seq<nat> {
    if sequence in c.packets then c.order else c.order + [sequence]
  }

  /** Everything but the number put in is as it was. */
  ghost predicate KeepsEntries(c: Cache, c': Cache, sequence: nat, packet: CachedPacket) {
    forall s :: s in c'.packets ==>
      if s == sequence then c'.packets[s] == packet else s in c.packets && c'.packets[s] == c.packets[s]
  }

  lemma DroppedToTheLast(order: seq<nat>, packets: map<nat, CachedPacket>, order': seq<nat>,
                         packets': map<nat, CachedPacket>, n: nat, limit: nat)
    requires QueueOk(order, packets) && DropsFront(order, packets, order', packets', n)
    requires |packets'| <= limit && (n > 0 ==> |packets'| == limit)
    ensures order' == LastOf(order, limit) && QueueOk(order', packets') && SubMap(packets', packets)
  {
    QueueLength(order, packets);
    hide QueueOk, SubMap;
  }

  lemma EnforcingKeepsTheLast(c: Cache)
    requires QueueOk(c.order, c.packets)
    ensures var c' := EnforcePackets(c);
      && c'.order == LastOf(c.order, c.maxPackets) && QueueOk(c'.order, c'.packets) && SubMap(c'.packets, c.packets)
      && c' == c.(packets := c'.packets, order := c'.order)
  {
    hide EnforcePackets, QueueOk, DropsFront, SubMap, LastOf;
    var n := EnforcePacketsDrops(c);
    var c' := EnforcePackets(c);
    DroppedToTheLast(c.order, c.packets, c'.order, c'.packets, n, c.maxPackets);
  }

  lemma AddedKeepsEntries(c: Cache, c': Cache, sequence: nat, fragments: seq<CachedFragment>, now: nat)
    requires SubMap(c'.packets, Added(c, sequence, fragments, now).packets)
    ensures KeepsEntries(c, c', sequence, CachedPacket(fragments, now))
  {
  }

  /**
    After an insertion the queue is the last packets, up to the limit, of what had not expired
    and the new number; each of them has the fragments and the time it was stored with.
  */
  lemma InsertKeepsTheLast(c: Cache, sequence: nat, fragments: seq<CachedFragment>, now: nat)
    requires QueueOk(c.order, c.packets) && fragments != []
    ensures var unexpired, c' := ExpirePackets(c, now), Insert(c, sequence, fragments, now);
      && c'.order == LastOf(QueueWith(unexpired, sequence), c.maxPackets) && QueueOk(c'.order, c'.packets)
      && KeepsEntries(unexpired, c', sequence, CachedPacket(fragments, now))
  {
    var n := ExpirePacketsDrops(c, now);
    var unexpired := ExpirePackets(c, now);
    EnqueueKeepsQueueOk(unexpired.order, unexpired.packets, sequence, CachedPacket(fragments, now));
    EnforcingKeepsTheLast(Added(unexpired, sequence, fragments, now));
    AddedKeepsEntries(unexpired, Insert(c, sequence, fragments, now), sequence, fragments, now);
    hide ExpirePackets, EnforcePackets, QueueOk, KeepsEntries;
  }

  lemma YoungSurvives(c: Cache, now: nat, s: nat)
    requires QueueOk(c.order, c.packets) && s in c.packets && Elapsed(now, c.packets[s].storedAt) < c.ttl
    ensures s in ExpirePackets(c, now).packets && ExpirePackets(c, now).packets[s] == c.packets[s]
  {
    var n := ExpiryIsExact(c, now);
    var k :| 0 <= k < |c.order| && c.order[k] == s;
    assert k >= n;
    assert c.order[n..][k - n] == s;
  }

  lemma LastIsKept<T>(s: seq<T>, x: T, n: nat)
    requires n > 0
    ensures x in LastOf(s + [x], n)
  {
    var all := s + [x];
    var last := LastOf(all, n);
    assert last[|last| - 1] == x;
  }

  lemma FewAreKept(c: Cache, now: nat)
    requires CacheOk(c)
    ensures QueueOk(ExpirePackets(c, now).order, ExpirePackets(c, now).packets)
    ensures |ExpirePackets(c, now).order| <= c.maxPackets && ExpirePackets(c, now).ttl == c.ttl
  {
    var n := ExpirePacketsDrops(c, now);
    QueueLength(ExpirePackets(c, now).order, ExpirePackets(c, now).packets);
  }

  /** A packet is found as soon as it is stored, as it was stored. */
  lemma StoredIsFound(c: Cache, sequence: nat, fragments: seq<CachedFragment>, now: nat)
    requires CacheOk(c) && c.ttl > 0 && c.maxPackets > 0 && fragments != []
    ensures var c' := Insert(c, sequence, fragments, now);
      sequence in ExpirePackets(c', now).packets
      && ExpirePackets(c', now).packets[sequence] == CachedPacket(fragments, now)
  {
    InsertKeepsTheLast(c, sequence, fragments, now);
    FewAreKept(c, now);
    var unexpired, c' := ExpirePackets(c, now), Insert(c, sequence, fragments, now);
    if sequence in unexpired.packets {
      assert LastOf(unexpired.order, c.maxPackets) == unexpired.order;
    } else {
      LastIsKept(unexpired.order, sequence, c.maxPackets);
    }
    assert sequence in c'.packets;
    InsertKeepsSettings(c, sequence, fragments, now);
    hide CacheOk, ExpirePackets, EnforcePackets, Insert;
    YoungSurvives(c', now, sequence);
  }

  lemma InsertKeepsSettings(c: Cache, sequence: nat, fragments: seq<CachedFragment>, now: nat)
    requires QueueOk(c.order, c.packets)
    ensures Insert(c, sequence, fragments, now).ttl == c.ttl
    ensures Insert(c, sequence, fragments, now).maxPackets == c.maxPackets
  {
    if fragments != [] {
      var n := ExpirePacketsDrops(c, now);
      var unexpired := ExpirePackets(c, now);
      EnqueueKeepsQueueOk(unexpired.order, unexpired.packets, sequence, CachedPacket(fragments, now));
      var m := EnforcePacketsDrops(Added(unexpired, sequence, fragments, now));
    }
  }

  // ---------------------------------------------------------------- what a run has stored

  datatype Stored = Stored(sequence: nat, fragments: seq<CachedFragment>, time: nat)

  /** One more packet stored: in place of the last if that had the same number. */
  function WithStored(list: seq<Stored>, x: Stored): seq<Stored> {
    if list != [] && list[|list| - 1].sequence == x.sequence then list[..|list| - 1] + [x] else list + [x]
  }

  /** The packets stored by a run, oldest first, whatever has become of them. */
  function StoredBy(ops: seq<Op>): seq<Stored> {
    if ops == [] then [] else StoredAfter(StoredBy(ops[..|ops| - 1]), ops[|ops| - 1])
  }

  function StoredAfter(list: seq<Stored>, op: Op): seq<Stored> {
    if op.Insertion? && op.fragments != [] then WithStored(list, Stored(op.sequence, op.fragments, op.now)) else list
  }

  /** The entries of the queue are those at the end of the list. */
  ghost predicate TailEntries(order: seq<nat>, packets: map<nat, CachedPacket>, list: seq<Stored>) {
    && |order| <= |list|
    && forall i :: 0 <= i < |order| ==>
      var x := list[|list| - |order| + i];
      order[i] == x.sequence && order[i] in packets && packets[order[i]] == CachedPacket(x.fragments, x.time)
  }

  ghost predicate IsTail(order: seq<nat>, packets: map<nat, CachedPacket>, list: seq<Stored>) {
    QueueOk(order, packets) && TailEntries(order, packets, list)
  }

  ghost predicate InTime(list: seq<Stored>, clock: nat) {
    && (forall i, j :: 0 <= i < j < |list| ==> list[i].time <= list[j].time)
    && forall i :: 0 <= i < |list| ==> list[i].time <= clock
  }

  /** Whatever is not kept is beyond the limit or has outlived its time. */
  ghost predicate RestIsPast(kept: nat, list: seq<Stored>, ttl: nat, maxPackets: nat, clock: nat) {
    forall i :: 0 <= i < |list| - kept && i + maxPackets >= |list| ==> list[i].time + ttl <= clock
  }

  ghost predicate Keeps(c: Cache, list: seq<Stored>, clock: nat) {
    IsTail(c.order, c.packets, list) && InTime(list, clock) && RestIsPast(|c.order|, list, c.ttl, c.maxPackets, clock)
  }

  lemma DroppedFront(order: seq<nat>, packets: map<nat, CachedPacket>, order': seq<nat>,
                     packets': map<nat, CachedPacket>, n: nat, list: seq<Stored>)
    requires IsTail(order, packets, list) && DropsFront(order, packets, order', packets', n)
    ensures IsTail(order', packets', list) && |order'| == |order| - n
  {
    forall i | 0 <= i < |order'|
      ensures var x := list[|list| - |order'| + i];
        order'[i] == x.sequence && packets'[order'[i]] == CachedPacket(x.fragments, x.time)
    {
      assert order'[i] == order[n + i];
    }
  }

  /** Storage times, read off the list. */
  lemma TimesAlike(order: seq<nat>, packets: map<nat, CachedPacket>, list: seq<Stored>)
    requires IsTail(order, packets, list)
    ensures forall s :: s in order ==> s in packets
    ensures forall i :: 0 <= i < |order| ==> packets[order[i]].storedAt == list[|list| - |order| + i].time
  {
  }

  /** The n oldest kept have outlived their time: they may go. */
  lemma OverdueArePast(list: seq<Stored>, kept: nat, n: nat, ttl: nat, maxPackets: nat, clock: nat, now: nat)
    requires clock <= now && InTime(list, clock) && RestIsPast(kept, list, ttl, maxPackets, clock)
    requires OverdueInList(list, kept, ttl, now, n)
    ensures InTime(list, now) && RestIsPast(kept - n, list, ttl, maxPackets, now)
  {
  }

  /** From one that is young on, all are. */
  lemma LaterAreYoung(list: seq<Stored>, first: nat, ttl: nat, clock: nat, now: nat)
    requires first <= |list| && InTime(list, clock)
    requires first < |list| ==> Elapsed(now, list[first].time) < ttl
    ensures forall i :: first <= i < |list| ==> Elapsed(now, list[i].time) < ttl
  {
    forall i | first <= i < |list|
      ensures Elapsed(now, list[i].time) < ttl
    {
      assert list[first].time <= list[i].time;
    }
  }

  ghost predicate OverdueInList(list: seq<Stored>, kept: nat, ttl: nat, now: nat, n: nat) {
    && n <= kept <= |list|
    && (forall i :: |list| - kept <= i < |list| - kept + n ==> Elapsed(now, list[i].time) >= ttl)
    && (n < kept ==> Elapsed(now, list[|list| - kept + n].time) < ttl)
  }

  lemma OverdueFromList(order: seq<nat>, packets: map<nat, CachedPacket>, list: seq<Stored>, ttl: nat, now: nat, n: nat)
    requires IsTail(order, packets, list) && OverdueUpTo(order, packets, ttl, now, n)
    ensures OverdueInList(list, |order|, ttl, now, n)
  {
    TimesAlike(order, packets, list);
    hide IsTail;
    var first := |list| - |order|;
    forall i | first <= i < first + n
      ensures Elapsed(now, list[i].time) >= ttl
    {
      assert packets[order[i - first]].storedAt == list[first + (i - first)].time;
    }
    hide Elapsed;
  }

  lemma TailIsQueue(order: seq<nat>, packets: map<nat, CachedPacket>, list: seq<Stored>)
    requires IsTail(order, packets, list)
    ensures QueueOk(order, packets) && |order| <= |list| && forall s :: s in order ==> s in packets
  {
  }

  lemma DroppedLength(order: seq<nat>, packets: map<nat, CachedPacket>, order': seq<nat>,
                      packets': map<nat, CachedPacket>, n: nat)
    requires DropsFront(order, packets, order', packets', n)
    ensures n <= |order| && |order'| == |order| - n
  {
  }

  lemma ExpiryInList(c: Cache, list: seq<Stored>, now: nat) returns (n: nat)
    requires IsTail(c.order, c.packets, list)
    ensures var c' := ExpirePackets(c, now);
      && n <= |c.order| <= |list| && |c'.order| == |c.order| - n && IsTail(c'.order, c'.packets, list)
      && c' == c.(packets := c'.packets, order := c'.order)
    ensures OverdueInList(list, |c.order|, c.ttl, now, n)
  {
    hide ExpirePackets, QueueOk, Elapsed, OverdueUpTo, DropsFront, IsTail, OverdueInList;
    TailIsQueue(c.order, c.packets, list);
    var m := ExpirePacketsDrops(c, now);
    n := ExpiryIsExact(c, now);
    var c' := ExpirePackets(c, now);
    DroppedLength(c.order, c.packets, c'.order, c'.packets, n);
    DroppedFront(c.order, c.packets, c'.order, c'.packets, n, list);
    OverdueFromList(c.order, c.packets, list, c.ttl, now, n);
  }

  ghost predicate AllYoungFrom(list: seq<Stored>, kept: nat, ttl: nat, now: nat) {
    forall i :: 0 <= i < |list| && i + kept >= |list| ==> Elapsed(now, list[i].time) < ttl
  }

  lemma YoungFrom(list: seq<Stored>, kept: nat, n: nat, ttl: nat, clock: nat, now: nat)
    requires OverdueInList(list, kept, ttl, now, n) && InTime(list, clock)
    ensures n <= kept && AllYoungFrom(list, kept - n, ttl, now)
  {
    LaterAreYoung(list, |list| - kept + n, ttl, clock, now);
    hide Elapsed;
  }

  lemma ExpiringKeeps(c: Cache, list: seq<Stored>, clock: nat, now: nat)
    requires Keeps(c, list, clock) && clock <= now
    ensures var c' := ExpirePackets(c, now);
      Keeps(c', list, now) && c' == c.(packets := c'.packets, order := c'.order)
    ensures AllYoungFrom(list, |ExpirePackets(c, now).order|, c.ttl, now)
  {
    hide ExpirePackets, IsTail, InTime, RestIsPast, Elapsed, AllYoungFrom;
    var n := ExpiryInList(c, list, now);
    OverdueArePast(list, |c.order|, n, c.ttl, c.maxPackets, clock, now);
    YoungFrom(list, |c.order|, n, c.ttl, clock, now);
  }

  // ---------------------------------------------------------------- one operation

  lemma LastOfTail(order: seq<nat>, packets: map<nat, CachedPacket>, list: seq<Stored>)
    requires IsTail(order, packets, list) && order != []
    ensures list != [] && order[|order| - 1] == list[|list| - 1].sequence
  {
  }

  lemma AppendedIsTail(order: seq<nat>, packets: map<nat, CachedPacket>, list: seq<Stored>, x: Stored)
    requires IsTail(order, packets, list) && x.sequence !in packets
    ensures IsTail(order + [x.sequence], packets[x.sequence := CachedPacket(x.fragments, x.time)], list + [x])
  {
    EnqueueKeepsQueueOk(order, packets, x.sequence, CachedPacket(x.fragments, x.time));
    TailIsQueue(order, packets, list);
    hide QueueOk;
  }

  lemma TailAt(order: seq<nat>, packets: map<nat, CachedPacket>, list: seq<Stored>, i: nat)
    requires IsTail(order, packets, list) && i < |order|
    ensures |order| <= |list| && order[i] in packets
    ensures var x := list[|list| - |order| + i];
      order[i] == x.sequence && packets[order[i]] == CachedPacket(x.fragments, x.time)
  {
  }

  lemma ReplacedIsQueue(order: seq<nat>, packets: map<nat, CachedPacket>, k: nat, packet: CachedPacket)
    requires QueueOk(order, packets) && order != [] && order[|order| - 1] == k
    ensures QueueOk(order, packets[k := packet])
    ensures forall i :: 0 <= i < |order| - 1 ==> order[i] != k
  {
    EnqueueKeepsQueueOk(order, packets, k, packet);
    LastIsOnce(order);
  }

  lemma ReplacedIsTail(order: seq<nat>, packets: map<nat, CachedPacket>, list: seq<Stored>, x: Stored)
    requires IsTail(order, packets, list) && order != [] && order[|order| - 1] == x.sequence
    ensures IsTail(order, packets[x.sequence := CachedPacket(x.fragments, x.time)], list[..|list| - 1] + [x])
  {
    TailIsQueue(order, packets, list);
    ReplacedIsQueue(order, packets, x.sequence, CachedPacket(x.fragments, x.time));
    var packets', list' := packets[x.sequence := CachedPacket(x.fragments, x.time)], list[..|list| - 1] + [x];
    assert TailEntries(order, packets', list') by {
      hide QueueOk, IsTail;
      forall i | 0 <= i < |order|
        ensures order[i] in packets'
        ensures order[i] == list'[|list'| - |order| + i].sequence
        ensures packets'[order[i]] ==
          CachedPacket(list'[|list'| - |order| + i].fragments, list'[|list'| - |order| + i].time)
      {
        TailAt(order, packets, list, i);
      }
    }
    hide QueueOk, TailEntries;
  }

  lemma LastIsOnce(order: seq<nat>)
    requires Distinct(order) && order != []
    ensures forall i :: 0 <= i < |order| - 1 ==> order[i] != order[|order| - 1]
  {
  }

  /** The number stored last, gone from the cache and stored again, is alone in it. */
  lemma AloneIsTail(packets: map<nat, CachedPacket>, list: seq<Stored>, x: Stored)
    requires IsTail([], packets, list) && list != []
    ensures IsTail([x.sequence], packets[x.sequence := CachedPacket(x.fragments, x.time)], list[..|list| - 1] + [x])
  {
    EnqueueKeepsQueueOk([], packets, x.sequence, CachedPacket(x.fragments, x.time));
  }

  lemma WithStoredInTime(list: seq<Stored>, x: Stored, clock: nat)
    requires InTime(list, clock) && clock <= x.time
    ensures InTime(WithStored(list, x), x.time)
  {
  }

  /** Either way the list ends with the new packet, and all before it is as it was. */
  lemma AddedRestIsPast(list: seq<Stored>, kept: nat, kept': nat, x: Stored, ttl: nat, maxPackets: nat, clock: nat)
    requires RestIsPast(kept, list, ttl, maxPackets, clock) && kept' >= 1
    requires |WithStored(list, x)| - kept' == |list| - kept
      || (|WithStored(list, x)| == |list| && kept == 0 && kept' == 1)
    ensures RestIsPast(kept', WithStored(list, x), ttl, maxPackets, clock)
  {
  }

  /** The new packet is in the tail: the list with it, and the cache with it. */
  ghost predicate AddedIsTail(c: Cache, list: seq<Stored>, x: Stored) {
    var c' := Added(c, x.sequence, x.fragments, x.time);
    && IsTail(c'.order, c'.packets, WithStored(list, x)) && |c'.order| >= 1
    && (|WithStored(list, x)| - |c'.order| == |list| - |c.order|
        || (|WithStored(list, x)| == |list| && |c.order| == 0 && |c'.order| == 1))
  }

  lemma AddedAgain(c: Cache, list: seq<Stored>, x: Stored)
    requires IsTail(c.order, c.packets, list) && x.sequence in c.packets
    requires c.order != [] && c.order[|c.order| - 1] == x.sequence
    ensures AddedIsTail(c, list, x)
  {
    LastOfTail(c.order, c.packets, list);
    ReplacedIsTail(c.order, c.packets, list, x);
    hide IsTail;
  }

  lemma AddedAlone(c: Cache, list: seq<Stored>, x: Stored)
    requires IsTail(c.order, c.packets, list) && x.sequence !in c.packets
    requires list != [] && list[|list| - 1].sequence == x.sequence
    ensures AddedIsTail(c, list, x)
  {
    TailIsQueue(c.order, c.packets, list);
    if c.order != [] {
      LastOfTail(c.order, c.packets, list);
      TailHasLast(c.order, c.packets);
    }
    AloneIsTail(c.packets, list, x);
    hide IsTail;
  }

  lemma AddedNew(c: Cache, list: seq<Stored>, x: Stored)
    requires IsTail(c.order, c.packets, list) && x.sequence !in c.packets
    requires list == [] || list[|list| - 1].sequence != x.sequence
    ensures AddedIsTail(c, list, x)
  {
    AppendedIsTail(c.order, c.packets, list, x);
    hide IsTail;
  }

  lemma AddingKeeps(c: Cache, list: seq<Stored>, sequence: nat, fragments: seq<CachedFragment>, now: nat)
    requires Keeps(c, list, now) && OnlyLast(c.order, c.packets, sequence)
    ensures Keeps(Added(c, sequence, fragments, now), WithStored(list, Stored(sequence, fragments, now)), now)
  {
    hide IsTail, InTime, RestIsPast, WithStored, AddedIsTail;
    var x, c' := Stored(sequence, fragments, now), Added(c, sequence, fragments, now);
    if sequence in c.packets {
      AddedAgain(c, list, x);
    } else if list != [] && list[|list| - 1].sequence == sequence {
      AddedAlone(c, list, x);
    } else {
      AddedNew(c, list, x);
    }
    WithStoredInTime(list, x, now);
    AddedKeepsRest(c, list, x);
  }

  lemma AddedKeepsRest(c: Cache, list: seq<Stored>, x: Stored)
    requires AddedIsTail(c, list, x) && RestIsPast(|c.order|, list, c.ttl, c.maxPackets, x.time)
    ensures var c' := Added(c, x.sequence, x.fragments, x.time);
      && IsTail(c'.order, c'.packets, WithStored(list, x))
      && RestIsPast(|c'.order|, WithStored(list, x), c.ttl, c.maxPackets, x.time)
  {
    hide IsTail, RestIsPast;
    AddedRestIsPast(list, |c.order|, |Added(c, x.sequence, x.fragments, x.time).order|, x, c.ttl, c.maxPackets, x.time);
  }

  lemma TailHasLast(order: seq<nat>, packets: map<nat, CachedPacket>)
    requires order != [] && forall s :: s in order ==> s in packets
    ensures order[|order| - 1] in packets
  {
  }

  lemma EnforcingKeeps(c: Cache, list: seq<Stored>, clock: nat)
    requires Keeps(c, list, clock)
    ensures Keeps(EnforcePackets(c), list, clock)
  {
    hide IsTail, InTime, EnforcePackets, DropsFront;
    TailIsQueue(c.order, c.packets, list);
    var n := EnforcePacketsDrops(c);
    var c' := EnforcePackets(c);
    DroppedFront(c.order, c.packets, c'.order, c'.packets, n, list);
    TailIsQueue(c'.order, c'.packets, list);
    QueueLength(c'.order, c'.packets);
    hide QueueOk;
  }

  lemma LaterKeeps(c: Cache, list: seq<Stored>, clock: nat, now: nat)
    requires Keeps(c, list, clock) && clock <= now
    ensures Keeps(c, list, now)
  {
    hide IsTail;
  }

  lemma InsertionKeeps(c: Cache, list: seq<Stored>, clock: nat, sequence: nat, fragments: seq<CachedFragment>, now: nat)
    requires Keeps(c, list, clock) && clock <= now && fragments != []
    requires NewestOnly(c, Insertion(sequence, fragments, now))
    ensures Keeps(Insert(c, sequence, fragments, now), WithStored(list, Stored(sequence, fragments, now)), now)
  {
    hide Keeps, ExpirePackets, EnforcePackets, WithStored;
    var unexpired := ExpirePackets(c, now);
    ExpiringKeeps(c, list, clock, now);
    NewestAfterExpiry(c, list, clock, sequence, now);
    AddingKeeps(unexpired, list, sequence, fragments, now);
    EnforcingKeeps(Added(unexpired, sequence, fragments, now),
      WithStored(list, Stored(sequence, fragments, now)), now);
  }

  lemma NewestAfterExpiry(c: Cache, list: seq<Stored>, clock: nat, sequence: nat, now: nat)
    requires Keeps(c, list, clock) && OnlyLast(c.order, c.packets, sequence)
    ensures OnlyLast(ExpirePackets(c, now).order, ExpirePackets(c, now).packets, sequence)
  {
    TailIsQueue(c.order, c.packets, list);
    hide ExpirePackets, IsTail, OnlyLast, QueueOk, DropsFront;
    var n := ExpirePacketsDrops(c, now);
    DroppingKeepsOnlyLast(c.order, c.packets, ExpirePackets(c, now).order, ExpirePackets(c, now).packets, n, sequence);
  }

  lemma CurrentPackets(c: Cache, now: nat)
    ensures Current(c, now).packets == ExpirePackets(c, now).packets
      && Current(c, now).order == ExpirePackets(c, now).order
    ensures Current(c, now).ttl == ExpirePackets(c, now).ttl
      && Current(c, now).maxPackets == ExpirePackets(c, now).maxPackets
  {
    ExpireRequestsLeavesPackets(ExpirePackets(c, now), now);
    ExpireRequestsKeepsSettings(ExpirePackets(c, now), now);
    hide ExpireRequests, ExpirePackets;
  }

  lemma {:induction false} ExpireRequestsKeepsSettings(c: Cache, now: nat)
    ensures ExpireRequests(c, now).ttl == c.ttl && ExpireRequests(c, now).maxPackets == c.maxPackets
    decreases |c.requestOrder|
  {
    if c.requestOrder != [] {
      ExpireRequestsKeepsSettings(c.(recent := c.recent - {c.requestOrder[0]}, requestOrder := c.requestOrder[1..]),
        now);
    }
  }

  lemma {:induction false} EnforceRequestsKeepsSettings(c: Cache)
    ensures EnforceRequests(c).ttl == c.ttl && EnforceRequests(c).maxPackets == c.maxPackets
    decreases |c.requestOrder|
  {
    if c.requestOrder != [] {
      EnforceRequestsKeepsSettings(c.(recent := c.recent - {c.requestOrder[0]}, requestOrder := c.requestOrder[1..]));
    }
  }

  lemma SamePacketsKeep(c: Cache, c': Cache, list: seq<Stored>, clock: nat)
    requires Keeps(c, list, clock) && c'.packets == c.packets && c'.order == c.order
    requires c'.ttl == c.ttl && c'.maxPackets == c.maxPackets
    ensures Keeps(c', list, clock)
  {
  }

  lemma RequestKeeps(c: Cache, list: seq<Stored>, clock: nat, request: RepairRequest, now: nat)
    requires Keeps(c, list, clock) && clock <= now
    ensures Keeps(AfterRequest(c, request, now), list, now)
  {
    ExpiringKeeps(c, list, clock, now);
    CurrentPackets(c, now);
    EnforceRequestsLeavesPackets(Noted(Current(c, now), request, now));
    EnforceRequestsKeepsSettings(Noted(Current(c, now), request, now));
    hide Keeps, ExpirePackets, Current, EnforceRequests, Answers;
    SamePacketsKeep(ExpirePackets(c, now), AfterRequest(c, request, now), list, now);
  }

  // ---------------------------------------------------------------- runs

  lemma OpKeeps(c: Cache, list: seq<Stored>, clock: nat, op: Op)
    requires Keeps(c, list, clock) && clock <= op.now && NewestOnly(c, op)
    ensures Keeps(Apply(c, op), StoredAfter(list, op), op.now)
  {
    hide Keeps, NewestOnly, AfterRequest, WithStored, ExpirePackets, EnforcePackets;
    match op
    case Insertion(sequence, fragments, now) =>
      if fragments == [] {
        LaterKeeps(c, list, clock, now);
      } else {
        InsertionKeeps(c, list, clock, sequence, fragments, now);
      }
    case Request(request, now) => RequestKeeps(c, list, clock, request, now);
  }

  lemma NewestOnlyPrefix(c: Cache, ops: seq<Op>)
    requires AllNewestOnly(c, ops) && ops != []
    ensures AllNewestOnly(c, ops[..|ops| - 1]) && NewestOnly(ApplyAll(c, ops[..|ops| - 1]), ops[|ops| - 1])
  {
    var front := ops[..|ops| - 1];
    hide NewestOnly, ApplyAll;
    forall i | 0 <= i < |front|
      ensures NewestOnly(ApplyAll(c, front[..i]), front[i])
    {
      assert front[..i] == ops[..i];
    }
  }

  lemma {:induction false} RunKeeps(ttl: nat, maxPackets: nat, ops: seq<Op>)
    requires ValidOps(ops) && AllNewestOnly(EmptyCache(ttl, maxPackets), ops)
    ensures Keeps(ApplyAll(EmptyCache(ttl, maxPackets), ops), StoredBy(ops), ClockAfter(ops))
  {
    hide Keeps, Apply, NewestOnly, StoredAfter, AllNewestOnly, ValidOps;
    if ops == [] {
      EmptyKeeps(ttl, maxPackets);
    } else {
      var n := |ops| - 1;
      ValidPrefix(ops);
      NewestOnlyPrefix(EmptyCache(ttl, maxPackets), ops);
      RunKeeps(ttl, maxPackets, ops[..n]);
      OpKeeps(ApplyAll(EmptyCache(ttl, maxPackets), ops[..n]), StoredBy(ops[..n]), ClockAfter(ops[..n]), ops[n]);
    }
  }

  lemma EmptyKeeps(ttl: nat, maxPackets: nat)
    ensures Keeps(EmptyCache(ttl, maxPackets), [], 0)
  {
  }

  /** Number i of the list is among the last `maxPackets`, and has not outlived its time. */
  predicate Retained(list: seq<Stored>, i: int, ttl: nat, maxPackets: nat, now: nat) {
    0 <= i < |list| && i + maxPackets >= |list| && now < list[i].time + ttl
  }

  /**
    Over every run that inserts again only the number inserted last: a lookup finds exactly
    what is younger than the time to live and among the last `maxPackets` packets stored, as
    it was stored.
  */
  lemma LookupFindsExactly(ttl: nat, maxPackets: nat, ops: seq<Op>, now: nat, s: nat)
    requires ValidOps(ops) && AllNewestOnly(EmptyCache(ttl, maxPackets), ops) && ClockAfter(ops) <= now
    ensures var list, found := StoredBy(ops), Current(ApplyAll(EmptyCache(ttl, maxPackets), ops), now).packets;
      && (s in found <==> exists i :: Retained(list, i, ttl, maxPackets, now) && list[i].sequence == s)
      && forall i :: Retained(list, i, ttl, maxPackets, now) && list[i].sequence == s ==>
        s in found && found[s] == CachedPacket(list[i].fragments, list[i].time)
  {
    hide Keeps, AllNewestOnly, ApplyAll, ExpirePackets, Current, StoredBy, AllYoungFrom, ValidOps;
    var start, list := EmptyCache(ttl, maxPackets), StoredBy(ops);
    var c := ApplyAll(start, ops);
    RunKeeps(ttl, maxPackets, ops);
    EmptyIsOk(ttl, maxPackets);
    EveryRunKeepsOk(start, ops);
    ExpiringKeeps(c, list, ClockAfter(ops), now);
    CurrentPackets(c, now);
    FewAreKept(c, now);
    KeptIsRetained(ExpirePackets(c, now), list, now);
    hide CacheOk, QueueOk, Retained;
  }

  lemma EmptyIsOk(ttl: nat, maxPackets: nat)
    ensures CacheOk(EmptyCache(ttl, maxPackets))
  {
  }

  lemma KeptIsRetained(c: Cache, list: seq<Stored>, now: nat)
    requires Keeps(c, list, now) && AllYoungFrom(list, |c.order|, c.ttl, now) && |c.order| <= c.maxPackets
    ensures forall s :: s in c.packets ==>
      exists i :: Retained(list, i, c.ttl, c.maxPackets, now) && list[i].sequence == s
    ensures forall i :: Retained(list, i, c.ttl, c.maxPackets, now) ==>
      && list[i].sequence in c.packets
      && c.packets[list[i].sequence] == CachedPacket(list[i].fragments, list[i].time)
  {
    var first := |list| - |c.order|;
    TailIsQueue(c.order, c.packets, list);
    forall s | s in c.packets
      ensures exists i :: Retained(list, i, c.ttl, c.maxPackets, now) && list[i].sequence == s
    {
      var k :| 0 <= k < |c.order| && c.order[k] == s;
      assert Retained(list, first + k, c.ttl, c.maxPackets, now) && list[first + k].sequence == s;
    }
    forall i | Retained(list, i, c.ttl, c.maxPackets, now)
      ensures list[i].sequence in c.packets
      ensures c.packets[list[i].sequence] == CachedPacket(list[i].fragments, list[i].time)
    {
      assert i >= first;
      assert c.order[i - first] == list[first + (i - first)].sequence;
    }
  }

  // ---------------------------------------------------------------- which requests are answered

  /** One of the last `cap` answers was to this request, less than ten milliseconds ago. */
  ghost predicate AnsweredLately(answers: seq<Answer>, key: Key, cap: nat, now: nat) {
    exists i :: JustAnswered(answers, i, key, cap, now)
  }

  predicate JustAnswered(answers: seq<Answer>, i: int, key: Key, cap: nat, now: nat) {
    0 <= i < |answers| && i + cap >= |answers| && answers[i].key == key && now < answers[i].time + 10
  }

  lemma RememberedIff(order: seq<Key>, recent: map<Key, nat>, cap: nat, answers: seq<Answer>, now: nat, key: Key)
    requires Tail(order, recent, cap, answers, now) && |order| <= cap
    ensures key in recent && Elapsed(now, recent[key]) < REPAIR_REQUEST_DEDUP_WINDOW <==>
      AnsweredLately(answers, key, cap, now)
  {
    var first := |answers| - |order|;
    if key in recent && Elapsed(now, recent[key]) < REPAIR_REQUEST_DEDUP_WINDOW {
      var k := RememberedAt(order, recent, answers, first, key);
      TimedBy(answers, now, first + k);
      assert JustAnswered(answers, first + k, key, cap, now);
    }
    if i :| JustAnswered(answers, i, key, cap, now) {
      assert i < first ==> Apart(answers, i, |answers|, now, cap);
      assert Answer(order[i - first], recent[order[i - first]]) == answers[first + (i - first)];
    }
  }

  lemma TimedBy(answers: seq<Answer>, clock: nat, i: nat)
    requires Timed(answers, clock) && i < |answers|
    ensures answers[i].time <= clock
  {
  }

  lemma CurrentTail(c: Cache, answers: seq<Answer>, clock: nat, now: nat)
    requires Disciplined(c, answers, clock) && clock <= now
    ensures Tail(Current(c, now).requestOrder, Current(c, now).recent, RequestCap(c), answers, now)
    ensures |Current(c, now).requestOrder| <= RequestCap(c)
  {
    LaterKeepsTail(c.requestOrder, c.recent, RequestCap(c), answers, clock, now);
    CurrentKeepsOk(c, now);
    var n := ExpirePacketsDrops(c, now);
    hide ExpirePackets, DropsFront, Tail;
    ExpireKeepsTail(ExpirePackets(c, now), RequestCap(c), answers, now);
    QueueLength(Current(c, now).requestOrder, Current(c, now).recent);
    hide ExpireRequests, QueueOk;
  }

  lemma AnswersIs(c: Cache, request: RepairRequest, now: nat)
    ensures var recent, key := Current(c, now).recent, KeyOf(request);
      Answers(c, request, now) <==>
        && request.sequence in Current(c, now).packets
        && !(key in recent && Elapsed(now, recent[key]) < REPAIR_REQUEST_DEDUP_WINDOW)
  {
  }

  /**
    Over every run: a request is answered exactly if its packet is found and none of the last
    max(4 * maxPackets, 1) answers was to the same request less than ten milliseconds ago.
  */
  lemma AnsweredIff(ttl: nat, maxPackets: nat, ops: seq<Op>, request: RepairRequest, now: nat)
    requires ValidOps(ops) && ClockAfter(ops) <= now
    ensures var c, answers := ApplyAll(EmptyCache(ttl, maxPackets), ops), AnswersOf(EmptyCache(ttl, maxPackets), ops);
      Answers(c, request, now) <==>
        && request.sequence in Current(c, now).packets
        && !AnsweredLately(answers, KeyOf(request), Max(4 * maxPackets, 1), now)
  {
    hide Tail, Current, ApplyAll, AnswersOf, AnsweredLately, ValidOps, Disciplined;
    var start := EmptyCache(ttl, maxPackets);
    var c, answers := ApplyAll(start, ops), AnswersOf(start, ops);
    RunKeepsDiscipline(ttl, maxPackets, ops);
    EmptyIsOk(ttl, maxPackets);
    EveryRunKeepsOk(start, ops);
    CurrentTail(c, answers, ClockAfter(ops), now);
    RememberedIff(Current(c, now).requestOrder, Current(c, now).recent, RequestCap(c), answers, now, KeyOf(request));
    hide CacheOk;
    AnswersIs(c, request, now);
  }
}
