/**
  The sender's cache of recently sent packets, from which repair requests are
  answered, and its table of recent requests, which keeps answers to the same
  request at least ten milliseconds apart. Time is in milliseconds.
*/
module RepairCache {
  import opened ByteStrings
  import opened Wire
  import opened Assembly
  import opened FecRecovery
  import opened Window

  const REPAIR_REQUEST_DEDUP_WINDOW := 10

  datatype CachedFragment = CachedFragment(packet: Bytes, payloadLen: nat)

  datatype CachedPacket = CachedPacket(fragments: seq<CachedFragment>, storedAt: nat)

  type Key = (nat, bv8)

  datatype Cache = Cache(
    ttl: nat, maxPackets: nat, packets: map<nat, CachedPacket>, order: seq<nat>,
    recent: map<Key, nat>, requestOrder: seq<Key>)

  function EmptyCache(ttl: nat, maxPackets: nat): Cache {
    Cache(ttl, maxPackets, map[], [], map[], [])
  }

  // ---------------------------------------------------------------- what each operation computes

  function ExpirePackets(c: Cache, now: nat): Cache
    decreases |c.order|
  {
    if c.order == [] then c else
    var oldest := c.order[0];
    if oldest in c.packets && Elapsed(now, c.packets[oldest].storedAt) < c.ttl then c
    else ExpirePackets(c.(packets := c.packets - {oldest}, order := c.order[1..]), now)
  }

  function EnforcePackets(c: Cache): Cache
    decreases |c.order|
  {
    if |c.packets| <= c.maxPackets || c.order == [] then c
    else EnforcePackets(c.(packets := c.packets - {c.order[0]}, order := c.order[1..]))
  }

  function ExpireRequests(c: Cache, now: nat): Cache
    decreases |c.requestOrder|
  {
    if c.requestOrder == [] then c else
    var oldest := c.requestOrder[0];
    if oldest in c.recent && Elapsed(now, c.recent[oldest]) < REPAIR_REQUEST_DEDUP_WINDOW then c
    else ExpireRequests(c.(recent := c.recent - {oldest}, requestOrder := c.requestOrder[1..]), now)
  }

  /** How many recent requests are remembered. */
  function RequestCap(c: Cache): nat {
    Max(4 * c.maxPackets, 1)
  }

  function EnforceRequests(c: Cache): Cache
    decreases |c.requestOrder|
  {
    if |c.recent| <= RequestCap(c) || c.requestOrder == [] then c
    else EnforceRequests(c.(recent := c.recent - {c.requestOrder[0]}, requestOrder := c.requestOrder[1..]))
  }

  function Insert(c: Cache, sequence: nat, fragments: seq<CachedFragment>, now: nat): Cache {
    if fragments == [] then c else
    EnforcePackets(Added(ExpirePackets(c, now), sequence, fragments, now))
  }

  /** A packet put in: at the back if it is new, in its old place with a new time if not. */
  function Added(c: Cache, sequence: nat, fragments: seq<CachedFragment>, now: nat): Cache {
    c.(packets := c.packets[sequence := CachedPacket(fragments, now)],
       order := if sequence in c.packets then c.order else c.order + [sequence])
  }

  /** The fragments whose mask bits are set, in order. */
  function Selected(fragments: seq<CachedFragment>, mask: bv8): seq<CachedFragment>
    requires |fragments| <= MAX_FRAGMENTS
  {
    if fragments == [] then [] else
    var n := |fragments| - 1;
    Selected(fragments[..n], mask) + (if mask & Bit(n) != 0 then [fragments[n]] else [])
  }

  function KeyOf(request: RepairRequest): Key {
    (request.sequence, request.missingMask)
  }

  /** The table as a lookup finds it, after what has expired is gone. */
  function Current(c: Cache, now: nat): Cache {
    ExpireRequests(ExpirePackets(c, now), now)
  }

  /** The packet is cached and this request was not answered within the window. */
  predicate Answers(c: Cache, request: RepairRequest, now: nat) {
    var c' := Current(c, now);
    && request.sequence in c'.packets
    && !(KeyOf(request) in c'.recent && Elapsed(now, c'.recent[KeyOf(request)]) < REPAIR_REQUEST_DEDUP_WINDOW)
  }

  function AfterRequest(c: Cache, request: RepairRequest, now: nat): Cache {
    var c' := Current(c, now);
    if !Answers(c, request, now) then c' else
    EnforceRequests(Noted(c', request, now))
  }

  function Noted(c: Cache, request: RepairRequest, now: nat): Cache {
    c.(recent := c.recent[KeyOf(request) := now],
       requestOrder := if KeyOf(request) in c.recent then c.requestOrder else c.requestOrder + [KeyOf(request)])
  }

  function Reply(c: Cache, request: RepairRequest, now: nat): seq<CachedFragment>
    requires CacheOk(c)
  {
    if !Answers(c, request, now) then [] else
    CurrentKeepsOk(c, now);
    var packet := Current(c, now).packets[request.sequence];
    if |packet.fragments| == 1 then packet.fragments else Selected(packet.fragments, request.missingMask)
  }

  // ---------------------------------------------------------------- discipline

  /** A queue free of duplicates that lists exactly the keys of its map. */
  ghost predicate QueueOk<K(!new), V>(order: seq<K>, m: map<K, V>) {
    Distinct(order) && forall k :: k in m <==> k in order
  }

  ghost predicate FragmentsOk(packets: map<nat, CachedPacket>) {
    forall s :: s in packets ==> 1 <= |packets[s].fragments| <= MAX_FRAGMENTS
  }

  /** Both queues match their maps, and both limits hold. */
  ghost predicate CacheOk(c: Cache) {
    && QueueOk(c.order, c.packets) && QueueOk(c.requestOrder, c.recent)
    && |c.packets| <= c.maxPackets && |c.recent| <= RequestCap(c)
    && FragmentsOk(c.packets)
  }

  /** Queue and map lose the same n entries, the oldest. */
  ghost predicate DropsFront<K(!new), V>(order: seq<K>, m: map<K, V>, order': seq<K>, m': map<K, V>, n: nat) {
    && n <= |order| && order' == order[n..] && |m'| == |m| - n
    && QueueOk(order', m') && SubMap(m', m)
  }

  lemma EmptyQueue<K(!new), V>(order: seq<K>, m: map<K, V>)
    requires QueueOk(order, m)
    ensures order == [] ==> |m| == 0
  {
    assert order == [] ==> m == map[];
  }

  lemma PopFront<K(!new), V>(order: seq<K>, m: map<K, V>)
    requires order != [] && QueueOk(order, m)
    ensures QueueOk(order[1..], m - {order[0]}) && |m - {order[0]}| == |m| - 1
  {
    assert forall k :: k in order <==> k == order[0] || k in order[1..];
    assert (m - {order[0]}).Keys == m.Keys - {order[0]};
  }

  lemma DropNone<K(!new), V>(order: seq<K>, m: map<K, V>)
    requires QueueOk(order, m)
    ensures DropsFront(order, m, order, m, 0) && (order != [] ==> order[0] in m)
  {
  }

  lemma PopThenDrop<K(!new), V>(order: seq<K>, m: map<K, V>, order': seq<K>, m': map<K, V>, n: nat)
    requires order != [] && QueueOk(order, m)
    requires DropsFront(order[1..], m - {order[0]}, order', m', n)
    ensures DropsFront(order, m, order', m', n + 1)
  {
    PopFront(order, m);
    assert order[1..][n..] == order[n + 1..];
  }

  lemma {:induction false} ExpirePacketsDrops(c: Cache, now: nat) returns (n: nat)
    requires QueueOk(c.order, c.packets)
    ensures var c' := ExpirePackets(c, now);
      DropsFront(c.order, c.packets, c'.order, c'.packets, n) && c' == c.(packets := c'.packets, order := c'.order)
    decreases |c.order|
  {
    DropNone(c.order, c.packets);
    n := 0;
    hide QueueOk, DropsFront;
    if c.order != [] && Elapsed(now, c.packets[c.order[0]].storedAt) >= c.ttl {
      var rest := c.(packets := c.packets - {c.order[0]}, order := c.order[1..]);
      PopFront(c.order, c.packets);
      var m := ExpirePacketsDrops(rest, now);
      var later := ExpirePackets(rest, now);
      assert ExpirePackets(c, now) == later;
      hide ExpirePackets;
      PopThenDrop(c.order, c.packets, later.order, later.packets, m);
      n := m + 1;
    }
  }

  lemma {:induction false} EnforcePacketsDrops(c: Cache) returns (n: nat)
    requires QueueOk(c.order, c.packets)
    ensures var c' := EnforcePackets(c);
      && DropsFront(c.order, c.packets, c'.order, c'.packets, n) && c' == c.(packets := c'.packets, order := c'.order)
      && |c'.packets| <= c.maxPackets && (n > 0 ==> |c'.packets| == c.maxPackets)
    decreases |c.order|
  {
    DropNone(c.order, c.packets);
    n := 0;
    EmptyQueue(c.order, c.packets);
    hide QueueOk, DropsFront;
    if |c.packets| > c.maxPackets {
      var rest := c.(packets := c.packets - {c.order[0]}, order := c.order[1..]);
      PopFront(c.order, c.packets);
      var m := EnforcePacketsDrops(rest);
      var later := EnforcePackets(rest);
      assert EnforcePackets(c) == later;
      hide EnforcePackets;
      PopThenDrop(c.order, c.packets, later.order, later.packets, m);
      n := m + 1;
    }
  }

  lemma {:induction false} ExpireRequestsDrops(c: Cache, now: nat) returns (n: nat)
    requires QueueOk(c.requestOrder, c.recent)
    ensures var c' := ExpireRequests(c, now);
      DropsFront(c.requestOrder, c.recent, c'.requestOrder, c'.recent, n)
        && c' == c.(recent := c'.recent, requestOrder := c'.requestOrder)
    decreases |c.requestOrder|
  {
    DropNone(c.requestOrder, c.recent);
    n := 0;
    hide QueueOk, DropsFront;
    if c.requestOrder != [] && Elapsed(now, c.recent[c.requestOrder[0]]) >= REPAIR_REQUEST_DEDUP_WINDOW {
      var rest := c.(recent := c.recent - {c.requestOrder[0]}, requestOrder := c.requestOrder[1..]);
      PopFront(c.requestOrder, c.recent);
      var m := ExpireRequestsDrops(rest, now);
      var later := ExpireRequests(rest, now);
      assert ExpireRequests(c, now) == later;
      hide ExpireRequests;
      PopThenDrop(c.requestOrder, c.recent, later.requestOrder, later.recent, m);
      n := m + 1;
    }
  }

  lemma {:induction false} EnforceRequestsDrops(c: Cache) returns (n: nat)
    requires QueueOk(c.requestOrder, c.recent)
    ensures var c' := EnforceRequests(c);
      && DropsFront(c.requestOrder, c.recent, c'.requestOrder, c'.recent, n)
      && c' == c.(recent := c'.recent, requestOrder := c'.requestOrder)
      && |c'.recent| <= RequestCap(c) && (n > 0 ==> |c'.recent| == RequestCap(c))
    decreases |c.requestOrder|
  {
    DropNone(c.requestOrder, c.recent);
    n := 0;
    EmptyQueue(c.requestOrder, c.recent);
    hide QueueOk, DropsFront;
    if |c.recent| > RequestCap(c) {
      var rest := c.(recent := c.recent - {c.requestOrder[0]}, requestOrder := c.requestOrder[1..]);
      PopFront(c.requestOrder, c.recent);
      var m := EnforceRequestsDrops(rest);
      var later := EnforceRequests(rest);
      assert EnforceRequests(c) == later;
      hide EnforceRequests;
      PopThenDrop(c.requestOrder, c.recent, later.requestOrder, later.recent, m);
      n := m + 1;
    }
  }

  lemma CurrentKeepsOk(c: Cache, now: nat)
    requires CacheOk(c)
    ensures CacheOk(Current(c, now)) && Current(c, now).ttl == c.ttl && Current(c, now).maxPackets == c.maxPackets
  {
    var n := ExpirePacketsDrops(c, now);
    var m := ExpireRequestsDrops(ExpirePackets(c, now), now);
  }

  lemma EnqueueKeepsQueueOk<K(!new), V>(order: seq<K>, m: map<K, V>, k: K, v: V)
    requires QueueOk(order, m)
    ensures QueueOk(if k in m then order else order + [k], m[k := v])
  {
  }

  lemma FewerFragmentsOk(packets: map<nat, CachedPacket>, fewer: map<nat, CachedPacket>)
    requires FragmentsOk(packets) && SubMap(fewer, packets)
    ensures FragmentsOk(fewer)
  {
  }

  lemma AddedKeepsFragmentsOk(c: Cache, sequence: nat, fragments: seq<CachedFragment>, now: nat)
    requires FragmentsOk(c.packets) && 1 <= |fragments| <= MAX_FRAGMENTS
    ensures FragmentsOk(Added(c, sequence, fragments, now).packets)
  {
  }

  lemma InsertKeepsOk(c: Cache, sequence: nat, fragments: seq<CachedFragment>, now: nat)
    requires CacheOk(c) && |fragments| <= MAX_FRAGMENTS
    ensures var c' := Insert(c, sequence, fragments, now);
      CacheOk(c') && c'.ttl == c.ttl && c'.maxPackets == c.maxPackets
  {
    if fragments != [] {
      var n := ExpirePacketsDrops(c, now);
      var c' := ExpirePackets(c, now);
      FewerFragmentsOk(c.packets, c'.packets);
      AddedKeepsFragmentsOk(c', sequence, fragments, now);
      EnqueueKeepsQueueOk(c'.order, c'.packets, sequence, CachedPacket(fragments, now));
      var added := Added(c', sequence, fragments, now);
      var m := EnforcePacketsDrops(added);
      FewerFragmentsOk(added.packets, EnforcePackets(added).packets);
    }
  }

  lemma AfterRequestKeepsOk(c: Cache, request: RepairRequest, now: nat)
    requires CacheOk(c)
    ensures var c' := AfterRequest(c, request, now);
      CacheOk(c') && c'.ttl == c.ttl && c'.maxPackets == c.maxPackets
  {
    CurrentKeepsOk(c, now);
    var c' := Current(c, now);
    EnqueueKeepsQueueOk(c'.requestOrder, c'.recent, KeyOf(request), now);
    var m := EnforceRequestsDrops(Noted(c', request, now));
  }

  // ---------------------------------------------------------------- the cache, updated in place

  class RepairCache {
    const ttl: nat
    const maxPackets: nat
    var packets: map<nat, CachedPacket>
    var order: seq<nat>
    var recent: map<Key, nat>
    var requestOrder: seq<Key>

    ghost function View(): Cache
      reads this
    {
      Cache(ttl, maxPackets, packets, order, recent, requestOrder)
    }

    constructor (ttl: nat, maxPackets: nat)
      ensures View() == EmptyCache(ttl, maxPackets)
    {
      this.ttl, this.maxPackets := ttl, maxPackets;
      packets, order, recent, requestOrder := map[], [], map[], [];
    }

    method Store(sequence: nat, fragments: seq<CachedFragment>, now: nat)
      modifies `packets, `order
      ensures View() == Insert(old(View()), sequence, fragments, now)
    {
      if fragments == [] {
        return;
      }
      DropExpired(now);
      if sequence !in packets {
        order := order + [sequence];
      }
      packets := packets[sequence := CachedPacket(fragments, now)];
      EnforceLimit();
    }

    method FragmentsFor(request: RepairRequest, now: nat) returns (fragments: seq<CachedFragment>)
      requires CacheOk(View())
      modifies this
      ensures CacheOk(old(View())) && View() == AfterRequest(old(View()), request, now)
      ensures fragments == Reply(old(View()), request, now)
    {
      CurrentKeepsOk(View(), now);
      DropExpired(now);
      DropExpiredRequests(now);
      var key := KeyOf(request);
      if request.sequence !in packets {
        return [];
      }
      if key in recent && Elapsed(now, recent[key]) < REPAIR_REQUEST_DEDUP_WINDOW {
        return [];
      }
      if key !in recent {
        requestOrder := requestOrder + [key];
      }
      recent := recent[key := now];
      EnforceRequestLimit();
      var packet := packets[request.sequence];
      if |packet.fragments| == 1 {
        return packet.fragments;
      }
      fragments := Select(packet.fragments, request.missingMask);
    }

    method Select(all: seq<CachedFragment>, mask: bv8) returns (fragments: seq<CachedFragment>)
      requires |all| <= MAX_FRAGMENTS
      ensures fragments == Selected(all, mask)
    {
      fragments := [];
      for i := 0 to |all|
        invariant fragments == Selected(all[..i], mask)
      {
        assert all[..i + 1][..i] == all[..i];
        if mask & Bit(i) != 0 {
          fragments := fragments + [all[i]];
        }
      }
      assert all[..|all|] == all;
    }

    method DropExpired(now: nat)
      modifies `packets, `order
      ensures View() == ExpirePackets(old(View()), now)
    {
      while order != [] && !(order[0] in packets && Elapsed(now, packets[order[0]].storedAt) < ttl)
        invariant ExpirePackets(View(), now) == ExpirePackets(old(View()), now)
        decreases |order|
      {
        packets := packets - {order[0]};
        order := order[1..];
      }
    }

    method EnforceLimit()
      modifies `packets, `order
      ensures View() == EnforcePackets(old(View()))
    {
      while |packets| > maxPackets && order != []
        invariant EnforcePackets(View()) == EnforcePackets(old(View()))
        decreases |order|
      {
        packets := packets - {order[0]};
        order := order[1..];
      }
    }

    method DropExpiredRequests(now: nat)
      modifies `recent, `requestOrder
      ensures View() == ExpireRequests(old(View()), now)
    {
      while requestOrder != []
        && !(requestOrder[0] in recent && Elapsed(now, recent[requestOrder[0]]) < REPAIR_REQUEST_DEDUP_WINDOW)
        invariant ExpireRequests(View(), now) == ExpireRequests(old(View()), now)
        decreases |requestOrder|
      {
        recent := recent - {requestOrder[0]};
        requestOrder := requestOrder[1..];
      }
    }

    method EnforceRequestLimit()
      modifies `recent, `requestOrder
      ensures View() == EnforceRequests(old(View()))
    {
      while |recent| > Max(4 * maxPackets, 1) && requestOrder != []
        invariant EnforceRequests(View()) == EnforceRequests(old(View()))
        decreases |requestOrder|
      {
        recent := recent - {requestOrder[0]};
        requestOrder := requestOrder[1..];
      }
    }
  }

  // ---------------------------------------------------------------- runs

  datatype Op =
    | Insertion(sequence: nat, fragments: seq<CachedFragment>, now: nat)
    | Request(request: RepairRequest, now: nat)

  datatype Answer = Answer(key: Key, time: nat)

  predicate ValidOps(ops: seq<Op>) {
    && (forall i :: 0 <= i < |ops| && ops[i].Insertion? ==> |ops[i].fragments| <= MAX_FRAGMENTS)
    && forall i, j :: 0 <= i < j < |ops| ==> ops[i].now <= ops[j].now
  }

  function Apply(c: Cache, op: Op): Cache {
    match op
    case Insertion(sequence, fragments, now) => Insert(c, sequence, fragments, now)
    case Request(request, now) => AfterRequest(c, request, now)
  }

  function ApplyAll(c: Cache, ops: seq<Op>): Cache {
    if ops == [] then c else Apply(ApplyAll(c, ops[..|ops| - 1]), ops[|ops| - 1])
  }

  /** The lookups that were answered, in order. */
  function AnswersOf(c: Cache, ops: seq<Op>): seq<Answer> {
    if ops == [] then [] else
    var n := |ops| - 1;
    var before := ApplyAll(c, ops[..n]);
    AnswersOf(c, ops[..n])
    + (if ops[n].Request? && Answers(before, ops[n].request, ops[n].now)
       then [Answer(KeyOf(ops[n].request), ops[n].now)] else [])
  }

  /** Discipline over every run: both queues match their maps, and both limits hold. */
  lemma {:induction false} EveryRunKeepsOk(c: Cache, ops: seq<Op>)
    requires CacheOk(c) && ValidOps(ops)
    ensures CacheOk(ApplyAll(c, ops)) && ApplyAll(c, ops).ttl == c.ttl && ApplyAll(c, ops).maxPackets == c.maxPackets
  {
    if ops != [] {
      var n := |ops| - 1;
      EveryRunKeepsOk(c, ops[..n]);
      match ops[n]
      case Insertion(sequence, fragments, now) => InsertKeepsOk(ApplyAll(c, ops[..n]), sequence, fragments, now);
      case Request(request, now) => AfterRequestKeepsOk(ApplyAll(c, ops[..n]), request, now);
    }
  }
}
