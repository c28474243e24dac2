/**
  Timing of the repair cache over whole runs with a clock that never goes back:
  how far apart equal requests are answered, and when an answer can be stale.
*/
module RepairTiming {
  import opened ByteStrings
  import opened Wire
  import opened FecRecovery
  import opened Window
  import opened RepairCache

  // ---------------------------------------------------------------- spacing of answers

  /** Since `earlier`, ten milliseconds have passed or more than the cap of answers were given. */
  predicate Apart(answers: seq<Answer>, i: nat, j: nat, time: nat, cap: nat)
    requires i < |answers|
  {
    Elapsed(time, answers[i].time) >= REPAIR_REQUEST_DEDUP_WINDOW || j > i + cap
  }

  /** Answers to the same request are ten milliseconds, or more than the cap of answers, apart. */
  ghost predicate Spaced(answers: seq<Answer>, cap: nat) {
    forall i, j :: 0 <= i < j < |answers| && answers[i].key == answers[j].key ==>
      Apart(answers, i, j, answers[j].time, cap)
  }

  ghost predicate Timed(answers: seq<Answer>, clock: nat) {
    && (forall i, j :: 0 <= i < j < |answers| ==> answers[i].time <= answers[j].time)
    && forall i :: 0 <= i < |answers| ==> answers[i].time <= clock
  }

  /** The k-th remembered request is the answer number `first + k`. */
  ghost predicate Remembers(order: seq<Key>, recent: map<Key, nat>, answers: seq<Answer>, first: nat) {
    && first + |order| == |answers|
    && forall k :: 0 <= k < |order| ==> order[k] in recent && Answer(order[k], recent[order[k]]) == answers[first + k]
  }

  /** Every answer before number `first` is out of the way. */
  ghost predicate OutOfTheWay(answers: seq<Answer>, first: nat, clock: nat, cap: nat) {
    forall i :: 0 <= i < first && i < |answers| ==> Apart(answers, i, |answers|, clock, cap)
  }

  /** The table is the tail of the answers given; whatever is no longer in it is out of the way. */
  ghost predicate Tail(order: seq<Key>, recent: map<Key, nat>, cap: nat, answers: seq<Answer>, clock: nat) {
    && QueueOk(order, recent) && Timed(answers, clock)
    && |order| <= |answers|
    && Remembers(order, recent, answers, |answers| - |order|)
    && OutOfTheWay(answers, |answers| - |order|, clock, cap)
  }

  lemma {:induction false} QueueLength<K(!new), V>(order: seq<K>, m: map<K, V>)
    requires QueueOk(order, m)
    ensures |order| == |m|
    decreases |order|
  {
    EmptyQueue(order, m);
    if order != [] {
      PopFront(order, m);
      QueueLength(order[1..], m - {order[0]});
    }
  }

  lemma RememberFewer(order: seq<Key>, recent: map<Key, nat>, answers: seq<Answer>, first: nat)
    requires order != [] && QueueOk(order, recent) && Remembers(order, recent, answers, first)
    ensures Remembers(order[1..], recent - {order[0]}, answers, first + 1)
  {
    forall k | 0 <= k < |order| - 1
      ensures order[1..][k] in recent - {order[0]}
      ensures Answer(order[1..][k], (recent - {order[0]})[order[1..][k]]) == answers[first + 1 + k]
    {
      assert order[1..][k] == order[k + 1] && order[k + 1] in recent;
    }
  }

  /** The oldest entry may be forgotten once it is out of the way. */
  lemma ForgetOldest(order: seq<Key>, recent: map<Key, nat>, cap: nat, answers: seq<Answer>, clock: nat)
    requires Tail(order, recent, cap, answers, clock) && order != []
    requires Apart(answers, |answers| - |order|, |answers|, clock, cap)
    ensures Tail(order[1..], recent - {order[0]}, cap, answers, clock)
  {
    PopFront(order, recent);
    var first := |answers| - |order|;
    RememberFewer(order, recent, answers, first);
    OneMoreOutOfTheWay(answers, first, clock, cap);
    assert |order[1..]| == |order| - 1;
  }

  lemma OneMoreOutOfTheWay(answers: seq<Answer>, first: nat, clock: nat, cap: nat)
    requires OutOfTheWay(answers, first, clock, cap) && first < |answers|
      && Apart(answers, first, |answers|, clock, cap)
    ensures OutOfTheWay(answers, first + 1, clock, cap)
  {
  }

  lemma OldestIsRemembered(order: seq<Key>, recent: map<Key, nat>, cap: nat, answers: seq<Answer>, clock: nat)
    requires Tail(order, recent, cap, answers, clock) && order != []
    ensures order[0] in recent && answers[|answers| - |order|].time == recent[order[0]]
  {
    assert order[0] in recent && Answer(order[0], recent[order[0]]) == answers[|answers| - |order|];
  }

  lemma {:induction false} ExpireKeepsTail(c: Cache, cap: nat, answers: seq<Answer>, clock: nat)
    requires Tail(c.requestOrder, c.recent, cap, answers, clock)
    ensures var c' := ExpireRequests(c, clock);
      && Tail(c'.requestOrder, c'.recent, cap, answers, clock) && c'.packets == c.packets
      && RequestCap(c') == RequestCap(c)
      && (c'.requestOrder != [] ==> Elapsed(clock, c'.recent[c'.requestOrder[0]]) < REPAIR_REQUEST_DEDUP_WINDOW)
    decreases |c.requestOrder|
  {
    if c.requestOrder != [] {
      OldestIsRemembered(c.requestOrder, c.recent, cap, answers, clock);
      if Elapsed(clock, c.recent[c.requestOrder[0]]) >= REPAIR_REQUEST_DEDUP_WINDOW {
        ForgetOldest(c.requestOrder, c.recent, cap, answers, clock);
        ExpireKeepsTail(c.(recent := c.recent - {c.requestOrder[0]}, requestOrder := c.requestOrder[1..]), cap, answers,
          clock);
      }
    }
  }

  lemma {:induction false} EnforceKeepsTail(c: Cache, answers: seq<Answer>, clock: nat)
    requires Tail(c.requestOrder, c.recent, RequestCap(c), answers, clock)
    ensures var c' := EnforceRequests(c);
      Tail(c'.requestOrder, c'.recent, RequestCap(c), answers, clock) && RequestCap(c') == RequestCap(c)
    decreases |c.requestOrder|
  {
    QueueLength(c.requestOrder, c.recent);
    if |c.recent| > RequestCap(c) {
      ForgetOldest(c.requestOrder, c.recent, RequestCap(c), answers, clock);
      EnforceKeepsTail(c.(recent := c.recent - {c.requestOrder[0]}, requestOrder := c.requestOrder[1..]), answers,
        clock);
    }
  }

  lemma RememberedAt(order: seq<Key>, recent: map<Key, nat>, answers: seq<Answer>, first: nat, key: Key)
    returns (k: nat)
    requires QueueOk(order, recent) && Remembers(order, recent, answers, first) && key in recent
    ensures k < |order| && order[k] == key && Answer(key, recent[key]) == answers[first + k]
  {
    k :| 0 <= k < |order| && order[k] == key;
  }

  /** After expiry every remembered request is younger than the window: the table is in order of time. */
  lemma RememberedAreFresh(order: seq<Key>, recent: map<Key, nat>, cap: nat, answers: seq<Answer>, clock: nat, key: Key)
    requires Tail(order, recent, cap, answers, clock) && key in recent
    requires order != [] && order[0] in recent && Elapsed(clock, recent[order[0]]) < REPAIR_REQUEST_DEDUP_WINDOW
    ensures Elapsed(clock, recent[key]) < REPAIR_REQUEST_DEDUP_WINDOW
  {
    var first := |answers| - |order|;
    OldestIsRemembered(order, recent, cap, answers, clock);
    var k := RememberedAt(order, recent, answers, first, key);
    assert k > 0 ==> answers[first].time <= answers[first + k].time;
  }

  lemma LaterKeepsTail(order: seq<Key>, recent: map<Key, nat>, cap: nat, answers: seq<Answer>, clock: nat, now: nat)
    requires Tail(order, recent, cap, answers, clock) && clock <= now
    ensures Tail(order, recent, cap, answers, now)
  {
    forall i | 0 <= i < |answers| - |order|
      ensures Apart(answers, i, |answers|, now, cap)
    {
      assert Apart(answers, i, |answers|, clock, cap);
    }
  }

  lemma RememberOneMore(order: seq<Key>, recent: map<Key, nat>, answers: seq<Answer>, first: nat, key: Key, now: nat)
    requires QueueOk(order, recent) && Remembers(order, recent, answers, first) && key !in recent
    ensures Remembers(order + [key], recent[key := now], answers + [Answer(key, now)], first)
  {
    forall k | 0 <= k < |order|
      ensures order[k] in recent[key := now]
      ensures Answer(order[k], recent[key := now][order[k]]) == answers[first + k]
    {
      assert order[k] in recent && order[k] != key;
    }
  }

  lemma StillOutOfTheWay(answers: seq<Answer>, first: nat, clock: nat, cap: nat, answer: Answer)
    requires OutOfTheWay(answers, first, clock, cap) && first <= |answers|
    ensures OutOfTheWay(answers + [answer], first, clock, cap)
  {
    var more := answers + [answer];
    forall i | 0 <= i < first
      ensures Apart(more, i, |more|, clock, cap)
    {
      assert Apart(answers, i, |answers|, clock, cap) && more[i] == answers[i];
    }
  }

  lemma NotingKeepsTail(order: seq<Key>, recent: map<Key, nat>, cap: nat, answers: seq<Answer>, key: Key, now: nat)
    requires Tail(order, recent, cap, answers, now) && key !in recent
    ensures Tail(order + [key], recent[key := now], cap, answers + [Answer(key, now)], now)
  {
    var first := |answers| - |order|;
    EnqueueKeepsQueueOk(order, recent, key, now);
    TimedOneMore(answers, key, now);
    NotingRemembers(order, recent, cap, answers, key, now, first);
    MakeTail(order + [key], recent[key := now], cap, answers + [Answer(key, now)], now, first);
  }

  lemma NotingRemembers(order: seq<Key>, recent: map<Key, nat>, cap: nat, answers: seq<Answer>, key: Key, now: nat,
                        first: nat)
    requires Tail(order, recent, cap, answers, now) && key !in recent && first == |answers| - |order|
    ensures Remembers(order + [key], recent[key := now], answers + [Answer(key, now)], first)
    ensures OutOfTheWay(answers + [Answer(key, now)], first, now, cap)
  {
    RememberOneMore(order, recent, answers, first, key, now);
    StillOutOfTheWay(answers, first, now, cap, Answer(key, now));
  }

  lemma TimedOneMore(answers: seq<Answer>, key: Key, now: nat)
    requires Timed(answers, now)
    ensures Timed(answers + [Answer(key, now)], now)
  {
  }

  lemma MakeTail(order: seq<Key>, recent: map<Key, nat>, cap: nat, answers: seq<Answer>, clock: nat, first: nat)
    requires QueueOk(order, recent) && Timed(answers, clock) && first + |order| == |answers|
    requires Remembers(order, recent, answers, first) && OutOfTheWay(answers, first, clock, cap)
    ensures Tail(order, recent, cap, answers, clock)
  {
  }

  lemma NewAnswerIsSpaced(order: seq<Key>, recent: map<Key, nat>, cap: nat, answers: seq<Answer>, key: Key, now: nat)
    requires Tail(order, recent, cap, answers, now) && key !in recent && Spaced(answers, cap)
    ensures Spaced(answers + [Answer(key, now)], cap)
  {
    var more, first := answers + [Answer(key, now)], |answers| - |order|;
    forall i, j | 0 <= i < j < |more| && more[i].key == more[j].key
      ensures Apart(more, i, j, more[j].time, cap)
    {
      if j < |answers| {
        assert Apart(answers, i, j, answers[j].time, cap);
      } else {
        assert i >= first ==>
          order[i - first] in recent && Answer(order[i - first], recent[order[i - first]]) == answers[i];
        assert Apart(answers, i, |answers|, now, cap);
      }
    }
  }

  lemma InsertLeavesRequests(c: Cache, sequence: nat, fragments: seq<CachedFragment>, now: nat)
    requires CacheOk(c) && |fragments| <= MAX_FRAGMENTS
    ensures var c' := Insert(c, sequence, fragments, now);
      c'.requestOrder == c.requestOrder && c'.recent == c.recent && CacheOk(c') && RequestCap(c') == RequestCap(c)
  {
    InsertKeepsOk(c, sequence, fragments, now);
    if fragments != [] {
      var n := ExpirePacketsDrops(c, now);
      var c' := ExpirePackets(c, now);
      EnqueueKeepsQueueOk(c'.order, c'.packets, sequence, CachedPacket(fragments, now));
      var m := EnforcePacketsDrops(Added(c', sequence, fragments, now));
    }
  }

  /** The answers given once a request has been handled. */
  function AnswersAfter(c: Cache, answers: seq<Answer>, request: RepairRequest, now: nat): seq<Answer> {
    if Answers(c, request, now) then answers + [Answer(KeyOf(request), now)] else answers
  }

  lemma RequestKeepsTail(c: Cache, answers: seq<Answer>, request: RepairRequest, now: nat)
    requires CacheOk(c) && Tail(c.requestOrder, c.recent, RequestCap(c), answers, now) && Spaced(answers, RequestCap(c))
    ensures var c', more := AfterRequest(c, request, now), AnswersAfter(c, answers, request, now);
      Tail(c'.requestOrder, c'.recent, RequestCap(c), more, now) && Spaced(more, RequestCap(c))
  {
    var n := ExpirePacketsDrops(c, now);
    ExpireKeepsTail(ExpirePackets(c, now), RequestCap(c), answers, now);
    var c', key := Current(c, now), KeyOf(request);
    if Answers(c, request, now) {
      if key in c'.recent {
        RememberedAreFresh(c'.requestOrder, c'.recent, RequestCap(c), answers, now, key);
      }
      NewAnswerIsSpaced(c'.requestOrder, c'.recent, RequestCap(c), answers, key, now);
      NotingKeepsTail(c'.requestOrder, c'.recent, RequestCap(c), answers, key, now);
      EnforceKeepsTail(Noted(c', request, now), answers + [Answer(key, now)], now);
    }
  }

  /** The time of the last operation. */
  function ClockAfter(ops: seq<Op>): nat {
    if ops == [] then 0 else ops[|ops| - 1].now
  }

  /** What holds of a cache and the answers it has given. */
  ghost predicate Disciplined(c: Cache, answers: seq<Answer>, clock: nat) {
    CacheOk(c) && Tail(c.requestOrder, c.recent, RequestCap(c), answers, clock) && Spaced(answers, RequestCap(c))
  }

  lemma InsertionKeepsDiscipline(c: Cache, answers: seq<Answer>, sequence: nat, fragments: seq<CachedFragment>,
                                 now: nat)
    requires Disciplined(c, answers, now) && |fragments| <= MAX_FRAGMENTS
    ensures Disciplined(Insert(c, sequence, fragments, now), answers, now)
  {
    InsertLeavesRequests(c, sequence, fragments, now);
  }

  lemma RequestKeepsDiscipline(c: Cache, answers: seq<Answer>, request: RepairRequest, now: nat)
    requires Disciplined(c, answers, now)
    ensures Disciplined(AfterRequest(c, request, now), AnswersAfter(c, answers, request, now), now)
  {
    RequestKeepsTail(c, answers, request, now);
    AfterRequestKeepsOk(c, request, now);
  }

  /** The answers given once an operation has been carried out. */
  function AnswersAfterOp(c: Cache, answers: seq<Answer>, op: Op): seq<Answer> {
    match op
    case Insertion(_, _, _) => answers
    case Request(request, now) => AnswersAfter(c, answers, request, now)
  }

  lemma OpKeepsDiscipline(c: Cache, answers: seq<Answer>, clock: nat, op: Op)
    requires Disciplined(c, answers, clock) && clock <= op.now && (op.Insertion? ==> |op.fragments| <= MAX_FRAGMENTS)
    ensures Disciplined(Apply(c, op), AnswersAfterOp(c, answers, op), op.now)
  {
    LaterKeepsTail(c.requestOrder, c.recent, RequestCap(c), answers, clock, op.now);
    match op
    case Insertion(sequence, fragments, now) => InsertionKeepsDiscipline(c, answers, sequence, fragments, now);
    case Request(request, now) => RequestKeepsDiscipline(c, answers, request, now);
  }

  lemma AnswersOneMore(c: Cache, ops: seq<Op>)
    requires ops != []
    ensures var n := |ops| - 1;
      AnswersOf(c, ops) == AnswersAfterOp(ApplyAll(c, ops[..n]), AnswersOf(c, ops[..n]), ops[n])
  {
  }

  lemma ValidPrefix(ops: seq<Op>)
    requires ValidOps(ops) && ops != []
    ensures ValidOps(ops[..|ops| - 1]) && ClockAfter(ops[..|ops| - 1]) <= ops[|ops| - 1].now
  {
  }

  lemma EmptyIsDisciplined(ttl: nat, maxPackets: nat)
    ensures Disciplined(EmptyCache(ttl, maxPackets), [], 0)
  {
  }

  lemma {:induction false} RunKeepsDiscipline(ttl: nat, maxPackets: nat, ops: seq<Op>)
    requires ValidOps(ops)
    ensures var start := EmptyCache(ttl, maxPackets);
      Disciplined(ApplyAll(start, ops), AnswersOf(start, ops), ClockAfter(ops))
  {
    if ops == [] {
      EmptyIsDisciplined(ttl, maxPackets);
    } else {
      var start, n := EmptyCache(ttl, maxPackets), |ops| - 1;
      ValidPrefix(ops);
      RunKeepsDiscipline(ttl, maxPackets, ops[..n]);
      OpKeepsDiscipline(ApplyAll(start, ops[..n]), AnswersOf(start, ops[..n]), ClockAfter(ops[..n]), ops[n]);
      AnswersOneMore(start, ops);
    }
  }

  /**
    Over every run from an empty cache: two answers to the same request are at least
    ten milliseconds apart, unless at least max(4 * maxPackets, 1) other answers were
    given between them.
  */
  lemma AnswersAreSpaced(ttl: nat, maxPackets: nat, ops: seq<Op>, i: nat, j: nat)
    requires ValidOps(ops) && i < j < |AnswersOf(EmptyCache(ttl, maxPackets), ops)|
    ensures var answers := AnswersOf(EmptyCache(ttl, maxPackets), ops);
      answers[i].key == answers[j].key ==>
        answers[j].time >= answers[i].time + 10 || j - i - 1 >= Max(4 * maxPackets, 1)
  {
    RunKeepsDiscipline(ttl, maxPackets, ops);
    EveryRunKeepsOk(EmptyCache(ttl, maxPackets), ops);
    var answers := AnswersOf(EmptyCache(ttl, maxPackets), ops);
    if answers[i].key == answers[j].key {
      assert Apart(answers, i, j, answers[j].time, Max(4 * maxPackets, 1));
    }
  }

  // ---------------------------------------------------------------- stale answers

  /** Storage times never go down along the queue. */
  ghost predicate InTimeOrder(order: seq<nat>, packets: map<nat, CachedPacket>)
    requires forall s :: s in order ==> s in packets
  {
    forall i, j :: 0 <= i < j < |order| ==> packets[order[i]].storedAt <= packets[order[j]].storedAt
  }

  /** At no time does a lookup find a packet that has outlived its time to live. */
  ghost predicate NeverStale(c: Cache) {
    forall now, s :: s in ExpirePackets(c, now).packets ==>
      Elapsed(now, ExpirePackets(c, now).packets[s].storedAt) < c.ttl
  }

  /** The first n packets of the queue have outlived their time, and the next has not. */
  ghost predicate OverdueUpTo(order: seq<nat>, packets: map<nat, CachedPacket>, ttl: nat, now: nat, n: nat)
    requires forall s :: s in order ==> s in packets
  {
    && n <= |order|
    && (forall i :: 0 <= i < n ==> Elapsed(now, packets[order[i]].storedAt) >= ttl)
    && (n < |order| ==> Elapsed(now, packets[order[n]].storedAt) < ttl)
  }

  lemma OverdueOneMore(order: seq<nat>, packets: map<nat, CachedPacket>, ttl: nat, now: nat, n: nat)
    requires QueueOk(order, packets) && order != [] && Elapsed(now, packets[order[0]].storedAt) >= ttl
    requires QueueOk(order[1..], packets - {order[0]})
    requires OverdueUpTo(order[1..], packets - {order[0]}, ttl, now, n)
    ensures OverdueUpTo(order, packets, ttl, now, n + 1)
  {
    var rest, fewer := order[1..], packets - {order[0]};
    assert forall i :: 0 <= i < |rest| ==> rest[i] == order[i + 1] && fewer[rest[i]] == packets[rest[i]];
  }

  lemma NoneOverdue(order: seq<nat>, packets: map<nat, CachedPacket>, ttl: nat, now: nat)
    requires QueueOk(order, packets) && (order != [] ==> Elapsed(now, packets[order[0]].storedAt) < ttl)
    ensures OverdueUpTo(order, packets, ttl, now, 0)
  {
  }

  /** How many of the oldest packets have outlived their time. */
  function OverdueCount(order: seq<nat>, packets: map<nat, CachedPacket>, ttl: nat, now: nat): (n: nat)
    ensures n <= |order|
  {
    if order == [] || (order[0] in packets && Elapsed(now, packets[order[0]].storedAt) < ttl) then 0
    else 1 + OverdueCount(order[1..], packets - {order[0]}, ttl, now)
  }

  lemma {:induction false} ExpiryCounts(c: Cache, now: nat)
    ensures |ExpirePackets(c, now).order| == |c.order| - OverdueCount(c.order, c.packets, c.ttl, now)
    decreases |c.order|
  {
    if OverdueCount(c.order, c.packets, c.ttl, now) > 0 {
      ExpiryCounts(c.(packets := c.packets - {c.order[0]}, order := c.order[1..]), now);
    }
  }

  lemma {:induction false} CountIsOverdue(order: seq<nat>, packets: map<nat, CachedPacket>, ttl: nat, now: nat)
    requires QueueOk(order, packets)
    ensures OverdueUpTo(order, packets, ttl, now, OverdueCount(order, packets, ttl, now))
    decreases |order|
  {
    if OverdueCount(order, packets, ttl, now) == 0 {
      NoneOverdue(order, packets, ttl, now);
    } else {
      PopFront(order, packets);
      CountIsOverdue(order[1..], packets - {order[0]}, ttl, now);
      OverdueOneMore(order, packets, ttl, now, OverdueCount(order[1..], packets - {order[0]}, ttl, now));
    }
  }

  /** Expiry drops a prefix of overdue packets and stops at the first that is not. */
  lemma ExpiryIsExact(c: Cache, now: nat) returns (n: nat)
    requires QueueOk(c.order, c.packets)
    ensures DropsFront(c.order, c.packets, ExpirePackets(c, now).order, ExpirePackets(c, now).packets, n)
    ensures OverdueUpTo(c.order, c.packets, c.ttl, now, n)
  {
    n := ExpirePacketsDrops(c, now);
    ExpiryCounts(c, now);
    CountIsOverdue(c.order, c.packets, c.ttl, now);
  }

  lemma OrderedIsNeverStale(c: Cache, now: nat, s: nat)
    requires QueueOk(c.order, c.packets) && (c.ttl == 0 || InTimeOrder(c.order, c.packets))
    requires s in ExpirePackets(c, now).packets
    ensures Elapsed(now, ExpirePackets(c, now).packets[s].storedAt) < c.ttl
  {
    hide ExpirePackets, Distinct;
    var n := ExpiryIsExact(c, now);
    var k :| 0 <= k < |c.order[n..]| && c.order[n..][k] == s;
    assert c.order[n + k] == s;
    assert k > 0 && c.ttl > 0 ==> c.packets[c.order[n]].storedAt <= c.packets[c.order[n + k]].storedAt;
  }

  lemma DisorderIsStaleSometime(c: Cache, i: nat, j: nat)
    requires QueueOk(c.order, c.packets) && c.ttl > 0
    requires i < j < |c.order| && c.packets[c.order[i]].storedAt > c.packets[c.order[j]].storedAt
    ensures !NeverStale(c)
  {
    var s := c.order[j];
    var now := c.packets[s].storedAt + c.ttl;
    var n := ExpiryIsExact(c, now);
    assert Elapsed(now, c.packets[c.order[i]].storedAt) < c.ttl;
    assert n <= i;
    assert c.order[n..][j - n] == s;
    assert s in ExpirePackets(c, now).packets;
  }

  /** Exactly when answers can never be stale: the queue is in order of storage time. */
  lemma NeverStaleIff(c: Cache)
    requires QueueOk(c.order, c.packets)
    ensures NeverStale(c) <==> c.ttl == 0 || InTimeOrder(c.order, c.packets)
  {
    if c.ttl == 0 || InTimeOrder(c.order, c.packets) {
      forall now, s | s in ExpirePackets(c, now).packets
        ensures Elapsed(now, ExpirePackets(c, now).packets[s].storedAt) < c.ttl
      {
        OrderedIsNeverStale(c, now, s);
      }
    } else {
      var i, j :| 0 <= i < j < |c.order| && c.packets[c.order[i]].storedAt > c.packets[c.order[j]].storedAt;
      DisorderIsStaleSometime(c, i, j);
    }
  }

  // ---------------------------------------------------------------- how the sender keeps the queue in order

  /** If a number is queued at all, it is queued last. */
  predicate OnlyLast(order: seq<nat>, packets: map<nat, CachedPacket>, sequence: nat) {
    sequence !in packets || (order != [] && order[|order| - 1] == sequence)
  }

  /** An insertion is of a number not cached, or of the one inserted last. */
  predicate NewestOnly(c: Cache, op: Op) {
    op.Insertion? ==> OnlyLast(c.order, c.packets, op.sequence)
  }

  predicate AllNewestOnly(c: Cache, ops: seq<Op>) {
    forall i :: 0 <= i < |ops| ==> NewestOnly(ApplyAll(c, ops[..i]), ops[i])
  }

  ghost predicate Ordered(c: Cache, clock: nat) {
    && QueueOk(c.order, c.packets) && InTimeOrder(c.order, c.packets)
    && forall s :: s in c.packets ==> c.packets[s].storedAt <= clock
  }

  lemma DroppingKeepsOrder(c: Cache, c': Cache, n: nat, clock: nat)
    requires Ordered(c, clock) && DropsFront(c.order, c.packets, c'.order, c'.packets, n)
    ensures Ordered(c', clock)
  {
    forall i, j | 0 <= i < j < |c'.order|
      ensures c'.packets[c'.order[i]].storedAt <= c'.packets[c'.order[j]].storedAt
    {
      assert c'.order[i] == c.order[n + i] && c'.order[j] == c.order[n + j];
    }
  }

  lemma AddingNewestKeepsOrder(c: Cache, sequence: nat, fragments: seq<CachedFragment>, now: nat)
    requires Ordered(c, now)
    requires OnlyLast(c.order, c.packets, sequence)
    ensures Ordered(Added(c, sequence, fragments, now), now)
  {
    EnqueueKeepsQueueOk(c.order, c.packets, sequence, CachedPacket(fragments, now));
    var c' := Added(c, sequence, fragments, now);
    forall i, j | 0 <= i < j < |c'.order|
      ensures c'.packets[c'.order[i]].storedAt <= c'.packets[c'.order[j]].storedAt
    {
      assert c'.order[i] != sequence && c'.order[i] == c.order[i] && c.order[i] in c.packets;
      assert j < |c.order| && c'.order[j] != sequence ==> c'.order[j] == c.order[j] && c.order[j] in c.packets;
    }
  }

  lemma StillNewest(order: seq<nat>, order': seq<nat>, n: nat, sequence: nat)
    requires n <= |order| && order' == order[n..] && Distinct(order)
    requires sequence in order' && order[|order| - 1] == sequence
    ensures order' != [] && order'[|order'| - 1] == sequence
  {
  }

  lemma DroppingKeepsOnlyLast(order: seq<nat>, packets: map<nat, CachedPacket>, order': seq<nat>,
                              packets': map<nat, CachedPacket>, n: nat, sequence: nat)
    requires QueueOk(order, packets) && DropsFront(order, packets, order', packets', n)
    requires OnlyLast(order, packets, sequence)
    ensures OnlyLast(order', packets', sequence)
  {
    if sequence in packets' {
      StillNewest(order, order', n, sequence);
    }
  }

  lemma ExpiringKeepsOrder(c: Cache, sequence: nat, now: nat)
    requires Ordered(c, now) && OnlyLast(c.order, c.packets, sequence)
    ensures var c' := ExpirePackets(c, now); Ordered(c', now) && OnlyLast(c'.order, c'.packets, sequence)
  {
    OrderedIsQueue(c, now);
    hide ExpirePackets, Ordered, OnlyLast, QueueOk, DropsFront;
    var n := ExpirePacketsDrops(c, now);
    var c' := ExpirePackets(c, now);
    DroppingKeepsOrder(c, c', n, now);
    DroppingKeepsOnlyLast(c.order, c.packets, c'.order, c'.packets, n, sequence);
  }

  lemma OrderedIsQueue(c: Cache, clock: nat)
    requires Ordered(c, clock)
    ensures QueueOk(c.order, c.packets)
  {
  }

  lemma NewestInsertKeepsOrder(c: Cache, sequence: nat, fragments: seq<CachedFragment>, now: nat)
    requires Ordered(c, now) && NewestOnly(c, Insertion(sequence, fragments, now))
    ensures Ordered(Insert(c, sequence, fragments, now), now)
  {
    hide Ordered, ExpirePackets, EnforcePackets;
    if fragments != [] {
      ExpiringKeepsOrder(c, sequence, now);
      AddingNewestKeepsOrder(ExpirePackets(c, now), sequence, fragments, now);
      EnforcingKeepsOrder(Added(ExpirePackets(c, now), sequence, fragments, now), now);
    }
  }

  lemma EnforcingKeepsOrder(c: Cache, clock: nat)
    requires Ordered(c, clock)
    ensures Ordered(EnforcePackets(c), clock)
  {
    var m := EnforcePacketsDrops(c);
    DroppingKeepsOrder(c, EnforcePackets(c), m, clock);
  }

  lemma {:induction false} ExpireRequestsLeavesPackets(c: Cache, now: nat)
    ensures ExpireRequests(c, now).packets == c.packets && ExpireRequests(c, now).order == c.order
    decreases |c.requestOrder|
  {
    if c.requestOrder != [] {
      ExpireRequestsLeavesPackets(c.(recent := c.recent - {c.requestOrder[0]}, requestOrder := c.requestOrder[1..]),
        now);
    }
  }

  lemma {:induction false} EnforceRequestsLeavesPackets(c: Cache)
    ensures EnforceRequests(c).packets == c.packets && EnforceRequests(c).order == c.order
    decreases |c.requestOrder|
  {
    if c.requestOrder != [] {
      EnforceRequestsLeavesPackets(c.(recent := c.recent - {c.requestOrder[0]}, requestOrder := c.requestOrder[1..]));
    }
  }

  lemma RequestKeepsOrder(c: Cache, request: RepairRequest, now: nat)
    requires Ordered(c, now)
    ensures Ordered(AfterRequest(c, request, now), now)
  {
    var n := ExpirePacketsDrops(c, now);
    DroppingKeepsOrder(c, ExpirePackets(c, now), n, now);
    ExpireRequestsLeavesPackets(ExpirePackets(c, now), now);
    EnforceRequestsLeavesPackets(Noted(Current(c, now), request, now));
  }

  /**
    Over every run in which only the number inserted last is ever inserted again, as
    the sender does for a payload sent both split and whole, no answer is stale.
  */
  lemma {:induction false} NewestOnlyRunsAreNeverStale(ttl: nat, maxPackets: nat, ops: seq<Op>)
    requires ValidOps(ops) && AllNewestOnly(EmptyCache(ttl, maxPackets), ops)
    ensures Ordered(ApplyAll(EmptyCache(ttl, maxPackets), ops), ClockAfter(ops))
    ensures NeverStale(ApplyAll(EmptyCache(ttl, maxPackets), ops))
  {
    var start := EmptyCache(ttl, maxPackets);
    if ops != [] {
      var n := |ops| - 1;
      forall i | 0 <= i < n
        ensures NewestOnly(ApplyAll(start, ops[..n][..i]), ops[..n][i])
      {
        assert ops[..n][..i] == ops[..i];
      }
      NewestOnlyRunsAreNeverStale(ttl, maxPackets, ops[..n]);
      assert NewestOnly(ApplyAll(start, ops[..n]), ops[n]);
      match ops[n]
      case Insertion(sequence, fragments, now) =>
        NewestInsertKeepsOrder(ApplyAll(start, ops[..n]), sequence, fragments, now);
      case Request(request, now) => RequestKeepsOrder(ApplyAll(start, ops[..n]), request, now);
    }
    NeverStaleIff(ApplyAll(start, ops));
  }

  /** Without that, an answer can be stale: packet 1 inserted again shields the older packet 2. */
  lemma OlderReinsertionGoesStale(fragments: seq<CachedFragment>)
    requires |fragments| == 1
    ensures var c := Insert(Insert(Insert(EmptyCache(10, 8), 1, fragments, 0), 2, fragments, 0), 1, fragments, 5);
      c.order == [1, 2] && c.packets[1].storedAt == 5 && c.packets[2].storedAt == 0 && !NeverStale(c)
  {
    var once := Insert(EmptyCache(10, 8), 1, fragments, 0);
    var twice := Insert(once, 2, fragments, 0);
    assert once == EmptyCache(10, 8).(packets := map[1 := CachedPacket(fragments, 0)], order := [1]);
    assert twice.order == [1, 2]
      && twice.packets == map[1 := CachedPacket(fragments, 0), 2 := CachedPacket(fragments, 0)];
    var c := Insert(twice, 1, fragments, 5);
    assert c == Added(twice, 1, fragments, 5);
    DisorderIsStaleSometime(c, 0, 1);
  }
}
