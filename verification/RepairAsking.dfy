/**
  One tick of repair requests, in full: everything due is asked for, unless 64 requests
  are out, nothing asked for lately is asked for again, and what was asked for is noted.
*/
module RepairAsking {
  import opened ByteStrings
  import opened Wire
  import opened Assembly
  import opened Window
  import opened WindowLaws

  /** Asked for less than an interval ago; a clock that has gone back counts as no time. */
  predicate Lately(last: Option<nat>, interval: nat, now: nat) {
    last.Some? && interval > 0 && now < last.value + interval
  }

  /** Of an assembly some fragment is missing, and it was not asked for lately. */
  predicate Wanting(fragments: map<nat, FragmentAssembly>, k: nat, interval: nat, now: nat) {
    && k in fragments && !Lately(fragments[k].lastRepairRequest, interval, now)
    && exists i :: 0 <= i < |fragments[k].slots| && fragments[k].slots[i].None?
  }

  /** Nothing of the head has come, something is pending, and it was not asked for lately. */
  predicate GapWanting(w: Window, interval: nat, now: nat) {
    && w.nextSeq !in w.buffered && w.nextSeq !in w.fragments && (w.buffered.Keys != {} || w.fragments.Keys != {})
    && (w.nextSeq in w.gapRequests ==> !Lately(Some(w.gapRequests[w.nextSeq]), interval, now))
  }

  predicate Requested(requests: seq<RepairRequest>, k: nat) {
    exists i :: 0 <= i < |requests| && requests[i].sequence == k
  }

  /** Requests in ascending order, each for exactly what a wanting assembly lacks. */
  ghost predicate ForWanting(fragments: map<nat, FragmentAssembly>, requests: seq<RepairRequest>, interval: nat,
                             now: nat) {
    && (forall i :: 0 <= i < |requests| ==>
          Wanting(fragments, requests[i].sequence, interval, now) && AsksForMissing(fragments, requests[i]))
    && forall i, j :: 0 <= i < j < |requests| ==> requests[i].sequence < requests[j].sequence
  }

  /** Left out for want of room: the requests are as many as allowed, all for earlier numbers. */
  predicate NoRoomFor(requests: seq<RepairRequest>, k: nat, room: nat) {
    |requests| == room && forall i :: 0 <= i < |requests| ==> requests[i].sequence < k
  }

  /** Assemblies asked for carry the time, the others are as they were. */
  ghost predicate Marked(fragments: map<nat, FragmentAssembly>, marked: map<nat, FragmentAssembly>,
                         requests: seq<RepairRequest>, now: nat) {
    && marked.Keys == fragments.Keys
    && forall k :: k in fragments ==>
      marked[k] == if Requested(requests, k) then fragments[k].(lastRepairRequest := Some(now)) else fragments[k]
  }

  // ---------------------------------------------------------------- the scan over the assemblies

  lemma DueIsNotLately(last: Option<nat>, interval: nat, now: nat)
    ensures RequestDue(last, interval, now) <==> !Lately(last, interval, now)
  {
  }

  lemma WantingIsDue(fragments: map<nat, FragmentAssembly>, k: nat, interval: nat, now: nat)
    requires k in fragments && |fragments[k].slots| <= MAX_FRAGMENTS
    ensures Wanting(fragments, k, interval, now) <==>
      RequestDue(fragments[k].lastRepairRequest, interval, now) && MissingMask(fragments[k].slots) != 0
  {
    DueIsNotLately(fragments[k].lastRepairRequest, interval, now);
    MissingMaskZero(fragments[k].slots);
    hide MissingMask, RequestDue, Lately;
  }

  /** What the scan over the listed assemblies has done, having issued these requests with room for `room`. */
  ghost predicate Scanned(fragments: map<nat, FragmentAssembly>, marked: map<nat, FragmentAssembly>,
                          issued: seq<RepairRequest>, keys: seq<nat>, room: nat, interval: nat, now: nat) {
    && |issued| <= room && ForWanting(fragments, issued, interval, now) && Marked(fragments, marked, issued, now)
    && (forall k :: Requested(issued, k) ==> k in keys)
    && forall k :: k in keys && Wanting(fragments, k, interval, now) ==>
      Requested(issued, k) || NoRoomFor(issued, k, room)
  }

  /** One assembly further on: it is asked for if it wants something and there is room. */
  lemma ScannedOneMore(fragments: map<nat, FragmentAssembly>, marked: map<nat, FragmentAssembly>,
                       issued: seq<RepairRequest>, keys: seq<nat>, k: nat, room: nat, interval: nat, now: nat)
    requires AssembliesFit(fragments) && k in fragments && (forall i :: i in keys ==> i < k)
    requires Scanned(fragments, marked, issued, keys, room, interval, now)
    ensures marked.Keys == fragments.Keys && marked[k] == fragments[k]
    ensures if |issued| < room && Wanting(fragments, k, interval, now) then
              Scanned(fragments, marked[k := fragments[k].(lastRepairRequest := Some(now))],
                issued + [RepairRequest(k, MissingMask(fragments[k].slots))], keys + [k], room, interval, now)
            else Scanned(fragments, marked, issued, keys + [k], room, interval, now)
  {
    hide MissingMask, Wanting;
    assert !Requested(issued, k);
    if |issued| < room && Wanting(fragments, k, interval, now) {
      var more := issued + [RepairRequest(k, MissingMask(fragments[k].slots))];
      RequestedOneMore(issued, RepairRequest(k, MissingMask(fragments[k].slots)));
      forall i | 0 <= i < |issued|
        ensures issued[i].sequence < k
      {
        assert Requested(issued, issued[i].sequence);
      }
    } else if Wanting(fragments, k, interval, now) {
      forall i | 0 <= i < |issued|
        ensures issued[i].sequence < k
      {
        assert Requested(issued, issued[i].sequence);
      }
    }
  }

  lemma RequestedOneMore(requests: seq<RepairRequest>, r: RepairRequest)
    ensures forall k :: Requested(requests + [r], k) <==> Requested(requests, k) || k == r.sequence
  {
    var more := requests + [r];
    assert more[|requests|] == r;
    forall k | Requested(requests, k)
      ensures Requested(more, k)
    {
      var i :| 0 <= i < |requests| && requests[i].sequence == k;
      assert more[i].sequence == k;
    }
  }

  lemma NothingScanned(fragments: map<nat, FragmentAssembly>, room: nat, interval: nat, now: nat)
    ensures Scanned(fragments, fragments, [], [], room, interval, now)
  {
  }

  lemma ScanUnfolds(fragments: map<nat, FragmentAssembly>, requests: seq<RepairRequest>, keys: seq<nat>,
                    interval: nat, now: nat)
    requires AssembliesFit(fragments) && keys != [] && forall i :: 0 <= i < |keys| ==> keys[i] in fragments
    ensures var n := |keys| - 1;
      var (marked, issued) := RepairScan(fragments, requests, keys[..n], interval, now);
      var a := marked[keys[n]];
      RepairScan(fragments, requests, keys, interval, now) ==
      if |issued| < MAX_REPAIR_REQUESTS_PER_TICK && RequestDue(a.lastRepairRequest, interval, now)
        && MissingMask(a.slots) != 0 then
        (marked[keys[n] := a.(lastRepairRequest := Some(now))], issued + [RepairRequest(keys[n], MissingMask(a.slots))])
      else (marked, issued)
  {
  }

  lemma {:induction false} ScanAsksForAll(fragments: map<nat, FragmentAssembly>, requests: seq<RepairRequest>,
                                          keys: seq<nat>, interval: nat, now: nat)
    requires AssembliesFit(fragments) && |requests| <= MAX_REPAIR_REQUESTS_PER_TICK
    requires Ascending(keys) && forall i :: 0 <= i < |keys| ==> keys[i] in fragments
    ensures var (marked, issued) := RepairScan(fragments, requests, keys, interval, now);
      && requests <= issued
      && Scanned(fragments, marked, issued[|requests|..], keys, MAX_REPAIR_REQUESTS_PER_TICK - |requests|, interval,
        now)
    decreases |keys|
  {
    hide Scanned, RepairScan, MissingMask, RequestDue, Wanting;
    var room := MAX_REPAIR_REQUESTS_PER_TICK - |requests|;
    if keys == [] {
      NothingScanned(fragments, room, interval, now);
      ScanOfNothing(fragments, requests, interval, now);
    } else {
      var n := |keys| - 1;
      var (marked, issued) := RepairScan(fragments, requests, keys[..n], interval, now);
      ScanAsksForAll(fragments, requests, keys[..n], interval, now);
      ScanUnfolds(fragments, requests, keys, interval, now);
      var added, k := issued[|requests|..], keys[n];
      WithinRoom(fragments, marked, added, keys[..n], room, interval, now);
      ScannedOneMore(fragments, marked, added, keys[..n], k, room, interval, now);
      WantingIsDue(fragments, k, interval, now);
      assert keys[..n] + [k] == keys;
      var r := RepairRequest(k, MissingMask(fragments[k].slots));
      assert (issued + [r])[|requests|..] == added + [r];
    }
  }

  lemma WithinRoom(fragments: map<nat, FragmentAssembly>, marked: map<nat, FragmentAssembly>,
                   issued: seq<RepairRequest>, keys: seq<nat>, room: nat, interval: nat, now: nat)
    requires Scanned(fragments, marked, issued, keys, room, interval, now)
    ensures |issued| <= room
  {
  }

  lemma ScanOfNothing(fragments: map<nat, FragmentAssembly>, requests: seq<RepairRequest>, interval: nat, now: nat)
    requires AssembliesFit(fragments)
    ensures RepairScan(fragments, requests, [], interval, now) == (fragments, requests)
    ensures requests[|requests|..] == []
  {
  }

  // ---------------------------------------------------------------- a tick

  /** How many of the new requests are for the gap at the head. */
  function GapRequests(w: Window, interval: nat, now: nat): nat {
    if GapWanting(w, interval, now) then 1 else 0
  }

  /** The requests of one tick, from window to window. */
  ghost predicate TickAsks(w: Window, w': Window, interval: nat, now: nat) {
    var g := GapRequests(w, interval, now);
    var room := MAX_REPAIR_REQUESTS_PER_TICK - g;
    && w.repairs <= w'.repairs && |w.repairs| + g <= |w'.repairs|
    && (g == 1 ==> w'.repairs[|w.repairs|] == RepairRequest(w.nextSeq, REPAIR_ALL_FRAGMENTS_MASK))
    && w'.gapRequests == (if g == 1 then w.gapRequests[w.nextSeq := now] else w.gapRequests)
    && var asked := w'.repairs[|w.repairs| + g..];
    && |asked| <= room && ForWanting(w.fragments, asked, interval, now)
    && (forall k :: Wanting(w.fragments, k, interval, now) ==> Requested(asked, k) || NoRoomFor(asked, k, room))
    && Marked(w.fragments, w'.fragments, asked, now)
    && w' == w.(gapRequests := w'.gapRequests, fragments := w'.fragments, repairs := w'.repairs)
  }

  lemma GapIsDue(w: Window, interval: nat, now: nat)
    ensures GapDue(w, interval, now) <==> GapWanting(w, interval, now)
  {
    assert w.buffered.Keys == {} <==> w.buffered == map[];
    assert w.fragments.Keys == {} <==> w.fragments == map[];
  }

  /**
    A tick asks for the whole head if that is missing, something is pending and it was not
    asked for lately; and for exactly what is missing of every assembly not asked for lately,
    in ascending order, but for those left out once 64 requests are out. It notes the time of
    each and changes nothing else.
  */
  lemma EverythingDueIsAskedFor(w: Window, interval: nat, now: nat)
    requires Good(w)
    ensures AssembliesFit(w.fragments) && TickAsks(w, RequestRepairs(w, interval, now), interval, now)
  {
    GoodAssembliesFit(w);
    GapIsDue(w, interval, now);
    hide Good, RepairScan, GapDue, GapWanting, AssembliesFit, Wanting, MissingMask, Scanned;
    var gap, keys := GapRequest(w, interval, now), SortedKeys(w.fragments.Keys);
    ScanAsksForAll(w.fragments, gap, keys, interval, now);
    var (marked, issued) := RepairScan(w.fragments, gap, keys, interval, now);
    ScannedIsTick(w, marked, issued, keys, interval, now);
  }

  lemma ScannedIsTick(w: Window, marked: map<nat, FragmentAssembly>, issued: seq<RepairRequest>, keys: seq<nat>,
                      interval: nat, now: nat)
    requires forall k :: k in w.fragments ==> k in keys
    requires var gap := GapRequest(w, interval, now);
      gap <= issued
        && Scanned(w.fragments, marked, issued[|gap|..], keys, MAX_REPAIR_REQUESTS_PER_TICK - |gap|, interval, now)
    requires GapDue(w, interval, now) <==> GapWanting(w, interval, now)
    ensures TickAsks(w,
      w.(gapRequests := if GapDue(w, interval, now) then w.gapRequests[w.nextSeq := now] else w.gapRequests,
                           fragments := marked, repairs := w.repairs + issued), interval, now)
  {
    hide GapDue, GapWanting, MissingMask, ForWanting, Marked;
    var gap := GapRequest(w, interval, now);
    assert (w.repairs + issued)[|w.repairs| + |gap|..] == issued[|gap|..];
    assert gap != [] ==> issued[0] == gap[0];
  }

  /** The new requests are one for the gap, if that wants asking for, and those for the assemblies. */
  lemma RequestedInTick(w: Window, w': Window, k: nat, interval: nat, now: nat)
    requires TickAsks(w, w', interval, now) && k in w.fragments
    ensures var asked := w'.repairs[|w.repairs| + GapRequests(w, interval, now)..];
      Requested(w'.repairs[|w.repairs|..], k) <==> Requested(asked, k)
  {
    var g := GapRequests(w, interval, now);
    var all, asked := w'.repairs[|w.repairs|..], w'.repairs[|w.repairs| + g..];
    assert forall i :: 0 <= i < |asked| ==> asked[i] == all[i + g];
    assert forall i :: g <= i < |all| ==> all[i] == asked[i - g];
    hide ForWanting, Marked, NoRoomFor, Wanting;
  }

  lemma LatelyIsNotRequested(fragments: map<nat, FragmentAssembly>, asked: seq<RepairRequest>, k: nat,
                             interval: nat, now: nat)
    requires ForWanting(fragments, asked, interval, now) && k in fragments
    requires Lately(fragments[k].lastRepairRequest, interval, now)
    ensures !Requested(asked, k)
  {
    hide Lately;
  }

  /** Nothing asked for lately is asked for again. */
  lemma LatelyIsNotAskedAgain(w: Window, interval: nat, now: nat, k: nat)
    requires Good(w) && k in w.fragments && Lately(w.fragments[k].lastRepairRequest, interval, now)
    ensures AssembliesFit(w.fragments)
    ensures var w' := RequestRepairs(w, interval, now);
      && |w.repairs| <= |w'.repairs| && k in w'.fragments
      && w'.fragments[k] == w.fragments[k] && !Requested(w'.repairs[|w.repairs|..], k)
  {
    EverythingDueIsAskedFor(w, interval, now);
    hide Good, RequestRepairs, GapWanting, AssembliesFit, ForWanting, Lately, Requested, NoRoomFor, Wanting;
    var w' := RequestRepairs(w, interval, now);
    RequestedInTick(w, w', k, interval, now);
    LatelyIsNotRequested(w.fragments, w'.repairs[|w.repairs| + GapRequests(w, interval, now)..], k, interval, now);
  }
}
