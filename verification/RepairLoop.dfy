/**
  The sender's side of repair: the answer to a request for missing fragments is exactly
  those fragments, and inserting them completes the packet; or it is the whole packet.
  What the receiver makes of either is in RepairDelivery.
*/
module RepairLoop {
  import opened ByteStrings
  import opened Wire
  import opened Assembly
  import opened RepairCache
  import opened Sender
  import opened EndToEnd

  /** The empty slots, in order. */
  function MissingIndices(slots: seq<Option<Bytes>>): (indices: seq<nat>)
    ensures forall k :: 0 <= k < |indices| ==> indices[k] < |slots| && slots[indices[k]].None?
    ensures forall i :: 0 <= i < |slots| && slots[i].None? ==> i in indices
  {
    if slots == [] then [] else
    var n := |slots| - 1;
    var front := MissingIndices(slots[..n]);
    assert forall i :: 0 <= i < n ==> slots[..n][i] == slots[i];
    if slots[n].None? then front + [n] else front
  }

  function Pick(fragments: seq<CachedFragment>, indices: seq<nat>): (picked: seq<CachedFragment>)
    requires forall k :: 0 <= k < |indices| ==> indices[k] < |fragments|
    ensures |picked| == |indices|
  {
    seq(|indices|, (k: nat) requires k < |indices| => fragments[indices[k]])
  }

  /** What the cache selects by an assembly's mask is the fragments that assembly lacks. */
  lemma {:induction false} SelectedAreMissing(fragments: seq<CachedFragment>, slots: seq<Option<Bytes>>, n: nat)
    requires n <= |slots| == |fragments| <= MAX_FRAGMENTS
    ensures Selected(fragments[..n], MissingMask(slots)) == Pick(fragments, MissingIndices(slots[..n]))
  {
    if n != 0 {
      SelectedAreMissing(fragments, slots, n - 1);
      MissingMaskIsExact(slots, n - 1);
      assert fragments[..n][..n - 1] == fragments[..n - 1];
      assert slots[..n][..n - 1] == slots[..n - 1];
    }
  }

  lemma {:induction false} EverythingSelected(fragments: seq<CachedFragment>)
    requires |fragments| <= MAX_FRAGMENTS
    ensures Selected(fragments, REPAIR_ALL_FRAGMENTS_MASK) == fragments
  {
    if fragments != [] {
      var n := |fragments| - 1;
      EverythingSelected(fragments[..n]);
      assert REPAIR_ALL_FRAGMENTS_MASK & Bit(n) != 0;
      assert fragments == fragments[..n] + [fragments[n]];
    }
  }

  /** The cache entry the sender makes for a packet. */
  function Entry(packets: seq<Bytes>, lengths: seq<nat>): (fragments: seq<CachedFragment>)
    requires |lengths| == |packets|
    ensures |fragments| == |packets|
  {
    seq(|packets|, (i: nat) requires i < |packets| => CachedFragment(packets[i], lengths[i]))
  }

  /** Inserting exactly what is missing completes the assembly to the original payload. */
  lemma MissingPiecesComplete(a: FragmentAssembly, pieces: seq<Bytes>)
    requires a.Valid() && SlotsFrom(a.slots, pieces)
    ensures var r := InsertAll(a, MissingIndices(a.slots), pieces);
      r.IsComplete() && AllFilled(r.slots) && Concat(Values(r.slots)) == Concat(pieces)
  {
    var order := MissingIndices(a.slots);
    InsertAllFills(a, order, pieces);
    var r := InsertAll(a, order, pieces);
    forall i | 0 <= i < |r.slots|
      ensures r.slots[i].Some?
    {
      assert a.slots[i].Some? || i in order;
    }
    FilledIsAll(r.slots);
    CompleteIsWhole(r.slots, pieces);
  }

  /**
    A request for what an assembly lacks, answered from the cached fragments: one
    datagram per empty slot, each parsing to that slot's piece, and together enough.
  */
  lemma FragmentRepairCompletes(c: Cache, s: Sent, lengths: seq<nat>, a: FragmentAssembly, now: nat)
    requires CacheOk(c) && WellSent(s) && a.Valid() && !a.IsComplete() && SlotsFrom(a.slots, s.pieces)
    requires var request := RepairRequest(s.sequence, MissingMask(a.slots));
      && Answers(c, request, now) && |lengths| == |s.pieces|
      && Current(c, now).packets[s.sequence].fragments == Entry(FragmentPackets(s.sequence, s.pieces), lengths)
    ensures var reply, missing := Reply(c, RepairRequest(s.sequence, MissingMask(a.slots)), now),
      MissingIndices(a.slots);
      && |reply| == |missing| >= 1
      && (forall k :: 0 <= k < |reply| ==>
           ParseFrame(reply[k].packet) ==
           Ok(MediaFrame(Packet(PacketHeader(s.sequence, missing[k], |s.pieces|), s.pieces[missing[k]]))))
      && var r := InsertAll(a, missing, s.pieces);
      && r.IsComplete() && AllFilled(r.slots) && Concat(Values(r.slots)) == s.payload
  {
    CurrentKeepsOk(c, now);
    var packets := FragmentPackets(s.sequence, s.pieces);
    var fragments, missing := Entry(packets, lengths), MissingIndices(a.slots);
    SelectedAreMissing(fragments, a.slots, |a.slots|);
    assert fragments[..|a.slots|] == fragments && a.slots[..|a.slots|] == a.slots;
    var reply := Reply(c, RepairRequest(s.sequence, MissingMask(a.slots)), now);
    assert reply == Pick(fragments, missing);
    forall k | 0 <= k < |reply|
      ensures ParseFrame(reply[k].packet) ==
              Ok(MediaFrame(Packet(PacketHeader(s.sequence, missing[k], |s.pieces|), s.pieces[missing[k]])))
    {
      assert reply[k].packet == packets[missing[k]];
      FragmentPacketParses(s.sequence, s.pieces, missing[k]);
    }
    FilledIsAll(a.slots);
    MissingPiecesComplete(a, s.pieces);
  }

  /** Whatever the mask, a packet cached whole is answered whole. */
  lemma WholeRepairReplaces(c: Cache, s: Sent, length: nat, request: RepairRequest, now: nat)
    requires CacheOk(c) && WellSent(s) && request.sequence == s.sequence && Answers(c, request, now)
    requires Current(c, now).packets[s.sequence].fragments == Entry([WholePacket(s.sequence, s.payload)], [length])
    ensures var reply := Reply(c, request, now);
      && |reply| == 1
      && ParseFrame(reply[0].packet) == Ok(MediaFrame(Packet(PacketHeader(s.sequence, 0, 1), s.payload)))
  {
    CurrentKeepsOk(c, now);
    MediaDatagramParses(PacketHeader(s.sequence, 0, 1), s.payload);
  }

  /** A request for a wholly missing packet is answered with everything cached for it. */
  lemma GapRepairSendsEverything(c: Cache, sequence: nat, now: nat)
    requires CacheOk(c) && Answers(c, RepairRequest(sequence, REPAIR_ALL_FRAGMENTS_MASK), now)
    ensures Reply(c, RepairRequest(sequence, REPAIR_ALL_FRAGMENTS_MASK), now) ==
      Current(c, now).packets[sequence].fragments
  {
    CurrentKeepsOk(c, now);
    EverythingSelected(Current(c, now).packets[sequence].fragments);
  }
}
