/**
  Reassembly of one fragmented packet. An assembly is owned by the receiver's
  map of assemblies and is replaced there when a fragment is inserted.
*/
module Assembly {
  import opened ByteStrings
  import opened Wire

  datatype FragmentAssembly = FragmentAssembly(
    slots: seq<Option<Bytes>>, received: nat, firstSeen: nat, lastRepairRequest: Option<nat>)
  {
    function Insert(fragment: nat, payload: Bytes): Option<FragmentAssembly>
      requires fragment < |slots|
    {
      if slots[fragment].Some? then None
      else Some(this.(slots := slots[fragment := Some(payload)], received := received + 1))
    }

    predicate IsComplete() {
      received == |slots|
    }

    /** Between two and seven slots, and `received` counts the filled ones. */
    predicate Valid() {
      2 <= |slots| <= MAX_FRAGMENTS && received == Filled(slots)
    }
  }

  function EmptyAssembly(fragments: nat, now: nat): FragmentAssembly {
    FragmentAssembly(seq(fragments, (_: nat) => None), 0, now, None)
  }

  function Filled(slots: seq<Option<Bytes>>): (count: nat)
    ensures count <= |slots|
  {
    if slots == [] then 0 else Filled(slots[..|slots| - 1]) + (if slots[|slots| - 1].Some? then 1 else 0)
  }

  predicate AllFilled(slots: seq<Option<Bytes>>) {
    forall i :: 0 <= i < |slots| ==> slots[i].Some?
  }

  function Values(slots: seq<Option<Bytes>>): (values: seq<Bytes>)
    requires AllFilled(slots)
    ensures |values| == |slots|
  {
    seq(|slots|, (i: nat) requires i < |slots| => slots[i].value)
  }

  method IntoPayload(assembly: FragmentAssembly) returns (payload: Bytes)
    requires AllFilled(assembly.slots)
    ensures payload == Concat(Values(assembly.slots))
  {
    payload := [];
    ghost var values := Values(assembly.slots);
    for i := 0 to |assembly.slots|
      invariant payload == Concat(values[..i])
    {
      ConcatAppend(values[..i], values[i]);
      assert values[..i + 1] == values[..i] + [values[i]];
      payload := payload + assembly.slots[i].value;
    }
    assert values[..|values|] == values;
  }

  // ---------------------------------------------------------------- counting

  lemma {:induction false} FilledUpdate(slots: seq<Option<Bytes>>, i: nat, payload: Bytes)
    requires i < |slots| && slots[i].None?
    ensures Filled(slots[i := Some(payload)]) == Filled(slots) + 1
  {
    var n := |slots| - 1;
    if i < n {
      FilledUpdate(slots[..n], i, payload);
      assert slots[i := Some(payload)][..n] == slots[..n][i := Some(payload)];
    } else {
      assert slots[i := Some(payload)][..n] == slots[..n];
    }
  }

  /** The count reaches the number of slots exactly when every slot is filled. */
  lemma {:induction false} FilledIsAll(slots: seq<Option<Bytes>>)
    ensures Filled(slots) == |slots| <==> AllFilled(slots)
  {
    if slots != [] {
      FilledIsAll(slots[..|slots| - 1]);
    }
  }

  lemma {:induction false} EmptyHasNoneFilled(fragments: nat)
    ensures Filled(seq<Option<Bytes>>(fragments, (_: nat) => None)) == 0
  {
    if fragments > 0 {
      EmptyHasNoneFilled(fragments - 1);
      var none: nat -> Option<Bytes> := (_: nat) => None;
      assert seq<Option<Bytes>>(fragments, none)[..fragments - 1] == seq<Option<Bytes>>(fragments - 1, none);
    }
  }

  /** Inserting into a valid assembly keeps it valid and fills exactly one more slot. */
  lemma InsertKeepsValid(a: FragmentAssembly, fragment: nat, payload: Bytes)
    requires a.Valid() && fragment < |a.slots| && a.Insert(fragment, payload).Some?
    ensures a.Insert(fragment, payload).value.Valid()
  {
    FilledUpdate(a.slots, fragment, payload);
  }

  // ---------------------------------------------------------------- missing-fragment mask

  function Bit(i: nat): bv8
    requires i < MAX_FRAGMENTS
  {
    (1 as bv8) << i
  }

  function MissingMask(slots: seq<Option<Bytes>>): bv8
    requires |slots| <= MAX_FRAGMENTS
  {
    if slots == [] then 0 else
    var n := |slots| - 1;
    MissingMask(slots[..n]) | (if slots[n].None? then Bit(n) else 0)
  }

  lemma BitsAreIndependent(mask: bv8, i: nat, j: nat)
    requires i < MAX_FRAGMENTS && j < MAX_FRAGMENTS
    ensures i != j ==> (mask | Bit(i)) & Bit(j) == mask & Bit(j)
    ensures (mask | Bit(i)) & Bit(i) != 0
    ensures mask & !REPAIR_ALL_FRAGMENTS_MASK == 0 ==> (mask | Bit(i)) & !REPAIR_ALL_FRAGMENTS_MASK == 0
  {
  }

  lemma OrZero(mask: bv8)
    ensures mask | 0 == mask && 0 & mask == 0
  {
  }

  /** Bit i of the mask is set exactly when slot i exists and is empty; no other bit ever is. */
  lemma {:induction false} MissingMaskIsExact(slots: seq<Option<Bytes>>, i: nat)
    requires |slots| <= MAX_FRAGMENTS && i < MAX_FRAGMENTS
    ensures MissingMask(slots) & Bit(i) != 0 <==> i < |slots| && slots[i].None?
    ensures MissingMask(slots) & !REPAIR_ALL_FRAGMENTS_MASK == 0
  {
    OrZero(Bit(i));
    OrZero(!REPAIR_ALL_FRAGMENTS_MASK);
    if slots != [] {
      var n := |slots| - 1;
      var front := MissingMask(slots[..n]);
      MissingMaskIsExact(slots[..n], i);
      OrZero(front);
      if slots[n].None? {
        BitsAreIndependent(front, n, i);
        BitsAreIndependent(front, n, n);
      }
    }
  }

  /** The mask is non-zero exactly when something is missing. */
  lemma {:induction false} MissingMaskZero(slots: seq<Option<Bytes>>)
    requires |slots| <= MAX_FRAGMENTS
    ensures MissingMask(slots) == 0 <==> AllFilled(slots)
  {
    if MissingMask(slots) == 0 {
      forall i | 0 <= i < |slots|
        ensures slots[i].Some?
      {
        MissingMaskIsExact(slots, i);
        OrZero(Bit(i));
      }
    } else if slots != [] {
      var n := |slots| - 1;
      MissingMaskZero(slots[..n]);
      OrZero(MissingMask(slots[..n]));
    }
  }

  // ---------------------------------------------------------------- meaning

  /** Every filled slot holds the piece with its index. */
  predicate SlotsFrom(slots: seq<Option<Bytes>>, pieces: seq<Bytes>) {
    && |slots| == |pieces|
    && forall i :: 0 <= i < |slots| && slots[i].Some? ==> slots[i].value == pieces[i]
  }

  lemma CompleteIsWhole(slots: seq<Option<Bytes>>, pieces: seq<Bytes>)
    requires SlotsFrom(slots, pieces) && AllFilled(slots)
    ensures Values(slots) == pieces
  {
  }

  /** The assembly after inserting the pieces with the listed indices, duplicates being refused. */
  function InsertAll(a: FragmentAssembly, order: seq<nat>, pieces: seq<Bytes>): (r: FragmentAssembly)
    requires |a.slots| == |pieces| && forall i :: 0 <= i < |order| ==> order[i] < |pieces|
    ensures |r.slots| == |pieces|
    decreases |order|
  {
    if order == [] then a else
    var before := InsertAll(a, order[..|order| - 1], pieces);
    var k := order[|order| - 1];
    match before.Insert(k, pieces[k])
    case Some(after) => after
    case None => before
  }

  /** In any order and with any repetition: what is filled is what was filled or has arrived. */
  lemma {:induction false} InsertAllFills(a: FragmentAssembly, order: seq<nat>, pieces: seq<Bytes>)
    requires a.Valid() && SlotsFrom(a.slots, pieces) && forall i :: 0 <= i < |order| ==> order[i] < |pieces|
    ensures var r := InsertAll(a, order, pieces);
      && r.Valid() && SlotsFrom(r.slots, pieces)
      && forall i :: 0 <= i < |pieces| ==> (r.slots[i].Some? <==> a.slots[i].Some? || i in order)
  {
    if order != [] {
      var n := |order| - 1;
      InsertAllFills(a, order[..n], pieces);
      var before, k := InsertAll(a, order[..n], pieces), order[n];
      assert forall i :: i in order <==> i in order[..n] || i == k;
      if before.slots[k].None? {
        InsertKeepsValid(before, k, pieces[k]);
      }
    }
  }

  lemma EmptyAssemblyIsValid(pieces: seq<Bytes>, now: nat)
    requires 2 <= |pieces| <= MAX_FRAGMENTS
    ensures var a := EmptyAssembly(|pieces|, now);
      a.Valid() && SlotsFrom(a.slots, pieces) && forall i :: 0 <= i < |pieces| ==> a.slots[i].None?
  {
    EmptyHasNoneFilled(|pieces|);
  }

  /** Every index below n is listed. */
  predicate Covers(order: seq<nat>, n: nat) {
    forall i :: 0 <= i < n ==> i in order
  }

  lemma FilledExactly(slots: seq<Option<Bytes>>, order: seq<nat>)
    requires forall i :: 0 <= i < |slots| ==> (slots[i].Some? <==> i in order)
    ensures Filled(slots) == |slots| <==> Covers(order, |slots|)
  {
    FilledIsAll(slots);
  }

  /** Reassembly succeeds exactly when every index has arrived, and then gives back the whole. */
  lemma ReassemblyInAnyOrder(pieces: seq<Bytes>, order: seq<nat>, now: nat)
    requires 2 <= |pieces| <= MAX_FRAGMENTS && forall i :: 0 <= i < |order| ==> order[i] < |pieces|
    ensures var r := InsertAll(EmptyAssembly(|pieces|, now), order, pieces);
      && (r.IsComplete() <==> Covers(order, |pieces|))
      && (r.IsComplete() ==> AllFilled(r.slots) && Concat(Values(r.slots)) == Concat(pieces))
  {
    EmptyAssemblyIsValid(pieces, now);
    InsertAllFills(EmptyAssembly(|pieces|, now), order, pieces);
    var slots := InsertAll(EmptyAssembly(|pieces|, now), order, pieces).slots;
    FilledExactly(slots, order);
    FilledIsAll(slots);
    if AllFilled(slots) {
      CompleteIsWhole(slots, pieces);
    }
  }
}
