/**
  What the expiry loop amounts to: it moves the head to the first place where it
  is blocked, logging one skip for each place passed, and never passes a complete
  payload or a place nothing overdue was waiting behind.
*/
module GapExpiry {
  import opened ByteStrings
  import opened Sequences
  import opened Window

  ghost predicate OldBuffered(w: Window, k: nat, delay: nat, now: nat) {
    k in w.buffered && Elapsed(now, w.buffered[k].receivedAt) >= delay
  }

  ghost predicate OldAssembly(w: Window, k: nat, delay: nat, now: nat) {
    k in w.fragments && Elapsed(now, w.fragments[k].firstSeen) >= delay
  }

  /** Something pending beyond place n has waited long enough. */
  ghost predicate OldBeyond(w: Window, n: nat, delay: nat, now: nat) {
    exists k :: k > n && (OldBuffered(w, k, delay, now) || OldAssembly(w, k, delay, now))
  }

  /** Places are media numbers, and one more for the end of the number space. */
  const END: nat := MAX_MEDIA_SEQUENCE + 1

  /**
    Place n holds the head back: a complete payload, a young assembly, or a gap with
    nothing overdue behind it.
  */
  ghost predicate Blocks(w: Window, n: nat, delay: nat, now: nat) {
    || n in w.buffered
    || (n in w.fragments && !OldAssembly(w, n, delay, now))
    || (n !in w.buffered && n !in w.fragments && !OldBeyond(w, n, delay, now))
  }

  lemma EndBlocks(w: Window, n: nat, delay: nat, now: nat)
    requires Ahead(w) && n >= END
    ensures Blocks(w, n, delay, now)
  {
  }

  /** The first blocked place from n on. */
  ghost function StopAt(w: Window, n: nat, delay: nat, now: nat): (e: nat)
    requires Ahead(w) && n <= END
    ensures n <= e <= END && Blocks(w, e, delay, now)
    ensures forall k :: n <= k < e ==> !Blocks(w, k, delay, now)
    decreases END - n
  {
    EndBlocks(w, END, delay, now);
    if Blocks(w, n, delay, now) then n else StopAt(w, n + 1, delay, now)
  }

  /** The head after e places: back to zero at the end of the number space. */
  function HeadAt(e: nat): nat {
    if e == END then 0 else e
  }

  ghost function SkipsBetween(w: Window, n: nat, e: nat): seq<Delivery>
    requires n <= e
  {
    seq(e - n, (i: nat) => Skipped(n + i, if n + i in w.fragments then FragmentIncomplete else NeverReceived))
  }

  // ---------------------------------------------------------------- the head's decision, restated

  lemma OverdueIsOldBeyond(w: Window, delay: nat, now: nat)
    requires Ahead(w) && w.nextSeq !in w.buffered && w.nextSeq !in w.fragments
    ensures Overdue(w, delay, now) <==> OldBeyond(w, w.nextSeq, delay, now)
  {
    if Overdue(w, delay, now) {
      var t := Least(PendingTimes(w));
      if k :| k in w.buffered && w.buffered[k].receivedAt == t {
        assert OldBuffered(w, k, delay, now);
      } else {
        var k :| k in w.fragments && w.fragments[k].firstSeen == t;
        assert OldAssembly(w, k, delay, now);
      }
    }
    if OldBeyond(w, w.nextSeq, delay, now) {
      var k :| k > w.nextSeq && (OldBuffered(w, k, delay, now) || OldAssembly(w, k, delay, now));
      var t := if OldBuffered(w, k, delay, now) then w.buffered[k].receivedAt else w.fragments[k].firstSeen;
      assert t in PendingTimes(w);
    }
  }

  lemma StopMeansBlocked(w: Window, delay: nat, now: nat)
    requires Ahead(w)
    ensures HeadAction(w, delay, now) == Stop <==> Blocks(w, w.nextSeq, delay, now)
    ensures HeadAction(w, delay, now) == GiveUp <==>
      !Blocks(w, w.nextSeq, delay, now) && w.nextSeq in w.fragments
  {
    if w.nextSeq !in w.buffered && w.nextSeq !in w.fragments {
      OverdueIsOldBeyond(w, delay, now);
    }
  }

  // ---------------------------------------------------------------- one skip does not change what lies ahead

  /** The same, but for the assemblies up to place n. */
  ghost predicate SameBeyond(w: Window, w': Window, n: nat) {
    && w'.buffered == w.buffered
    && forall k :: k > n ==>
      (k in w'.fragments <==> k in w.fragments) && (k in w.fragments ==> w'.fragments[k] == w.fragments[k])
  }

  lemma BlocksBeyond(w: Window, w': Window, n: nat, k: nat, delay: nat, now: nat)
    requires SameBeyond(w, w', n) && k > n
    ensures Blocks(w', k, delay, now) <==> Blocks(w, k, delay, now)
  {
    forall i | i > k
      ensures OldBuffered(w', i, delay, now) == OldBuffered(w, i, delay, now)
      ensures OldAssembly(w', i, delay, now) == OldAssembly(w, i, delay, now)
    {
    }
    assert OldBeyond(w', k, delay, now) <==> OldBeyond(w, k, delay, now);
  }

  lemma {:induction false} StopAtBeyond(w: Window, w': Window, n: nat, k: nat, delay: nat, now: nat)
    requires Ahead(w) && Ahead(w') && SameBeyond(w, w', n) && n < k <= END
    ensures StopAt(w', k, delay, now) == StopAt(w, k, delay, now)
    decreases END - k
  {
    BlocksBeyond(w, w', n, k, delay, now);
    EndBlocks(w, END, delay, now);
    if !Blocks(w, k, delay, now) {
      StopAtBeyond(w, w', n, k + 1, delay, now);
    }
  }

  // ---------------------------------------------------------------- the loop in closed form

  /** Everything the loop does, given the place it stops at. */
  ghost predicate ExpiredTo(w: Window, w': Window, e: nat)
    requires w.nextSeq <= e
  {
    && w'.nextSeq == HeadAt(e)
    && w'.log == w.log + SkipsBetween(w, w.nextSeq, e)
    && w'.buffered == w.buffered
    && (forall k :: k in w'.fragments <==> k in w.fragments && k >= e)
    && (forall k :: k in w'.fragments ==> w'.fragments[k] == w.fragments[k])
  }

  lemma ExpiredToOneMore(w: Window, w1: Window, w': Window, reason: SkipReason, e: nat)
    requires Ahead(w) && w.nextSeq < e <= END
    requires w1.nextSeq == w.nextSeq + 1 && w1.log == w.log + [Skipped(w.nextSeq, reason)]
      && SameBeyond(w, w1, w.nextSeq)
    requires w.nextSeq !in w1.fragments
    requires reason == if w.nextSeq in w.fragments then FragmentIncomplete else NeverReceived
    requires ExpiredTo(w1, w', e)
    ensures ExpiredTo(w, w', e)
  {
    var n := w.nextSeq;
    assert SkipsBetween(w, n, e) == [Skipped(n, reason)] + SkipsBetween(w1, n + 1, e);
    assert w'.log == w.log + ([Skipped(n, reason)] + SkipsBetween(w1, n + 1, e));
  }

  lemma NothingPendingStops(w: Window, delay: nat, now: nat)
    requires Ahead(w) && w.fragments == map[] && w.buffered == map[]
    ensures Expire(w, delay, now) == w
  {
    assert PendingTimes(w) == {};
  }

  lemma DroppedAtTheEnd(w: Window, w': Window)
    requires Ahead(w) && w.nextSeq == MAX_MEDIA_SEQUENCE && w.nextSeq in w.fragments && w' == DropAssembly(w)
    ensures w'.fragments == map[] && w'.buffered == map[] && ExpiredTo(w, w', END)
  {
    assert SkipsBetween(w, w.nextSeq, END) == [Skipped(w.nextSeq, FragmentIncomplete)];
  }

  /** `w1` is `w` with its head skipped for the right reason. */
  ghost predicate OneSkip(w: Window, w1: Window, reason: SkipReason) {
    && w.nextSeq < MAX_MEDIA_SEQUENCE && w1.nextSeq == w.nextSeq + 1
    && w1.log == w.log + [Skipped(w.nextSeq, reason)]
    && SameBeyond(w, w1, w.nextSeq) && w.nextSeq !in w1.fragments
    && reason == if w.nextSeq in w.fragments then FragmentIncomplete else NeverReceived
  }

  lemma ClosedFormOneMore(w: Window, w1: Window, w': Window, reason: SkipReason, delay: nat, now: nat)
    requires Ahead(w) && Ahead(w1) && OneSkip(w, w1, reason) && !Blocks(w, w.nextSeq, delay, now)
    requires ExpiredTo(w1, w', StopAt(w1, w1.nextSeq, delay, now))
    ensures ExpiredTo(w, w', StopAt(w, w.nextSeq, delay, now))
  {
    StopAtBeyond(w, w1, w.nextSeq, w.nextSeq + 1, delay, now);
    ExpiredToOneMore(w, w1, w', reason, StopAt(w1, w1.nextSeq, delay, now));
  }

  lemma StopsAtEnd(w: Window, delay: nat, now: nat)
    requires Ahead(w) && w.nextSeq == MAX_MEDIA_SEQUENCE && !Blocks(w, w.nextSeq, delay, now)
    ensures StopAt(w, w.nextSeq, delay, now) == END
  {
  }

  lemma BlockedStays(w: Window, delay: nat, now: nat)
    requires Ahead(w) && Blocks(w, w.nextSeq, delay, now)
    ensures ExpiredTo(w, w, StopAt(w, w.nextSeq, delay, now))
  {
    assert SkipsBetween(w, w.nextSeq, w.nextSeq) == [];
  }

  /**
    The expiry loop moves the head to the first blocked place from where it stands,
    skipping every place on the way with the reason its assembly gives, and drops
    exactly the assemblies it passed.
  */
  lemma {:induction false} ExpireInClosedForm(w: Window, delay: nat, now: nat)
    requires Ahead(w)
    ensures ExpiredTo(w, Expire(w, delay, now), StopAt(w, w.nextSeq, delay, now))
    decreases |w.fragments|, MAX_MEDIA_SEQUENCE - w.nextSeq
  {
    StopMeansBlocked(w, delay, now);
    match HeadAction(w, delay, now)
    case Stop =>
      BlockedStays(w, delay, now);
    case GiveUp =>
      var w1 := DropAssembly(w);
      DropKeepsAhead(w);
      if w.nextSeq == MAX_MEDIA_SEQUENCE {
        DroppedAtTheEnd(w, w1);
        NothingPendingStops(w1, delay, now);
        StopsAtEnd(w, delay, now);
      } else {
        ExpireInClosedForm(w1, delay, now);
        ClosedFormOneMore(w, w1, Expire(w1, delay, now), FragmentIncomplete, delay, now);
      }
    case Skip =>
      SkipKeepsAhead(w, delay, now);
      ExpireInClosedForm(SkipHead(w, NeverReceived), delay, now);
      ClosedFormOneMore(w, SkipHead(w, NeverReceived), Expire(w, delay, now), NeverReceived, delay, now);
  }

  /** The loop stops only where the head is blocked: nothing overdue is left at the head. */
  lemma {:induction false} ExpireLeavesNothingOverdue(w: Window, delay: nat, now: nat)
    requires Ahead(w)
    ensures HeadAction(Expire(w, delay, now), delay, now) == Stop
    decreases |w.fragments|, MAX_MEDIA_SEQUENCE - w.nextSeq
  {
    match HeadAction(w, delay, now)
    case Stop =>
    case GiveUp =>
      DropKeepsAhead(w);
      ExpireLeavesNothingOverdue(DropAssembly(w), delay, now);
    case Skip =>
      SkipKeepsAhead(w, delay, now);
      ExpireLeavesNothingOverdue(SkipHead(w, NeverReceived), delay, now);
  }

  /** Giving up on n is justified: incomplete, and it or something beyond it overdue. */
  ghost predicate Justified(w: Window, d: Delivery, n: nat, delay: nat, now: nat) {
    && d.Skipped? && d.sequence == n && n !in w.buffered
    && (d.reason == FragmentIncomplete <==> n in w.fragments)
    && (d.reason == FragmentIncomplete ==> OldAssembly(w, n, delay, now))
    && (d.reason == NeverReceived ==> OldBeyond(w, n, delay, now))
  }

  lemma PassedPlacesAreJustified(w: Window, log: seq<Delivery>, e: nat, i: nat, delay: nat, now: nat)
    requires w.nextSeq <= e && log == w.log + SkipsBetween(w, w.nextSeq, e)
    requires |w.log| <= i < |log| && !Blocks(w, w.nextSeq + (i - |w.log|), delay, now)
    ensures Justified(w, log[i], w.nextSeq + (i - |w.log|), delay, now)
  {
    assert log[i] == SkipsBetween(w, w.nextSeq, e)[i - |w.log|];
  }

  /**
    Skipping is justified place by place: a skipped number was not complete, and either
    its own assembly or something waiting beyond it was at least `delay` old.
  */
  lemma SkipsAreJustified(w: Window, delay: nat, now: nat, i: nat)
    requires Ahead(w) && |w.log| <= i < |Expire(w, delay, now).log|
    ensures Justified(w, Expire(w, delay, now).log[i], w.nextSeq + (i - |w.log|), delay, now)
  {
    ExpireInClosedForm(w, delay, now);
    var e := StopAt(w, w.nextSeq, delay, now);
    PassedPlacesAreJustified(w, Expire(w, delay, now).log, e, i, delay, now);
  }
}
