/**
  The table of numbers skipped lately, by which a late packet is told from a duplicate.
  It is the last 4096 numbers newly skipped. That is not always the last 4096 skips: a
  number skipped again while still in the table keeps its old place. Given here are when
  the two agree, exactly, and two ways in which they do not.
*/
module LateTable {
  import opened Sequences
  import opened FecRecovery
  import opened Window
  import opened WindowLaws

  // ---------------------------------------------------------------- in closed form

  /** The skips, without those of a number that was among the last 4096 of these already. */
  function Newly(skipped: seq<nat>): seq<nat> {
    if skipped == [] then [] else
    var n := |skipped| - 1;
    var before := Newly(skipped[..n]);
    if skipped[n] in LastOf(before, SKIPPED_SEQUENCE_TRACK_LIMIT) then before else before + [skipped[n]]
  }

  /** Whatever was skipped, the table is the last 4096 numbers newly skipped. */
  lemma {:induction false} TableInClosedForm(skipped: seq<nat>)
    ensures SkipTable(skipped).order == LastOf(Newly(skipped), SKIPPED_SEQUENCE_TRACK_LIMIT)
    ensures forall s :: s in SkipTable(skipped).lookup <==> s in LastOf(Newly(skipped), SKIPPED_SEQUENCE_TRACK_LIMIT)
  {
    SkipTableKeepsOk(skipped);
    if skipped != [] {
      var n := |skipped| - 1;
      TableInClosedForm(skipped[..n]);
      SkipTableKeepsOk(skipped[..n]);
      InsertSkipKeepsOk(SkipTable(skipped[..n]), skipped[n]);
      LastOfAppend(Newly(skipped[..n]), skipped[n], SKIPPED_SEQUENCE_TRACK_LIMIT);
    }
  }

  // ---------------------------------------------------------------- as a queue

  /** No number is skipped again while it is among the last 4096 skips. */
  predicate NoneSkippedAgain(skipped: seq<nat>) {
    forall i, j :: 0 <= i < j < |skipped| && j - i <= SKIPPED_SEQUENCE_TRACK_LIMIT ==> skipped[i] != skipped[j]
  }

  /** While no number is skipped again too soon, the table is the last 4096 skips. */
  lemma {:induction false} TableIsTheLastSkips(skipped: seq<nat>)
    requires NoneSkippedAgain(skipped)
    ensures SkipTable(skipped).order == LastOf(skipped, SKIPPED_SEQUENCE_TRACK_LIMIT)
  {
    if skipped != [] {
      var n := |skipped| - 1;
      var front, table := skipped[..n], SkipTable(skipped[..n]);
      TableIsTheLastSkips(front);
      SkipTableKeepsOk(front);
      InsertSkipKeepsOk(table, skipped[n]);
      assert skipped[n] !in LastOf(front, SKIPPED_SEQUENCE_TRACK_LIMIT);
      LastOfAppend(front, skipped[n], SKIPPED_SEQUENCE_TRACK_LIMIT);
      assert front + [skipped[n]] == skipped;
    }
  }

  /** A number skipped again too soon keeps its old place, and the table is no longer the last skips. */
  lemma TableMissesARepeat(skipped: seq<nat>, sequence: nat)
    requires SkipTable(skipped).order == LastOf(skipped, SKIPPED_SEQUENCE_TRACK_LIMIT)
    requires sequence in LastOf(skipped, SKIPPED_SEQUENCE_TRACK_LIMIT)
    ensures SkipTable(skipped + [sequence]) == SkipTable(skipped)
    ensures SkipTable(skipped + [sequence]).order != LastOf(skipped + [sequence], SKIPPED_SEQUENCE_TRACK_LIMIT)
  {
    var longer, order := skipped + [sequence], SkipTable(skipped).order;
    assert longer[..|skipped|] == skipped;
    SkipTableKeepsOk(skipped);
    if |skipped| >= SKIPPED_SEQUENCE_TRACK_LIMIT {
      assert LastOf(longer, SKIPPED_SEQUENCE_TRACK_LIMIT)[0] == order[1] != order[0];
    }
  }

  /** The table has been the last 4096 skips all along exactly when no number was skipped again too soon. */
  lemma TableIsTheLastSkipsIff(skipped: seq<nat>)
    ensures NoneSkippedAgain(skipped) <==>
      forall n :: 0 <= n <= |skipped| ==>
        SkipTable(skipped[..n]).order == LastOf(skipped[..n], SKIPPED_SEQUENCE_TRACK_LIMIT)
  {
    hide SkipTable, LastOf;
    if NoneSkippedAgain(skipped) {
      forall n | 0 <= n <= |skipped|
        ensures SkipTable(skipped[..n]).order == LastOf(skipped[..n], SKIPPED_SEQUENCE_TRACK_LIMIT)
      {
        TableIsTheLastSkips(skipped[..n]);
      }
    } else {
      var i, j :| 0 <= i < j < |skipped| && j - i <= SKIPPED_SEQUENCE_TRACK_LIMIT && skipped[i] == skipped[j];
      RepeatIsRecent(skipped, i, j);
      if SkipTable(skipped[..j]).order == LastOf(skipped[..j], SKIPPED_SEQUENCE_TRACK_LIMIT) {
        TableMissesARepeat(skipped[..j], skipped[j]);
        assert skipped[..j] + [skipped[j]] == skipped[..j + 1];
      }
    }
  }

  lemma RepeatIsRecent(skipped: seq<nat>, i: nat, j: nat)
    requires i < j < |skipped| && j - i <= SKIPPED_SEQUENCE_TRACK_LIMIT && skipped[i] == skipped[j]
    ensures skipped[j] in LastOf(skipped[..j], SKIPPED_SEQUENCE_TRACK_LIMIT)
  {
    var recent := LastOf(skipped[..j], SKIPPED_SEQUENCE_TRACK_LIMIT);
    assert recent[|recent| - (j - i)] == skipped[i];
  }

  /** Before the flow wraps no number is skipped twice at all. */
  lemma {:induction false} UnwrappedSkipsOnce(start: nat, log: seq<Delivery>)
    requires start + |log| <= MAX_MEDIA_SEQUENCE + 1
    requires forall i :: 0 <= i < |log| ==> log[i].sequence == SequenceAfter(start, i)
    ensures Distinct(SkippedSequences(log))
  {
    if log != [] {
      var n := |log| - 1;
      var front := SkippedSequences(log[..n]);
      UnwrappedSkipsOnce(start, log[..n]);
      SequenceAfterLinear(start, n);
      if log[n].sequence in front {
        SkippedLieBehind(start, log[..n], log[n].sequence);
      }
    }
  }

  lemma UnwrappedIsNoneSkippedAgain(w: Window)
    requires Ahead(w) && Shape(w) && Unwrapped(w)
    ensures NoneSkippedAgain(SkippedSequences(w.log))
  {
    UnwrappedSkipsOnce(w.start, w.log);
  }

  // ---------------------------------------------------------------- as a set

  /** The table holds exactly the numbers among the last 4096 skips. */
  ghost predicate KnowsTheLast(skipped: seq<nat>) {
    forall s :: s in SkipTable(skipped).lookup <==> s in LastOf(skipped, SKIPPED_SEQUENCE_TRACK_LIMIT)
  }

  /**
    With 4096 skips or more behind it, the next one drops from the last 4096 what it drops
    from the table: the oldest number in it if the next is new to a full table; else none.
  */
  predicate DropsAlike(skipped: seq<nat>, next: nat) {
    var table, limit := SkipTable(skipped), SKIPPED_SEQUENCE_TRACK_LIMIT;
    |skipped| >= limit ==>
      if next !in table.lookup && |table.order| == limit then skipped[|skipped| - limit] == table.order[0]
      else skipped[|skipped| - limit] in LastOf(skipped + [next], limit)
  }

  lemma {:induction false} DistinctCount(s: seq<nat>, items: set<nat>)
    requires Distinct(s) && forall i :: 0 <= i < |s| ==> s[i] in items
    ensures |s| <= |items|
  {
    if s != [] {
      var n := |s| - 1;
      DistinctCount(s[..n], items - {s[n]});
    }
  }

  lemma {:induction false} CountFits(s: seq<nat>, items: set<nat>)
    requires forall x :: x in items ==> x in s
    ensures |items| <= |s|
  {
    if s == [] {
      assert items == {};
    } else {
      var n := |s| - 1;
      assert forall x :: x in items - {s[n]} ==> x in s[..n];
      CountFits(s[..n], items - {s[n]});
    }
  }

  /** As many distinct numbers as the other list is long, and all in it: none is in it twice. */
  lemma NoneIsThereTwice(order: seq<nat>, window: seq<nat>)
    requires Distinct(order) && |order| == |window| > 0 && forall s :: s in order ==> s in window
    ensures window[0] !in window[1..]
  {
    if window[0] in window[1..] {
      var items := set s | s in order;
      DistinctCount(order, items);
      CountFits(window[1..], items);
    }
  }

  lemma LastOfNext(skipped: seq<nat>, next: nat, s: nat)
    requires |skipped| >= SKIPPED_SEQUENCE_TRACK_LIMIT
    ensures var last := LastOf(skipped, SKIPPED_SEQUENCE_TRACK_LIMIT);
      && last[0] == skipped[|skipped| - SKIPPED_SEQUENCE_TRACK_LIMIT]
      && (s in last <==> s == last[0] || s in last[1..])
      && (s in LastOf(skipped + [next], SKIPPED_SEQUENCE_TRACK_LIMIT) <==> s == next || s in last[1..])
  {
    var last := LastOf(skipped, SKIPPED_SEQUENCE_TRACK_LIMIT);
    assert last == [last[0]] + last[1..];
    assert LastOf(skipped + [next], SKIPPED_SEQUENCE_TRACK_LIMIT) == last[1..] + [next];
  }

  lemma PushedOut(order: seq<nat>, next: nat, s: nat)
    ensures s in LastOf(order + [next], SKIPPED_SEQUENCE_TRACK_LIMIT) <==>
      if |order| < SKIPPED_SEQUENCE_TRACK_LIMIT then s in order || s == next
      else s in order[|order| + 1 - SKIPPED_SEQUENCE_TRACK_LIMIT..] || s == next
  {
    if |order| >= SKIPPED_SEQUENCE_TRACK_LIMIT {
      assert LastOf(order + [next], SKIPPED_SEQUENCE_TRACK_LIMIT) ==
        order[|order| + 1 - SKIPPED_SEQUENCE_TRACK_LIMIT..] + [next];
    }
  }

  lemma AllButTheFirst(order: seq<nat>, s: nat)
    requires Distinct(order) && order != []
    ensures s in order[1..] <==> s in order && s != order[0]
  {
  }

  /** The table after one more skip, as a set. */
  lemma TableNext(skipped: seq<nat>, next: nat, s: nat)
    ensures var table, limit := SkipTable(skipped), SKIPPED_SEQUENCE_TRACK_LIMIT;
      s in SkipTable(skipped + [next]).lookup <==>
        if next in table.lookup || |table.order| < limit then s in table.lookup || s == next
        else (s in table.lookup && s != table.order[0]) || s == next
  {
    var table, order := SkipTable(skipped), SkipTable(skipped).order;
    assert (skipped + [next])[..|skipped|] == skipped;
    assert SkipTable(skipped + [next]) == InsertSkip(table, next);
    SkipTableKeepsOk(skipped);
    InsertSkipKeepsOk(table, next);
    PushedOut(order, next, s);
    hide SkipTable, LastOf;
    if next in table.lookup {
      InsertedBefore(table, next);
    } else {
      hide InsertSkip;
      if order != [] {
        AllButTheFirst(order, s);
      }
      hide Distinct;
    }
  }

  lemma InsertedBefore(r: Skips, next: nat)
    requires SkipsOk(r) && next in r.lookup
    ensures InsertSkip(r, next) == r
  {
  }

  /** The two sets, each with one number dropped and one added. */
  lemma DropsAlikeDecides(table: Skips, after: set<nat>, last: seq<nat>, lastNext: seq<nat>, next: nat, full: bool)
    requires last != [] && (forall s :: s in table.lookup <==> s == last[0] || s in last[1..])
    requires forall s :: s in lastNext <==> s == next || s in last[1..]
    requires full ==> table.order != [] && table.order[0] in table.lookup && last[0] !in last[1..]
    requires forall s :: s in after <==>
      if next in table.lookup || !full then s in table.lookup || s == next
      else (s in table.lookup && s != table.order[0]) || s == next
    ensures (forall s :: s in after <==> s in lastNext) <==>
      if next !in table.lookup && full then last[0] == table.order[0] else last[0] in lastNext
  {
    if next !in table.lookup && full {
      assert last[0] != table.order[0] ==> table.order[0] in lastNext && table.order[0] !in after;
    } else {
      assert last[0] in after;
    }
  }

  /** If the table is right before a skip, it is right after it exactly if both drop alike. */
  lemma RightAfterOneMoreIff(skipped: seq<nat>, next: nat)
    requires KnowsTheLast(skipped)
    ensures KnowsTheLast(skipped + [next]) <==> DropsAlike(skipped, next)
  {
    var table, limit := SkipTable(skipped), SKIPPED_SEQUENCE_TRACK_LIMIT;
    var after, lastNext := SkipTable(skipped + [next]).lookup, LastOf(skipped + [next], limit);
    SkipTableKeepsOk(skipped);
    hide SkipTable, LastOf;
    forall s
      ensures s in after <==>
        if next in table.lookup || |table.order| < limit then s in table.lookup || s == next
        else (s in table.lookup && s != table.order[0]) || s == next
    {
      TableNext(skipped, next, s);
    }
    if |skipped| < limit {
      FewSkips(skipped + [next]);
    } else {
      var last := LastOf(skipped, limit);
      LastOfNext(skipped, next, 0);
      forall s
        ensures s in last <==> s == last[0] || s in last[1..]
        ensures s in lastNext <==> s == next || s in last[1..]
      {
        LastOfNext(skipped, next, s);
      }
      if |table.order| == limit {
        NoneIsThereTwice(table.order, last);
      }
      DropsAlikeDecides(table, after, last, lastNext, next, |table.order| == limit);
    }
  }

  /** The table has been right all along exactly if each skip dropped alike. */
  lemma {:induction false} AlwaysRightIff(skipped: seq<nat>)
    ensures (forall n :: 0 <= n <= |skipped| ==> KnowsTheLast(skipped[..n])) <==>
            (forall n :: 0 <= n < |skipped| ==> DropsAlike(skipped[..n], skipped[n]))
  {
    hide KnowsTheLast, DropsAlike;
    if skipped == [] {
      FewSkips([]);
    } else {
      var m := |skipped| - 1;
      var front := skipped[..m];
      AlwaysRightIff(front);
      assert forall n :: 0 <= n <= m ==> front[..n] == skipped[..n];
      assert front + [skipped[m]] == skipped && skipped[..m + 1] == skipped;
      if KnowsTheLast(front) {
        RightAfterOneMoreIff(front, skipped[m]);
      }
    }
  }

  lemma {:induction false} FewAreAllHeld(skipped: seq<nat>)
    requires |skipped| <= SKIPPED_SEQUENCE_TRACK_LIMIT
    ensures |SkipTable(skipped).order| <= |skipped| && forall s :: s in SkipTable(skipped).lookup <==> s in skipped
  {
    hide InsertSkip, LastOf;
    if skipped != [] {
      var n := |skipped| - 1;
      var front := skipped[..n];
      FewAreAllHeld(front);
      TableGrowsByOne(front, skipped[n]);
      assert front + [skipped[n]] == skipped;
      hide SkipTable;
      forall s
        ensures s in SkipTable(skipped).lookup <==> s in skipped
      {
        TableNext(front, skipped[n], s);
      }
    }
  }

  lemma TableGrowsByOne(skipped: seq<nat>, next: nat)
    ensures |SkipTable(skipped + [next]).order| <= |SkipTable(skipped).order| + 1
  {
    assert (skipped + [next])[..|skipped|] == skipped;
    SkipTableKeepsOk(skipped);
    InsertSkipKeepsOk(SkipTable(skipped), next);
    if next in SkipTable(skipped).lookup {
      InsertedBefore(SkipTable(skipped), next);
    }
    hide InsertSkip;
  }

  /** Up to 4096 skips the table is right, whatever is repeated: it holds them all. */
  lemma FewSkips(skipped: seq<nat>)
    requires |skipped| <= SKIPPED_SEQUENCE_TRACK_LIMIT
    ensures KnowsTheLast(skipped)
  {
    FewAreAllHeld(skipped);
  }

  // ---------------------------------------------------------------- two ways to be wrong

  lemma FullTable(first: seq<nat>)
    requires Distinct(first) && |first| == SKIPPED_SEQUENCE_TRACK_LIMIT
    ensures SkipTable(first).order == first && forall s :: s in SkipTable(first).lookup <==> s in first
  {
    TableIsTheLastSkips(first);
    SkipTableKeepsOk(first);
  }

  /** After 4096 numbers and one of them again, other than the first, the first is remembered for too long. */
  lemma TooLongRemembered(first: seq<nat>, k: nat)
    requires Distinct(first) && 1 <= k < |first| == SKIPPED_SEQUENCE_TRACK_LIMIT
    ensures first[0] in SkipTable(first + [first[k]]).lookup
    ensures first[0] !in LastOf(first + [first[k]], SKIPPED_SEQUENCE_TRACK_LIMIT)
  {
    FullTable(first);
    TableNext(first, first[k], first[0]);
    LastOfNext(first, first[k], first[0]);
  }

  /** After 4096 numbers, the first of them again and then a new one, the first is forgotten too soon. */
  lemma TooSoonForgotten(first: seq<nat>, next: nat)
    requires Distinct(first) && |first| == SKIPPED_SEQUENCE_TRACK_LIMIT && next !in first
    ensures first[0] !in SkipTable(first + [first[0]] + [next]).lookup
    ensures first[0] in LastOf(first + [first[0]] + [next], SKIPPED_SEQUENCE_TRACK_LIMIT)
  {
    FullTable(first);
    TableMissesARepeat(first, first[0]);
    TableNext(first + [first[0]], next, first[0]);
    var last := LastOf(first + [first[0]] + [next], SKIPPED_SEQUENCE_TRACK_LIMIT);
    assert last[|last| - 2] == first[0];
  }
}
