/**
  On what the weights depend: of two paths the one that keeps up better, or is faster, is
  never given less, and exactly when it is given more.
*/
module PathPreference {
  import opened ByteStrings
  import opened FecEncoder
  import opened SplitWeights

  // ---------------------------------------------------------------- the greatest number reported

  /** The newest number reported by the path at this place, if it has reported one. */
  function LastAt(p: PathReport, interfaces: seq<string>, i: nat): Option<nat>
    requires i < |interfaces|
  {
    if interfaces[i] in p.health then p.health[interfaces[i]].lastSeq else None
  }

  /** Lags are measured from the greatest number that any path has reported, failed and silent ones included. */
  lemma {:induction false} BestIsGreatest(p: PathReport, interfaces: seq<string>)
    ensures var best := BestLastSeq(p, interfaces);
      && (best.None? <==> forall i :: 0 <= i < |interfaces| ==> LastAt(p, interfaces, i).None?)
      && (forall i :: 0 <= i < |interfaces| && LastAt(p, interfaces, i).Some? ==>
          LastAt(p, interfaces, i).value <= best.value)
      && (best.Some? ==> exists i :: 0 <= i < |interfaces| && LastAt(p, interfaces, i) == best)
  {
    if interfaces != [] {
      var n := |interfaces| - 1;
      BestIsGreatest(p, interfaces[..n]);
      assert forall i :: 0 <= i < n ==> LastAt(p, interfaces[..n], i) == LastAt(p, interfaces, i);
      var best := BestLastSeq(p, interfaces);
      if best != LastAt(p, interfaces, n) {
        var i :| 0 <= i < n && LastAt(p, interfaces[..n], i) == BestLastSeq(p, interfaces[..n]);
        assert LastAt(p, interfaces, i) == best;
      }
    }
  }

  /** How far a path is behind; one that has reported no number counts as keeping up. */
  function LagAt(p: PathReport, i: nat): nat
    requires i < |p.interfaces|
  {
    var last := LastAt(p, p.interfaces, i);
    if last.None? || BestLastSeq(p, p.interfaces).None? then 0
    else Minus(BestLastSeq(p, p.interfaces).value, last.value)
  }

  /** `1 - lag / 120`, but not below 0.35. */
  function Penalty(lag: nat): (r: real)
    ensures 0.35 <= r <= 1.0
  {
    MaxReal(1.0 - lag as real / 120.0, 0.35)
  }

  /** Throughput against the average, between a quarter and twice; one if there is no average. */
  function Ratio(mbps: real, average: real): (r: real)
    ensures 0.25 <= r <= 2.0
  {
    if average <= EPSILON then 1.0 else ClampReal(MaxReal(mbps, 0.0) / average, 0.25, 2.0)
  }

  /** Three quarters, and a quarter of the ratio. */
  function Score(mbps: real, average: real): (r: real)
    ensures 0.8125 <= r <= 1.25
  {
    0.75 + 0.25 * Ratio(mbps, average)
  }

  ghost predicate Usable(p: PathReport, i: nat) {
    i < |p.interfaces| && p.interfaces[i] !in p.failed && Fresh(p, p.interfaces[i])
  }

  function MbpsAt(p: PathReport, i: nat): real
    requires i < |p.interfaces| && p.interfaces[i] in p.health
  {
    p.health[p.interfaces[i]].serverMbps
  }

  lemma PenaltyIs(p: PathReport, i: nat)
    requires Usable(p, i)
    ensures LagPenalty(BestLastSeq(p, p.interfaces), p.health[p.interfaces[i]].lastSeq) == Penalty(LagAt(p, i))
  {
    hide BestLastSeq;
  }

  lemma BlendIs(mbps: real, average: real, penalty: real)
    requires 0.35 <= penalty <= 1.0
    ensures BlendedAutoWeight(mbps, average, penalty) == Score(mbps, average) * penalty > 0.0
  {
    ScoreBounds(Score(mbps, average), penalty);
    ScoreIs(mbps, average);
    hide Ratio, Score;
  }

  lemma ScoreIs(mbps: real, average: real)
    ensures Score(mbps, average) ==
            (1.0 - AUTO_WEIGHT_THROUGHPUT_BLEND) + AUTO_WEIGHT_THROUGHPUT_BLEND
              * (if average <= EPSILON then 1.0
                 else ClampReal(MaxReal(mbps, 0.0) / average, AUTO_WEIGHT_MIN_THROUGHPUT_RATIO,
                   AUTO_WEIGHT_MAX_THROUGHPUT_RATIO))
  {
  }

  lemma RawWeightIs(p: PathReport, i: nat)
    requires Usable(p, i)
    ensures RawWeights(p)[i] == Score(MbpsAt(p, i), AverageMbps(p)) * Penalty(LagAt(p, i)) > 0.0
  {
    hide AverageMbps, BestLastSeq, LagPenalty, BlendedAutoWeight, Score, Penalty, LagAt;
    PenaltyIs(p, i);
    BlendIs(MbpsAt(p, i), AverageMbps(p), Penalty(LagAt(p, i)));
  }

  // ---------------------------------------------------------------- the average

  /** How far the throughputs of the fresh usable paths are from a, in sum. */
  function Deviations(p: PathReport, interfaces: seq<string>, a: real): real {
    if interfaces == [] then 0.0 else
    var n := |interfaces| - 1;
    Deviations(p, interfaces[..n], a)
    + (if interfaces[n] !in p.failed && Fresh(p, interfaces[n])
       then MaxReal(p.health[interfaces[n]].serverMbps, 0.0) - a else 0.0)
  }

  lemma FreshOneMore(p: PathReport, interfaces: seq<string>)
    requires interfaces != []
    ensures var n := |interfaces| - 1;
      var front, mbps := FreshMbps(p, interfaces[..n]), FreshMbps(p, interfaces);
      if interfaces[n] !in p.failed && Fresh(p, interfaces[n]) then
        var x := MaxReal(p.health[interfaces[n]].serverMbps, 0.0);
        |mbps| == |front| + 1 && Sum(mbps) == Sum(front) + x
      else mbps == front
  {
    var n := |interfaces| - 1;
    var front := FreshMbps(p, interfaces[..n]);
    if interfaces[n] !in p.failed && Fresh(p, interfaces[n]) {
      SumOneMore(front, MaxReal(p.health[interfaces[n]].serverMbps, 0.0));
    } else {
      assert front + [] == front;
    }
    hide Sum;
  }

  lemma DeviationsOneMore(p: PathReport, interfaces: seq<string>, a: real)
    requires interfaces != []
    ensures var n := |interfaces| - 1;
      Deviations(p, interfaces, a) ==
      Deviations(p, interfaces[..n], a)
      + (if interfaces[n] !in p.failed && Fresh(p, interfaces[n])
         then MaxReal(p.health[interfaces[n]].serverMbps, 0.0) - a else 0.0)
  {
  }

  function Times(a: real, n: nat): real {
    a * n as real
  }

  lemma OneMoreTimes(a: real, n: nat)
    ensures Times(a, n + 1) == Times(a, n) + a && Times(a, 0) == 0.0
  {
  }

  lemma {:induction false} DeviationsAre(p: PathReport, interfaces: seq<string>, a: real)
    ensures var mbps := FreshMbps(p, interfaces); Deviations(p, interfaces, a) == Sum(mbps) - Times(a, |mbps|)
  {
    if interfaces == [] {
      OneMoreTimes(a, 0);
    } else {
      hide FreshMbps, Sum, Deviations, MaxReal, Fresh, Times;
      var n := |interfaces| - 1;
      DeviationsAre(p, interfaces[..n], a);
      FreshOneMore(p, interfaces);
      DeviationsOneMore(p, interfaces, a);
      OneMoreTimes(a, |FreshMbps(p, interfaces[..n])|);
    }
  }

  lemma SumOneMore(ws: seq<real>, x: real)
    ensures Sum(ws + [x]) == Sum(ws) + x
  {
    assert (ws + [x])[..|ws|] == ws;
  }

  lemma {:induction false} NoneFresh(p: PathReport, interfaces: seq<string>)
    ensures FreshMbps(p, interfaces) == [] <==>
      forall i :: 0 <= i < |interfaces| ==> interfaces[i] in p.failed || !Fresh(p, interfaces[i])
  {
    if interfaces != [] {
      NoneFresh(p, interfaces[..|interfaces| - 1]);
    }
  }

  /** The average balances the throughputs of the fresh usable paths; without any it is zero. */
  lemma AverageBalances(p: PathReport)
    ensures if exists i :: Usable(p, i) then Deviations(p, p.interfaces, AverageMbps(p)) == 0.0
      else AverageMbps(p) == 0.0
  {
    NoneFresh(p, p.interfaces);
    var mbps := FreshMbps(p, p.interfaces);
    DeviationsAre(p, p.interfaces, AverageMbps(p));
    if mbps == [] {
      assert forall i :: !Usable(p, i);
    } else {
      TimesCount(Sum(mbps), |mbps| as real);
      var i :| 0 <= i < |p.interfaces| && !(p.interfaces[i] in p.failed || !Fresh(p, p.interfaces[i]));
      assert Usable(p, i);
    }
  }

  lemma TimesCount(total: real, count: real)
    requires count > 0.0
    ensures (total / count) * count == total
  {
  }

  // ---------------------------------------------------------------- weights in proportion

  lemma SharesInProportion(a: real, b: real, total: real)
    requires a > 0.0 && b > 0.0 && total > 0.0
    ensures a / total > 0.0 && b / total > 0.0
    ensures (a / total) * b == (b / total) * a
    ensures (a / total >= b / total <==> a >= b) && (a / total > b / total <==> a > b)
  {
    var x, y := a / total, b / total;
    assert x * total == a && y * total == b;
    Reorder(x, y, total);
    if x >= y {
      ScaledOrder(y, x, total);
    } else {
      ScaledStrictly(x, y, total);
    }
    if x > y {
      ScaledStrictly(y, x, total);
    }
    assert x * b == x * (y * total) && y * a == y * (x * total);
  }

  lemma ScaledOrder(a: real, b: real, factor: real)
    requires a <= b && factor >= 0.0
    ensures a * factor <= b * factor
  {
  }

  lemma ScaledStrictly(a: real, b: real, factor: real)
    requires a < b && factor > 0.0
    ensures a * factor < b * factor
  {
  }

  /** Of two fresh usable paths: the weights are in proportion to score times penalty. */
  lemma WeightsInProportion(p: PathReport, i: nat, j: nat)
    requires Usable(p, i) && Usable(p, j)
    ensures var ws, a, b := ActiveWeights(p), Score(MbpsAt(p, i), AverageMbps(p)) * Penalty(LagAt(p, i)),
        Score(MbpsAt(p, j), AverageMbps(p)) * Penalty(LagAt(p, j));
      && ws[i] > 0.0 && ws[j] > 0.0 && ws[i] * b == ws[j] * a
      && (ws[i] >= ws[j] <==> a >= b) && (ws[i] > ws[j] <==> a > b)
  {
    hide Score, Penalty, RawWeight, LagAt, AverageMbps, ActiveWeights;
    RawWeightIs(p, i);
    RawWeightIs(p, j);
    assert SomeUsable(p);
    ActiveWeightsAreShares(p);
    SharesInProportion(RawWeights(p)[i], RawWeights(p)[j], Sum(RawWeights(p)));
  }

  /** With equal throughputs the weights stand as the penalties for the lags. */
  lemma EqualThroughputsWeighLags(p: PathReport, i: nat, j: nat)
    requires Usable(p, i) && Usable(p, j) && MbpsAt(p, i) == MbpsAt(p, j)
    ensures var ws := ActiveWeights(p);
      ws[i] > 0.0 && ws[i] * Penalty(LagAt(p, j)) == ws[j] * Penalty(LagAt(p, i))
  {
    hide Score, Penalty, LagAt, AverageMbps, ActiveWeights;
    WeightsInProportion(p, i, j);
    var ws, s := ActiveWeights(p), Score(MbpsAt(p, i), AverageMbps(p));
    FactorOut(ws[i], Penalty(LagAt(p, j)), ws[j], Penalty(LagAt(p, i)), s);
  }

  lemma FactorOut(a: real, b: real, c: real, d: real, s: real)
    requires s > 0.0 && a * (s * b) == c * (s * d)
    ensures a * b == c * d
  {
    assert a * (s * b) == (a * b) * s;
    assert c * (s * d) == (c * d) * s;
    if a * b < c * d {
      ScaledStrictly(a * b, c * d, s);
    } else if c * d < a * b {
      ScaledStrictly(c * d, a * b, s);
    }
  }

  /** The path has reported nothing, or nothing for more than a second and a half. */
  predicate Silent(p: PathReport, i: nat)
    requires i < |p.interfaces|
  {
    p.interfaces[i] in p.health ==> p.now > p.health[p.interfaces[i]].lastUnixMs + 1500
  }

  lemma SilentIsNotFresh(p: PathReport, i: nat)
    requires i < |p.interfaces|
    ensures Silent(p, i) <==> !Fresh(p, p.interfaces[i])
  {
  }

  lemma SilentRaw(p: PathReport, j: nat)
    requires j < |p.interfaces| && p.interfaces[j] !in p.failed && Silent(p, j)
    ensures RawWeights(p)[j] == 0.01 && SomeUsable(p)
  {
    SilentIsNotFresh(p, j);
    hide BlendedAutoWeight, AverageMbps, BestLastSeq, LagPenalty;
  }

  /** Weights are raw weights divided by one positive total. */
  lemma WeightsStandAsRaw(p: PathReport, i: nat, j: nat)
    requires i < |p.interfaces| && j < |p.interfaces| && SomeUsable(p)
    requires RawWeights(p)[i] > 0.0 && RawWeights(p)[j] > 0.0
    ensures var ws, raw := ActiveWeights(p), RawWeights(p);
      ws[j] > 0.0 && ws[j] * raw[i] == ws[i] * raw[j]
  {
    hide RawWeights, ActiveWeights, Sum, SomeUsable;
    ActiveWeightsAreShares(p);
    SharesInProportion(RawWeights(p)[i], RawWeights(p)[j], Sum(RawWeights(p)));
  }

  /** A silent path that has not failed counts for a hundredth. */
  lemma SilentPathsWeighLittle(p: PathReport, i: nat, j: nat)
    requires Usable(p, i) && j < |p.interfaces| && p.interfaces[j] !in p.failed && Silent(p, j)
    ensures var ws, a := ActiveWeights(p), Score(MbpsAt(p, i), AverageMbps(p)) * Penalty(LagAt(p, i));
      ws[j] > 0.0 && ws[j] * a == ws[i] * 0.01
  {
    hide Score, Penalty, LagAt, AverageMbps, ActiveWeights, RawWeights, Silent, SomeUsable;
    RawWeightIs(p, i);
    SilentRaw(p, j);
    WeightsStandAsRaw(p, i, j);
  }

  // ---------------------------------------------------------------- which path is preferred

  /** At least as fast, and with at least as great a newest number; no number counts as keeping up. */
  predicate AtLeastAsGood(p: PathReport, i: nat, j: nat)
    requires Usable(p, i) && Usable(p, j)
  {
    var last, last' := p.health[p.interfaces[i]].lastSeq, p.health[p.interfaces[j]].lastSeq;
    MbpsAt(p, i) >= MbpsAt(p, j) && (last.None? || (last'.Some? && last.value >= last'.value))
  }

  /** Its lag is less, and not yet so great that it makes no more difference. */
  predicate LagsLess(lag: nat, lag': nat) {
    lag < lag' && lag < 78
  }

  /** It is faster, within the range from a quarter of the average to twice that. */
  predicate FasterInRange(mbps: real, mbps': real, average: real) {
    average > EPSILON && mbps > mbps' && 4.0 * mbps > average && mbps' < 2.0 * average
  }

  lemma PenaltyOrder(lag: nat, lag': nat)
    requires lag <= lag'
    ensures Penalty(lag) >= Penalty(lag') && (Penalty(lag) > Penalty(lag') <==> LagsLess(lag, lag'))
  {
  }

  lemma DivisionOrder(a: real, b: real, total: real)
    requires total > 0.0
    ensures (a / total >= b / total <==> a >= b) && (a / total > b / total <==> a > b)
  {
    var x, y := a / total, b / total;
    assert x * total == a && y * total == b;
    if x < y {
      ScaledStrictly(x, y, total);
    } else if x > y {
      ScaledStrictly(y, x, total);
    }
  }

  lemma QuarterAndTwice(a: real, total: real)
    requires total > 0.0
    ensures (a / total > 0.25 <==> 4.0 * a > total) && (a / total < 2.0 <==> a < 2.0 * total)
  {
    assert (0.25 * total) / total == 0.25 && (2.0 * total) / total == 2.0;
    DivisionOrder(a, 0.25 * total, total);
    DivisionOrder(2.0 * total, a, total);
  }

  lemma RatioOrder(mbps: real, mbps': real, average: real)
    requires mbps >= mbps' && average > EPSILON
    ensures Ratio(mbps, average) >= Ratio(mbps', average)
    ensures Ratio(mbps, average) > Ratio(mbps', average) <==> FasterInRange(mbps, mbps', average)
  {
    var a, b := MaxReal(mbps, 0.0), MaxReal(mbps', 0.0);
    DivisionOrder(a, b, average);
    QuarterAndTwice(a, average);
    QuarterAndTwice(b, average);
    assert a >= b && (4.0 * a > average ==> a == mbps);
  }

  lemma ScoreOrder(mbps: real, mbps': real, average: real)
    requires mbps >= mbps'
    ensures Score(mbps, average) >= Score(mbps', average)
    ensures Score(mbps, average) > Score(mbps', average) <==> FasterInRange(mbps, mbps', average)
  {
    if average > EPSILON {
      RatioOrder(mbps, mbps', average);
    }
    hide FasterInRange;
  }

  lemma ProductOrder(s: real, s': real, l: real, l': real)
    requires s >= s' > 0.0 && l >= l' > 0.0
    ensures s * l >= s' * l' && (s * l > s' * l' <==> s > s' || l > l')
  {
    ScaledOrder(s', s, l);
    ScaledOrder(l', l, s');
    if s > s' {
      ScaledStrictly(s', s, l);
    }
    if l > l' {
      ScaledStrictly(l', l, s');
    }
  }

  lemma LagOrder(p: PathReport, i: nat, j: nat)
    requires Usable(p, i) && Usable(p, j) && AtLeastAsGood(p, i, j)
    ensures LagAt(p, i) <= LagAt(p, j)
  {
  }

  lemma WeightOrder(p: PathReport, i: nat, j: nat, s: real, s': real, l: real, l': real)
    requires Usable(p, i) && Usable(p, j)
    requires s == Score(MbpsAt(p, i), AverageMbps(p)) && s' == Score(MbpsAt(p, j), AverageMbps(p))
    requires l == Penalty(LagAt(p, i)) && l' == Penalty(LagAt(p, j)) && s >= s' && l >= l'
    ensures ActiveWeights(p)[i] >= ActiveWeights(p)[j]
    ensures ActiveWeights(p)[i] > ActiveWeights(p)[j] <==> s > s' || l > l'
  {
    hide Score, Penalty, LagAt, AverageMbps, ActiveWeights;
    WeightsInProportion(p, i, j);
    ProductOrder(s, s', l, l');
  }

  /**
    Of two fresh usable paths, one that is at least as fast and has at least as great a newest
    number never gets less; and it gets more exactly if its lag is less and below 78 packets,
    or it is faster while the other is below twice the average and it is above a quarter.
  */
  lemma BetterPathsWeighMore(p: PathReport, i: nat, j: nat)
    requires Usable(p, i) && Usable(p, j) && AtLeastAsGood(p, i, j)
    ensures var ws := ActiveWeights(p);
      && ws[i] >= ws[j]
      && (ws[i] > ws[j] <==>
          || LagsLess(LagAt(p, i), LagAt(p, j))
          || FasterInRange(MbpsAt(p, i), MbpsAt(p, j), AverageMbps(p)))
  {
    LagOrder(p, i, j);
    hide Score, Penalty, LagAt, AverageMbps, ActiveWeights, LagsLess, FasterInRange;
    var average, lag, lag' := AverageMbps(p), LagAt(p, i), LagAt(p, j);
    PenaltyOrder(lag, lag');
    ScoreOrder(MbpsAt(p, i), MbpsAt(p, j), average);
    WeightOrder(p, i, j, Score(MbpsAt(p, i), average), Score(MbpsAt(p, j), average), Penalty(lag), Penalty(lag'));
  }
}
