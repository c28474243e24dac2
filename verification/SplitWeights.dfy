/**
  How traffic is weighted over paths from their reported health, over the reals:
  rounding is not modelled. Also the group size that the same health suggests for
  parity.
*/
module SplitWeights {
  import opened ByteStrings
  import opened FecEncoder

  const EPSILON: real := 0.0000000000000002220446049250313080847263336181640625
  const AUTO_SPLIT_HEALTH_STALE_MS := 1500
  const AUTO_SPLIT_DEGRADE_LAG_PACKETS := 120
  const AUTO_WEIGHT_MIN_RAW_SHARE: real := 0.01
  const AUTO_WEIGHT_MIN_LAG_PENALTY: real := 0.35
  const AUTO_WEIGHT_THROUGHPUT_BLEND: real := 0.25
  const AUTO_WEIGHT_MIN_THROUGHPUT_RATIO: real := 0.25
  const AUTO_WEIGHT_MAX_THROUGHPUT_RATIO: real := 2.0

  datatype InterfaceHealth = InterfaceHealth(lastSeq: Option<nat>, serverMbps: real, lastUnixMs: nat)

  /** Everything the weights depend on. */
  datatype PathReport = PathReport(interfaces: seq<string>, health: map<string, InterfaceHealth>, failed: set<string>,
    now: nat)

  // ---------------------------------------------------------------- small arithmetic

  function MaxReal(a: real, b: real): real {
    if a >= b then a else b
  }

  function ClampReal(x: real, low: real, high: real): real {
    if x < low then low else if x > high then high else x
  }

  function Sum(ws: seq<real>): real {
    if ws == [] then 0.0 else Sum(ws[..|ws| - 1]) + ws[|ws| - 1]
  }

  function Scaled(ws: seq<real>, total: real): (r: seq<real>)
    requires total != 0.0
    ensures |r| == |ws|
  {
    seq(|ws|, (i: nat) requires i < |ws| => ws[i] / total)
  }

  function Uniform(n: nat, w: real): (r: seq<real>)
    ensures |r| == n
  {
    seq(n, (_: nat) => w)
  }

  // ---------------------------------------------------------------- raw weights

  predicate Fresh(p: PathReport, name: string) {
    name in p.health && Minus(p.now, p.health[name].lastUnixMs) <= AUTO_SPLIT_HEALTH_STALE_MS
  }

  /** The throughputs that enter the average: of paths fresh and not failed. */
  function FreshMbps(p: PathReport, interfaces: seq<string>): seq<real> {
    if interfaces == [] then [] else
    var n := |interfaces| - 1;
    FreshMbps(p, interfaces[..n])
    + (if interfaces[n] !in p.failed && Fresh(p, interfaces[n])
       then [MaxReal(p.health[interfaces[n]].serverMbps, 0.0)] else [])
  }

  function AverageMbps(p: PathReport): real {
    var mbps := FreshMbps(p, p.interfaces);
    if mbps == [] then 0.0 else Sum(mbps) / |mbps| as real
  }

  function MaxSeq(a: Option<nat>, b: Option<nat>): Option<nat> {
    match (a, b)
    case (None, _) => b
    case (_, None) => a
    case (Some(x), Some(y)) => Some(Max(x, y))
  }

  function BestLastSeq(p: PathReport, interfaces: seq<string>): Option<nat> {
    if interfaces == [] then None else
    var n := |interfaces| - 1;
    MaxSeq(BestLastSeq(p, interfaces[..n]),
           if interfaces[n] in p.health then p.health[interfaces[n]].lastSeq else None)
  }

  function LagPenalty(best: Option<nat>, last: Option<nat>): real {
    match (best, last)
    case (Some(b), Some(l)) =>
      ClampReal(1.0 - Minus(b, l) as real / AUTO_SPLIT_DEGRADE_LAG_PACKETS as real, AUTO_WEIGHT_MIN_LAG_PENALTY, 1.0)
    case _ => 1.0
  }

  function BlendedAutoWeight(serverMbps: real, average: real, lagPenalty: real): real {
    var ratio := if average <= EPSILON then 1.0
                 else ClampReal(MaxReal(serverMbps, 0.0) / average, AUTO_WEIGHT_MIN_THROUGHPUT_RATIO,
                   AUTO_WEIGHT_MAX_THROUGHPUT_RATIO);
    var score := (1.0 - AUTO_WEIGHT_THROUGHPUT_BLEND) + AUTO_WEIGHT_THROUGHPUT_BLEND * ratio;
    MaxReal(score * lagPenalty, AUTO_WEIGHT_MIN_RAW_SHARE)
  }

  function RawWeight(p: PathReport, name: string): real {
    if name in p.failed then 0.0
    else if !Fresh(p, name) then AUTO_WEIGHT_MIN_RAW_SHARE
    else BlendedAutoWeight(p.health[name].serverMbps, AverageMbps(p),
                           LagPenalty(BestLastSeq(p, p.interfaces), p.health[name].lastSeq))
  }

  function RawWeights(p: PathReport): (ws: seq<real>)
    ensures |ws| == |p.interfaces|
  {
    seq(|p.interfaces|, (i: nat) requires i < |p.interfaces| => RawWeight(p, p.interfaces[i]))
  }

  // ---------------------------------------------------------------- normalising

  function NormalizedOr(ws: seq<real>, fallback: real, total: real): (r: seq<real>)
    ensures |r| == |ws|
  {
    if total <= EPSILON then Uniform(|ws|, fallback) else Scaled(ws, total)
  }

  function AutoSplitWeights(p: PathReport): (ws: seq<real>)
    ensures |ws| == |p.interfaces|
  {
    var raw := RawWeights(p);
    if raw == [] then [] else NormalizedOr(raw, 1.0 / |raw| as real, Sum(raw))
  }

  function Zeroed(p: PathReport, ws: seq<real>): (r: seq<real>)
    requires |ws| == |p.interfaces|
    ensures |r| == |ws|
  {
    seq(|ws|, (i: nat) requires i < |ws| => if p.interfaces[i] in p.failed then 0.0 else ws[i])
  }

  function ZeroFailed(p: PathReport, ws: seq<real>): (r: seq<real>)
    requires |ws| == |p.interfaces|
    ensures |r| == |ws|
  {
    var zeroed := Zeroed(p, ws);
    if Sum(zeroed) <= EPSILON then zeroed else Scaled(zeroed, Sum(zeroed))
  }

  /** The weights used when splitting automatically by weight. */
  function ActiveWeights(p: PathReport): (ws: seq<real>)
    ensures |ws| == |p.interfaces|
  {
    ZeroFailed(p, AutoSplitWeights(p))
  }

  // ---------------------------------------------------------------- the in-place passes

  method DivideAll(weights: array<real>, total: real)
    requires total != 0.0
    modifies weights
    ensures weights[..] == Scaled(old(weights[..]), total)
  {
    for i := 0 to weights.Length
      invariant forall k :: 0 <= k < weights.Length ==>
        weights[k] == if k < i then old(weights[k]) / total else old(weights[k])
    {
      weights[i] := weights[i] / total;
    }
  }

  method NormalizeInPlace(weights: array<real>, fallback: real, total: real)
    modifies weights
    ensures weights[..] == NormalizedOr(old(weights[..]), fallback, total)
  {
    if total <= EPSILON {
      for i := 0 to weights.Length
        invariant forall k :: 0 <= k < i ==> weights[k] == fallback
      {
        weights[i] := fallback;
      }
    } else {
      DivideAll(weights, total);
    }
  }

  method ZeroFailedInPlace(p: PathReport, weights: array<real>)
    requires weights.Length == |p.interfaces|
    modifies weights
    ensures weights[..] == ZeroFailed(p, old(weights[..]))
  {
    ghost var before := weights[..];
    for i := 0 to weights.Length
      invariant forall k :: 0 <= k < weights.Length ==>
        weights[k] == if k < i && p.interfaces[k] in p.failed then 0.0 else before[k]
    {
      if p.interfaces[i] in p.failed {
        weights[i] := 0.0;
      }
    }
    assert weights[..] == Zeroed(p, before);
    var total := Sum(weights[..]);
    if total > EPSILON {
      DivideAll(weights, total);
    }
  }

  // ---------------------------------------------------------------- sums

  lemma {:induction false} SumScales(ws: seq<real>, total: real)
    requires total > 0.0
    ensures Sum(Scaled(ws, total)) == Sum(ws) / total
  {
    if ws != [] {
      var n := |ws| - 1;
      SumScales(ws[..n], total);
      assert Scaled(ws, total)[..n] == Scaled(ws[..n], total);
    }
  }

  lemma {:induction false} SumOfZeros(ws: seq<real>)
    requires forall i :: 0 <= i < |ws| ==> ws[i] == 0.0
    ensures Sum(ws) == 0.0
  {
    if ws != [] {
      SumOfZeros(ws[..|ws| - 1]);
    }
  }

  /** A sum of non-negative terms is at least any one of them. */
  lemma {:induction false} SumAtLeast(ws: seq<real>, k: nat)
    requires forall i :: 0 <= i < |ws| ==> ws[i] >= 0.0
    requires k < |ws|
    ensures Sum(ws) >= ws[k]
  {
    var n := |ws| - 1;
    SumNonNegative(ws[..n]);
    if k < n {
      SumAtLeast(ws[..n], k);
    }
  }

  lemma {:induction false} SumNonNegative(ws: seq<real>)
    requires forall i :: 0 <= i < |ws| ==> ws[i] >= 0.0
    ensures Sum(ws) >= 0.0
  {
    if ws != [] {
      SumNonNegative(ws[..|ws| - 1]);
    }
  }

  /** A sum is at most one term and a bound for each of the others. */
  lemma {:induction false} SumAtMost(ws: seq<real>, bound: real, k: nat)
    requires bound >= 0.0 && forall i :: 0 <= i < |ws| ==> ws[i] <= bound
    requires k < |ws|
    ensures Sum(ws) <= ws[k] + bound * (|ws| - 1) as real
  {
    var n := |ws| - 1;
    if k < n {
      SumAtMost(ws[..n], bound, k);
    } else {
      SumBelow(ws[..n], bound);
    }
  }

  lemma {:induction false} SumBelow(ws: seq<real>, bound: real)
    requires forall i :: 0 <= i < |ws| ==> ws[i] <= bound
    ensures Sum(ws) <= bound * |ws| as real
  {
    if ws != [] {
      SumBelow(ws[..|ws| - 1], bound);
    }
  }

  // ---------------------------------------------------------------- bounds on one weight

  const LOWEST_FRESH: real := 0.284375
  const HIGHEST_RAW: real := 1.25

  lemma ScoreBounds(score: real, lag: real)
    requires 0.8125 <= score <= 1.25 && 0.35 <= lag <= 1.0
    ensures LOWEST_FRESH <= score * lag <= HIGHEST_RAW
  {
    assert score * lag >= 0.8125 * lag;
    assert score * lag <= 1.25 * lag;
  }

  lemma BlendBounds(serverMbps: real, average: real, lag: real)
    requires 0.35 <= lag <= 1.0
    ensures LOWEST_FRESH <= BlendedAutoWeight(serverMbps, average, lag) <= HIGHEST_RAW
  {
    var ratio := if average <= EPSILON then 1.0
                 else ClampReal(MaxReal(serverMbps, 0.0) / average, AUTO_WEIGHT_MIN_THROUGHPUT_RATIO,
                   AUTO_WEIGHT_MAX_THROUGHPUT_RATIO);
    ScoreBounds((1.0 - AUTO_WEIGHT_THROUGHPUT_BLEND) + AUTO_WEIGHT_THROUGHPUT_BLEND * ratio, lag);
  }

  /** A raw weight: zero if failed, small if not fresh, within a fixed band if fresh. */
  lemma RawWeightBounds(p: PathReport, name: string)
    ensures var w := RawWeight(p, name);
      && (name in p.failed ==> w == 0.0)
      && (name !in p.failed ==> AUTO_WEIGHT_MIN_RAW_SHARE <= w <= HIGHEST_RAW)
      && (name !in p.failed && Fresh(p, name) ==> LOWEST_FRESH <= w)
  {
    if name !in p.failed && Fresh(p, name) {
      BlendBounds(p.health[name].serverMbps, AverageMbps(p),
        LagPenalty(BestLastSeq(p, p.interfaces), p.health[name].lastSeq));
    }
  }

  lemma RawWeightsBounds(p: PathReport)
    ensures forall i :: 0 <= i < |p.interfaces| ==>
      var w := RawWeights(p)[i];
      && (p.interfaces[i] in p.failed ==> w == 0.0)
      && (p.interfaces[i] !in p.failed ==> AUTO_WEIGHT_MIN_RAW_SHARE <= w)
      && 0.0 <= w <= HIGHEST_RAW
      && (p.interfaces[i] !in p.failed && Fresh(p, p.interfaces[i]) ==> LOWEST_FRESH <= w)
  {
    forall i | 0 <= i < |p.interfaces|
      ensures RawWeights(p)[i] == RawWeight(p, p.interfaces[i])
    {
      RawWeightBounds(p, p.interfaces[i]);
    }
    forall i | 0 <= i < |p.interfaces|
      ensures var w := RawWeights(p)[i];
        && (p.interfaces[i] in p.failed ==> w == 0.0)
        && (p.interfaces[i] !in p.failed ==> AUTO_WEIGHT_MIN_RAW_SHARE <= w)
        && 0.0 <= w <= HIGHEST_RAW
        && (p.interfaces[i] !in p.failed && Fresh(p, p.interfaces[i]) ==> LOWEST_FRESH <= w)
    {
      RawWeightBounds(p, p.interfaces[i]);
    }
  }

  // ---------------------------------------------------------------- the weights

  ghost predicate SomeUsable(p: PathReport) {
    exists i :: 0 <= i < |p.interfaces| && p.interfaces[i] !in p.failed
  }

  /** Dividing by a positive sum leaves a sum of one, so dividing again changes nothing. */
  lemma SharesSumToOne(ws: seq<real>)
    requires Sum(ws) > 0.0
    ensures var shares := Scaled(ws, Sum(ws)); Sum(shares) == 1.0 && Scaled(shares, 1.0) == shares
  {
    SumScales(ws, Sum(ws));
    DivideBySelf(Sum(ws));
    var shares := Scaled(ws, Sum(ws));
    assert Scaled(shares, 1.0) == shares by {
      forall i | 0 <= i < |shares|
        ensures Scaled(shares, 1.0)[i] == shares[i]
      {
        DivideByOne(shares[i]);
      }
    }
  }

  lemma DivideBySelf(w: real)
    requires w > 0.0
    ensures w / w == 1.0
  {
    assert (w / w) * w == w;
  }

  lemma DivideByOne(w: real)
    ensures w / 1.0 == w
  {
  }

  lemma RawSumIsPositive(p: PathReport)
    requires SomeUsable(p)
    ensures Sum(RawWeights(p)) >= AUTO_WEIGHT_MIN_RAW_SHARE
  {
    RawWeightsBounds(p);
    var k :| 0 <= k < |p.interfaces| && p.interfaces[k] !in p.failed;
    SumAtLeast(RawWeights(p), k);
  }

  /** Failed paths already have no share, so zeroing them changes nothing. */
  lemma ZeroingKeepsShares(p: PathReport, total: real)
    requires total > 0.0
    ensures Zeroed(p, Scaled(RawWeights(p), total)) == Scaled(RawWeights(p), total)
  {
    RawWeightsBounds(p);
    var shares := Scaled(RawWeights(p), total);
    forall i | 0 <= i < |p.interfaces| && p.interfaces[i] in p.failed
      ensures shares[i] == 0.0
    {
      ShareSign(RawWeights(p)[i], total);
    }
  }

  /** With a usable path, the active weights are the raw weights divided by their positive sum. */
  lemma ActiveWeightsAreShares(p: PathReport)
    requires SomeUsable(p)
    ensures Sum(RawWeights(p)) >= AUTO_WEIGHT_MIN_RAW_SHARE
    ensures ActiveWeights(p) == Scaled(RawWeights(p), Sum(RawWeights(p))) && Sum(ActiveWeights(p)) == 1.0
  {
    RawSumIsPositive(p);
    var total := Sum(RawWeights(p));
    ZeroingKeepsShares(p, total);
    SharesSumToOne(RawWeights(p));
    assert AutoSplitWeights(p) == Scaled(RawWeights(p), total);
  }

  /** No usable path, no weight at all. */
  lemma NoUsablePathNoWeight(p: PathReport)
    requires !SomeUsable(p)
    ensures forall i :: 0 <= i < |p.interfaces| ==> ActiveWeights(p)[i] == 0.0
  {
    var zeroed := Zeroed(p, AutoSplitWeights(p));
    assert forall i :: 0 <= i < |p.interfaces| ==> p.interfaces[i] in p.failed;
    SumOfZeros(zeroed);
  }

  /**
    Active weights are non-negative, zero for failed paths, and sum to one exactly when
    some path has not failed.
  */
  lemma WeightsAreADistribution(p: PathReport)
    ensures var ws := ActiveWeights(p);
      && (forall i :: 0 <= i < |ws| ==> ws[i] >= 0.0 && (p.interfaces[i] in p.failed ==> ws[i] == 0.0))
      && (SomeUsable(p) <==> Sum(ws) == 1.0) && (!SomeUsable(p) <==> Sum(ws) == 0.0)
  {
    if SomeUsable(p) {
      ActiveWeightsAreShares(p);
      RawWeightsBounds(p);
      var raw, total := RawWeights(p), Sum(RawWeights(p));
      forall i | 0 <= i < |p.interfaces|
        ensures ActiveWeights(p)[i] >= 0.0 && (p.interfaces[i] in p.failed ==> ActiveWeights(p)[i] == 0.0)
      {
        ShareSign(raw[i], total);
      }
    } else {
      NoUsablePathNoWeight(p);
      SumOfZeros(ActiveWeights(p));
    }
  }

  lemma ShareSign(w: real, total: real)
    requires w >= 0.0 && total > 0.0
    ensures w / total >= 0.0 && (w == 0.0 ==> w / total == 0.0)
  {
  }

  /** Two fresh usable paths never differ by more than 400 to 91. */
  lemma FreshPathsAreComparable(p: PathReport, i: nat, j: nat)
    requires i < |p.interfaces| && p.interfaces[i] !in p.failed && Fresh(p, p.interfaces[i])
    requires j < |p.interfaces| && p.interfaces[j] !in p.failed
    ensures 91.0 * ActiveWeights(p)[j] <= 400.0 * ActiveWeights(p)[i]
  {
    assert SomeUsable(p);
    ActiveWeightsAreShares(p);
    RawWeightsBounds(p);
    var raw, total := RawWeights(p), Sum(RawWeights(p));
    assert 91.0 * raw[j] <= 400.0 * raw[i];
    SharesCompare(raw[i], raw[j], total);
  }

  /** A common positive factor can be cancelled. */
  lemma Cancel(a: real, b: real, total: real)
    requires total > 0.0 && a * total <= b * total
    ensures a <= b
  {
  }

  lemma SharesCompare(a: real, b: real, total: real)
    requires 91.0 * b <= 400.0 * a && total > 0.0
    ensures 91.0 * (b / total) <= 400.0 * (a / total)
  {
    assert (91.0 * (b / total)) * total == 91.0 * b;
    assert (400.0 * (a / total)) * total == 400.0 * a;
    Cancel(91.0 * (b / total), 400.0 * (a / total), total);
  }

  /** The least share of a fresh usable path among n. */
  function LeastShare(n: nat): real
    requires n > 0
  {
    91.0 / (400.0 * (n - 1) as real + 91.0)
  }

  /** A fresh usable path among n always gets at least 91 parts in 400 (n - 1) + 91. */
  lemma FreshPathKeepsAShare(p: PathReport, i: nat)
    requires i < |p.interfaces| && p.interfaces[i] !in p.failed && Fresh(p, p.interfaces[i])
    ensures ActiveWeights(p)[i] >= LeastShare(|p.interfaces|)
  {
    assert SomeUsable(p);
    ActiveWeightsAreShares(p);
    RawWeightsBounds(p);
    ShareOfBandedWeights(RawWeights(p), i);
  }

  lemma ShareOfBandedWeights(ws: seq<real>, i: nat)
    requires i < |ws| && ws[i] >= LOWEST_FRESH && Sum(ws) > 0.0
    requires forall k :: 0 <= k < |ws| ==> ws[k] <= HIGHEST_RAW
    ensures Scaled(ws, Sum(ws))[i] >= LeastShare(|ws|)
  {
    SumAtMost(ws, HIGHEST_RAW, i);
    ShareFloor(ws[i], Sum(ws), (|ws| - 1) as real);
  }

  lemma ShareFloor(w: real, total: real, others: real)
    requires w >= LOWEST_FRESH && others >= 0.0 && 0.0 < total <= w + HIGHEST_RAW * others
    ensures w / total >= 91.0 / (400.0 * others + 91.0)
  {
    var parts := 400.0 * others + 91.0;
    assert w * others >= LOWEST_FRESH * others;
    assert w * parts >= 91.0 * total;
    CrossDivide(w, total, 91.0, parts);
  }

  lemma CrossDivide(a: real, b: real, c: real, d: real)
    requires b > 0.0 && d > 0.0 && a * d >= c * b
    ensures a / b >= c / d
  {
    var x, y := a / b, c / d;
    Reorder(x, b, d);
    Reorder(y, d, b);
    Cancel(y * d, x * d, b);
    Cancel(y, x, d);
  }

  lemma Reorder(a: real, b: real, c: real)
    ensures (a * b) * c == (a * c) * b
  {
  }

  // ---------------------------------------------------------------- parity group size

  const ADAPTIVE_FEC_GOOD_GROUP_PACKETS := 6
  const ADAPTIVE_FEC_DEGRADED_GROUP_PACKETS := 4
  const ADAPTIVE_FEC_BAD_GROUP_PACKETS := 3
  const ADAPTIVE_FEC_DEGRADED_LAG_PACKETS := 40
  const ADAPTIVE_FEC_BAD_LAG_PACKETS := 120

  function BestReported(health: seq<InterfaceHealth>): Option<nat> {
    if health == [] then None else MaxSeq(BestReported(health[..|health| - 1]), health[|health| - 1].lastSeq)
  }

  function WorstLag(health: seq<InterfaceHealth>, best: nat): nat {
    if health == [] then 0 else
    var last := health[|health| - 1].lastSeq;
    Max(WorstLag(health[..|health| - 1], best), if last.Some? then Minus(best, last.value) else 0)
  }

  function TotalMbps(health: seq<InterfaceHealth>): real {
    if health == [] then 0.0 else TotalMbps(health[..|health| - 1]) + health[|health| - 1].serverMbps
  }

  function SlowestMbps(health: seq<InterfaceHealth>): real
    requires health != []
  {
    var last := health[|health| - 1].serverMbps;
    if |health| == 1 then last else
    var front := SlowestMbps(health[..|health| - 1]);
    if front <= last then front else last
  }

  function DegradedMbps(health: seq<InterfaceHealth>): real
    requires health != []
  {
    MaxReal(TotalMbps(health) / |health| as real * 0.40, 0.10)
  }

  function BadMbps(health: seq<InterfaceHealth>): real
    requires health != []
  {
    MaxReal(TotalMbps(health) / |health| as real * 0.15, 0.05)
  }

  function ReportedLag(health: seq<InterfaceHealth>): nat {
    match BestReported(health)
    case Some(best) => WorstLag(health, best)
    case None => 0
  }

  function AdaptiveGroupPackets(health: seq<InterfaceHealth>): (size: nat)
    ensures size in ADAPTIVE_GROUP_SIZES
  {
    if health == [] then ADAPTIVE_FEC_DEGRADED_GROUP_PACKETS
    else if ReportedLag(health) >= ADAPTIVE_FEC_BAD_LAG_PACKETS || SlowestMbps(health) <= BadMbps(health) then
      ADAPTIVE_FEC_BAD_GROUP_PACKETS
    else if ReportedLag(health) >= ADAPTIVE_FEC_DEGRADED_LAG_PACKETS || SlowestMbps(health) <= DegradedMbps(health) then
      ADAPTIVE_FEC_DEGRADED_GROUP_PACKETS
    else ADAPTIVE_FEC_GOOD_GROUP_PACKETS
  }

  /** No two paths that report a sequence are `limit` or more apart. */
  ghost predicate Within(health: seq<InterfaceHealth>, limit: nat) {
    forall i, j :: 0 <= i < |health| && 0 <= j < |health| && health[i].lastSeq.Some? && health[j].lastSeq.Some? ==>
      health[i].lastSeq.value < health[j].lastSeq.value + limit
  }

  lemma {:induction false} BestReportedIsMaximum(health: seq<InterfaceHealth>)
    ensures BestReported(health).None? <==> forall i :: 0 <= i < |health| ==> health[i].lastSeq.None?
    ensures forall i :: 0 <= i < |health| && health[i].lastSeq.Some? ==>
      health[i].lastSeq.value <= BestReported(health).value
    ensures BestReported(health).Some? ==> exists i :: 0 <= i < |health| && health[i].lastSeq == BestReported(health)
  {
    if health != [] {
      var n := |health| - 1;
      BestReportedIsMaximum(health[..n]);
      assert forall i :: 0 <= i < n ==> health[..n][i] == health[i];
      if BestReported(health) != health[n].lastSeq {
        var i :| 0 <= i < n && health[..n][i].lastSeq == BestReported(health[..n]);
        assert health[i].lastSeq == BestReported(health);
      }
    }
  }

  lemma {:induction false} WorstLagIsMaximum(health: seq<InterfaceHealth>, best: nat, limit: nat)
    requires limit > 0
    ensures WorstLag(health, best) < limit <==>
      forall i :: 0 <= i < |health| && health[i].lastSeq.Some? ==> best < health[i].lastSeq.value + limit
  {
    if health != [] {
      var n := |health| - 1;
      WorstLagIsMaximum(health[..n], best, limit);
      assert forall i :: 0 <= i < n ==> health[..n][i] == health[i];
    }
  }

  lemma ReportedLagIsSpread(health: seq<InterfaceHealth>, limit: nat)
    requires limit > 0
    ensures ReportedLag(health) < limit <==> Within(health, limit)
  {
    BestReportedIsMaximum(health);
    if BestReported(health).Some? {
      WorstLagIsMaximum(health, BestReported(health).value, limit);
    }
  }

  lemma {:induction false} SlowestIsMinimum(health: seq<InterfaceHealth>, bound: real)
    requires health != []
    ensures SlowestMbps(health) > bound <==> forall i :: 0 <= i < |health| ==> health[i].serverMbps > bound
  {
    var n := |health| - 1;
    if n > 0 {
      SlowestIsMinimum(health[..n], bound);
      assert forall i :: 0 <= i < n ==> health[..n][i] == health[i];
    }
  }

  /**
    The longest group is chosen exactly when every path keeps up: no two reported
    sequences are 40 apart and every throughput is above the degraded threshold.
  */
  lemma LongestGroupIffAllKeepUp(health: seq<InterfaceHealth>)
    ensures AdaptiveGroupPackets(health) == ADAPTIVE_FEC_GOOD_GROUP_PACKETS <==>
      && health != []
      && Within(health, ADAPTIVE_FEC_DEGRADED_LAG_PACKETS)
      && forall i :: 0 <= i < |health| ==> health[i].serverMbps > DegradedMbps(health)
  {
    if health != [] {
      ReportedLagIsSpread(health, ADAPTIVE_FEC_DEGRADED_LAG_PACKETS);
      SlowestIsMinimum(health, DegradedMbps(health));
      assert BadMbps(health) <= DegradedMbps(health);
    }
  }

  /** Some throughput is no more than the bound. */
  ghost predicate SomeAtMost(health: seq<InterfaceHealth>, bound: real) {
    exists i :: 0 <= i < |health| && health[i].serverMbps <= bound
  }

  /**
    Groups of three exactly when two reported sequences are 120 apart or a throughput is at
    or below the bad threshold; groups of four when there is no report, or when that is not
    so but two sequences are 40 apart or a throughput is at or below the degraded threshold.
  */
  lemma ShorterGroupsIff(health: seq<InterfaceHealth>)
    ensures AdaptiveGroupPackets(health) == 3 <==>
      health != [] && (!Within(health, 120) || SomeAtMost(health, BadMbps(health)))
    ensures AdaptiveGroupPackets(health) == 4 <==>
      || health == []
      || (Within(health, 120) && !SomeAtMost(health, BadMbps(health))
          && (!Within(health, 40) || SomeAtMost(health, DegradedMbps(health))))
  {
    if health != [] {
      ReportedLagIsSpread(health, ADAPTIVE_FEC_BAD_LAG_PACKETS);
      ReportedLagIsSpread(health, ADAPTIVE_FEC_DEGRADED_LAG_PACKETS);
      SlowestIsMinimum(health, BadMbps(health));
      SlowestIsMinimum(health, DegradedMbps(health));
    }
  }

  function ServerMbps(health: seq<InterfaceHealth>): (mbps: seq<real>)
    ensures |mbps| == |health|
  {
    seq(|health|, (i: nat) requires i < |health| => health[i].serverMbps)
  }

  lemma {:induction false} TotalIsSum(health: seq<InterfaceHealth>)
    ensures TotalMbps(health) == Sum(ServerMbps(health))
  {
    if health != [] {
      TotalIsSum(health[..|health| - 1]);
      assert ServerMbps(health)[..|health| - 1] == ServerMbps(health[..|health| - 1]);
    }
  }

  lemma DivisionIs(total: real, count: real, mean: real)
    requires count > 0.0 && mean * count == total
    ensures total / count == mean
  {
    Cancelled(total / count, mean, count);
  }

  lemma Cancelled(a: real, b: real, factor: real)
    requires factor > 0.0 && a * factor == b * factor
    ensures a == b
  {
  }

  /** The thresholds: 40 and 15 percent of the mean throughput, but at least 0.10 and 0.05. */
  lemma ThresholdsOfTheMean(health: seq<InterfaceHealth>, mean: real)
    requires health != [] && mean * |health| as real == Sum(ServerMbps(health))
    ensures DegradedMbps(health) == MaxReal(0.40 * mean, 0.10) && BadMbps(health) == MaxReal(0.15 * mean, 0.05)
  {
    TotalIsSum(health);
    DivisionIs(TotalMbps(health), |health| as real, mean);
  }
}
