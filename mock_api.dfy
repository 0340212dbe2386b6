/** The data service behind the globe and the insight panel: per-layer values
    derived from the projected anomalies, the point list drawn on the globe,
    and the year's aggregate figures. */
module MockApi {
  import opened Types
  import opened Helpers
  import opened ClimateDataLoader

  /** The variable every layer is derived from. */
  const TEMPERATURE_VARIABLE: string := "t2m"

  /** Surrounding points drawn around each region's centre. */
  const RING_SIZE: nat := 8

  // ---------------------------------------------------------------------
  // getLayerData

  /** The value a layer shows for a region: the anomaly itself, or a drought
      or fire-risk index that grows with it and is clamped to [0, 1]. */
  function LayerValue(layer: Layer, anomaly: real): (v: real)
    ensures layer == Anomaly ==> v == anomaly
    ensures layer == Drought ==> v == Clamp(anomaly / 4.0 + 0.3, 0.0, 1.0)
    ensures layer == FireRisk ==> v == Clamp(anomaly / 3.0 + 0.4, 0.0, 1.0)
    ensures layer != Anomaly ==> 0.0 <= v <= 1.0
  {
    match layer
    case Anomaly => anomaly
    case Drought => Max(0.0, Min(1.0, anomaly / 4.0 + 0.3))
    case FireRisk => Max(0.0, Min(1.0, anomaly / 3.0 + 0.4))
  }

  /** A warmer region never shows a lower value on any layer. */
  lemma LayerValueMonotone(layer: Layer, a1: real, a2: real)
    requires a1 <= a2
    ensures LayerValue(layer, a1) <= LayerValue(layer, a2)
  {
  }

  /** Where and with what value the i-th surrounding point of a centre is
      drawn, given the anchor, the layer value, the region's position in the
      projection and i.  The source places it with a cosine/sine offset and
      adds fresh random noise on every call; the model takes that placement
      as a parameter, so regions at different positions get their own noise. */
  type RingPlacement = (Coords, real, nat, nat) -> (Coords, real)

  function CenterPoint(e: RegionAnomaly, c: Coords, layer: Layer): GlobeLayerDatum
  {
    GlobeLayerDatum(c.lat, c.lon, LayerValue(layer, e.anomaly), Some(e.name))
  }

  function RingPoint(e: RegionAnomaly, pos: nat, c: Coords, layer: Layer, ring: RingPlacement, i: nat): GlobeLayerDatum
  {
    var (p, v) := ring(c, LayerValue(layer, e.anomaly), pos, i);
    GlobeLayerDatum(p.lat, p.lon, v, Some(e.name))
  }

  /** The points of one region: none without an anchor, else the centre
      followed by the ring. */
  function RegionPoints(e: RegionAnomaly, pos: nat, layer: Layer, ring: RingPlacement): seq<GlobeLayerDatum>
  {
    match e.coords
    case None => []
    case Some(c) => [CenterPoint(e, c, layer)] + seq(RING_SIZE, i requires 0 <= i < RING_SIZE => RingPoint(e, pos, c, layer, ring, i))
  }

  /** The point list getLayerData builds for a sequence of entries. */
  function LayerPoints(entries: seq<RegionAnomaly>, layer: Layer, ring: RingPlacement): seq<GlobeLayerDatum>
    decreases |entries|
  {
    if entries == [] then []
    else LayerPoints(entries[..|entries| - 1], layer, ring) + RegionPoints(entries[|entries| - 1], |entries| - 1, layer, ring)
  }

  /** The entries that have an anchor, in order. */
  function WithCoords(entries: seq<RegionAnomaly>): (r: seq<RegionAnomaly>)
    ensures |r| <= |entries|
    ensures forall k :: 0 <= k < |r| ==> r[k].coords.Some? && r[k] in entries
    decreases |entries|
  {
    if entries == [] then []
    else
      var front := WithCoords(entries[..|entries| - 1]);
      if entries[|entries| - 1].coords.Some? then front + [entries[|entries| - 1]] else front
  }

  /** The positions, in increasing order, of the entries that have an anchor. */
  function AnchoredIndices(entries: seq<RegionAnomaly>): (idx: seq<nat>)
    ensures forall k :: 0 <= k < |idx| ==> idx[k] < |entries| && entries[idx[k]].coords.Some?
    ensures forall k, m :: 0 <= k < m < |idx| ==> idx[k] < idx[m]
    ensures forall i :: 0 <= i < |entries| && entries[i].coords.Some? ==> i in idx
    decreases |entries|
  {
    if entries == [] then []
    else
      var front := AnchoredIndices(entries[..|entries| - 1]);
      if entries[|entries| - 1].coords.Some? then front + [|entries| - 1] else front
  }

  /** The forEach guard skips exactly the unanchored entries: the k-th kept
      entry is the k-th anchored one, in projection order. */
  lemma {:induction false} WithCoordsExact(entries: seq<RegionAnomaly>)
    ensures var wc, idx := WithCoords(entries), AnchoredIndices(entries);
      && |wc| == |idx|
      && forall k :: 0 <= k < |wc| ==> idx[k] < |entries| && wc[k] == entries[idx[k]]
    decreases |entries|
  {
    if entries != [] {
      var front := entries[..|entries| - 1];
      WithCoordsExact(front);
      var last := entries[|entries| - 1];
      var wc0, idx0 := WithCoords(front), AnchoredIndices(front);
      var wc, idx := WithCoords(entries), AnchoredIndices(entries);
      if last.coords.Some? {
        assert wc == wc0 + [last] && idx == idx0 + [|front|];
      } else {
        assert wc == wc0 && idx == idx0;
      }
      forall k | 0 <= k < |wc|
        ensures idx[k] < |entries| && wc[k] == entries[idx[k]]
      {
        if k < |wc0| {
          assert wc[k] == wc0[k] && idx[k] == idx0[k];
          assert entries[idx0[k]] == front[idx0[k]];
        }
      }
    }
  }

  /** Nine points per anchored region, in region order: point p belongs to
      the (p / 9)-th anchored region, and when p is a multiple of 9 it is that
      region's centre, carrying its exact anchor and layer value. */
  lemma {:induction false} LayerPointsShape(entries: seq<RegionAnomaly>, layer: Layer, ring: RingPlacement)
    ensures var pts, wc := LayerPoints(entries, layer, ring), WithCoords(entries);
      && |pts| == 9 * |wc|
      && forall p :: 0 <= p < |pts| ==>
           && pts[p].region == Some(wc[p / 9].name)
           && (p % 9 == 0 ==> pts[p] == CenterPoint(wc[p / 9], wc[p / 9].coords.value, layer))
    decreases |entries|
  {
    if entries != [] {
      var front := entries[..|entries| - 1];
      var last := entries[|entries| - 1];
      LayerPointsShape(front, layer, ring);
      var pts0, wc0 := LayerPoints(front, layer, ring), WithCoords(front);
      var pts, wc := LayerPoints(entries, layer, ring), WithCoords(entries);
      assert pts == pts0 + RegionPoints(last, |front|, layer, ring);
      if last.coords.Some? {
        assert wc == wc0 + [last];
        forall p | 0 <= p < |pts|
          ensures pts[p].region == Some(wc[p / 9].name)
          ensures p % 9 == 0 ==> pts[p] == CenterPoint(wc[p / 9], wc[p / 9].coords.value, layer)
        {
          if p < |pts0| {
            assert pts[p] == pts0[p];
            assert p / 9 < |wc0|;
            assert wc[p / 9] == wc0[p / 9];
          } else {
            var q := p - |pts0|;
            assert 0 <= q < 9;
            assert p / 9 == |wc0| && p % 9 == q;
            assert pts[p] == RegionPoints(last, |front|, layer, ring)[q];
          }
        }
      } else {
        assert wc == wc0;
        assert pts == pts0;
      }
    }
  }

  /** getLayerData: for every projected region with an anchor, push its
      centre point and then its ring of surrounding points. */
  method GetLayerData(store: seq<ClimateRegion>, year: int, layer: Layer, ring: RingPlacement)
    returns (data: seq<GlobeLayerDatum>)
    ensures data == LayerPoints(GetRegionsWithAnomalies(store, year, TEMPERATURE_VARIABLE), layer, ring)
  {
    var regionsData := GetRegionsWithAnomalies(store, year, TEMPERATURE_VARIABLE);
    data := [];
    var k := 0;
    while k < |regionsData|
      invariant 0 <= k <= |regionsData|
      invariant data == LayerPoints(regionsData[..k], layer, ring)
    {
      data := PushRegionPoints(data, regionsData[k], k, layer, ring);
      assert regionsData[..k + 1][..k] == regionsData[..k];
      k := k + 1;
    }
    assert regionsData[..k] == regionsData;
  }

  /** The forEach callback of getLayerData: skip a region without an anchor,
      else push its centre and the eight surrounding points. */
  method PushRegionPoints(data: seq<GlobeLayerDatum>, regionData: RegionAnomaly, pos: nat, layer: Layer, ring: RingPlacement)
    returns (data': seq<GlobeLayerDatum>)
    ensures data' == data + RegionPoints(regionData, pos, layer, ring)
  {
    data' := data;
    if regionData.coords.None? {
      return;
    }
    var center := regionData.coords.value;
    var value := LayerValue(layer, regionData.anomaly);
    ghost var points := RegionPoints(regionData, pos, layer, ring);
    data' := data' + [GlobeLayerDatum(center.lat, center.lon, value, Some(regionData.name))];
    var i := 0;
    while i < RING_SIZE
      invariant 0 <= i <= RING_SIZE
      invariant data' == data + points[..i + 1]
    {
      var (offset, noisy) := ring(center, value, pos, i);
      assert points[i + 1] == GlobeLayerDatum(offset.lat, offset.lon, noisy, Some(regionData.name));
      assert points[..i + 2] == points[..i + 1] + [points[i + 1]];
      data' := data' + [GlobeLayerDatum(offset.lat, offset.lon, noisy, Some(regionData.name))];
      i := i + 1;
    }
    assert points[..RING_SIZE + 1] == points;
  }

  // ---------------------------------------------------------------------
  // getYearInsight

  /** sum of the entries' anomalies (the left fold of `reduce`). */
  function SumAnomalies(rs: seq<RegionAnomaly>): real
    decreases |rs|
  {
    if rs == [] then 0.0 else SumAnomalies(rs[..|rs| - 1]) + rs[|rs| - 1].anomaly
  }

  /** sum of the entries' high-extreme counts. */
  function SumHighExtremes(rs: seq<RegionAnomaly>): nat
    decreases |rs|
  {
    if rs == [] then 0 else SumHighExtremes(rs[..|rs| - 1]) + rs[|rs| - 1].highExtremes
  }

  /** The positions of the entries whose anomaly exceeds the threshold. */
  ghost function AboveIndices(rs: seq<RegionAnomaly>, threshold: real): set<int>
  {
    set k | 0 <= k < |rs| && rs[k].anomaly > threshold
  }

  /** filter(r => r.anomaly > threshold).length: the number of entries whose
      anomaly exceeds the threshold. */
  function CountAbove(rs: seq<RegionAnomaly>, threshold: real): (n: nat)
    ensures n == |AboveIndices(rs, threshold)|
    ensures n <= |rs|
    decreases |rs|
  {
    if rs == [] then 0
    else
      AboveIndicesSplit(rs, threshold);
      CountAbove(rs[..|rs| - 1], threshold) + (if rs[|rs| - 1].anomaly > threshold then 1 else 0)
  }

  /** The qualifying positions of a sequence are those of its front, plus
      the last position when the last entry qualifies. */
  lemma AboveIndicesSplit(rs: seq<RegionAnomaly>, threshold: real)
    requires rs != []
    ensures var front, last := AboveIndices(rs[..|rs| - 1], threshold), |rs| - 1;
      && last !in front
      && AboveIndices(rs, threshold) == if rs[last].anomaly > threshold then front + {last} else front
  {
  }

  function MeanAnomaly(rs: seq<RegionAnomaly>): real
    requires |rs| > 0
  {
    SumAnomalies(rs) / |rs| as real
  }

  /** The mean anomaly lies between any common bounds of the entries'. */
  lemma {:induction false} SumAnomaliesBounds(rs: seq<RegionAnomaly>, lo: real, hi: real)
    requires forall k :: 0 <= k < |rs| ==> lo <= rs[k].anomaly <= hi
    ensures |rs| as real * lo <= SumAnomalies(rs) <= |rs| as real * hi
    decreases |rs|
  {
    if rs != [] {
      SumAnomaliesBounds(rs[..|rs| - 1], lo, hi);
    }
  }

  lemma MeanAnomalyBounds(rs: seq<RegionAnomaly>, lo: real, hi: real)
    requires |rs| > 0
    requires forall k :: 0 <= k < |rs| ==> lo <= rs[k].anomaly <= hi
    ensures lo <= MeanAnomaly(rs) <= hi
  {
    SumAnomaliesBounds(rs, lo, hi);
    QuotientBounds(SumAnomalies(rs), |rs| as real, lo, hi);
  }

  /** A higher threshold never counts more regions: every critical zone
      (anomaly above 1.5) is also an affected region (above 1). */
  lemma {:induction false} CountAboveAntitone(rs: seq<RegionAnomaly>, t1: real, t2: real)
    requires t1 <= t2
    ensures CountAbove(rs, t2) <= CountAbove(rs, t1)
    decreases |rs|
  {
    if rs != [] {
      CountAboveAntitone(rs[..|rs| - 1], t1, t2);
    }
  }

  /** Math.round((year - 1981) / (2024 - 1981) * 100) */
  function Percentile(year: int): (p: int)
    ensures year == 1981 ==> p == 0
    ensures year == 2024 ==> p == 100
    ensures 1981 <= year <= 2024 ==> 0 <= p <= 100
  {
    var x := (year - 1981) as real / (2024 - 1981) as real * 100.0;
    if 1981 <= year <= 2024 then
      assert 0.0 <= x <= 100.0;
      RoundWithin(x, 0, 100);
      Round(x)
    else
      Round(x)
  }

  lemma PercentileMonotone(y1: int, y2: int)
    requires y1 <= y2
    ensures Percentile(y1) <= Percentile(y2)
  {
    var x1 := (y1 - 1981) as real / 43.0 * 100.0;
    var x2 := (y2 - 1981) as real / 43.0 * 100.0;
    assert x1 <= x2;
    RoundMonotone(x1, x2);
  }

  /** The numeric part of the insight's stat cards, per layer. */
  datatype InsightStats =
    | AnomalyStats(averageAnomaly: real, changePercent: real, monitoredRegions: nat, recordedExtremes: nat)
    | DroughtStats(indexPercent: real, averageAnomaly: real, affectedRegions: nat)
    | FireRiskStats(riskPercent: real, averageAnomaly: real, criticalZones: nat)

  datatype YearInsight = YearInsight(
    year: int,
    layer: Layer,
    selection: Option<Selection>,
    globalAvg: real,
    changeVsBaseline: real,
    percentile: int,
    stats: InsightStats)

  /** The name an echoed selection gets: its region, or a generic label when
      it has none (an empty region name counts as none). */
  function SelectionName(s: Selection): (name: string)
    ensures s.region.Some? && s.region.value != "" ==> name == s.region.value
    ensures s.region.None? || s.region.value == "" ==> name == "Región seleccionada"
  {
    if s.region.Some? && s.region.value != "" then s.region.value else "Región seleccionada"
  }

  /** getYearInsight: the year's average for the layer, its change against
      the layer's baseline, where the year sits in 1981-2024, and the stat
      counts.  With no projected region the source divides by zero and
      reports NaN; the model reports None. */
  method GetYearInsight(store: seq<ClimateRegion>, year: int, layer: Layer, selection: Option<Selection>)
    returns (insight: Option<YearInsight>)
    ensures var rs := GetRegionsWithAnomalies(store, year, TEMPERATURE_VARIABLE);
      && (insight.None? <==> rs == [])
      && (insight.Some? ==>
        var r := insight.value;
        var mean := MeanAnomaly(rs);
        && r.year == year && r.layer == layer
        && r.percentile == Percentile(year)
        && r.globalAvg == LayerValue(layer, mean)
        && (layer != Anomaly ==> 0.0 <= r.globalAvg <= 1.0)
        && (layer == Anomaly ==>
              && r.changeVsBaseline == r.globalAvg == mean
              && r.stats == AnomalyStats(mean, mean / 2.0 * 100.0, |rs|, SumHighExtremes(rs)))
        && (layer == Drought ==>
              && r.changeVsBaseline == (r.globalAvg - 0.35) / 0.35
              && r.stats == DroughtStats(r.globalAvg * 100.0, mean, CountAbove(rs, 1.0)))
        && (layer == FireRisk ==>
              && r.changeVsBaseline == (r.globalAvg - 0.4) / 0.4
              && r.stats == FireRiskStats(r.globalAvg * 100.0, mean, CountAbove(rs, 1.5)))
        && (selection.None? ==> r.selection.None?)
        && (selection.Some? ==> r.selection == Some(selection.value.(name := Some(SelectionName(selection.value))))))
  {
    var regionsData := GetRegionsWithAnomalies(store, year, TEMPERATURE_VARIABLE);
    if |regionsData| == 0 {
      return None;
    }
    var avgAnomaly := SumAnomalies(regionsData) / |regionsData| as real;

    var globalAvg: real;
    var changeVsBaseline: real;
    var stats: InsightStats;
    match layer {
      case Anomaly =>
        globalAvg := avgAnomaly;
        changeVsBaseline := globalAvg;
        stats := AnomalyStats(globalAvg, globalAvg / 2.0 * 100.0, |regionsData|, SumHighExtremes(regionsData));
      case Drought =>
        globalAvg := Max(0.0, Min(1.0, avgAnomaly / 4.0 + 0.3));
        changeVsBaseline := (globalAvg - 0.35) / 0.35;
        stats := DroughtStats(globalAvg * 100.0, avgAnomaly, CountAbove(regionsData, 1.0));
      case FireRisk =>
        globalAvg := Max(0.0, Min(1.0, avgAnomaly / 3.0 + 0.4));
        changeVsBaseline := (globalAvg - 0.4) / 0.4;
        stats := FireRiskStats(globalAvg * 100.0, avgAnomaly, CountAbove(regionsData, 1.5));
    }

    var echoed := match selection
      case None => None
      case Some(s) => Some(s.(name := Some(SelectionName(s))));
    insight := Some(YearInsight(year, layer, echoed, globalAvg, changeVsBaseline, Percentile(year), stats));
  }
}
