/** The climate record store and its temporal extrapolation: per-region
    baseline and linear trend, projected to any year, plus the region and
    variable lookups and the batch projection the globe draws from. */
module ClimateDataLoader {
  import opened Types

  /** One monitored quantity of a region. */
  datatype ClimateVariable = ClimateVariable(
    id: string,
    name: string,
    baseline: real,                  // mean over the 1981-2010 reference period, in degrees C
    trendPerYear: real,              // linear warming rate, degrees C per year
    highAnomalyMonths: seq<string>,  // "YYYY-MM" months above +2 sigma
    lowAnomalyMonths: seq<string>)   // "YYYY-MM" months below -2 sigma

  datatype ClimateRegion = ClimateRegion(name: string, variables: seq<ClimateVariable>)

  /** The year the extrapolation measures time from. */
  const BASE_YEAR: int := 1981

  // ---------------------------------------------------------------------
  // Temporal extrapolation

  /** calculateAnomaly: the linear trend applied over the years elapsed since
      1981; negative before it, unbounded after it. */
  function CalculateAnomaly(baseline: real, trend: real, year: int): (a: real)
    ensures year == BASE_YEAR ==> a == 0.0
    ensures trend >= 0.0 && year >= BASE_YEAR ==> a >= 0.0
  {
    trend * (year - BASE_YEAR) as real
  }

  /** getTemperatureForYear: the baseline shifted by the year's anomaly. */
  function GetTemperatureForYear(baseline: real, trend: real, year: int): (t: real)
    ensures year == BASE_YEAR ==> t == baseline
    ensures trend >= 0.0 && year >= BASE_YEAR ==> t >= baseline
    ensures trend > 0.0 && year > BASE_YEAR ==> t > baseline
  {
    baseline + CalculateAnomaly(baseline, trend, year)
  }

  /** The anomaly does not depend on the baseline. */
  lemma AnomalyIgnoresBaseline(b1: real, b2: real, trend: real, year: int)
    ensures CalculateAnomaly(b1, trend, year) == CalculateAnomaly(b2, trend, year)
  {
  }

  /** The temperature is the baseline plus the anomaly, and equals the
      baseline in the base year. */
  lemma TemperatureIsBaselinePlusAnomaly(baseline: real, trend: real, year: int)
    ensures GetTemperatureForYear(baseline, trend, year) - baseline == CalculateAnomaly(baseline, trend, year)
    ensures GetTemperatureForYear(baseline, trend, BASE_YEAR) == baseline
  {
  }

  /** Linearity: temperatures of two years differ by trend times the gap. */
  lemma TemperatureLinear(baseline: real, trend: real, y1: int, y2: int)
    ensures GetTemperatureForYear(baseline, trend, y2) - GetTemperatureForYear(baseline, trend, y1)
         == trend * (y2 - y1) as real
  {
    assert (y2 - BASE_YEAR) as real - (y1 - BASE_YEAR) as real == (y2 - y1) as real;
    assert trend * (y2 - BASE_YEAR) as real - trend * (y1 - BASE_YEAR) as real
        == trend * ((y2 - BASE_YEAR) as real - (y1 - BASE_YEAR) as real);
  }

  /** A baseline of 15.0 with 0.02 per year gives 15.8 in 2021, anomaly 0.8. */
  lemma ProjectionExample()
    ensures CalculateAnomaly(15.0, 0.02, 2021) == 0.8
    ensures GetTemperatureForYear(15.0, 0.02, 2021) == 15.8
  {
  }

  // ---------------------------------------------------------------------
  // Lookups (Array.prototype.find: the first match wins)

  predicate IsFirstNamed(store: seq<ClimateRegion>, name: string, i: int)
  {
    0 <= i < |store| && store[i].name == name && forall j :: 0 <= j < i ==> store[j].name != name
  }

  function RegionIndex(store: seq<ClimateRegion>, name: string): (r: Option<nat>)
    ensures r.Some? ==> IsFirstNamed(store, name, r.value)
    ensures r.None? ==> forall j :: 0 <= j < |store| ==> store[j].name != name
  {
    if store == [] then None
    else if store[0].name == name then Some(0)
    else match RegionIndex(store[1..], name)
      case None => None
      case Some(i) => Some(i + 1)
  }

  /** getRegion: the first region with the given name, if any. */
  function GetRegion(store: seq<ClimateRegion>, name: string): (r: Option<ClimateRegion>)
    ensures r.None? <==> forall j :: 0 <= j < |store| ==> store[j].name != name
    ensures r.Some? ==> exists i :: IsFirstNamed(store, name, i) && store[i] == r.value
  {
    match RegionIndex(store, name)
    case None => None
    case Some(i) => Some(store[i])
  }

  predicate IsFirstWithId(vars: seq<ClimateVariable>, id: string, i: int)
  {
    0 <= i < |vars| && vars[i].id == id && forall j :: 0 <= j < i ==> vars[j].id != id
  }

  predicate HasVariable(region: ClimateRegion, id: string)
  {
    exists k :: 0 <= k < |region.variables| && region.variables[k].id == id
  }

  function VariableIndex(vars: seq<ClimateVariable>, id: string): (r: Option<nat>)
    ensures r.Some? ==> IsFirstWithId(vars, id, r.value)
    ensures r.None? ==> forall j :: 0 <= j < |vars| ==> vars[j].id != id
  {
    if vars == [] then None
    else if vars[0].id == id then Some(0)
    else match VariableIndex(vars[1..], id)
      case None => None
      case Some(i) => Some(i + 1)
  }

  /** region.variables.find(v => v.id === id) */
  function FindVariable(region: ClimateRegion, id: string): (r: Option<ClimateVariable>)
    ensures r.Some? <==> HasVariable(region, id)
    ensures r.Some? ==> exists i :: IsFirstWithId(region.variables, id, i) && region.variables[i] == r.value
  {
    match VariableIndex(region.variables, id)
    case None => None
    case Some(i) => Some(region.variables[i])
  }

  /** getRegionVariable: nothing when the region or the variable is missing. */
  function GetRegionVariable(store: seq<ClimateRegion>, regionName: string, variableId: string)
    : (r: Option<ClimateVariable>)
    ensures r.Some? <==> GetRegion(store, regionName).Some? && HasVariable(GetRegion(store, regionName).value, variableId)
    ensures r.Some? ==> r.value.id == variableId && r.value in GetRegion(store, regionName).value.variables
    ensures r.Some? ==>
      exists i :: IsFirstWithId(GetRegion(store, regionName).value.variables, variableId, i)
        && GetRegion(store, regionName).value.variables[i] == r.value
  {
    match GetRegion(store, regionName)
    case None => None
    case Some(region) => FindVariable(region, variableId)
  }

  // ---------------------------------------------------------------------
  // Geographic anchors

  /** getRegionCoordinates, as intended: the anchor of the three mapped
      regions and nothing for any other name. */
  function GetRegionCoordinates(regionName: string): (c: Option<Coords>)
    ensures c.Some? <==> regionName in {"Sudamérica", "Centroamérica", "Europa"}
    ensures c.Some? ==> -90.0 <= c.value.lat <= 90.0 && -180.0 <= c.value.lon <= 180.0
  {
    if regionName == "Sudamérica" then Some(Coords(-15.0, -60.0))
    else if regionName == "Centroamérica" then Some(Coords(15.0, -85.0))
    else if regionName == "Europa" then Some(Coords(50.0, 15.0))
    else None
  }

  /** What `coords[regionName] || null` yields on a plain object literal:
      an own entry, an inherited Object.prototype member (truthy, so
      returned instead of null), or null. */
  datatype CoordsLookup = Entry(coords: Coords) | InheritedMember(member: string) | Null

  /** The names every plain object inherits from Object.prototype. */
  const OBJECT_PROTOTYPE_MEMBERS: set<string> := {
    "constructor", "hasOwnProperty", "isPrototypeOf", "propertyIsEnumerable",
    "toString", "toLocaleString", "valueOf", "__proto__",
    "__defineGetter__", "__defineSetter__", "__lookupGetter__", "__lookupSetter__"
  }

  /** getRegionCoordinates as written: the table is a plain object, so a
      lookup also sees its inherited members. */
  function RegionCoordinatesAsWritten(regionName: string): (c: CoordsLookup)
    ensures c.Entry? <==> GetRegionCoordinates(regionName).Some?
    ensures c.InheritedMember? <==> regionName in OBJECT_PROTOTYPE_MEMBERS
  {
    match GetRegionCoordinates(regionName)
    case Some(p) => Entry(p)
    case None => if regionName in OBJECT_PROTOTYPE_MEMBERS then InheritedMember(regionName) else Null
  }

  /** The lookup as written returns a non-null, non-coordinate value for a
      region named "toString", where the intended result is null. */
  lemma CoordinatesLookupLeaksPrototype()
    ensures RegionCoordinatesAsWritten("toString") == InheritedMember("toString")
    ensures GetRegionCoordinates("toString") == None
  {
  }

  // ---------------------------------------------------------------------
  // Batch projection

  /** One entry of getRegionsWithAnomalies. */
  datatype RegionAnomaly = RegionAnomaly(
    name: string,
    baseline: real,
    trend: real,
    anomaly: real,
    temperature: real,
    highExtremes: nat,
    lowExtremes: nat,
    coords: Option<Coords>)

  /** The entry for one region and the variable found in it. */
  function ProjectRegion(region: ClimateRegion, v: ClimateVariable, year: int): (e: RegionAnomaly)
  {
    RegionAnomaly(
      region.name,
      v.baseline,
      v.trendPerYear,
      CalculateAnomaly(v.baseline, v.trendPerYear, year),
      GetTemperatureForYear(v.baseline, v.trendPerYear, year),
      |v.highAnomalyMonths|,
      |v.lowAnomalyMonths|,
      GetRegionCoordinates(region.name))
  }

  /** getRegionsWithAnomalies: map every region to its entry, or to nothing
      when it lacks the variable, and keep the entries (map, then filter). */
  function GetRegionsWithAnomalies(store: seq<ClimateRegion>, year: int, variableId: string)
    : (rs: seq<RegionAnomaly>)
    ensures |rs| <= |store|
    ensures forall k :: 0 <= k < |rs| ==>
      && rs[k].temperature == rs[k].baseline + rs[k].anomaly
      && rs[k].anomaly == CalculateAnomaly(rs[k].baseline, rs[k].trend, year)
    decreases |store|
  {
    if store == [] then []
    else
      var last := store[|store| - 1];
      var kept := GetRegionsWithAnomalies(store[..|store| - 1], year, variableId);
      match FindVariable(last, variableId)
      case None => kept
      case Some(v) => kept + [ProjectRegion(last, v, year)]
  }

  /** The positions, in increasing order, of the regions holding the variable. */
  function IndicesWithVariable(store: seq<ClimateRegion>, variableId: string): (idx: seq<nat>)
    ensures forall k :: 0 <= k < |idx| ==> idx[k] < |store| && HasVariable(store[idx[k]], variableId)
    ensures forall k, m :: 0 <= k < m < |idx| ==> idx[k] < idx[m]
    ensures forall i :: 0 <= i < |store| && HasVariable(store[i], variableId) ==> i in idx
    decreases |store|
  {
    if store == [] then []
    else
      var front := IndicesWithVariable(store[..|store| - 1], variableId);
      if HasVariable(store[|store| - 1], variableId) then front + [|store| - 1] else front
  }

  /** getRegionsWithAnomalies keeps exactly the regions that hold the
      variable, in store order, each projected with its first matching
      variable; whether the region has an anchor plays no part. */
  lemma {:induction false} RegionsWithAnomaliesExact(store: seq<ClimateRegion>, year: int, variableId: string)
    ensures var rs, idx := GetRegionsWithAnomalies(store, year, variableId), IndicesWithVariable(store, variableId);
      && |rs| == |idx|
      && forall k :: 0 <= k < |rs| ==>
           && idx[k] < |store|
           && FindVariable(store[idx[k]], variableId).Some?
           && rs[k] == ProjectRegion(store[idx[k]], FindVariable(store[idx[k]], variableId).value, year)
    decreases |store|
  {
    if store != [] {
      var front := store[..|store| - 1];
      RegionsWithAnomaliesExact(front, year, variableId);
      var rs0, idx0 := GetRegionsWithAnomalies(front, year, variableId), IndicesWithVariable(front, variableId);
      forall k | 0 <= k < |rs0|
        ensures store[idx0[k]] == front[idx0[k]]
      {
      }
    }
  }

  /** Each entry's extreme counts are the lengths of the two month lists of
      the variable it was projected from. */
  lemma RegionsWithAnomaliesExtremes(store: seq<ClimateRegion>, year: int, variableId: string, k: nat)
    requires k < |GetRegionsWithAnomalies(store, year, variableId)|
    ensures var e := GetRegionsWithAnomalies(store, year, variableId)[k];
      exists i, v :: 0 <= i < |store| && v in store[i].variables && v.id == variableId
        && e.name == store[i].name
        && e.highExtremes == |v.highAnomalyMonths| && e.lowExtremes == |v.lowAnomalyMonths|
  {
    RegionsWithAnomaliesExact(store, year, variableId);
    var idx := IndicesWithVariable(store, variableId);
    var v := FindVariable(store[idx[k]], variableId).value;
    assert v in store[idx[k]].variables && v.id == variableId;
  }

  // ---------------------------------------------------------------------
  // Time series

  datatype YearPoint = YearPoint(year: int, temperature: real, anomaly: real)

  /** generateTimeSeries: one point per year from startYear to endYear
      inclusive, or nothing when the region or variable is missing. */
  method GenerateTimeSeries(
    store: seq<ClimateRegion>, regionName: string, variableId: string, startYear: int, endYear: int)
    returns (series: seq<YearPoint>)
    ensures GetRegionVariable(store, regionName, variableId).None? ==> series == []
    ensures GetRegionVariable(store, regionName, variableId).Some? ==>
      var v := GetRegionVariable(store, regionName, variableId).value;
      && |series| == (if endYear >= startYear then endYear - startYear + 1 else 0)
      && (forall i :: 0 <= i < |series| ==>
            && series[i].year == startYear + i
            && series[i].temperature == GetTemperatureForYear(v.baseline, v.trendPerYear, startYear + i)
            && series[i].anomaly == CalculateAnomaly(v.baseline, v.trendPerYear, startYear + i))
      && (forall i :: 0 <= i < |series| - 1 ==>
            series[i + 1].temperature - series[i].temperature == v.trendPerYear)
  {
    var variable := GetRegionVariable(store, regionName, variableId);
    if variable.None? {
      return [];
    }
    var v := variable.value;
    series := [];
    var year := startYear;
    while year <= endYear
      invariant startYear <= year
      invariant endYear >= startYear ==> year <= endYear + 1
      invariant endYear < startYear ==> year == startYear
      invariant |series| == year - startYear
      invariant forall i :: 0 <= i < |series| ==>
        && series[i].year == startYear + i
        && series[i].temperature == GetTemperatureForYear(v.baseline, v.trendPerYear, startYear + i)
        && series[i].anomaly == CalculateAnomaly(v.baseline, v.trendPerYear, startYear + i)
    {
      series := series + [YearPoint(
        year,
        GetTemperatureForYear(v.baseline, v.trendPerYear, year),
        CalculateAnomaly(v.baseline, v.trendPerYear, year))];
      year := year + 1;
    }
    forall i | 0 <= i < |series| - 1
      ensures series[i + 1].temperature - series[i].temperature == v.trendPerYear
    {
      TemperatureLinear(v.baseline, v.trendPerYear, startYear + i, startYear + i + 1);
    }
  }
}
