# Climate observatory core, modelled in Dafny

This project models the computational core of the EcoVig-IA climate observatory. The observatory is a web globe that shows, for a chosen year, how three regions have warmed, through three overlay layers: thermal anomaly, drought index and fire risk.

The model covers the pipeline from the region record store to coloured points:

- **Record store and extrapolation** (`climate_data_loader.dfy`, module `ClimateDataLoader`). Each region variable has a baseline and a linear trend per year. The anomaly for a year is `trend × (year − 1981)` and the temperature is `baseline + anomaly`. Regions and variables are looked up by name or id, and the first match wins. The batch projection `GetRegionsWithAnomalies` keeps store order and drops regions that lack the variable. `GenerateTimeSeries` is a loop over a year range.
- **Colour encoding** (`colorscales.dfy`, module `ColorScales`). It parses `#rrggbb`, interpolates each channel with JavaScript rounding, and scans sorted gradient stops, clamping below the first stop and above the last. A capped opacity ramp completes it.
- **Layer values and insights** (`mock_api.dfy`, module `MockApi`). Drought and fire risk are clamped affine functions of the anomaly. Each anchored region yields nine globe points, its centre first. The year insight aggregates an average, its change against a baseline, a percentile and threshold counts.
- **View state** (`climate_store.dfy`, class `ClimateStore.ClimateProvider`). It holds the year, layer, playback flag, speed and selection. The year is clamped to [1980, 2035]. Stepping forward past the last year wraps to the first; stepping back before the first does nothing.
- **Shared pieces**: `helpers.dfy` (clamp, lerp, rounding, year formatting), `constants.dfy` (year range and the three layer configurations) and `types.dfy` (layers, points, selections).

All arithmetic is over Dafny `real` and `int`. `Math.round(x)` is `floor(x + 0.5)`. The record store, which the source loads from a JSON file, is a parameter `store: seq<ClimateRegion>` of every loader function.

Two points where the program does not do what its own text says:

- The opacity ramp at lib/colorScales.ts:77 is commented `// 0.3 to 1.0`, but it only caps the value at 1. Values below the first stop give an opacity under 0.3, and possibly a negative one. The model follows the code.
- `BASELINE_PERIOD` is "1991-2020" (lib/constants.ts:9). The baseline field is named `baseline_1981_2010_c`, and `calculateAnomaly` counts years from `baseYear = 1981` (lib/climateDataLoader.ts:61). The model uses 1981, as the code does.

## Model

| member | source | states |
|---|---|---|
| `Helpers.Clamp` | lib/helpers.ts:26-28 | The result never exceeds `hi`. It lies in [lo, hi] when lo ≤ hi, and equals the value when the value is already inside. Values below give `lo`, values above give `hi`, and crossed bounds give `hi`. |
| `Helpers.ClampIdempotent` | lib/helpers.ts:26-28 | Clamping twice is the same as clamping once. |
| `Helpers.Lerp` | lib/helpers.ts:19-21 | lerp gives `a` at t = 0 and `b` at t = 1, and lies between `a` and `b` for t in [0, 1]. |
| `Helpers.Round` | lib/colorScales.ts:27-29 | Math.round picks the integer within half a unit, rounding halves up. |
| `Helpers.FormatYear` | lib/helpers.ts:4-6 | The year is written in decimal: digits with no leading zero, with a leading `-` for negative years. |
| `Helpers.DecimalRoundTrip` | lib/helpers.ts:4-6 | Reading the decimal rendering of a natural number gives the number back. |
| `Helpers.FormatYearRoundTrip` | lib/helpers.ts:4-6 | The rendering of any year is a well-formed decimal, and parsing it gives the year back. |
| `Constants.ConfigFor` | lib/constants.ts:11-51 | Every layer has a configuration whose id is that layer. Its gradient has at least two stops with strictly increasing values. |
| `Constants.ConfigKeysMatchIds` | lib/constants.ts:11-51 | The table holds exactly the keys anomaly, drought and fireRisk, and each configuration's id is its own key. |
| `Constants.YearRangeHoldsInitialYear` | lib/constants.ts:7-8 | MIN_YEAR ≤ 2000 ≤ MAX_YEAR. |
| `Constants.IndexScalesStartAtZero` | lib/constants.ts:30-45 | The drought and fire-risk gradients start at 0, the lower clamp of those layer values. |
| `ColorScales.HexToRgb` | lib/colorScales.ts:11-16 | Every channel is a byte. A string outside the pattern (optional `#`, then six hex digits in either case) gives black. |
| `ColorScales.HashIsOptional` | lib/colorScales.ts:12 | Six characters parse to the same colour with or without a leading `#`. |
| `ColorScales.HexRoundTrip` | lib/colorScales.ts:11-16 | Writing any byte colour as `#rrggbb` gives a string the pattern accepts, and parsing it gives the colour back. |
| `ColorScales.HexIgnoresCase` | lib/colorScales.ts:11-16 | The pattern is case-insensitive. Any accepted spelling, upper- or lower-case, with or without `#`, parses to the same colour as its lower-case `#rrggbb` spelling, and that spelling is the canonical one of the colour. |
| `ColorScales.CanonicalHexRoundTrip` | lib/colorScales.ts:11-16 | A lower-case `#rrggbb` string is exactly the canonical spelling of the colour it parses to. |
| `ColorScales.LerpChannel` | lib/colorScales.ts:27-29 | A channel is exactly `a` at t = 0 and exactly `b` at t = 1. For t in [0, 1] it lies between `a` and `b` even after rounding. |
| `ColorScales.LerpColor` | lib/colorScales.ts:21-31 | lerpColor returns `c1` at t = 0 and `c2` at t = 1. Byte colours with t in [0, 1] give a byte colour. |
| `ColorScales.LerpColorBetween` | lib/colorScales.ts:21-31 | For t in [0, 1], each channel lies between the two colours' channels. |
| `ColorScales.FindBracket` | lib/colorScales.ts:44-50 | The scan returns the first index whose pair of stops encloses the value, or nothing when no pair does. |
| `ColorScales.BracketIndices` | lib/colorScales.ts:41-50 | lowerIdx < upperIdx, and on a well-formed gradient their stop values differ, so the divisor is never zero. |
| `ColorScales.Factor` | lib/colorScales.ts:59 | The factor is 0 at the lower stop and 1 at the upper stop, and lies in [0, 1] between them. |
| `ColorScales.ScanColorScale` | lib/colorScales.ts:38-63 | The loop with `break` followed by the clamps computes `ColorFor`: the first or last stop's colour at the ends, else the interpolation across the first enclosing pair. |
| `ColorScales.GetColorForValue` | lib/colorScales.ts:36-66 | getColorForValue on a layer is `ColorFor` over that layer's gradient. |
| `ColorScales.ColorForClamps` | lib/colorScales.ts:53-54 | At or below the first stop the result is exactly the first stop's hex colour. At or above the last stop it is exactly the last one's. |
| `ColorScales.BracketExists` | lib/colorScales.ts:44-50 | On a well-formed gradient, any value between a stop and the last stop is enclosed by some pair from that stop on. |
| `ColorScales.ColorForInterior` | lib/colorScales.ts:44-63 | Strictly inside the gradient, the scan finds the first adjacent enclosing pair. The factor lies in [0, 1], and the colour is the interpolation across that pair with byte channels. |
| `ColorScales.ColorAtInteriorStop` | lib/colorScales.ts:44-63 | At an interior stop's value the result is exactly that stop's parsed colour. |
| `ColorScales.PiecesAgreeAtStop` | lib/colorScales.ts:57-63 | The two gradient pieces that meet at an interior stop both give that stop's colour there. |
| `ColorScales.ConfigColorsAreHex` | lib/constants.ts:17-47 | Every configured stop colour matches the hex pattern and is already in canonical lower-case form. So hexToRgb never falls back to black on them. |
| `ColorScales.OpacityFor` | lib/colorScales.ts:74-77 | Opacity is at most 1. It is 0.3 at the first stop, 1 at or above the last, at least 0.3 from the first stop up, and below 0.3 under it. |
| `ColorScales.OpacityMonotone` | lib/colorScales.ts:74-77 | A larger value never gets a lower opacity. |
| `ColorScales.GetOpacityForValue` | lib/colorScales.ts:71-78 | getOpacityForValue on a layer is at most 1. It is 1 from the layer's last stop up and 0.3 at its first stop. |
| `ClimateDataLoader.CalculateAnomaly` | lib/climateDataLoader.ts:60-64 | The anomaly is 0 in 1981, and non-negative from 1981 on when the trend is non-negative. |
| `ClimateDataLoader.AnomalyIgnoresBaseline` | lib/climateDataLoader.ts:60-64 | The anomaly does not depend on the baseline. |
| `ClimateDataLoader.GetTemperatureForYear` | lib/climateDataLoader.ts:69-71 | The temperature in 1981 is the baseline. From 1981 on it is at least the baseline when the trend is non-negative, and above it when the trend is positive and the year is later. |
| `ClimateDataLoader.TemperatureIsBaselinePlusAnomaly` | lib/climateDataLoader.ts:69-71 | Temperature minus baseline is the anomaly, and the temperature in 1981 is the baseline. |
| `ClimateDataLoader.TemperatureLinear` | lib/climateDataLoader.ts:60-71 | The temperatures of two years differ by the trend times the number of years between them. |
| `ClimateDataLoader.ProjectionExample` | lib/climateDataLoader.ts:60-71 | A baseline of 15.0 with trend 0.02 gives anomaly 0.8 and temperature 15.8 in 2021. |
| `ClimateDataLoader.RegionIndex` | lib/climateDataLoader.ts:45-47 | The index found is that of the first region with the name, or there is none. |
| `ClimateDataLoader.GetRegion` | lib/climateDataLoader.ts:45-47 | getRegion returns nothing exactly when no region has the name; otherwise it returns the first region with it. |
| `ClimateDataLoader.VariableIndex` | lib/climateDataLoader.ts:54 | The index found is that of the first variable with the id, or there is none. |
| `ClimateDataLoader.FindVariable` | lib/climateDataLoader.ts:54 | A variable is found exactly when the region holds one with the id, and it is the first such variable. |
| `ClimateDataLoader.GetRegionVariable` | lib/climateDataLoader.ts:52-55 | getRegionVariable returns nothing exactly when the region or the variable is missing. Otherwise it returns the first variable with the requested id in the first region with the name. |
| `ClimateDataLoader.GetRegionCoordinates` | lib/climateDataLoader.ts:76-83 | Only Sudamérica, Centroamérica and Europa have an anchor, and it is a valid latitude and longitude. Every other name gives nothing. |
| `ClimateDataLoader.RegionCoordinatesAsWritten` | lib/climateDataLoader.ts:76-83 | The lookup as written finds an own entry for the three regions. It yields an inherited member, not null, for every Object.prototype member name. |
| `ClimateDataLoader.CoordinatesLookupLeaksPrototype` | lib/climateDataLoader.ts:82 | For the name "toString" the lookup as written returns a non-null non-coordinate, where the intended result is null. |
| `ClimateDataLoader.GetRegionsWithAnomalies` | lib/climateDataLoader.ts:88-109 | There are no more entries than regions. In each entry, temperature = baseline + anomaly, and the anomaly is the year's extrapolation of the entry's trend. |
| `ClimateDataLoader.IndicesWithVariable` | lib/climateDataLoader.ts:88-109 | This reference lists the positions of the regions that hold the variable: all of them, increasing. |
| `ClimateDataLoader.RegionsWithAnomaliesExact` | lib/climateDataLoader.ts:88-109 | The k-th entry is the projection of the k-th region holding the variable, in store order, using that region's first matching variable. Regions without an anchor are kept. |
| `ClimateDataLoader.RegionsWithAnomaliesExtremes` | lib/climateDataLoader.ts:94-105 | Each entry's highExtremes and lowExtremes are the lengths of the two month lists of a variable with the requested id in the region named by the entry. |
| `ClimateDataLoader.GenerateTimeSeries` | lib/climateDataLoader.ts:114-127 | The series is empty when the region or variable is missing. Otherwise it has max(0, end − start + 1) points, point i is for year start + i with that year's temperature and anomaly, and consecutive temperatures differ by the trend. |
| `MockApi.LayerValue` | lib/mockApi.ts:24-38 | The anomaly layer shows the anomaly. Drought is clamp(anomaly/4 + 0.3, 0, 1) and fire risk is clamp(anomaly/3 + 0.4, 0, 1), so both lie in [0, 1]. |
| `MockApi.LayerValueMonotone` | lib/mockApi.ts:26-38 | A larger anomaly never gives a smaller layer value. |
| `MockApi.WithCoords` | lib/mockApi.ts:19 | The regions kept for drawing all have an anchor and come from the projection. |
| `MockApi.AnchoredIndices` | lib/mockApi.ts:18-19 | This reference lists the positions of the anchored entries: all of them, increasing. |
| `MockApi.WithCoordsExact` | lib/mockApi.ts:18-19 | The guard skips exactly the unanchored entries. The k-th kept entry is the k-th anchored one, in projection order. |
| `MockApi.LayerPointsShape` | lib/mockApi.ts:18-58 | Each anchored region yields exactly 9 points, in region order, and unanchored regions yield none. Every point carries its region's name. The first point of each region has its exact anchor and layer value. |
| `MockApi.PushRegionPoints` | lib/mockApi.ts:18-58 | One forEach step appends that region's points: none without an anchor, else the centre and then the 8 ring points placed for that region's position. |
| `MockApi.GetLayerData` | lib/mockApi.ts:11-62 | getLayerData returns the concatenated points of the t2m projection's entries, in order. |
| `MockApi.CountAbove` | lib/mockApi.ts:127 | The count is exactly the number of entries whose anomaly exceeds the threshold, so it never exceeds the number of regions. |
| `MockApi.AboveIndicesSplit` | lib/mockApi.ts:127 | The qualifying positions of a list are those of its front, plus the last position when the last entry qualifies. |
| `MockApi.SumAnomaliesBounds` | lib/mockApi.ts:83 | If every anomaly lies in [lo, hi], the sum lies between n·lo and n·hi. |
| `MockApi.MeanAnomalyBounds` | lib/mockApi.ts:83 | The average anomaly lies within any bounds shared by all regions' anomalies. |
| `MockApi.CountAboveAntitone` | lib/mockApi.ts:127-140 | A higher threshold never counts more regions, so critical zones (> 1.5) ≤ affected regions (> 1). |
| `MockApi.Percentile` | lib/mockApi.ts:151 | The percentile is 0 in 1981 and 100 in 2024, and lies in [0, 100] in between. |
| `MockApi.PercentileMonotone` | lib/mockApi.ts:151 | A later year never has a lower percentile. |
| `MockApi.SelectionName` | lib/mockApi.ts:148 | The echoed selection is named after its region, or "Región seleccionada" when the region is missing or empty. |
| `MockApi.GetYearInsight` | lib/mockApi.ts:67-155 | There is no insight exactly when no region projects. The average is the layer value of the mean anomaly (in [0, 1] for drought and fire risk). The change is the average itself for anomaly, else (avg − 0.35)/0.35 or (avg − 0.4)/0.4. The stats are the sums and threshold counts, and the percentile and selection are as above. |
| `ClimateStore.ClampYear` | hooks/useClimateStore.tsx:69 | The clamped year is always playable, is the input when that is playable, and is the nearer end otherwise. |
| `ClimateStore.StepYear` | hooks/useClimateStore.tsx:87-97 | A step stays in range. It moves by the direction when the result is playable. Forward from the last year gives the first, and backward from the first changes nothing. |
| `ClimateStore.AdvanceCycles` | hooks/useClimateStore.tsx:87-108 | After k forward steps the year has moved k places round the circle of 56 playable years. |
| `ClimateStore.PlaybackIsPeriodic` | hooks/useClimateStore.tsx:87-108 | 56 forward steps return to the starting year. |
| `ClimateStore.PlaybackReachesEveryYear` | hooks/useClimateStore.tsx:87-108 | Forward steps reach every playable year in fewer than 56 steps. |
| `ClimateStore.ClimateProvider.constructor` | hooks/useClimateStore.tsx:47-53 | The initial state is year 2000, the anomaly layer, paused, speed 1 and no selection, and it satisfies the range invariant. |
| `ClimateStore.ClimateProvider.SetYear` | hooks/useClimateStore.tsx:67-74 | The year becomes max(MIN_YEAR, min(MAX_YEAR, n)), and only the year changes. |
| `ClimateStore.ClimateProvider.SetLayer` | hooks/useClimateStore.tsx:76-82 | Only the layer changes, to the given one. |
| `ClimateStore.ClimateProvider.Play` | hooks/useClimateStore.tsx:84 | isPlaying becomes true, and nothing else changes. |
| `ClimateStore.ClimateProvider.Pause` | hooks/useClimateStore.tsx:85 | isPlaying becomes false, and nothing else changes. |
| `ClimateStore.ClimateProvider.SetSpeed` | hooks/useClimateStore.tsx:50 | Only the speed changes (1, 2 or 4). |
| `ClimateStore.ClimateProvider.SetSelection` | hooks/useClimateStore.tsx:53 | Only the selection changes. |
| `ClimateStore.ClimateProvider.Step` | hooks/useClimateStore.tsx:87-97 | The year becomes `StepYear` of the old year, only the year changes, and the range invariant is kept. |

## Left out

- `ColorScales.GetColorForValue`: the interpolated result is an RGB triple. The source renders it as the string `rgb(r, g, b)`, and that formatting is not modelled.
- `MockApi.GetLayerData`: the 8 surrounding points come from a cosine/sine offset of 10 degrees plus `Math.random()` noise. They enter through the `ring` parameter, so their coordinates and values are unspecified. Their count, order and region tag are modelled. The parameter sees the anchor, the value, the region's position and the point's index. So two calls with all four equal get the same noise, where `Math.random()` would draw afresh.
- `MockApi.GetYearInsight`: when no region holds `t2m`, the source divides by zero and reports NaN. The model reports `None`. The interpretation text is not modelled: it depends on the clock (`isFuture`), on the selected region and on `toFixed` formatting. The stat cards are kept as numbers, not strings.
- `ColorScales.PiecesAgreeAtStop`: continuity of the gradient is stated only at the stops, where both adjacent pieces agree. Limits of the rounded channels are not stated.
- `ClimateDataLoader.ProjectRegion`, `ClimateDataLoader.GetRegionsWithAnomalies`, `MockApi.GetLayerData`: entries take their anchor from the corrected `GetRegionCoordinates`. For a region named after an Object.prototype member (`toString`, `__proto__`, ...), the code as written gets a truthy non-coordinate value and pushes 9 points whose lat and lon are undefined or NaN. The model gives that entry no anchor and no points. The code as written is captured only by `RegionCoordinatesAsWritten`.
- `MockApi.SumHighExtremes` has no contract of its own. The "Extremos Registrados" figure is pinned only through `GetYearInsight`'s stats clause and the per-entry counts of `RegionsWithAnomaliesExtremes`.
- Default arguments (`variableId = "t2m"`, `startYear = 1981`, `endYear = 2024`) are explicit parameters in the model.
- `getRegions` is not modelled: it returns the store itself, which is a parameter here.
- `fetchData` is not modelled: it is an asynchronous fetch. The `data` and `loading` fields it sets are also left out, as is the side effect of `setYear` and `setLayer` calling it.
- The `setTimeout` delays of the API, the auto-play `setInterval` and the keyboard handlers are timers and I/O. Auto-play's effect is captured by repeated forward `Step`s (`ClimateStore.Advance`).
- `sendChatMessage` and the guide panel's responder are not modelled. They match keywords against canned text and end in a random pick.
- `seededRandom` and `randomChoice` are not modelled: they depend on floating-point `Math.sin`.
- `formatNumber` is not modelled: it is `toFixed` formatting. `throttle` is not modelled either: it is a timer-driven closure.
- The 3D globe (projection, meshes, textures, rotation) and every UI panel are rendering, not computation.
- Floating point: numbers are exact reals and integers, and NaN and infinities do not arise. Years are integers.
- The layer configuration's `icon` glyphs are written with Unicode escapes, and its strings are otherwise copied as data.

## Findings

| source | as written | input that shows it | evidently intended | confidence | as-written member | corrected member |
|---|---|---|---|---|---|---|
| lib/climateDataLoader.ts:76-83 | `coords[regionName] \|\| null` looks the name up in a plain object literal, so inherited Object.prototype members are found too | a region named `"toString"` (or `"constructor"`, `"__proto__"`, ...) gets a function or object back instead of `null`; `getLayerData` would then draw it with undefined coordinates | `null` for every name other than the three anchored regions | not executed; only reachable if the record store holds such a region name | `ClimateDataLoader.RegionCoordinatesAsWritten` (with `ClimateDataLoader.CoordinatesLookupLeaksPrototype`) | `ClimateDataLoader.GetRegionCoordinates` |
