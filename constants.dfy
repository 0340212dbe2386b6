/** The observatory's fixed tables: the playable year range and the colour
    scale of each overlay layer. */
module Constants {
  import opened Types

  const MIN_YEAR: int := 1980
  const MAX_YEAR: int := 2035

  /** The reference-period label shown to users.  The extrapolation itself
      measures time from 1981 (see ClimateDataLoader.BASE_YEAR). */
  const BASELINE_PERIOD: string := "1991-2020"

  /** One stop of a colour gradient: at `value` the colour is exactly `color`. */
  datatype Breakpoint = Breakpoint(value: real, color: string)

  datatype LayerConfig = LayerConfig(
    id: Layer,
    displayLabel: string,
    unit: string,
    icon: string,
    colorScale: seq<Breakpoint>,
    description: string)

  /** A usable gradient: at least two stops, strictly increasing in value. */
  predicate ScaleWellFormed(scale: seq<Breakpoint>)
  {
    |scale| >= 2 && forall i, j :: 0 <= i < j < |scale| ==> scale[i].value < scale[j].value
  }

  const ANOMALY_CONFIG: LayerConfig := LayerConfig(
    Anomaly,
    "Anomalía Térmica",
    "°C",
    "\U{1F321}\U{FE0F}",
    [ Breakpoint(-2.0, "#3b82f6"),
      Breakpoint(-1.0, "#60a5fa"),
      Breakpoint(0.0, "#fbbf24"),
      Breakpoint(2.0, "#f97316"),
      Breakpoint(4.0, "#dc2626") ],
    "Diferencia de temperatura respecto al período base 1991-2020")

  const DROUGHT_CONFIG: LayerConfig := LayerConfig(
    Drought,
    "Índice de Sequía",
    "índice 0-1",
    "\U{1F4A7}",
    [ Breakpoint(0.0, "#10b981"),
      Breakpoint(0.3, "#fbbf24"),
      Breakpoint(0.6, "#f97316"),
      Breakpoint(0.9, "#dc2626") ],
    "Nivel de estrés hídrico en regiones afectadas")

  const FIRE_RISK_CONFIG: LayerConfig := LayerConfig(
    FireRisk,
    "Riesgo de Incendio",
    "bajo/medio/alto",
    "\U{1F525}",
    [ Breakpoint(0.0, "#10b981"),
      Breakpoint(0.5, "#fbbf24"),
      Breakpoint(1.0, "#dc2626") ],
    "Probabilidad de incendios forestales")

  /** LAYER_CONFIGS, keyed by the layer's name. */
  const LAYER_CONFIGS: map<string, LayerConfig> := map[
    "anomaly" := ANOMALY_CONFIG,
    "drought" := DROUGHT_CONFIG,
    "fireRisk" := FIRE_RISK_CONFIG
  ]

  /** LAYER_CONFIGS[layer]: every layer has a configuration, it carries the
      layer as its id and its gradient is well formed. */
  function ConfigFor(layer: Layer): (c: LayerConfig)
    ensures c.id == layer
    ensures ScaleWellFormed(c.colorScale)
  {
    LAYER_CONFIGS[LayerKey(layer)]
  }

  /** The table holds exactly the three layers, each under its own key. */
  lemma ConfigKeysMatchIds()
    ensures LAYER_CONFIGS.Keys == {"anomaly", "drought", "fireRisk"}
    ensures forall k :: k in LAYER_CONFIGS ==> LayerKey(LAYER_CONFIGS[k].id) == k
  {
  }

  /** The year range is non-empty and contains the initial year 2000. */
  lemma YearRangeHoldsInitialYear()
    ensures MIN_YEAR <= 2000 <= MAX_YEAR
  {
  }

  /** The drought and fire-risk gradients start at 0, the lower clamp that
      MockApi.LayerValue applies to those layers. */
  lemma IndexScalesStartAtZero()
    ensures ConfigFor(Drought).colorScale[0].value == 0.0
    ensures ConfigFor(FireRisk).colorScale[0].value == 0.0
  {
  }
}
