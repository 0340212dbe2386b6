/** Shared value types of the climate observatory: layers, globe points,
    selections and the optional-value wrapper used for lookups. */
module Types {

  datatype Option<+T> = None | Some(value: T)

  /** The three overlay layers the globe can show. */
  datatype Layer = Anomaly | Drought | FireRisk

  /** The key under which a layer's configuration is stored. */
  function LayerKey(layer: Layer): string
  {
    match layer
    case Anomaly => "anomaly"
    case Drought => "drought"
    case FireRisk => "fireRisk"
  }

  /** A geographic anchor in degrees. */
  datatype Coords = Coords(lat: real, lon: real)

  /** One coloured point placed on the globe. */
  datatype GlobeLayerDatum = GlobeLayerDatum(lat: real, lon: real, value: real, region: Option<string>)

  /** A point the user picked on the globe, optionally tied to a region. */
  datatype Selection = Selection(
    lat: real,
    lon: real,
    name: Option<string>,
    value: Option<real>,
    region: Option<string>)
}
