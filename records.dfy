/** The decoded API records the job reads, the event row it builds, and the
    fixed texts it uses. A JSON key that may be absent is an `Option`; a JSON
    object the job reads with `.get(key, {})` and then `.get("name", default)`
    is a `NamedRef`. */
module Records {

  datatype Option<T> = None | Some(value: T) {
    function GetOr(default: T): T {
      match this
      case Some(v) => v
      case None => default
    }
  }

  /** An object of which the job reads only the `name` key (a driver, a
      vehicle, a behaviour label, a parent tag). */
  datatype NamedRef = NamedRef(name: Option<string>)

  /** One element of the `data` list of a safety-events page. */
  datatype SafetyEvent = SafetyEvent(
    driver: Option<NamedRef>,
    vehicle: Option<NamedRef>,
    time: Option<string>,
    behaviorLabels: seq<NamedRef>)

  /** The `details.speed` object of an alert condition; `currentSpeed` is the
      value of `currentSpeedKilometersPerHour` once `float()` has been applied,
      `None` when it is missing or does not convert. */
  datatype SpeedDetails = SpeedDetails(
    vehicle: Option<NamedRef>,
    driver: Option<NamedRef>,
    currentSpeed: Option<real>)

  /** One element of an incident's `conditions` list; `speed` is `None` when
      `details` or `details.speed` is absent. */
  datatype Condition = Condition(description: Option<string>, speed: Option<SpeedDetails>)

  /** One element of the `data` list of an alert-incidents page. */
  datatype AlertIncident = AlertIncident(
    happenedAtTime: Option<string>,
    resolvedAtTime: Option<string>,
    conditions: seq<Condition>)

  /** One element of the tag directory. */
  datatype Tag = Tag(
    name: Option<string>,
    parentTag: Option<NamedRef>,
    vehicles: seq<NamedRef>,
    drivers: seq<NamedRef>)

  /** The row the job assembles per event, its fields in the output column
      order. `duration` is `None` for the empty string the safety path stores;
      `eventId` is `None` until classification adds the `id_evento` key. */
  datatype EventRow = EventRow(
    origin: string,
    driver: string,
    vehicle: string,
    driverProject: string,
    driverTeam: string,
    vehicleProject: string,
    vehicleTeam: string,
    eventLabel: string,
    time: string,
    duration: Option<int>,
    eventId: Option<string>)

  const UNKNOWN := "Desconocido"
  const NO_VEHICLE := "Sin vehículo"
  const NO_LABEL := "Sin etiqueta"
  const NOT_AVAILABLE := "N/A"

  const SAFETY_ORIGIN := "Safety Event"
  const ALERT_ORIGIN := "Alert Incident"

  const SPEED_ALERT_EN := "Vehicle Speed Alert"
  const SPEED_ALERT_ES := "Alerta de velocidad del vehículo"

  const SPEED_CONDITION := "Vehicle Speed"
  const SPEED_THRESHOLD: real := 105.0
  const SPEED_LIMIT_LABEL := "Límite de Velocidad Máxima superada"

  /** The `name` of an optional object read with `.get(key, {}).get("name", default)`. */
  function NameOr(ref: Option<NamedRef>, default: string): string {
    match ref
    case Some(r) => r.name.GetOr(default)
    case None => default
  }

  /** The records of all pages, in the order the cursor loop fetched them. */
  function Flatten<T>(pages: seq<seq<T>>): (r: seq<T>)
    ensures |r| == 0 <==> forall p :: 0 <= p < |pages| ==> pages[p] == []
  {
    if pages == [] then [] else Flatten(pages[..|pages| - 1]) + pages[|pages| - 1]
  }
}
