/** The whole transformation of EventosV2.py (lines 68-228), from the decoded
    pages and tag list to the rows that would be exported: the safety rows
    followed by the alert rows, each enriched, translated and classified. */
module Pipeline {
  import opened Strings
  import opened Records
  import opened SafetyEvents
  import opened AlertIncidents
  import opened TagDirectory
  import opened Enrichment
  import opened Labels

  /** `combined_events` once both cursor loops are done (lines 68-162). */
  function Combined(safetyPages: seq<seq<SafetyEvent>>, alertPages: seq<seq<AlertIncident>>,
                    parseUtc: string -> Option<int>, toLocal: string -> string): seq<EventRow>
  {
    PagesRows(safetyPages, toLocal) + AlertPagesRows(alertPages, parseUtc, toLocal)
  }

  /** One row after the three in-place passes (lines 188-228). */
  function FinalRow(row: EventRow, vehicleMapping: TagMapping, driverMapping: TagMapping): EventRow {
    ClassifyRow(TranslateRow(EnrichRow(row, vehicleMapping, driverMapping)))
  }

  /** The rows the script ends with. */
  function Output(safetyPages: seq<seq<SafetyEvent>>, alertPages: seq<seq<AlertIncident>>, tags: seq<Tag>,
                  parseUtc: string -> Option<int>, toLocal: string -> string): seq<EventRow>
  {
    var rows := Combined(safetyPages, alertPages, parseUtc, toLocal);
    var vehicleMapping, driverMapping := Mapping(tags, Vehicles), Mapping(tags, Drivers);
    seq(|rows|, i requires 0 <= i < |rows| => FinalRow(rows[i], vehicleMapping, driverMapping))
  }

  /** The script from the first request to the classification loop, with the
      decoded pages and tags as input. */
  method Run(safetyPages: seq<seq<SafetyEvent>>, alertPages: seq<seq<AlertIncident>>, tags: seq<Tag>,
             parseUtc: string -> Option<int>, toLocal: string -> string)
    returns (rows: seq<EventRow>)
    ensures rows == Output(safetyPages, alertPages, tags, parseUtc, toLocal)
  {
    var combined := CollectSafetyEvents(safetyPages, toLocal);
    combined := CollectAlertIncidents(combined, alertPages, parseUtc, toLocal);
    var vehicleMapping, driverMapping := BuildMappings(tags);
    var events := new EventRow[|combined|](i requires 0 <= i < |combined| => combined[i]);
    EnrichAll(events, vehicleMapping, driverMapping);
    TranslateAll(events, TRANSLATIONS);
    ClassifyAll(events);
    rows := events[..];
  }

  /** Running the three passes again over a finished row changes nothing. */
  lemma FinalRowIdempotent(row: EventRow, vehicleMapping: TagMapping, driverMapping: TagMapping)
    ensures var r := FinalRow(row, vehicleMapping, driverMapping);
      FinalRow(r, vehicleMapping, driverMapping) == r
  {
    TranslateIdempotent(row.eventLabel);
  }

  /** The output keeps the number and order of the collected rows: each row
      keeps its origin, names, time and duration, holds the (project, team)
      of its vehicle and of its driver, a translated label and an identifier
      computed from that label. */
  lemma OutputRows(safetyPages: seq<seq<SafetyEvent>>, alertPages: seq<seq<AlertIncident>>, tags: seq<Tag>,
                   parseUtc: string -> Option<int>, toLocal: string -> string)
    ensures var out := Output(safetyPages, alertPages, tags, parseUtc, toLocal);
      var rows := Combined(safetyPages, alertPages, parseUtc, toLocal);
      && |out| == |rows|
      && forall i :: 0 <= i < |out| ==>
           && out[i].(vehicleProject := rows[i].vehicleProject, vehicleTeam := rows[i].vehicleTeam,
                      driverProject := rows[i].driverProject, driverTeam := rows[i].driverTeam,
                      eventLabel := rows[i].eventLabel, eventId := rows[i].eventId) == rows[i]
           && (out[i].vehicleProject, out[i].vehicleTeam) == Lookup(Mapping(tags, Vehicles), rows[i].vehicle)
           && (out[i].driverProject, out[i].driverTeam) == Lookup(Mapping(tags, Drivers), rows[i].driver)
           && out[i].eventLabel == Translate(rows[i].eventLabel)
           && out[i].eventId == Some(Classify(out[i].eventLabel))
  {
  }

  /** The safety rows come first, each with the safety origin and without a
      duration. */
  lemma OutputSafetyRows(safetyPages: seq<seq<SafetyEvent>>, alertPages: seq<seq<AlertIncident>>, tags: seq<Tag>,
                         parseUtc: string -> Option<int>, toLocal: string -> string)
    ensures var out := Output(safetyPages, alertPages, tags, parseUtc, toLocal);
      var safetyCount := |PagesRows(safetyPages, toLocal)|;
      && safetyCount <= |out|
      && forall i :: 0 <= i < safetyCount ==> out[i].origin == SAFETY_ORIGIN && out[i].duration.None?
  {
    var safety := PagesRows(safetyPages, toLocal);
    var rows := Combined(safetyPages, alertPages, parseUtc, toLocal);
    PagesRowsAreSafetyRows(safetyPages, toLocal);
    forall i | 0 <= i < |safety|
      ensures rows[i].origin == SAFETY_ORIGIN && rows[i].duration.None?
    {
      assert rows[i] == safety[i] && safety[i] in safety;
    }
  }

  /** Every alert row follows the safety rows, keeps its fixed label and is
      classified as speeding. */
  lemma OutputAlertRows(safetyPages: seq<seq<SafetyEvent>>, alertPages: seq<seq<AlertIncident>>, tags: seq<Tag>,
                        parseUtc: string -> Option<int>, toLocal: string -> string)
    ensures var out := Output(safetyPages, alertPages, tags, parseUtc, toLocal);
      forall i :: |PagesRows(safetyPages, toLocal)| <= i < |out| ==>
        && out[i].origin == ALERT_ORIGIN
        && out[i].eventLabel == SPEED_LIMIT_LABEL
        && out[i].eventId == Some(SPEEDING_ID)
  {
    var safety := PagesRows(safetyPages, toLocal);
    var alerts := AlertPagesRows(alertPages, parseUtc, toLocal);
    var rows := Combined(safetyPages, alertPages, parseUtc, toLocal);
    AlertPagesRowsAreAlertRows(alertPages, parseUtc, toLocal);
    ClassifySpeedLimit();
    forall i | |safety| <= i < |rows|
      ensures rows[i].origin == ALERT_ORIGIN && rows[i].eventLabel == SPEED_LIMIT_LABEL
    {
      assert rows[i] == alerts[i - |safety|] && alerts[i - |safety|] in alerts;
    }
  }

  /** The whole output is a fixed point of the three passes. */
  lemma OutputStable(safetyPages: seq<seq<SafetyEvent>>, alertPages: seq<seq<AlertIncident>>, tags: seq<Tag>,
                     parseUtc: string -> Option<int>, toLocal: string -> string)
    ensures var out := Output(safetyPages, alertPages, tags, parseUtc, toLocal);
      forall i :: 0 <= i < |out| ==> FinalRow(out[i], Mapping(tags, Vehicles), Mapping(tags, Drivers)) == out[i]
  {
    var rows := Combined(safetyPages, alertPages, parseUtc, toLocal);
    forall i | 0 <= i < |rows|
      ensures FinalRow(FinalRow(rows[i], Mapping(tags, Vehicles), Mapping(tags, Drivers)),
                       Mapping(tags, Vehicles), Mapping(tags, Drivers))
              == FinalRow(rows[i], Mapping(tags, Vehicles), Mapping(tags, Drivers))
    {
      FinalRowIdempotent(rows[i], Mapping(tags, Vehicles), Mapping(tags, Drivers));
    }
  }
}
