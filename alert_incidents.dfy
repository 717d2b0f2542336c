/** The alert-incident pass (EventosV2.py:108-162): every speed condition of
    every incident over the threshold becomes one row. The pages are the
    decoded `data` lists in the order the cursor loop fetched them;
    `parseUtc` stands for `datetime.strptime` with the format
    `%Y-%m-%dT%H:%M:%SZ` (the instant in whole seconds, `None` when the text
    does not parse) and `toLocal` for `convert_to_mexico`. */
module AlertIncidents {
  import opened Strings
  import opened Records

  /** Python's truth value of an optional text: `None` and `""` are false. */
  predicate Present(t: Option<string>) {
    t.Some? && t.value != ""
  }

  /** The duration of an incident in seconds, or `None` when the incident is
      skipped (lines 116-126): a timestamp is absent or empty, or does not
      parse. Both timestamps carry whole seconds, so `int()` of the
      difference is the difference itself. */
  function IncidentDuration(inc: AlertIncident, parseUtc: string -> Option<int>): (r: Option<int>)
    ensures r.Some? <==>
      Present(inc.happenedAtTime) && Present(inc.resolvedAtTime)
      && parseUtc(inc.happenedAtTime.value).Some? && parseUtc(inc.resolvedAtTime.value).Some?
    ensures r.Some? ==>
      r.value == parseUtc(inc.resolvedAtTime.value).value - parseUtc(inc.happenedAtTime.value).value
  {
    if !Present(inc.happenedAtTime) || !Present(inc.resolvedAtTime) then None
    else
      match (parseUtc(inc.happenedAtTime.value), parseUtc(inc.resolvedAtTime.value))
      case (Some(happened), Some(resolved)) => Some(resolved - happened)
      case _ => None
  }

  /** The speed read from a condition (lines 130, 138-142): `None` when
      `details.speed` or `currentSpeedKilometersPerHour` is absent or does not
      convert to a number. */
  function CurrentSpeed(c: Condition): Option<real> {
    match c.speed
    case Some(details) => details.currentSpeed
    case None => None
  }

  /** A condition yields a row exactly when its description is "Vehicle
      Speed" and its speed is known and strictly above 105 (lines 128-144). */
  predicate IsSpeeding(c: Condition) {
    c.description.GetOr("") == SPEED_CONDITION
    && CurrentSpeed(c).Some? && CurrentSpeed(c).value > SPEED_THRESHOLD
  }

  /** The driver of a speed condition (lines 133-137): the stripped name, or
      "Desconocido" when there is no driver object or its name is blank. The
      vehicle-level driver is never consulted. */
  function SpeedDriverName(c: Condition): (r: string)
    ensures r == UNKNOWN || (r != "" && Stripped(r))
    ensures c.speed.Some? && c.speed.value.driver.Some? && Trim(NameOr(c.speed.value.driver, "")) != ""
            ==> r == Trim(NameOr(c.speed.value.driver, ""))
    ensures c.speed.Some? && c.speed.value.driver.Some? && Trim(NameOr(c.speed.value.driver, "")) == ""
            ==> r == UNKNOWN
    ensures c.speed.None? || c.speed.value.driver.None? ==> r == UNKNOWN
  {
    var driver := if c.speed.Some? then c.speed.value.driver else None;
    match driver
    case Some(d) =>
      var name := Trim(d.name.GetOr(""));
      TrimSpec(d.name.GetOr(""));
      if name != "" then name else UNKNOWN
    case None => UNKNOWN
  }

  /** The vehicle of a speed condition (lines 131-132). */
  function SpeedVehicleName(c: Condition): string {
    if c.speed.Some? then NameOr(c.speed.value.vehicle, NO_VEHICLE) else NO_VEHICLE
  }

  /** The row a speeding condition of an incident yields (lines 145-158). */
  function AlertRow(inc: AlertIncident, c: Condition, duration: int, toLocal: string -> string): EventRow
    requires inc.happenedAtTime.Some?
  {
    EventRow(ALERT_ORIGIN, SpeedDriverName(c), SpeedVehicleName(c), "", "", "", "",
             SPEED_LIMIT_LABEL, toLocal(inc.happenedAtTime.value), Some(duration), None)
  }

  /** The rows the condition loop (lines 127-158) appends for `conds`, a
      prefix of the conditions of `inc`. */
  function ConditionRows(inc: AlertIncident, conds: seq<Condition>, duration: int, toLocal: string -> string)
    : seq<EventRow>
    requires inc.happenedAtTime.Some?
  {
    if conds == [] then []
    else
      var rows := ConditionRows(inc, conds[..|conds| - 1], duration, toLocal);
      var c := conds[|conds| - 1];
      if IsSpeeding(c) then rows + [AlertRow(inc, c, duration, toLocal)] else rows
  }

  /** The rows one incident yields: none when it is skipped. */
  function IncidentRows(inc: AlertIncident, parseUtc: string -> Option<int>, toLocal: string -> string)
    : seq<EventRow>
  {
    match IncidentDuration(inc, parseUtc)
    case Some(duration) => ConditionRows(inc, inc.conditions, duration, toLocal)
    case None => []
  }

  /** The rows the incident loop (line 115) appends for one page. */
  function IncidentListRows(incidents: seq<AlertIncident>, parseUtc: string -> Option<int>,
                            toLocal: string -> string): seq<EventRow>
  {
    if incidents == [] then []
    else IncidentListRows(incidents[..|incidents| - 1], parseUtc, toLocal)
         + IncidentRows(incidents[|incidents| - 1], parseUtc, toLocal)
  }

  /** The rows the cursor loop (lines 109-162) appends over all pages. */
  function AlertPagesRows(pages: seq<seq<AlertIncident>>, parseUtc: string -> Option<int>,
                          toLocal: string -> string): seq<EventRow>
  {
    if pages == [] then []
    else AlertPagesRows(pages[..|pages| - 1], parseUtc, toLocal)
         + IncidentListRows(pages[|pages| - 1], parseUtc, toLocal)
  }

  /** Reference definition: the speeding conditions, in input order. */
  function Speeding(conds: seq<Condition>): seq<Condition> {
    if conds == [] then []
    else (if IsSpeeding(conds[0]) then [conds[0]] else []) + Speeding(conds[1..])
  }

  lemma {:induction false} SpeedingSnoc(conds: seq<Condition>, c: Condition)
    ensures Speeding(conds + [c]) == Speeding(conds) + (if IsSpeeding(c) then [c] else [])
  {
    var last := if IsSpeeding(c) then [c] else [];
    if conds == [] {
      assert (conds + [c])[1..] == [];
    } else {
      var first := if IsSpeeding(conds[0]) then [conds[0]] else [];
      assert (conds + [c])[0] == conds[0];
      assert (conds + [c])[1..] == conds[1..] + [c];
      SpeedingSnoc(conds[1..], c);
      AppendAssociative(first, Speeding(conds[1..]), last);
    }
  }

  /** A condition is among the speeding ones exactly when it is in the list
      and over the threshold; every one of them is. */
  lemma {:induction false} SpeedingSpec(conds: seq<Condition>)
    ensures forall c :: c in Speeding(conds) <==> c in conds && IsSpeeding(c)
    ensures |Speeding(conds)| <= |conds|
  {
    if conds != [] {
      SpeedingSpec(conds[1..]);
      assert conds == [conds[0]] + conds[1..];
    }
  }

  lemma {:induction false} NoneSpeeding(conds: seq<Condition>)
    requires forall c :: c in conds ==> !IsSpeeding(c)
    ensures Speeding(conds) == []
  {
    if conds != [] {
      assert conds[0] in conds;
      NoneSpeeding(conds[1..]);
    }
  }

  function RowsOfConditions(inc: AlertIncident, conds: seq<Condition>, duration: int, toLocal: string -> string)
    : seq<EventRow>
    requires inc.happenedAtTime.Some?
  {
    seq(|conds|, k requires 0 <= k < |conds| => AlertRow(inc, conds[k], duration, toLocal))
  }

  /** The condition loop emits one row per speeding condition, in input
      order (lines 127-158). */
  lemma {:induction false} ConditionRowsAreSpeeding(inc: AlertIncident, conds: seq<Condition>, duration: int,
                                                    toLocal: string -> string)
    requires inc.happenedAtTime.Some?
    ensures ConditionRows(inc, conds, duration, toLocal)
            == RowsOfConditions(inc, Speeding(conds), duration, toLocal)
  {
    if conds != [] {
      var init, c := conds[..|conds| - 1], conds[|conds| - 1];
      assert conds == init + [c];
      SpeedingSnoc(init, c);
      ConditionRowsAreSpeeding(inc, init, duration, toLocal);
    }
  }

  /** The rows of an incident: none when it is skipped; otherwise one per
      speeding condition, each with origin "Alert Incident", the fixed label,
      the incident's duration (resolved minus happened), the local time of
      `happenedAtTime`, and the condition's driver and vehicle. */
  lemma IncidentRowsSpec(inc: AlertIncident, parseUtc: string -> Option<int>, toLocal: string -> string)
    ensures var rows := IncidentRows(inc, parseUtc, toLocal);
      var dur := IncidentDuration(inc, parseUtc);
      && (dur.None? ==> rows == [])
      && (dur.Some? ==>
            var sp := Speeding(inc.conditions);
            && |rows| == |sp|
            && forall k :: 0 <= k < |rows| ==>
                 && sp[k] in inc.conditions
                 && IsSpeeding(sp[k])
                 && CurrentSpeed(sp[k]).value > 105.0
                 && sp[k].description == Some("Vehicle Speed")
                 && rows[k].origin == ALERT_ORIGIN
                 && rows[k].eventLabel == SPEED_LIMIT_LABEL
                 && rows[k].duration == Some(parseUtc(inc.resolvedAtTime.value).value
                                             - parseUtc(inc.happenedAtTime.value).value)
                 && rows[k].time == toLocal(inc.happenedAtTime.value)
                 && rows[k].driver == SpeedDriverName(sp[k])
                 && rows[k].vehicle == SpeedVehicleName(sp[k]))
  {
    if IncidentDuration(inc, parseUtc).Some? {
      var d := IncidentDuration(inc, parseUtc).value;
      ConditionRowsAreSpeeding(inc, inc.conditions, d, toLocal);
      SpeedingSpec(inc.conditions);
      var sp := Speeding(inc.conditions);
      assert forall k :: 0 <= k < |sp| ==> sp[k] in sp;
    }
  }

  /** A condition at exactly 105 km/h, without a speed, or with another
      description never yields a row. */
  lemma NoRowAtOrBelowThreshold(inc: AlertIncident, parseUtc: string -> Option<int>, toLocal: string -> string)
    requires forall c :: c in inc.conditions ==>
               c.description != Some(SPEED_CONDITION) || CurrentSpeed(c).None? || CurrentSpeed(c).value <= 105.0
    ensures IncidentRows(inc, parseUtc, toLocal) == []
  {
    if IncidentDuration(inc, parseUtc).Some? {
      var d := IncidentDuration(inc, parseUtc).value;
      ConditionRowsAreSpeeding(inc, inc.conditions, d, toLocal);
      NoneSpeeding(inc.conditions);
    }
  }

  /** What every row of the alert pass carries: the alert origin, the fixed
      label and a duration. */
  ghost predicate IsAlertRow(r: EventRow) {
    r.origin == ALERT_ORIGIN && r.eventLabel == SPEED_LIMIT_LABEL && r.duration.Some?
  }

  lemma {:induction false} IncidentListRowsAreAlertRows(incidents: seq<AlertIncident>,
                                                        parseUtc: string -> Option<int>, toLocal: string -> string)
    ensures forall r :: r in IncidentListRows(incidents, parseUtc, toLocal) ==> IsAlertRow(r)
  {
    if incidents != [] {
      IncidentListRowsAreAlertRows(incidents[..|incidents| - 1], parseUtc, toLocal);
      IncidentRowsSpec(incidents[|incidents| - 1], parseUtc, toLocal);
    }
  }

  /** Every row the alert pass appends, over all pages, is an alert row. */
  lemma {:induction false} AlertPagesRowsAreAlertRows(pages: seq<seq<AlertIncident>>,
                                                      parseUtc: string -> Option<int>, toLocal: string -> string)
    ensures forall r :: r in AlertPagesRows(pages, parseUtc, toLocal) ==> IsAlertRow(r)
  {
    if pages != [] {
      AlertPagesRowsAreAlertRows(pages[..|pages| - 1], parseUtc, toLocal);
      IncidentListRowsAreAlertRows(pages[|pages| - 1], parseUtc, toLocal);
    }
  }

  lemma {:induction false} IncidentListRowsAppend(a: seq<AlertIncident>, b: seq<AlertIncident>,
                                                  parseUtc: string -> Option<int>, toLocal: string -> string)
    ensures IncidentListRows(a + b, parseUtc, toLocal)
            == IncidentListRows(a, parseUtc, toLocal) + IncidentListRows(b, parseUtc, toLocal)
    decreases |b|
  {
    if b != [] {
      var init := b[..|b| - 1];
      assert (a + b)[..|a + b| - 1] == a + init;
      IncidentListRowsAppend(a, init, parseUtc, toLocal);
    } else {
      assert a + b == a;
    }
  }

  /** Walking the pages one after another is the same as processing all their
      incidents as one list: pagination only splits the input. */
  lemma {:induction false} AlertPagesRowsFlatten(pages: seq<seq<AlertIncident>>, parseUtc: string -> Option<int>,
                                                 toLocal: string -> string)
    ensures AlertPagesRows(pages, parseUtc, toLocal) == IncidentListRows(Flatten(pages), parseUtc, toLocal)
  {
    if pages != [] {
      AlertPagesRowsFlatten(pages[..|pages| - 1], parseUtc, toLocal);
      IncidentListRowsAppend(Flatten(pages[..|pages| - 1]), pages[|pages| - 1], parseUtc, toLocal);
    }
  }

  lemma ConditionRowsStep(inc: AlertIncident, conds: seq<Condition>, j: nat, duration: int,
                          toLocal: string -> string)
    requires inc.happenedAtTime.Some? && j < |conds|
    ensures ConditionRows(inc, conds[..j + 1], duration, toLocal)
            == ConditionRows(inc, conds[..j], duration, toLocal)
               + (if IsSpeeding(conds[j]) then [AlertRow(inc, conds[j], duration, toLocal)] else [])
  {
    assert conds[..j + 1][..j] == conds[..j];
  }

  lemma IncidentListRowsStep(incidents: seq<AlertIncident>, i: nat, parseUtc: string -> Option<int>,
                             toLocal: string -> string)
    requires i < |incidents|
    ensures IncidentListRows(incidents[..i + 1], parseUtc, toLocal)
            == IncidentListRows(incidents[..i], parseUtc, toLocal) + IncidentRows(incidents[i], parseUtc, toLocal)
  {
    assert incidents[..i + 1][..i] == incidents[..i];
  }

  lemma AlertPagesRowsStep(pages: seq<seq<AlertIncident>>, p: nat, parseUtc: string -> Option<int>,
                           toLocal: string -> string)
    requires p < |pages|
    ensures AlertPagesRows(pages[..p + 1], parseUtc, toLocal)
            == AlertPagesRows(pages[..p], parseUtc, toLocal) + IncidentListRows(pages[p], parseUtc, toLocal)
  {
    assert pages[..p + 1][..p] == pages[..p];
  }

  /** The body of the incident loop (lines 116-158): appends the incident's
      rows to `combined`. */
  method AppendIncidentRows(combined: seq<EventRow>, incident: AlertIncident,
                            parseUtc: string -> Option<int>, toLocal: string -> string)
    returns (result: seq<EventRow>)
    ensures result == combined + IncidentRows(incident, parseUtc, toLocal)
  {
    result := combined;
    var happenedTimeStr := incident.happenedAtTime;
    var resolvedTimeStr := incident.resolvedAtTime;
    if !Present(happenedTimeStr) || !Present(resolvedTimeStr) {
      return;
    }
    var happenedTime := parseUtc(happenedTimeStr.value);
    var resolvedTime := parseUtc(resolvedTimeStr.value);
    if happenedTime.None? || resolvedTime.None? {
      return;
    }
    var durationFormatted := resolvedTime.value - happenedTime.value;
    var conditions := incident.conditions;
    for j := 0 to |conditions|
      invariant result == combined + ConditionRows(incident, conditions[..j], durationFormatted, toLocal)
    {
      var condition := conditions[j];
      ConditionRowsStep(incident, conditions, j, durationFormatted, toLocal);
      if condition.description.GetOr("") == SPEED_CONDITION {
        var vehicleName := SpeedVehicleName(condition);
        var driverName := SpeedDriverName(condition);
        var currentSpeedValue := CurrentSpeed(condition);
        if currentSpeedValue.None? || currentSpeedValue.value <= SPEED_THRESHOLD {
          continue;
        }
        var mexicoTimeStr := toLocal(happenedTimeStr.value);
        result := result + [EventRow(ALERT_ORIGIN, driverName, vehicleName, "", "", "", "",
                                     SPEED_LIMIT_LABEL, mexicoTimeStr, Some(durationFormatted), None)];
      }
    }
    assert conditions[..|conditions|] == conditions;
  }

  /** The incident loop over one page (line 115). */
  method AppendAlertPageRows(combined: seq<EventRow>, incidents: seq<AlertIncident>,
                             parseUtc: string -> Option<int>, toLocal: string -> string)
    returns (result: seq<EventRow>)
    ensures result == combined + IncidentListRows(incidents, parseUtc, toLocal)
  {
    result := combined;
    for i := 0 to |incidents|
      invariant result == combined + IncidentListRows(incidents[..i], parseUtc, toLocal)
    {
      IncidentListRowsStep(incidents, i, parseUtc, toLocal);
      AppendAssociative(combined, IncidentListRows(incidents[..i], parseUtc, toLocal),
                        IncidentRows(incidents[i], parseUtc, toLocal));
      result := AppendIncidentRows(result, incidents[i], parseUtc, toLocal);
    }
    assert incidents[..|incidents|] == incidents;
  }

  /** The alert half of `combined_events` (lines 108-162): the cursor loop
      over the pages, appending after the rows already collected. */
  method CollectAlertIncidents(combined: seq<EventRow>, pages: seq<seq<AlertIncident>>,
                               parseUtc: string -> Option<int>, toLocal: string -> string)
    returns (result: seq<EventRow>)
    ensures result == combined + AlertPagesRows(pages, parseUtc, toLocal)
  {
    result := combined;
    for p := 0 to |pages|
      invariant result == combined + AlertPagesRows(pages[..p], parseUtc, toLocal)
    {
      AlertPagesRowsStep(pages, p, parseUtc, toLocal);
      AppendAssociative(combined, AlertPagesRows(pages[..p], parseUtc, toLocal),
                        IncidentListRows(pages[p], parseUtc, toLocal));
      result := AppendAlertPageRows(result, pages[p], parseUtc, toLocal);
    }
    assert pages[..|pages|] == pages;
  }
}
