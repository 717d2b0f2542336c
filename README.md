# EventosV2 event rows, modelled in Dafny

`EventosV2.py` is a nightly ETL job. It reads the safety events and the
speeding alert incidents of a vehicle fleet for one day. It turns them into
flat event rows (`combined_events`), then enriches every row with the
project and team of its vehicle and of its driver, taken from the fleet's
tag directory. Finally it translates the behaviour labels into Spanish and
gives each row an event identifier (`id_evento`).

This project models that transformation on the decoded API data:

- `Strings`: Python's `str.strip`, `str.lower`, the substring test `in` and
  `str.replace`, over `seq<char>`.
- `Records`: the decoded records (safety event, alert incident with its
  conditions, tag), the event row and the fixed texts of the job.
- `SafetyEvents`: the safety-event expansion (lines 68-106). The nested
  loops that append to `combined_events` are methods over `seq`. Each is
  proved equal to a recursive function, and the properties are lemmas about
  that function.
- `AlertIncidents`: the alert-incident filter (lines 108-162), in the same
  form.
- `TagDirectory`: the two dictionaries built from the tag list
  (lines 174-186), as `map<string, (string, string)>` built by loops.
- `Enrichment`: the in-place enrichment pass (lines 188-197) over an
  `array<EventRow>`.
- `Labels`: `translation_map`, the in-place translation pass
  (lines 200-215) and the in-place classification chain (lines 217-228).
- `Pipeline`: the whole job from the decoded pages to the classified rows.
  This is one method, `Run`, proved equal to the specification function
  `Output`. Lemmas state what every output row holds.

The API pages are given as a finite `seq` of pages, each page the decoded
`data` list. `convert_to_mexico` is the function parameter `toLocal`. The
UTC timestamp parser `strptime` is the function parameter `parseUtc`. It
yields whole seconds, or `None` when the text does not parse. A speed is
an `Option<real>`, with `None` where `float()` fails or the key is missing.

`Lower` is exact on Latin-1 (U+0000 to U+00FF), which covers every letter of
the texts the job compares against. `IsSpace` is exactly the set of
characters for which Python's `str.isspace` holds. The job computes
`label.lower().strip()`; the model computes `Lower(Trim(label))`, and
`Strings.LowerTrimCommute` proves that the two agree.

## Model

The functions that define the behaviour carry no contract of their own. Each
one is stated by the lemma rows below:
- `Strings.ReplaceAll` (`str.replace`, line 90) is stated by `ReplaceAbsent`, `ReplaceFirst`, `ReplaceLonger` and `ReplaceChangesIffContains`, and the rewrite built on it by `RewriteSpeedAlert` and `RewriteSpeedAlertFirst`.
- `SafetyEvents.IsIgnoredLabel` and `LabelRows` (lines 85-102) are stated by `KeptNamesSpec`, `LabelRowsAreKeptNames` and `EventRowsSpec`.
- `AlertIncidents.IsSpeeding` and `ConditionRows` (lines 127-158) are stated by `SpeedingSpec`, `ConditionRowsAreSpeeding`, `IncidentRowsSpec` and `NoRowAtOrBelowThreshold`.
- `TagDirectory.AddMembers` and `Mapping` (lines 174-186) are stated by `AddMembersSpec`, `MappingKeys` and `MappingLastWins`.
- `Enrichment.Lookup` (lines 189-190 and 194-195) is stated by `LookupUnlisted`, `LookupLastTag` and `LookupBlank`.
- `Labels.TranslateBy` and `Translate` (lines 211-215) are stated by `TranslateChangesOnlyKnownKeys` and `TranslateIdempotent`.
- `Labels.Classify` (lines 218-228) is stated by `ClassifySpec`.
- `Pipeline.Output` (lines 68-228) is stated by `OutputRows`, `OutputSafetyRows` and `OutputAlertRows`.

| member | source | states |
|---|---|---|
| Strings.TrimSpec | EventosV2.py:87 | `strip` returns the input without the white space at both of its ends, and nothing else is removed |
| Strings.TrimIdempotent | EventosV2.py:180 | stripping a stripped name changes nothing |
| Strings.LowerTrimCommute | EventosV2.py:213 | `s.lower().strip()` equals `s.strip().lower()` |
| Strings.ContainsIffOccurs | EventosV2.py:89 | `pat in s` holds exactly when `pat` occurs at some index of `s` |
| Strings.ReplaceAbsent | EventosV2.py:89-90 | `replace` leaves a text without an occurrence unchanged |
| Strings.ReplaceLonger | EventosV2.py:89-90 | a longer replacement never shortens the text, and lengthens it whenever the pattern occurs |
| Strings.ReplaceFirst | EventosV2.py:89-90 | in `pre + pat + post` with no occurrence starting inside `pre`, `replace` keeps `pre`, puts `rep` for that first occurrence and goes on with `post` alone |
| Strings.ReplaceChangesIffContains | EventosV2.py:89-90 | `replace` changes the text exactly when the pattern occurs |
| SafetyEvents.RewriteSpeedAlert | EventosV2.py:89-90 | a label is stored unchanged exactly when it does not contain "Vehicle Speed Alert" |
| SafetyEvents.RewriteSpeedAlertFirst | EventosV2.py:89-90 | the first "Vehicle Speed Alert" becomes "Alerta de velocidad del vehículo", the text before it is kept and the rewrite goes on after it, so with the row above every non-overlapping occurrence, left to right, is rewritten and nothing else changes |
| SafetyEvents.KeptNamesSpec | EventosV2.py:85-88 | a label is kept exactly when its stripped, lower-cased text is neither "following distance" nor "forward collision warning"; kept and ignored labels add up to all labels |
| SafetyEvents.LabelRowsAreKeptNames | EventosV2.py:85-102 | the label loop emits one row per kept label, in input order |
| SafetyEvents.EventRowsSpec | EventosV2.py:77-102 | each row of an event has origin "Safety Event", no duration, the event's driver and vehicle or "Desconocido" / "Sin vehículo", the converted time, and the kept label with the rewrite |
| SafetyEvents.PagesRowsFlatten | EventosV2.py:71-106 | walking the pages one after another gives the rows of all their events taken as one list |
| SafetyEvents.PagesRowsAreSafetyRows | EventosV2.py:91-102 | every safety row has origin "Safety Event" and no duration |
| SafetyEvents.AppendEventRows | EventosV2.py:85-102 | the label loop appends exactly the event's rows to `combined_events` |
| SafetyEvents.AppendPageRows | EventosV2.py:77-102 | the event loop appends exactly the page's rows |
| SafetyEvents.CollectSafetyEvents | EventosV2.py:68-106 | the cursor loop collects exactly the rows of all pages |
| AlertIncidents.IncidentDuration | EventosV2.py:116-126 | an incident has a duration exactly when both timestamps are present, non-empty and parse; the duration is resolved minus happened |
| AlertIncidents.SpeedDriverName | EventosV2.py:133-137 | the driver name is the stripped name, or "Desconocido" when the driver is absent or its name is blank |
| AlertIncidents.SpeedingSpec | EventosV2.py:127-144 | a condition is selected exactly when it is in the list, its description is "Vehicle Speed" and its speed is known and above 105 |
| AlertIncidents.ConditionRowsAreSpeeding | EventosV2.py:127-158 | the condition loop emits one row per selected condition, in input order |
| AlertIncidents.IncidentRowsSpec | EventosV2.py:115-158 | a skipped incident yields no row; otherwise each row has origin "Alert Incident", the fixed label, the incident's duration and local time, and the condition's driver and vehicle |
| AlertIncidents.NoRowAtOrBelowThreshold | EventosV2.py:138-144 | conditions at or below 105, without a speed, or with another description yield no row |
| AlertIncidents.AlertPagesRowsFlatten | EventosV2.py:109-162 | walking the pages one after another gives the rows of all their incidents taken as one list |
| AlertIncidents.AlertPagesRowsAreAlertRows | EventosV2.py:145-158 | every alert row has origin "Alert Incident", the label "Límite de Velocidad Máxima superada" and a duration |
| AlertIncidents.AppendIncidentRows | EventosV2.py:116-158 | the body of the incident loop appends exactly the incident's rows, with both `continue` exits |
| AlertIncidents.AppendAlertPageRows | EventosV2.py:115-158 | the incident loop appends exactly the page's rows |
| AlertIncidents.CollectAlertIncidents | EventosV2.py:108-162 | the cursor loop appends exactly the rows of all pages after the safety rows |
| TagDirectory.AddMembersSpec | EventosV2.py:179-186 | one member list adds exactly its non-empty stripped names, each mapped to the tag's (project, team), and leaves every other key alone |
| TagDirectory.MappingKeys | EventosV2.py:174-186 | a name has an entry exactly when some tag lists it under that non-empty stripped name; the empty name never has one |
| TagDirectory.MappingLastWins | EventosV2.py:176-186 | a name listed by several tags gets the (project, team) of the last of them |
| TagDirectory.AddAll | EventosV2.py:179-186 | the inner loop builds exactly the updated mapping |
| TagDirectory.BuildMappings | EventosV2.py:174-186 | the outer loop builds exactly the two mappings |
| Enrichment.EnrichRow | EventosV2.py:188-197 | only the four project and team fields change, and they hold the entries for the stripped vehicle and driver names |
| Enrichment.LookupUnlisted | EventosV2.py:188-197 | a name no tag lists gets ("Desconocido", "Desconocido") |
| Enrichment.LookupLastTag | EventosV2.py:188-197 | a name gets the (project, team) of the last tag that lists it |
| Enrichment.LookupBlank | EventosV2.py:188-197 | an empty or blank name gets ("Desconocido", "Desconocido") |
| Enrichment.EnrichWithoutTags | EventosV2.py:188-197 | with no tags every row gets "Desconocido" in all four fields |
| Enrichment.EnrichIdempotent | EventosV2.py:188-197 | enriching twice is enriching once |
| Enrichment.EnrichAll | EventosV2.py:188-197 | the in-place loop leaves each row enriched, in the same order |
| Labels.ClassifySpec | EventosV2.py:218-228 | `Classify`: each identifier is given exactly for its own keys, the rules exclude one another, and every other key gets "" |
| Labels.TranslationsAreNormal | EventosV2.py:200-209 | every Spanish text of `translation_map` is its own stripped, lower-cased key |
| Labels.TranslationsAreNotKeys | EventosV2.py:200-209 | no Spanish text of `translation_map` is one of its keys |
| Labels.TranslateIdempotent | EventosV2.py:211-215 | translating twice is translating once |
| Labels.TranslateChangesOnlyKnownKeys | EventosV2.py:211-215 | a label changes exactly when its stripped, lower-cased text is one of the eight keys |
| Labels.ClassifyTranslated | EventosV2.py:200-228 | harsh brake, crash and harsh turn end with one identifier, drowsy and camera obstruction with their own, and the other three phrases with "" |
| Labels.ClassifySpeedLimit | EventosV2.py:217-220 | the alert label is left untranslated and classified as speeding |
| Labels.RewrittenSpeedAlertUnclassified | EventosV2.py:211-228 | a rewritten "Alerta de velocidad del vehículo" label is neither translated nor classified |
| Labels.TranslateAll | EventosV2.py:211-215 | the in-place loop replaces each label by its translation and changes nothing else |
| Labels.ClassifyAll | EventosV2.py:217-228 | the in-place loop sets each row's identifier from its label and changes nothing else |
| Pipeline.Run | EventosV2.py:68-228 | the job's rows are exactly `Output` of the pages and tags |
| Pipeline.OutputRows | EventosV2.py:188-228 | the output keeps the number and order of the collected rows; each keeps its origin, names, time and duration, and holds its lookups, its translated label and the identifier of that label |
| Pipeline.OutputSafetyRows | EventosV2.py:68-106 | the safety rows come first, with origin "Safety Event" and no duration |
| Pipeline.OutputAlertRows | EventosV2.py:145-228 | every row after them is an alert row with the fixed label and the speeding identifier |
| Pipeline.FinalRowIdempotent | EventosV2.py:188-228 | running the three passes again over a finished row changes nothing |
| Pipeline.OutputStable | EventosV2.py:188-228 | the whole output is a fixed point of the three passes |

## Left out

- HTTP requests, `raise_for_status`, timeouts and JSON decoding (lines 73-75, 111-113, 165-167): the decoded pages and the tag list are inputs.
- Pagination (lines 71, 103-106, 109-110, 159-162): the pages are a given finite sequence. Whether the cursor loop ends depends on the server and is not modelled.
- Environment variables, request headers and the SQL connection string (lines 11-19, 39-51): configuration only.
- `convert_to_mexico` (lines 22-32) is the parameter `toLocal`. The time zone database is not visible, so its result is not modelled.
- `strptime` (lines 121-122) is the parameter `parseUtc`, returning whole seconds. Sub-second timestamps cannot occur with the format used, so `int(total_seconds())` is the plain difference.
- `float()` (lines 138-142): a speed is an already-parsed `Option<real>`. NaN and infinities are not modelled; Python would emit a row for a NaN speed, because `nan <= 105` is false.
- The clock and the time window (lines 35-37, 54-66): they only form request parameters.
- The tags response shape check (lines 169-172): the tag list is taken directly.
- JSON `null` values: the model has only present or absent keys, and a `null` is not one of them.
  - Some nulls make the job raise, and the model has no such failure. Among them are safety `"driver": null` or `"vehicle": null` (lines 78-81), `null` `behaviorLabels` or `conditions` (lines 85, 127), `null` `details`, `speed` or speed `vehicle` (lines 130-132), a tag's `null` `parentTag`, `vehicles` or `drivers` (lines 178-179, 183), a page's `null` `data` (lines 77, 115) or `pagination` (lines 104, 160), a `null` element of a page's `data`, of `behaviorLabels`, `conditions`, the tag list, `vehicles` or `drivers` (lines 78, 86, 116, 128, 177, 180, 184), and a `null` name that reaches `.strip()` (lines 87, 135, 180, 184, 189, 194).
  - Some nulls flow through as Python `None` values that the model's strings cannot represent. A tag `"name": null` or parent `"name": null` becomes the project or team `None` (lines 177-178, 182, 186), and enrichment copies it into the rows (lines 190-197). A safety `"time": null` reaches `convert_to_mexico(None)`, which catches the error and returns `None` as the row's time (lines 82-84, 27-32).
  - The remaining nulls behave like absent keys and are modelled as `None`. An alert `"driver": null` gives "Desconocido" (lines 133-137), a `null` `currentSpeedKilometersPerHour` gives no row (lines 138-144), and a `null` timestamp skips the incident (line 118).
- `column_order` (lines 230-242): it only orders the columns of the disabled export.
- The commented-out export and database insert (lines 244-288) and the top-level `except` handler (lines 291-293): disabled code and logging.
- `Strings.Lower` is exact only on Latin-1. Python's Unicode-aware `lower` (for example on the Kelvin sign) is not modelled, and the job's literals do not need it.
- `Labels.TranslateAll` takes the table as a parameter `table`, and `Pipeline.Run` passes `translation_map` (`Labels.TRANSLATIONS`) to it.
