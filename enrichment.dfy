/** The enrichment pass (EventosV2.py:188-197): every row gets the
    (project, team) of its vehicle and of its driver, looked up by stripped
    name, in place. */
module Enrichment {
  import opened Strings
  import opened Records
  import opened TagDirectory

  /** What a name missing from a mapping gets. */
  const DEFAULT_ENTRY: Entry := (UNKNOWN, UNKNOWN)

  /** `mapping.get(name.strip(), ("Desconocido", "Desconocido"))` */
  function Lookup(m: TagMapping, name: string): Entry {
    var key := Trim(name);
    if key in m then m[key] else DEFAULT_ENTRY
  }

  /** A row once enriched: only its four project and team fields change, and
      they hold what the vehicle and driver names are filed under. */
  function EnrichRow(row: EventRow, vehicleMapping: TagMapping, driverMapping: TagMapping): (r: EventRow)
    ensures (r.vehicleProject, r.vehicleTeam) == Lookup(vehicleMapping, row.vehicle)
    ensures (r.driverProject, r.driverTeam) == Lookup(driverMapping, row.driver)
    ensures r.(driverProject := row.driverProject, driverTeam := row.driverTeam,
               vehicleProject := row.vehicleProject, vehicleTeam := row.vehicleTeam) == row
  {
    var (vehicleProject, vehicleTeam) := Lookup(vehicleMapping, row.vehicle);
    var (driverProject, driverTeam) := Lookup(driverMapping, row.driver);
    row.(vehicleProject := vehicleProject, vehicleTeam := vehicleTeam,
         driverProject := driverProject, driverTeam := driverTeam)
  }

  function EnrichRows(rows: seq<EventRow>, vehicleMapping: TagMapping, driverMapping: TagMapping)
    : (r: seq<EventRow>)
    ensures |r| == |rows|
  {
    seq(|rows|, i requires 0 <= i < |rows| => EnrichRow(rows[i], vehicleMapping, driverMapping))
  }

  /** A name that no tag lists (once stripped) gets ("Desconocido",
      "Desconocido"). */
  lemma LookupUnlisted(tags: seq<Tag>, kind: MemberKind, name: string)
    requires forall i :: 0 <= i < |tags| ==> !Names(Members(tags[i], kind), Trim(name))
    ensures Lookup(Mapping(tags, kind), name) == DEFAULT_ENTRY
  {
    MappingKeys(tags, kind, Trim(name));
  }

  /** A name gets the (project, team) of the last tag that lists it. */
  lemma LookupLastTag(tags: seq<Tag>, kind: MemberKind, name: string, i: nat)
    requires i < |tags| && Names(Members(tags[i], kind), Trim(name))
    requires forall j :: i < j < |tags| ==> !Names(Members(tags[j], kind), Trim(name))
    ensures Lookup(Mapping(tags, kind), name) == TagEntry(tags[i])
  {
    MappingLastWins(tags, kind, Trim(name), i);
  }

  /** A blank name (empty or only white space) never matches a tag. */
  lemma LookupBlank(tags: seq<Tag>, kind: MemberKind, name: string)
    requires forall k :: 0 <= k < |name| ==> IsSpace(name[k])
    ensures Lookup(Mapping(tags, kind), name) == DEFAULT_ENTRY
  {
    TrimSpec(name);
    MappingKeys(tags, kind, "");
    assert Trim(name) == "";
  }

  /** With no tags at all every row gets the default on both sides. */
  lemma EnrichWithoutTags(rows: seq<EventRow>)
    ensures forall i :: 0 <= i < |rows| ==>
      var r := EnrichRows(rows, Mapping([], Vehicles), Mapping([], Drivers))[i];
      r.vehicleProject == r.vehicleTeam == r.driverProject == r.driverTeam == UNKNOWN
  {
  }

  /** Enriching twice is enriching once: the names looked up do not change. */
  lemma EnrichIdempotent(rows: seq<EventRow>, vehicleMapping: TagMapping, driverMapping: TagMapping)
    ensures EnrichRows(EnrichRows(rows, vehicleMapping, driverMapping), vehicleMapping, driverMapping)
            == EnrichRows(rows, vehicleMapping, driverMapping)
  {
  }

  /** The enrichment loop (lines 188-197), in place over the row list. */
  method EnrichAll(rows: array<EventRow>, vehicleMapping: TagMapping, driverMapping: TagMapping)
    modifies rows
    ensures rows[..] == EnrichRows(old(rows[..]), vehicleMapping, driverMapping)
  {
    for i := 0 to rows.Length
      invariant forall k :: 0 <= k < i ==> rows[k] == EnrichRow(old(rows[k]), vehicleMapping, driverMapping)
      invariant forall k :: i <= k < rows.Length ==> rows[k] == old(rows[k])
    {
      var vehName := Trim(rows[i].vehicle);
      var (vehicleProject, vehicleTeam) :=
        if vehName in vehicleMapping then vehicleMapping[vehName] else (UNKNOWN, UNKNOWN);
      rows[i] := rows[i].(vehicleProject := vehicleProject, vehicleTeam := vehicleTeam);

      var drvName := Trim(rows[i].driver);
      var (driverProject, driverTeam) :=
        if drvName in driverMapping then driverMapping[drvName] else (UNKNOWN, UNKNOWN);
      rows[i] := rows[i].(driverProject := driverProject, driverTeam := driverTeam);
    }
  }
}
